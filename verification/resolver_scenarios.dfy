/**
 * The resolver's set-record scenarios: admins `admin1` and `admin2`, the
 * name token "bob" owned by `bob`, and `admin1` writing bob's record.
 *
 * The bech32 checksum is left to the caller-supplied `checksumOk`; each
 * lemma assumes only what BIP-173 decoding says of the three addresses used.
 */
module ResolverScenarios {
  import opened Wrappers
  import NameNftChecks
  import opened PrefixOrder
  import Bech32Prefix
  import opened Resolver

  /** `juno1kn27c8fu9qjmcn9hqytdzlml55mcs7dl2wu2ts` */
  const JunoBob: string := Bech32Prefix.Compose("juno", "kn27c8fu9qjmcn9hqytdzlml55mcs7dl2wu2ts")
  /** `cosmos1gf3dm2mvqhymts6ksrstlyuu2m8pw6dhv43wpe` */
  const CosmosBob: string := Bech32Prefix.Compose("cosmos", "gf3dm2mvqhymts6ksrstlyuu2m8pw6dhv43wpe")
  /** `cosmos1dsfsfasdfknsfkndfknskdfns`: the cosmos prefix, but a checksum that does not verify. */
  const CosmosBad: string := Bech32Prefix.Compose("cosmos", "dsfsfasdfknsfkndfknskdfns")

  /** The name-nft contract after bob's token was minted to `bob`. */
  function Nft(transferrable: bool): NameNft
  {
    NameNft(Some(NameNftChecks.Config(["admin1", "admin2"], transferrable)), map["bob" := "bob"])
  }

  /** What a bech32 decoder reports of the three addresses used below. */
  predicate DecoderAgrees(checksumOk: string -> bool)
  {
    checksumOk(JunoBob) && checksumOk(CosmosBob) && !checksumOk(CosmosBad)
  }

  lemma HumanReadableParts()
    ensures Bech32Prefix.HumanReadablePart(JunoBob) == Some("juno")
    ensures Bech32Prefix.HumanReadablePart(CosmosBob) == Some("cosmos")
  {
    Bech32Prefix.LowerOfLowerCase("juno");
    Bech32Prefix.LowerOfLowerCase("cosmos");
    Bech32Prefix.HumanReadablePartOfCompose("juno", "kn27c8fu9qjmcn9hqytdzlml55mcs7dl2wu2ts");
    Bech32Prefix.HumanReadablePartOfCompose("cosmos", "gf3dm2mvqhymts6ksrstlyuu2m8pw6dhv43wpe");
  }

  /**
   * `admin1`, who does not own bob's token, sets [juno, cosmos] for bob; the
   * read returns cosmos first, then juno.
   */
  lemma SetGetSingleRecord(checksumOk: string -> bool, transferrable: bool)
    requires DecoderAgrees(checksumOk)
    ensures var r := SetRecord(Empty, Nft(transferrable), checksumOk, "admin1", "bob",
                               [("juno", JunoBob), ("cosmos", CosmosBob)]);
            && r.outcome == Pass
            && GetAddresses(r.state, "bob") == [("cosmos", CosmosBob), ("juno", JunoBob)]
  {
    HumanReadableParts();
    var juno, cosmos := ("juno", JunoBob), ("cosmos", CosmosBob);
    assert Below(cosmos.0, juno.0);
    assert [juno, cosmos][..1] == [juno];
    assert [juno][..0] == [];
    assert Canonical([juno]) == Insert(juno, []) == [juno];
    assert Insert(cosmos, [juno]) == [cosmos] + [juno];
    assert Canonical([juno, cosmos]) == [cosmos, juno];
  }

  /** Setting bob's record a second time fails. */
  lemma SetDuplicateUsername(checksumOk: string -> bool, transferrable: bool)
    requires DecoderAgrees(checksumOk)
    ensures var first := SetRecord(Empty, Nft(transferrable), checksumOk, "admin1", "bob",
                                   [("juno", JunoBob), ("cosmos", CosmosBob)]);
            var second := SetRecord(first.state, Nft(transferrable), checksumOk, "admin1", "bob",
                                    [("juno", JunoBob), ("cosmos", CosmosBob)]);
            && first.outcome == Pass
            && second.outcome == Fail(AlreadyRegistered("bob"))
  {
    SetGetSingleRecord(checksumOk, transferrable);
  }

  /**
   * A bad checksum is rejected, then a juno address claimed as cosmos is
   * rejected, and neither leaves a record, so the valid write that follows
   * succeeds.
   */
  lemma Bech32Verification(checksumOk: string -> bool, transferrable: bool)
    requires DecoderAgrees(checksumOk)
    ensures var nft := Nft(transferrable);
            var r1 := SetRecord(Empty, nft, checksumOk, "admin1", "bob", [("cosmos", CosmosBad)]);
            var r2 := SetRecord(r1.state, nft, checksumOk, "admin1", "bob", [("cosmos", JunoBob)]);
            var r3 := SetRecord(r2.state, nft, checksumOk, "admin1", "bob",
                                [("juno", JunoBob), ("cosmos", CosmosBob)]);
            && r1.outcome == Fail(InvalidAddress("cosmos", CosmosBad))
            && r2.outcome == Fail(InvalidAddress("cosmos", JunoBob))
            && r3.outcome == Pass
  {
    HumanReadableParts();
    var ps := [("cosmos", JunoBob)];
    assert !Bech32Prefix.ValidPair(checksumOk, ps[0].0, ps[0].1);
    SetGetSingleRecord(checksumOk, transferrable);
  }
}
