/**
 * The resolver's record store as a state machine. Each user name is either
 * unset or holds one record of (prefix, address) pairs; `SetRecord` is the
 * only transition and moves a name from unset to set, once.
 *
 * Authorisation consults the name-nft contract, seen here as the answers
 * its queries give: its admin configuration and the owner of each token.
 */
module Resolver {
  import opened Wrappers
  import opened Host
  import NameNftChecks
  import opened PrefixOrder
  import Bech32Prefix

  /** The name-nft contract as the resolver observes it through queries. */
  datatype NameNft = NameNft(config: Option<NameNftChecks.Config>, owners: map<string, Addr>)

  /** Resolver storage: the record of every name that has one. */
  datatype State = State(records: map<string, seq<Pair>>)

  datatype ContractError =
    | Unauthorized
    | InvalidAddress(prefix: string, address: string)
    | AlreadyRegistered(userName: string)

  /** The storage of a freshly instantiated resolver. */
  const Empty: State := State(map[])

  /** `sender` passes the name-nft admin check. */
  predicate IsAdmin(nft: NameNft, sender: Addr)
    ensures IsAdmin(nft, sender) <==> nft.config.Some? && sender in nft.config.value.admins
  {
    NameNftChecks.CheckAdmin(nft.config, sender).Pass?
  }

  /** The name-nft owner query: the holder of token `tokenId`, or `None` when no such token exists. */
  function OwnerOf(nft: NameNft, tokenId: string): (owner: Option<Addr>)
    ensures owner.None? <==> tokenId !in nft.owners
    ensures owner.Some? ==> owner.value == nft.owners[tokenId]
  {
    if tokenId in nft.owners then Some(nft.owners[tokenId]) else None
  }

  /** `sender` holds the name token whose id is `userName`; a missing token authorises no one. */
  predicate IsOwner(nft: NameNft, userName: string, sender: Addr)
    ensures IsOwner(nft, userName, sender) <==> userName in nft.owners && nft.owners[userName] == sender
  {
    OwnerOf(nft, userName) == Some(sender)
  }

  /** Every stored record is in canonical (strictly prefix-ascending) form. */
  predicate Invariant(st: State)
  {
    forall n :: n in st.records ==> StrictlySorted(st.records[n])
  }

  /** Every submitted pair passes the address check. */
  predicate AllPairsValid(checksumOk: string -> bool, ps: seq<Pair>)
  {
    forall i :: 0 <= i < |ps| ==> Bech32Prefix.ValidPair(checksumOk, ps[i].0, ps[i].1)
  }

  /** The first submitted pair that fails the address check, if any. */
  function FirstInvalidPair(checksumOk: string -> bool, ps: seq<Pair>): (r: Option<Pair>)
    ensures r.None? <==> AllPairsValid(checksumOk, ps)
    ensures r.Some? ==> exists k :: 0 <= k < |ps| && ps[k] == r.value
                                  && !Bech32Prefix.ValidPair(checksumOk, ps[k].0, ps[k].1)
                                  && AllPairsValid(checksumOk, ps[..k])
  {
    if |ps| == 0 then None
    else if !Bech32Prefix.ValidPair(checksumOk, ps[0].0, ps[0].1) then
      assert AllPairsValid(checksumOk, ps[..0]);
      Some(ps[0])
    else
      var r := FirstInvalidPair(checksumOk, ps[1..]);
      assert r.Some? ==> exists k :: 0 <= k < |ps| && ps[k] == r.value
                                     && !Bech32Prefix.ValidPair(checksumOk, ps[k].0, ps[k].1)
                                     && AllPairsValid(checksumOk, ps[..k]) by {
        if r.Some? {
          var k :| 0 <= k < |ps[1..]| && ps[1..][k] == r.value
                   && !Bech32Prefix.ValidPair(checksumOk, ps[1..][k].0, ps[1..][k].1)
                   && AllPairsValid(checksumOk, ps[1..][..k]);
          assert ps[..k + 1] == [ps[0]] + ps[1..][..k];
        }
      }
      r
  }

  /**
   * Binds `addresses` to `userName`. Fails if the name already has a
   * record, if `sender` is neither a name-nft admin nor the token's owner,
   * or if any pair fails the address check; a failed call stores nothing.
   */
  function SetRecord(st: State, nft: NameNft, checksumOk: string -> bool, sender: Addr,
                     userName: string, addresses: seq<Pair>): (r: Step<State, ContractError>)
    ensures r.outcome.Pass? <==>
              && userName !in st.records
              && (IsAdmin(nft, sender) || IsOwner(nft, userName, sender))
              && AllPairsValid(checksumOk, addresses)
    ensures r.outcome.Fail? ==> r.state == st
    ensures userName in st.records ==> r.outcome == Fail(AlreadyRegistered(userName))
    ensures userName !in st.records && !IsAdmin(nft, sender) && !IsOwner(nft, userName, sender) ==>
              r.outcome == Fail(Unauthorized)
    ensures userName !in st.records && (IsAdmin(nft, sender) || IsOwner(nft, userName, sender))
            && !AllPairsValid(checksumOk, addresses) ==>
              r.outcome.Fail? && r.outcome.error.InvalidAddress?
    ensures r.outcome.Fail? && r.outcome.error.InvalidAddress? ==>
              exists k :: 0 <= k < |addresses| && addresses[k] == (r.outcome.error.prefix, r.outcome.error.address) && !Bech32Prefix.ValidPair(checksumOk, addresses[k].0, addresses[k].1) && AllPairsValid(checksumOk, addresses[..k])
    ensures r.outcome.Pass? ==>
              && r.state.records.Keys == st.records.Keys + {userName}
              && forall n :: n in st.records ==> r.state.records[n] == st.records[n]
  {
    if userName in st.records then Step(Fail(AlreadyRegistered(userName)), st)
    else if !IsAdmin(nft, sender) && !IsOwner(nft, userName, sender) then Step(Fail(Unauthorized), st)
    else
      match FirstInvalidPair(checksumOk, addresses)
      case Some(bad) => Step(Fail(InvalidAddress(bad.0, bad.1)), st)
      case None => Step(Pass, st.(records := st.records[userName := Canonical(addresses)]))
  }

  /** The pairs stored for `userName`, ascending by prefix; empty when there is no record. */
  function GetAddresses(st: State, userName: string): (addresses: seq<Pair>)
    ensures userName !in st.records ==> addresses == []
    ensures Invariant(st) ==> StrictlySorted(addresses)
  {
    if userName in st.records then st.records[userName] else []
  }

  /** Every reachable state keeps its records canonical. */
  lemma SetRecordPreservesInvariant(st: State, nft: NameNft, checksumOk: string -> bool, sender: Addr,
                                    userName: string, addresses: seq<Pair>)
    requires Invariant(st)
    ensures Invariant(SetRecord(st, nft, checksumOk, sender, userName, addresses).state)
  {
  }

  /**
   * After a successful write, the read returns the submitted pairs sorted
   * ascending by prefix, with each prefix bound to the address last
   * submitted for it.
   */
  lemma ReadAfterSet(st: State, nft: NameNft, checksumOk: string -> bool, sender: Addr,
                     userName: string, addresses: seq<Pair>, p: string)
    requires SetRecord(st, nft, checksumOk, sender, userName, addresses).outcome.Pass?
    ensures var read := GetAddresses(SetRecord(st, nft, checksumOk, sender, userName, addresses).state, userName);
            && StrictlySorted(read)
            && Prefixes(read) == Prefixes(addresses)
            && Find(read, p) == Latest(addresses, p)
  {
    CanonicalFind(addresses, p);
  }

  /**
   * When the submitted prefixes are distinct, the read holds exactly the
   * submitted pairs: same count, each address still with its own prefix.
   */
  lemma ReadAfterSetIsPermutation(st: State, nft: NameNft, checksumOk: string -> bool, sender: Addr,
                                  userName: string, addresses: seq<Pair>)
    requires Distinct(addresses)
    requires SetRecord(st, nft, checksumOk, sender, userName, addresses).outcome.Pass?
    ensures var read := GetAddresses(SetRecord(st, nft, checksumOk, sender, userName, addresses).state, userName);
            && multiset(read) == multiset(addresses)
            && |read| == |addresses|
  {
    CanonicalPermutation(addresses);
  }

  /**
   * Write-once: once a name has a record, every later write for it fails
   * with `AlreadyRegistered` and the stored record is unchanged.
   */
  lemma SetRecordWriteOnce(st: State, nft: NameNft, checksumOk: string -> bool,
                           sender1: Addr, sender2: Addr, userName: string,
                           addresses1: seq<Pair>, addresses2: seq<Pair>)
    requires SetRecord(st, nft, checksumOk, sender1, userName, addresses1).outcome.Pass?
    ensures var s1 := SetRecord(st, nft, checksumOk, sender1, userName, addresses1).state;
            var r2 := SetRecord(s1, nft, checksumOk, sender2, userName, addresses2);
            && r2.outcome == Fail(AlreadyRegistered(userName))
            && GetAddresses(r2.state, userName) == GetAddresses(s1, userName)
  {
  }

  /**
   * Submission order does not matter: two names given the same distinct
   * pairs in different orders read back identically.
   */
  lemma SubmissionOrderIrrelevant(st: State, nft: NameNft, checksumOk: string -> bool,
                                  sender1: Addr, sender2: Addr, name1: string, name2: string,
                                  addresses1: seq<Pair>, addresses2: seq<Pair>)
    requires Distinct(addresses1) && Distinct(addresses2)
    requires multiset(addresses1) == multiset(addresses2)
    requires SetRecord(st, nft, checksumOk, sender1, name1, addresses1).outcome.Pass?
    requires SetRecord(SetRecord(st, nft, checksumOk, sender1, name1, addresses1).state,
                       nft, checksumOk, sender2, name2, addresses2).outcome.Pass?
    ensures var s1 := SetRecord(st, nft, checksumOk, sender1, name1, addresses1).state;
            var s2 := SetRecord(s1, nft, checksumOk, sender2, name2, addresses2).state;
            GetAddresses(s2, name1) == GetAddresses(s2, name2)
  {
    CanonicalPermutation(addresses1);
    CanonicalPermutation(addresses2);
    SortedUnique(Canonical(addresses1), Canonical(addresses2));
  }

  /** An admin may set the record of a name whose token someone else owns. */
  lemma AdminMaySetForOthers(st: State, nft: NameNft, checksumOk: string -> bool, admin: Addr,
                             userName: string, addresses: seq<Pair>)
    requires userName !in st.records
    requires nft.config.Some? && admin in nft.config.value.admins
    requires AllPairsValid(checksumOk, addresses)
    ensures SetRecord(st, nft, checksumOk, admin, userName, addresses).outcome == Pass
  {
  }

  /** A pair whose address's human-readable part differs from its claimed prefix sinks the whole write. */
  lemma MismatchedPrefixRejectsWrite(st: State, nft: NameNft, checksumOk: string -> bool, sender: Addr,
                                     userName: string, addresses: seq<Pair>, k: nat, hrp: string, data: string)
    requires k < |addresses|
    requires Bech32Prefix.Separator !in data
    requires addresses[k].1 == Bech32Prefix.Compose(hrp, data)
    requires addresses[k].0 != Bech32Prefix.Lower(hrp)
    ensures var r := SetRecord(st, nft, checksumOk, sender, userName, addresses);
            r.outcome.Fail? && r.state == st
  {
    Bech32Prefix.MismatchedPrefixRejected(checksumOk, hrp, data, addresses[k].0);
  }

  /**
   * A rejected write leaves no trace: the next call on the resulting
   * storage behaves exactly as it would have without the rejected one.
   */
  lemma RejectedWriteLeavesNoTrace(st: State, nft: NameNft, checksumOk: string -> bool,
                                   sender1: Addr, name1: string, addresses1: seq<Pair>,
                                   sender2: Addr, name2: string, addresses2: seq<Pair>)
    requires SetRecord(st, nft, checksumOk, sender1, name1, addresses1).outcome.Fail?
    ensures var s1 := SetRecord(st, nft, checksumOk, sender1, name1, addresses1).state;
            SetRecord(s1, nft, checksumOk, sender2, name2, addresses2)
            == SetRecord(st, nft, checksumOk, sender2, name2, addresses2)
  {
  }
}
