/**
 * The resolver's address check. A bech32 address (BIP-173, section
 * "Specification") is a human-readable part, the separator `1`, and a data
 * part that ends in a checksum. The data-part alphabet has no `1`, so the
 * separator is the LAST `1` of the string.
 *
 * An address is written either all in lower case or all in upper case;
 * a decoder rejects mixed case and reports the human-readable part in
 * lower case.
 *
 * The checksum arithmetic is not modelled: `checksumOk` stands for a full
 * bech32 decode succeeding, including its rejection of mixed case. The
 * split at the separator, the lower-casing of the human-readable part and
 * its comparison with the claimed prefix are concrete.
 */
module Bech32Prefix {
  import opened Wrappers

  const Separator: char := '1'

  /** The position of the last `c` in `s`, if `c` occurs. */
  function LastIndexOf(s: string, c: char): (r: Option<nat>)
    ensures r.Some? ==> r.value < |s| && s[r.value] == c
    ensures r.Some? ==> forall j :: r.value < j < |s| ==> s[j] != c
    ensures r.None? <==> c !in s
  {
    if |s| == 0 then None
    else if s[|s| - 1] == c then Some(|s| - 1)
    else
      assert s == s[..|s| - 1] + [s[|s| - 1]];
      LastIndexOf(s[..|s| - 1], c)
  }

  predicate IsUpper(c: char)
  {
    'A' <= c <= 'Z'
  }

  /** The ASCII lower-case form of `c`; every other character is unchanged. */
  function LowerChar(c: char): char
  {
    if IsUpper(c) then (c as int + 32) as char else c
  }

  /** The ASCII lower-case form of `s`, character by character. */
  function Lower(s: string): (r: string)
    ensures |r| == |s|
    ensures forall i :: 0 <= i < |s| ==> r[i] == LowerChar(s[i])
  {
    seq(|s|, i requires 0 <= i < |s| => LowerChar(s[i]))
  }

  /** `s` has no upper-case ASCII letter. */
  predicate IsLowerCase(s: string)
  {
    forall i :: 0 <= i < |s| ==> !IsUpper(s[i])
  }

  /** Lower-casing leaves a string without upper-case letters unchanged. */
  lemma LowerOfLowerCase(s: string)
    requires IsLowerCase(s)
    ensures Lower(s) == s
  {
  }

  /**
   * The human-readable part a decoder reports: everything before the last
   * separator, in lower case; `None` when there is no separator.
   */
  function HumanReadablePart(address: string): (hrp: Option<string>)
    ensures hrp.None? <==> Separator !in address
    ensures hrp.Some? ==>
              exists i :: 0 <= i < |address| && address[i] == Separator
                          && (forall j :: i < j < |address| ==> address[j] != Separator)
                          && hrp.value == Lower(address[..i])
  {
    match LastIndexOf(address, Separator)
    case None => None
    case Some(i) => Some(Lower(address[..i]))
  }

  /** Assembles an address from its human-readable part and its data part. */
  function Compose(hrp: string, data: string): string
  {
    hrp + [Separator] + data
  }

  /** Splitting a composed address returns its human-readable part in lower case (the data part has no separator). */
  lemma HumanReadablePartOfCompose(hrp: string, data: string)
    requires Separator !in data
    ensures HumanReadablePart(Compose(hrp, data)) == Some(Lower(hrp))
  {
    var a := Compose(hrp, data);
    assert a[|hrp|] == Separator;
    assert a[..|hrp|] == hrp;
    var i := LastIndexOf(a, Separator);
    assert i.Some?;
    assert i.value == |hrp|;
  }

  /**
   * A (prefix, address) pair is accepted when the address decodes and the
   * human-readable part it reports is exactly the claimed prefix.
   */
  predicate ValidPair(checksumOk: string -> bool, prefix: string, address: string)
    ensures ValidPair(checksumOk, prefix, address) <==>
              && checksumOk(address)
              && exists i :: 0 <= i < |address| && address[i] == Separator
                             && (forall j :: i < j < |address| ==> address[j] != Separator)
                             && Lower(address[..i]) == prefix
  {
    checksumOk(address) && HumanReadablePart(address) == Some(prefix)
  }

  /** A checksum-valid address is accepted under the lower-case form of its own human-readable part. */
  lemma ValidPairComposed(checksumOk: string -> bool, hrp: string, data: string)
    requires Separator !in data
    requires checksumOk(Compose(hrp, data))
    ensures ValidPair(checksumOk, Lower(hrp), Compose(hrp, data))
  {
    HumanReadablePartOfCompose(hrp, data);
  }

  /** An address is rejected under every prefix other than its own (lower-cased) human-readable part. */
  lemma MismatchedPrefixRejected(checksumOk: string -> bool, hrp: string, data: string, claimed: string)
    requires Separator !in data
    requires claimed != Lower(hrp)
    ensures !ValidPair(checksumOk, claimed, Compose(hrp, data))
  {
    HumanReadablePartOfCompose(hrp, data);
  }

  /** An upper-case address is checked against its human-readable part in lower case. */
  lemma UpperCaseAddressLowerCasePrefix(checksumOk: string -> bool)
    requires checksumOk("A12UEL5L")
    ensures ValidPair(checksumOk, "a", "A12UEL5L")
    ensures !ValidPair(checksumOk, "A", "A12UEL5L")
  {
    assert "A12UEL5L" == Compose("A", "2UEL5L");
    HumanReadablePartOfCompose("A", "2UEL5L");
    assert Lower("A") == "a";
  }

  /** An address whose checksum fails is rejected whatever its prefix. */
  lemma BadChecksumRejected(checksumOk: string -> bool, prefix: string, address: string)
    requires !checksumOk(address)
    ensures !ValidPair(checksumOk, prefix, address)
  {
  }
}
