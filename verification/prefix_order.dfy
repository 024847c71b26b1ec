/**
 * The canonical form of a resolver record: its (prefix, address) pairs
 * kept strictly ascending by prefix, one pair per prefix.
 *
 * A record is built by inserting the submitted pairs one after another;
 * a later pair for a prefix already present replaces the earlier one.
 */
module PrefixOrder {
  import opened Wrappers

  /** One entry of a record: a network prefix and the address bound to it. */
  type Pair = (string, string)

  /** Lexicographic order on strings by character code, the order Rust gives `String`s. */
  predicate Below(a: string, b: string)
  {
    if |b| == 0 then false
    else if |a| == 0 then true
    else a[0] < b[0] || (a[0] == b[0] && Below(a[1..], b[1..]))
  }

  lemma {:induction false} BelowIrreflexive(a: string)
    ensures !Below(a, a)
  {
    if |a| > 0 {
      BelowIrreflexive(a[1..]);
    }
  }

  lemma {:induction false} BelowTransitive(a: string, b: string, c: string)
    requires Below(a, b) && Below(b, c)
    ensures Below(a, c)
  {
    if |a| > 0 && a[0] == b[0] && b[0] == c[0] {
      BelowTransitive(a[1..], b[1..], c[1..]);
    }
  }

  lemma BelowAsymmetric(a: string, b: string)
    requires Below(a, b)
    ensures !Below(b, a)
  {
    if Below(b, a) {
      BelowTransitive(a, b, a);
      BelowIrreflexive(a);
    }
  }

  lemma {:induction false} BelowTotal(a: string, b: string)
    requires a != b
    ensures Below(a, b) || Below(b, a)
  {
    if |a| > 0 && |b| > 0 && a[0] == b[0] {
      assert a == [a[0]] + a[1..];
      assert b == [b[0]] + b[1..];
      BelowTotal(a[1..], b[1..]);
    }
  }

  /** Prefixes strictly ascend, so no prefix occurs twice. */
  predicate StrictlySorted(s: seq<Pair>)
  {
    forall i, j :: 0 <= i < j < |s| ==> Below(s[i].0, s[j].0)
  }

  /** No two pairs share a prefix. */
  predicate Distinct(s: seq<Pair>)
  {
    forall i, j :: 0 <= i < j < |s| ==> s[i].0 != s[j].0
  }

  /** The prefixes that occur in `s`. */
  function Prefixes(s: seq<Pair>): set<string>
  {
    set i | 0 <= i < |s| :: s[i].0
  }

  lemma PrefixesCons(x: Pair, t: seq<Pair>)
    ensures Prefixes([x] + t) == {x.0} + Prefixes(t)
  {
    forall p | p in Prefixes(t)
      ensures p in Prefixes([x] + t)
    {
      var k :| 0 <= k < |t| && t[k].0 == p;
      assert ([x] + t)[k + 1].0 == p;
    }
    assert ([x] + t)[0].0 == x.0;
  }

  /** The address bound to `p` by the first pair with that prefix. */
  function Find(s: seq<Pair>, p: string): Option<string>
  {
    if |s| == 0 then None
    else if s[0].0 == p then Some(s[0].1)
    else Find(s[1..], p)
  }

  /** The address the LAST submitted pair with prefix `p` carries: the reference content of a record. */
  function Latest(ps: seq<Pair>, p: string): Option<string>
  {
    if |ps| == 0 then None
    else if ps[|ps| - 1].0 == p then Some(ps[|ps| - 1].1)
    else Latest(ps[..|ps| - 1], p)
  }

  /**
   * Places `x` into the sorted record `s`: before the first larger prefix,
   * or over the pair with the same prefix.
   */
  function Insert(x: Pair, s: seq<Pair>): (r: seq<Pair>)
    requires StrictlySorted(s)
    ensures StrictlySorted(r)
    ensures Prefixes(r) == Prefixes(s) + {x.0}
  {
    if |s| == 0 then
      PrefixesCons(x, s);
      [x]
    else if x.0 == s[0].0 then
      assert Prefixes(s) == {s[0].0} + Prefixes(s[1..]);
      PrefixesCons(x, s[1..]);
      [x] + s[1..]
    else if Below(x.0, s[0].0) then
      assert StrictlySorted([x] + s) by {
        forall j | 0 < j < |s| + 1
          ensures Below(x.0, ([x] + s)[j].0)
        {
          if j > 1 {
            BelowTransitive(x.0, s[0].0, s[j - 1].0);
          }
        }
      }
      PrefixesCons(x, s);
      [x] + s
    else
      BelowTotal(x.0, s[0].0);
      var rest := Insert(x, s[1..]);
      assert Prefixes(s) == {s[0].0} + Prefixes(s[1..]);
      PrefixesCons(s[0], rest);
      assert StrictlySorted([s[0]] + rest) by {
        forall j | 0 <= j < |rest|
          ensures Below(s[0].0, rest[j].0)
        {
          assert rest[j].0 in Prefixes(rest);
          if rest[j].0 != x.0 {
            var k :| 0 <= k < |s[1..]| && s[1..][k].0 == rest[j].0;
            assert s[k + 1].0 == rest[j].0;
          }
        }
      }
      [s[0]] + rest
  }

  /** Inserting binds `x.0` to `x.1` and leaves every other prefix's address as it was. */
  lemma {:induction false} InsertFind(x: Pair, s: seq<Pair>, p: string)
    requires StrictlySorted(s)
    ensures Find(Insert(x, s), p) == (if p == x.0 then Some(x.1) else Find(s, p))
  {
    if |s| > 0 && x.0 != s[0].0 && !Below(x.0, s[0].0) {
      InsertFind(x, s[1..], p);
    }
  }

  /** Inserting a pair with a new prefix adds exactly that pair. */
  lemma {:induction false} InsertMultiset(x: Pair, s: seq<Pair>)
    requires StrictlySorted(s)
    requires x.0 !in Prefixes(s)
    ensures multiset(Insert(x, s)) == multiset(s) + multiset{x}
  {
    if |s| > 0 {
      assert s == [s[0]] + s[1..];
      assert s[0].0 in Prefixes(s);
      if !Below(x.0, s[0].0) {
        assert Prefixes(s[1..]) <= Prefixes(s);
        InsertMultiset(x, s[1..]);
      }
    }
  }

  /**
   * The canonical record for a submission: each pair inserted in
   * submission order.
   */
  function Canonical(ps: seq<Pair>): (r: seq<Pair>)
    ensures StrictlySorted(r)
    ensures Prefixes(r) == Prefixes(ps)
  {
    if |ps| == 0 then []
    else
      var init := ps[..|ps| - 1];
      var last := ps[|ps| - 1];
      assert ps == init + [last];
      assert Prefixes(ps) == Prefixes(init) + {last.0};
      Insert(last, Canonical(init))
  }

  /** The canonical record binds each prefix to the address of the last pair submitted for it. */
  lemma {:induction false} CanonicalFind(ps: seq<Pair>, p: string)
    ensures Find(Canonical(ps), p) == Latest(ps, p)
  {
    if |ps| > 0 {
      InsertFind(ps[|ps| - 1], Canonical(ps[..|ps| - 1]), p);
      CanonicalFind(ps[..|ps| - 1], p);
    }
  }

  /** Without repeated prefixes the canonical record is a permutation of the submission. */
  lemma {:induction false} CanonicalPermutation(ps: seq<Pair>)
    requires Distinct(ps)
    ensures multiset(Canonical(ps)) == multiset(ps)
    ensures |Canonical(ps)| == |ps|
  {
    if |ps| > 0 {
      var init := ps[..|ps| - 1];
      var last := ps[|ps| - 1];
      assert ps == init + [last];
      assert last.0 !in Prefixes(init);
      CanonicalPermutation(init);
      InsertMultiset(last, Canonical(init));
    }
    assert |Canonical(ps)| == |multiset(Canonical(ps))|;
  }

  /** Two strictly sorted records holding the same pairs are the same sequence. */
  lemma {:induction false} SortedUnique(a: seq<Pair>, b: seq<Pair>)
    requires StrictlySorted(a) && StrictlySorted(b)
    requires multiset(a) == multiset(b)
    ensures a == b
    decreases |a|
  {
    assert |a| == |multiset(a)| == |multiset(b)| == |b|;
    if |a| > 0 {
      assert a[0] in multiset(b);
      var j :| 0 <= j < |b| && b[j] == a[0];
      assert b[0] in multiset(a);
      var i :| 0 <= i < |a| && a[i] == b[0];
      if j > 0 {
        if i > 0 {
          BelowAsymmetric(a[0].0, a[i].0);
        } else {
          BelowIrreflexive(b[0].0);
        }
        assert false;
      }
      assert a == [a[0]] + a[1..];
      assert b == [b[0]] + b[1..];
      assert multiset(a) == multiset{a[0]} + multiset(a[1..]);
      assert multiset(b) == multiset{b[0]} + multiset(b[1..]);
      assert multiset(a[1..]) == multiset(a) - multiset{a[0]};
      SortedUnique(a[1..], b[1..]);
    }
  }
}
