/**
 * Python's `<` on strings and on pairs of strings, and `sorted(chains)`,
 * which `make_text` uses to enumerate the keys of the chain dictionary in a
 * fixed order before drawing the start key.
 */
module Ordering {

  /** A dictionary key of `make_chains`: a pair of consecutive words. */
  type Pair = (string, string)

  /** `a < b` on Python strings: code point by code point, a proper prefix first. */
  predicate StrLess(a: string, b: string)
    decreases |a|
  {
    |b| > 0 && (|a| == 0 || a[0] < b[0] || (a[0] == b[0] && StrLess(a[1..], b[1..])))
  }

  /** `p < q` on Python tuples: the first components decide unless they are equal. */
  predicate PairLess(p: Pair, q: Pair) {
    StrLess(p.0, q.0) || (p.0 == q.0 && StrLess(p.1, q.1))
  }

  lemma {:induction false} StrLessIrreflexive(a: string)
    ensures !StrLess(a, a)
    decreases |a|
  {
    if |a| > 0 {
      StrLessIrreflexive(a[1..]);
    }
  }

  lemma {:induction false} StrLessTransitive(a: string, b: string, c: string)
    requires StrLess(a, b) && StrLess(b, c)
    ensures StrLess(a, c)
    decreases |a|
  {
    if |a| > 0 && a[0] == b[0] && b[0] == c[0] {
      StrLessTransitive(a[1..], b[1..], c[1..]);
    }
  }

  lemma {:induction false} StrLessTotal(a: string, b: string)
    ensures a == b || StrLess(a, b) || StrLess(b, a)
    decreases |a|
  {
    if |a| > 0 && |b| > 0 && a[0] == b[0] {
      StrLessTotal(a[1..], b[1..]);
      if a[1..] == b[1..] {
        assert a == [a[0]] + a[1..] && b == [b[0]] + b[1..];
      }
    }
  }

  /** `<` on keys is a strict total order, so `sorted` has exactly one answer. */
  lemma PairLessStrictTotal(p: Pair, q: Pair, s: Pair)
    ensures !PairLess(p, p)
    ensures PairLess(p, q) && PairLess(q, s) ==> PairLess(p, s)
    ensures p == q || PairLess(p, q) || PairLess(q, p)
  {
    StrLessIrreflexive(p.0);
    StrLessIrreflexive(p.1);
    if PairLess(p, q) && PairLess(q, s) {
      if StrLess(p.0, q.0) && StrLess(q.0, s.0) {
        StrLessTransitive(p.0, q.0, s.0);
      } else if p.0 == q.0 && q.0 == s.0 {
        StrLessTransitive(p.1, q.1, s.1);
      }
    }
    StrLessTotal(p.0, q.0);
    StrLessTotal(p.1, q.1);
  }

  /** `ks` lists its elements in strictly increasing order (so without repetition). */
  predicate Ascending(ks: seq<Pair>) {
    forall i, j :: 0 <= i < j < |ks| ==> PairLess(ks[i], ks[j])
  }

  /** The keys smaller than `k`: `sorted(keys).index(k)` is the size of this set. */
  function Below(keys: set<Pair>, k: Pair): (b: set<Pair>) {
    set x | x in keys && PairLess(x, k)
  }

  /** The least element of a non-empty set of keys. */
  method Least(keys: set<Pair>) returns (m: Pair)
    requires keys != {}
    ensures m in keys
    ensures forall k :: k in keys && k != m ==> PairLess(m, k)
  {
    m :| m in keys;
    var rest := keys - {m};
    while rest != {}
      invariant m in keys && m !in rest && rest <= keys
      invariant forall k :: k in keys && k !in rest && k != m ==> PairLess(m, k)
      decreases rest
    {
      var k :| k in rest;
      PairLessStrictTotal(k, m, k);
      if PairLess(k, m) {
        forall x | x in keys && x !in rest && x != m
          ensures PairLess(k, x)
        {
          PairLessStrictTotal(k, m, x);
        }
        m := k;
      }
      rest := rest - {k};
    }
  }

  /** `sorted(keys)`: every key exactly once, in ascending order. */
  method Sorted(keys: set<Pair>) returns (ks: seq<Pair>)
    ensures Ascending(ks)
    ensures forall k :: k in ks <==> k in keys
  {
    ks := [];
    var rest := keys;
    while rest != {}
      invariant rest <= keys && Ascending(ks)
      invariant forall k :: k in keys <==> k in ks || k in rest
      invariant forall i, k :: 0 <= i < |ks| && k in rest ==> PairLess(ks[i], k)
      decreases rest
    {
      var m := Least(rest);
      ks := ks + [m];
      rest := rest - {m};
    }
  }

  /** `|A| <= |B|` when `A` is a subset of `B`. */
  lemma {:induction false} SubsetCard<T>(a: set<T>, b: set<T>)
    requires a <= b
    ensures |a| <= |b|
    decreases |a|
  {
    if a != {} {
      var x :| x in a;
      SubsetCard(a - {x}, b - {x});
    }
  }

  /** The distinct elements of an ascending sequence are as many as its length. */
  lemma {:induction false} AscendingCard(ks: seq<Pair>)
    requires Ascending(ks)
    ensures |set i | 0 <= i < |ks| :: ks[i]| == |ks|
    decreases |ks|
  {
    if ks != [] {
      var init := ks[..|ks| - 1];
      AscendingCard(init);
      var last := ks[|ks| - 1];
      PairLessStrictTotal(last, last, last);
      assert (set i | 0 <= i < |ks| :: ks[i]) == (set i | 0 <= i < |init| :: init[i]) + {last};
      assert last !in (set i | 0 <= i < |init| :: init[i]);
    }
  }

  /**
   * The element at position `i` of the sorted enumeration has exactly `i`
   * keys below it: the position of a key in `sorted(keys)` depends on the
   * set of keys only.
   */
  lemma SortedPosition(keys: set<Pair>, ks: seq<Pair>, i: nat)
    requires Ascending(ks) && (forall k :: k in ks <==> k in keys)
    requires i < |ks|
    ensures |Below(keys, ks[i])| == i
  {
    var before := ks[..i];
    assert Ascending(before);
    forall x | x in keys
      ensures x in Below(keys, ks[i]) <==> x in (set j | 0 <= j < |before| :: before[j])
    {
      var j :| 0 <= j < |ks| && ks[j] == x;
      PairLessStrictTotal(ks[i], ks[j], ks[i]);
      if j < i {
        assert before[j] == x;
      }
      if x in (set j | 0 <= j < |before| :: before[j]) {
        var t :| 0 <= t < i && before[t] == x;
        assert ks[t] == x;
      }
    }
    assert Below(keys, ks[i]) == (set j | 0 <= j < |before| :: before[j]);
    AscendingCard(before);
  }

  /** Two keys with as many keys below them are the same key. */
  lemma PositionUnique(keys: set<Pair>, p: Pair, q: Pair)
    requires p in keys && q in keys
    requires |Below(keys, p)| == |Below(keys, q)|
    ensures p == q
  {
    PairLessStrictTotal(p, q, p);
    if PairLess(p, q) {
      BelowGrows(keys, p, q);
    } else if PairLess(q, p) {
      BelowGrows(keys, q, p);
    }
  }

  lemma BelowGrows(keys: set<Pair>, p: Pair, q: Pair)
    requires p in keys && PairLess(p, q)
    ensures |Below(keys, p)| < |Below(keys, q)|
  {
    forall x | x in Below(keys, p)
      ensures x in Below(keys, q)
    {
      PairLessStrictTotal(x, p, q);
    }
    PairLessStrictTotal(p, p, p);
    assert Below(keys, p) + {p} <= Below(keys, q);
    SubsetCard(Below(keys, p) + {p}, Below(keys, q));
  }
}
