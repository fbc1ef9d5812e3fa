/**
 * `make_chains`: the second-order Markov dictionary of a text. Each pair of
 * consecutive words at a position `i <= n - 3` of the `n`-word text is a
 * key, and its list holds the word after every such occurrence, in text
 * order and with repetitions.
 */
module Chains {
  import opened Text
  import opened Ordering
  import opened Outcomes

  type Word = string
  type Key = Pair
  /** The dictionary `make_chains` builds: each key's list of following words. */
  type Dictionary = map<Key, seq<Word>>

  /** What makes `make_chains` fail: the `IndexError` of `words[i + 2]` past the end of the word list. */
  datatype ChainError = IndexOutOfRange

  /** The pair of words at positions `i` and `i + 1`. */
  function Bigram(words: seq<Word>, i: nat): (k: Key)
    requires i + 1 < |words|
  {
    (words[i], words[i + 1])
  }

  /** The pairs at positions `0 .. m - 1`. */
  function BigramsBefore(words: seq<Word>, m: nat): (ks: set<Key>)
    requires m == 0 || m < |words|
  {
    set i | 0 <= i < m :: Bigram(words, i)
  }

  /** The words that follow `key` at its occurrences before position `m`, in text order. */
  function Followers(words: seq<Word>, key: Key, m: nat): (ws: seq<Word>)
    requires m + 2 <= |words|
  {
    if m == 0 then []
    else Followers(words, key, m - 1) + (if Bigram(words, m - 1) == key then [words[m + 1]] else [])
  }

  /**
   * The dictionary after the second loop of `make_chains` has run for the
   * positions below `m`: every key is in place, its list filled from those
   * positions only.
   */
  function Partial(words: seq<Word>, m: nat): (c: Dictionary)
    requires 2 <= |words| && m <= |words| - 2
  {
    map k | k in BigramsBefore(words, |words| - 2) :: Followers(words, k, m)
  }

  /** What `make_chains` returns for a text of `words`, when it returns. */
  function Chain(words: seq<Word>): (c: Dictionary) {
    if |words| < 3 then map[] else Partial(words, |words| - 2)
  }

  /** The positions `i < m` where `key` occurs. */
  function Occurrences(words: seq<Word>, key: Key, m: nat): (ps: set<nat>)
    requires m + 2 <= |words|
  {
    set i: nat | i < m && Bigram(words, i) == key
  }

  /** The positions `i < m` where `key` occurs followed by `w`. */
  function OccurrencesBefore(words: seq<Word>, key: Key, w: Word, m: nat): (ps: set<nat>)
    requires m + 2 <= |words|
  {
    set i: nat | i < m && Bigram(words, i) == key && words[i + 2] == w
  }

  /**
   * `make_chains(text)`: a first loop sets every pair at a position up to
   * `n - 3` to an empty list, a second loop appends the following word to
   * each. With two words the first loop never breaks and the second reads
   * `words[2]`.
   */
  method MakeChains(text: string) returns (r: Result<Dictionary, ChainError>)
    ensures r.Failure? <==> |Split(text)| == 2
    ensures |Split(text)| < 2 ==> r == Success(map[])
    ensures r.Success? ==> r.value == Chain(Split(text))
  {
    var words := Split(text);
    var n := |words|;
    var chains: Dictionary := map[];

    var i := 0;
    while i < n - 1
      invariant 0 <= i && (i == 0 || i < n)
      invariant n >= 3 ==> i <= n - 3
      invariant chains.Keys == BigramsBefore(words, i)
      invariant forall k :: k in chains ==> chains[k] == []
    {
      chains := chains[(words[i], words[i + 1]) := []];
      assert BigramsBefore(words, i + 1) == BigramsBefore(words, i) + {Bigram(words, i)};
      if i + 2 == n - 1 {
        break;
      }
      i := i + 1;
    }
    if n >= 3 {
      PartialStart(words);
      assert chains == Partial(words, 0);
    }
    assert n == 2 ==> Bigram(words, 0) in chains;

    i := 0;
    while i < n - 1
      invariant 0 <= i
      invariant n < 2 ==> chains == map[]
      invariant n == 2 ==> i == 0 && Bigram(words, 0) in chains
      invariant n >= 3 ==> i <= n - 3 && chains == Partial(words, i)
    {
      if n >= 3 {
        PartialStep(words, i);
      }
      var key := (words[i], words[i + 1]);
      var successors := chains[key];
      if i + 2 >= n {
        r := Failure(IndexOutOfRange);
        return;
      }
      chains := chains[key := successors + [words[i + 2]]];
      if i + 2 == n - 1 {
        break;
      }
      i := i + 1;
    }
    r := Success(chains);
  }

  /** Before the second loop every key is in place with an empty list. */
  lemma PartialStart(words: seq<Word>)
    requires |words| >= 2
    ensures Partial(words, 0).Keys == BigramsBefore(words, |words| - 2)
    ensures forall k :: k in Partial(words, 0) ==> Partial(words, 0)[k] == []
  {
  }

  /** One iteration of the second loop appends one word to one key's list. */
  lemma PartialStep(words: seq<Word>, m: nat)
    requires m + 3 <= |words|
    ensures Bigram(words, m) in Partial(words, m)
    ensures Partial(words, m + 1)
         == Partial(words, m)[Bigram(words, m) := Partial(words, m)[Bigram(words, m)] + [words[m + 2]]]
  {
    var b := Bigram(words, m);
    assert b in BigramsBefore(words, |words| - 2);
    var p, q := Partial(words, m), Partial(words, m + 1);
    var p' := p[b := p[b] + [words[m + 2]]];
    assert q.Keys == p'.Keys;
    forall k | k in q
      ensures q[k] == p'[k]
    {
      assert Followers(words, k, m + 1)
          == Followers(words, k, m) + (if Bigram(words, m) == k then [words[m + 2]] else []);
    }
  }

  /** The keys are exactly the pairs at positions `0 .. n - 3`; the last pair is a key only if it also occurs earlier. */
  lemma ChainKeys(words: seq<Word>, key: Key)
    ensures key in Chain(words) <==> exists i: nat :: i + 2 < |words| && Bigram(words, i) == key
  {
    if |words| >= 3 {
      if key in Chain(words) {
        assert key in BigramsBefore(words, |words| - 2);
        var i :| 0 <= i < |words| - 2 && Bigram(words, i) == key;
        assert i + 2 < |words| && Bigram(words, i) == key;
      }
      if exists i: nat :: i + 2 < |words| && Bigram(words, i) == key {
        var i: nat :| i + 2 < |words| && Bigram(words, i) == key;
        assert Bigram(words, i) in BigramsBefore(words, |words| - 2);
      }
    }
  }

  lemma {:induction false} FollowersNonEmpty(words: seq<Word>, key: Key, m: nat, i: nat)
    requires m + 2 <= |words| && i < m && Bigram(words, i) == key
    ensures Followers(words, key, m) != []
  {
    if i < m - 1 {
      FollowersNonEmpty(words, key, m - 1, i);
    }
  }

  /** No list in the dictionary is empty. */
  lemma ChainListsNonEmpty(words: seq<Word>, key: Key)
    requires key in Chain(words)
    ensures Chain(words)[key] != []
  {
    var i: nat :| i + 2 < |words| && Bigram(words, i) == key;
    FollowersNonEmpty(words, key, |words| - 2, i);
  }

  lemma {:induction false} FollowersMembers(words: seq<Word>, key: Key, m: nat, w: Word)
    requires m + 2 <= |words|
    ensures w in Followers(words, key, m) <==> exists i: nat :: i < m && Bigram(words, i) == key && words[i + 2] == w
  {
    if m > 0 {
      FollowersMembers(words, key, m - 1, w);
      if Bigram(words, m - 1) == key && words[m + 1] == w {
        assert Bigram(words, m - 1) == key && words[(m - 1) + 2] == w;
      }
    }
  }

  /** `w` is in the list of `key` exactly when `w` follows an occurrence of `key` at a position up to `n - 3`. */
  lemma ChainSuccessor(words: seq<Word>, key: Key, w: Word)
    requires key in Chain(words)
    ensures w in Chain(words)[key] <==> exists i: nat :: i + 2 < |words| && Bigram(words, i) == key && words[i + 2] == w
  {
    FollowersMembers(words, key, |words| - 2, w);
  }

  /** Every stored word is a word of the text at a position from 2 on; there is no end marker. */
  lemma ChainWords(words: seq<Word>, key: Key, w: Word)
    requires key in Chain(words) && w in Chain(words)[key]
    ensures w in words[2..]
    ensures AllWords(words) ==> IsWord(w)
  {
    ChainSuccessor(words, key, w);
    var i: nat :| i + 2 < |words| && Bigram(words, i) == key && words[i + 2] == w;
    assert words[2..][i] == w;
  }

  lemma {:induction false} FollowersMultiplicity(words: seq<Word>, key: Key, w: Word, m: nat)
    requires m + 2 <= |words|
    ensures multiset(Followers(words, key, m))[w] == |OccurrencesBefore(words, key, w, m)|
  {
    if m > 0 {
      FollowersMultiplicity(words, key, w, m - 1);
      var before, now := OccurrencesBefore(words, key, w, m - 1), OccurrencesBefore(words, key, w, m);
      var hit := Bigram(words, m - 1) == key && words[m + 1] == w;
      var added: seq<Word> := if Bigram(words, m - 1) == key then [words[m + 1]] else [];
      assert multiset(Followers(words, key, m)) == multiset(Followers(words, key, m - 1)) + multiset(added);
      assert multiset(added)[w] == if hit then 1 else 0;
      forall i: nat | i in now
        ensures i in before || (hit && i == m - 1)
      {
      }
      if hit {
        assert now == before + {m - 1};
      } else {
        assert now == before;
      }
    }
  }

  /** The list of `key` holds `w` once for every occurrence of `key` followed by `w`: duplicates are kept. */
  lemma ChainMultiplicity(words: seq<Word>, key: Key, w: Word)
    requires key in Chain(words)
    ensures multiset(Chain(words)[key])[w] == |OccurrencesBefore(words, key, w, |words| - 2)|
  {
    FollowersMultiplicity(words, key, w, |words| - 2);
  }

  lemma {:induction false} FollowersLength(words: seq<Word>, key: Key, m: nat)
    requires m + 2 <= |words|
    ensures |Followers(words, key, m)| == |Occurrences(words, key, m)|
  {
    if m > 0 {
      FollowersLength(words, key, m - 1);
      if Bigram(words, m - 1) == key {
        assert Occurrences(words, key, m) == Occurrences(words, key, m - 1) + {m - 1};
      } else {
        assert Occurrences(words, key, m) == Occurrences(words, key, m - 1);
      }
    }
  }

  /** A pair occurring at two positions up to `n - 3` has at least two followers. */
  lemma RepeatedKey(words: seq<Word>, i: nat, j: nat)
    requires i != j && i + 2 < |words| && j + 2 < |words| && Bigram(words, i) == Bigram(words, j)
    ensures Bigram(words, i) in Chain(words) && |Chain(words)[Bigram(words, i)]| >= 2
  {
    var key := Bigram(words, i);
    ChainKeys(words, key);
    FollowersLength(words, key, |words| - 2);
    assert {i, j} <= Occurrences(words, key, |words| - 2);
    SubsetCard({i, j}, Occurrences(words, key, |words| - 2));
  }

  /** Lists only grow at the end: the followers of earlier occurrences come first. */
  lemma {:induction false} FollowersExtend(words: seq<Word>, key: Key, m: nat, m': nat)
    requires m <= m' && m' + 2 <= |words|
    ensures Followers(words, key, m) <= Followers(words, key, m')
    decreases m' - m
  {
    if m < m' {
      FollowersExtend(words, key, m, m' - 1);
    }
  }

  /** The sum of the lengths of the lists of `c`. */
  ghost function TotalLength(c: Dictionary): nat
    decreases |c|
  {
    if c == map[] then 0
    else
      var k :| k in c;
      |c[k]| + TotalLength(c - {k})
  }

  lemma {:induction false} TotalRemove(c: Dictionary, k: Key)
    requires k in c
    ensures TotalLength(c) == |c[k]| + TotalLength(c - {k})
    decreases |c|
  {
    var k' :| k' in c && TotalLength(c) == |c[k']| + TotalLength(c - {k'});
    if k' != k {
      assert |c - {k'}| < |c|;
      TotalRemove(c - {k'}, k);
      TotalRemove(c - {k}, k');
      assert c - {k'} - {k} == c - {k} - {k'};
    }
  }

  lemma TotalUpdate(c: Dictionary, k: Key, v: seq<Word>)
    requires k in c
    ensures TotalLength(c[k := v]) == TotalLength(c) - |c[k]| + |v|
  {
    TotalRemove(c, k);
    TotalRemove(c[k := v], k);
    assert c[k := v] - {k} == c - {k};
  }

  lemma {:induction false} TotalAllEmpty(c: Dictionary)
    requires forall k :: k in c ==> c[k] == []
    ensures TotalLength(c) == 0
    decreases |c|
  {
    if c != map[] {
      var k :| k in c;
      TotalRemove(c, k);
      TotalAllEmpty(c - {k});
    }
  }

  lemma {:induction false} PartialTotal(words: seq<Word>, m: nat)
    requires m + 2 <= |words|
    ensures TotalLength(Partial(words, m)) == m
  {
    if m == 0 {
      PartialStart(words);
      TotalAllEmpty(Partial(words, 0));
    } else {
      var p, b := Partial(words, m - 1), Bigram(words, m - 1);
      PartialStep(words, m - 1);
      var v := p[b] + [words[m + 1]];
      assert Partial(words, m) == p[b := v];
      TotalUpdate(p, b, v);
      PartialTotal(words, m - 1);
      assert TotalLength(p[b := v]) == m;
    }
  }

  /** For three words or more, the lists hold `n - 2` words in all: one per position `0 .. n - 3`. */
  lemma ChainTotal(words: seq<Word>)
    requires |words| >= 3
    ensures TotalLength(Chain(words)) == |words| - 2
  {
    PartialTotal(words, |words| - 2);
  }
}
