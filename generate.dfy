/**
 * `make_text`: a random walk over the Markov dictionary. The start key is
 * drawn from the sorted keys; each step draws a word from the current key's
 * list, emits it, and moves to the key made of the current key's second word
 * and the drawn word, until that key is not in the dictionary.
 *
 * The random source is a sequence of draws: `random.choice(xs)` with draw
 * `d` is `xs[d % |xs|]`, and each call consumes one draw. A walk that needs
 * more draws than supplied ends in `OutOfDraws`, which is how walks that
 * never halt are represented.
 */
module Generate {
  import opened Text
  import opened Ordering
  import opened Outcomes
  import opened Chains

  /**
   * What makes `make_text` fail. `EmptyChoice` is the `IndexError` Python
   * raises for `random.choice` of an empty sequence; `OutOfDraws` means the
   * supplied draws ran out before the walk halted.
   */
  datatype TextError = EmptyChoice | OutOfDraws

  /** `random.choice(xs)` when the random source yields `d`. */
  function Choose<T>(xs: seq<T>, d: nat): (x: T)
    requires |xs| > 0
    ensures x in xs
  {
    xs[d % |xs|]
  }

  /**
   * The current key before step `j` of a walk from `start` that has emitted
   * `e`: the start key, then the start key's second word with the first
   * emitted word, then the last two emitted words.
   */
  function KeyAt(start: Key, e: seq<Word>, j: nat): (k: Key)
    requires j <= |e|
  {
    if j == 0 then start
    else if j == 1 then (start.1, e[0])
    else (e[j - 2], e[j - 1])
  }

  /**
   * `e` is what the first `|e|` steps of the walk from `start` emit: before
   * each step the current key is in `chains` with a non-empty list, and the
   * word emitted is the one that step's draw selects from that list.
   */
  ghost predicate Prefix(chains: Dictionary, start: Key, e: seq<Word>, draws: seq<nat>) {
    |e| <= |draws| &&
    forall j :: 0 <= j < |e| ==>
      KeyAt(start, e, j) in chains && chains[KeyAt(start, e, j)] != [] &&
      e[j] == Choose(chains[KeyAt(start, e, j)], draws[j])
  }

  /** The walk emitted `e` and stopped because the key it formed last is not in `chains`. */
  ghost predicate Halted(chains: Dictionary, start: Key, e: seq<Word>, draws: seq<nat>) {
    Prefix(chains, start, e, draws) && |e| > 0 && KeyAt(start, e, |e|) !in chains
  }

  /** After emitting `e` the walk reaches a key whose list is empty: `random.choice` raises. */
  ghost predicate Stuck(chains: Dictionary, start: Key, e: seq<Word>, draws: seq<nat>) {
    Prefix(chains, start, e, draws) && KeyAt(start, e, |e|) in chains && chains[KeyAt(start, e, |e|)] == []
  }

  /** After emitting `e` the walk would go on, but every draw has been used. */
  ghost predicate Exhausted(chains: Dictionary, start: Key, e: seq<Word>, draws: seq<nat>) {
    Prefix(chains, start, e, draws) && |e| == |draws| &&
    KeyAt(start, e, |e|) in chains && chains[KeyAt(start, e, |e|)] != []
  }

  /** `r` is how the walk from `start` ends with these draws. */
  ghost predicate WalkOutcome(chains: Dictionary, start: Key, draws: seq<nat>, r: Result<seq<Word>, TextError>) {
    match r
    case Success(e) => Halted(chains, start, e, draws)
    case Failure(EmptyChoice) => exists e :: Stuck(chains, start, e, draws)
    case Failure(OutOfDraws) => exists e :: Exhausted(chains, start, e, draws)
  }

  /** `start` is `sorted(chains)[d % len(chains)]`: exactly `d % |chains|` keys are smaller. */
  ghost predicate IsStart(chains: Dictionary, d: nat, start: Key) {
    start in chains && |Below(chains.Keys, start)| == d % |chains|
  }

  function Joined(w: Result<seq<Word>, TextError>): (r: Result<string, TextError>) {
    match w
    case Success(e) => Success(Join(e))
    case Failure(err) => Failure(err)
  }

  /** `r` is what `make_text(chains)` returns (or raises) with these draws. */
  ghost predicate TextOutcome(chains: Dictionary, draws: seq<nat>, r: Result<string, TextError>) {
    if chains == map[] then r == Failure(EmptyChoice)
    else if draws == [] then r == Failure(OutOfDraws)
    else exists start, w :: IsStart(chains, draws[0], start) && WalkOutcome(chains, start, draws[1..], w) && r == Joined(w)
  }

  /** The next key is the current key's second word followed by the emitted word. */
  lemma NextKey(start: Key, e: seq<Word>, j: nat)
    requires j < |e|
    ensures KeyAt(start, e, j + 1) == (KeyAt(start, e, j).1, e[j])
  {
  }

  /** The key before step `j` depends on the words emitted before step `j` only. */
  lemma KeyAtPrefix(start: Key, a: seq<Word>, b: seq<Word>, j: nat)
    requires j <= |a| && j <= |b| && a[..j] == b[..j]
    ensures KeyAt(start, a, j) == KeyAt(start, b, j)
  {
    if j >= 1 {
      assert a[j - 1] == a[..j][j - 1] && b[j - 1] == b[..j][j - 1];
    }
    if j >= 2 {
      assert a[j - 2] == a[..j][j - 2] && b[j - 2] == b[..j][j - 2];
    }
  }

  /** One more step of the walk keeps `Prefix`. */
  lemma PrefixExtend(chains: Dictionary, start: Key, e: seq<Word>, draws: seq<nat>, w: Word)
    requires Prefix(chains, start, e, draws) && |e| < |draws|
    requires KeyAt(start, e, |e|) in chains && chains[KeyAt(start, e, |e|)] != []
    requires w == Choose(chains[KeyAt(start, e, |e|)], draws[|e|])
    ensures Prefix(chains, start, e + [w], draws)
    ensures KeyAt(start, e + [w], |e| + 1) == (KeyAt(start, e, |e|).1, w)
  {
    var e' := e + [w];
    forall j | 0 <= j <= |e|
      ensures KeyAt(start, e', j) == KeyAt(start, e, j)
    {
      assert e'[..j] == e[..j];
      KeyAtPrefix(start, e', e, j);
    }
    forall j | 0 <= j < |e'|
      ensures KeyAt(start, e', j) in chains && chains[KeyAt(start, e', j)] != []
      ensures e'[j] == Choose(chains[KeyAt(start, e', j)], draws[j])
    {
      if j < |e| {
        assert e'[j] == e[j];
      }
    }
  }

  /** The steps of a walk before step `k` are a walk too. */
  lemma PrefixTrim(chains: Dictionary, start: Key, e: seq<Word>, draws: seq<nat>, k: nat)
    requires Prefix(chains, start, e, draws) && k <= |e|
    ensures Prefix(chains, start, e[..k], draws)
    ensures KeyAt(start, e[..k], k) == KeyAt(start, e, k)
  {
    forall j | 0 <= j <= k
      ensures KeyAt(start, e[..k], j) == KeyAt(start, e, j)
    {
      assert e[..k][..j] == e[..j];
      KeyAtPrefix(start, e[..k], e, j);
    }
  }

  /** With the same draws, two walks from the same key agree on the steps both took. */
  lemma {:induction false} PrefixAgree(chains: Dictionary, start: Key, a: seq<Word>, b: seq<Word>, draws: seq<nat>)
    requires Prefix(chains, start, a, draws) && Prefix(chains, start, b, draws) && |a| <= |b|
    ensures a == b[..|a|]
    decreases |a|
  {
    if a != [] {
      var j := |a| - 1;
      PrefixTrim(chains, start, a, draws, j);
      PrefixAgree(chains, start, a[..j], b, draws);
      assert a[..j] == b[..j];
      KeyAtPrefix(start, a, b, j);
      assert a == a[..j] + [a[j]];
      assert b[..|a|] == b[..j] + [b[j]];
    }
  }

  /**
   * Determinism: given the dictionary, the start key and the draws, the
   * walk has exactly one outcome.
   */
  lemma WalkOutcomeUnique(chains: Dictionary, start: Key, draws: seq<nat>, r1: Result<seq<Word>, TextError>, r2: Result<seq<Word>, TextError>)
    requires WalkOutcome(chains, start, draws, r1) && WalkOutcome(chains, start, draws, r2)
    ensures r1 == r2
  {
    var a := EndOf(chains, start, draws, r1);
    var b := EndOf(chains, start, draws, r2);
    if |a| < |b| {
      ShorterContinues(chains, start, a, b, draws);
    } else if |b| < |a| {
      ShorterContinues(chains, start, b, a, draws);
    } else {
      PrefixAgree(chains, start, a, b, draws);
      assert a == b;
      SameEnd(chains, KeyAt(start, a, |a|), a, r1, r2);
    }
  }

  /** Two outcomes that emitted the same words and reached the same key are the same outcome. */
  lemma SameEnd(chains: Dictionary, k: Key, e: seq<Word>, r1: Result<seq<Word>, TextError>, r2: Result<seq<Word>, TextError>)
    requires r1.Success? <==> k !in chains
    requires r2.Success? <==> k !in chains
    requires r1.Success? ==> r1.value == e
    requires r2.Success? ==> r2.value == e
    requires r1 == Failure(EmptyChoice) <==> k in chains && chains[k] == []
    requires r2 == Failure(EmptyChoice) <==> k in chains && chains[k] == []
    ensures r1 == r2
  {
    if r1.Failure? {
      var e1, e2 := r1.error, r2.error;
      assert e1 == EmptyChoice <==> e2 == EmptyChoice;
      assert e1 == e2;
    }
  }

  /** A walk that took fewer steps than another one with the same draws did not end by halting or raising. */
  lemma ShorterContinues(chains: Dictionary, start: Key, a: seq<Word>, b: seq<Word>, draws: seq<nat>)
    requires Prefix(chains, start, a, draws) && Prefix(chains, start, b, draws) && |a| < |b|
    ensures KeyAt(start, a, |a|) in chains && chains[KeyAt(start, a, |a|)] != [] && |a| < |draws|
  {
    PrefixAgree(chains, start, a, b, draws);
    assert a[..|a|] == b[..|a|];
    KeyAtPrefix(start, a, b, |a|);
  }

  /** The words a walk emitted before it ended, whichever way it ended. */
  lemma EndOf(chains: Dictionary, start: Key, draws: seq<nat>, r: Result<seq<Word>, TextError>) returns (e: seq<Word>)
    requires WalkOutcome(chains, start, draws, r)
    ensures Prefix(chains, start, e, draws)
    ensures r.Success? <==> KeyAt(start, e, |e|) !in chains
    ensures r.Success? ==> r.value == e
    ensures r == Failure(EmptyChoice) <==> KeyAt(start, e, |e|) in chains && chains[KeyAt(start, e, |e|)] == []
    ensures r == Failure(OutOfDraws) <==> KeyAt(start, e, |e|) in chains && chains[KeyAt(start, e, |e|)] != []
    ensures r == Failure(OutOfDraws) ==> |e| == |draws|
  {
    match r
    case Success(v) => e := v;
    case Failure(err) =>
      if err == EmptyChoice {
        e :| Stuck(chains, start, e, draws);
      } else {
        e :| Exhausted(chains, start, e, draws);
      }
  }

  /**
   * The `while True` loop of `make_text`: from `start`, draw a word from the
   * current key's list, append it, and move to the next key, until that key
   * is not in `chains`.
   */
  method Walk(chains: Dictionary, start: Key, draws: seq<nat>) returns (r: Result<seq<Word>, TextError>)
    requires start in chains
    ensures WalkOutcome(chains, start, draws, r)
  {
    var words: seq<Word> := [];
    var current := start;
    while true
      invariant Prefix(chains, start, words, draws)
      invariant current == KeyAt(start, words, |words|) && current in chains
      decreases |draws| - |words|
    {
      var options := chains[current];
      if options == [] {
        r := Failure(EmptyChoice);
        assert Stuck(chains, start, words, draws);
        return;
      }
      if |words| == |draws| {
        r := Failure(OutOfDraws);
        assert Exhausted(chains, start, words, draws);
        return;
      }
      var chosen := Choose(options, draws[|words|]);
      PrefixExtend(chains, start, words, draws, chosen);
      words := words + [chosen];
      current := (current.1, chosen);
      if current !in chains {
        break;
      }
    }
    r := Success(words);
  }

  /**
   * `make_text(chains)`: draw the start key from `sorted(chains)`, walk, and
   * join the emitted words with single spaces.
   */
  method MakeText(chains: Dictionary, draws: seq<nat>) returns (r: Result<string, TextError>)
    ensures TextOutcome(chains, draws, r)
  {
    if chains == map[] {
      return Failure(EmptyChoice);
    }
    var keys := Sorted(chains.Keys);
    if draws == [] {
      return Failure(OutOfDraws);
    }
    assert keys != [] by {
      var k :| k in chains;
      assert k in keys;
    }
    var start := Choose(keys, draws[0]);
    SortedPosition(chains.Keys, keys, draws[0] % |keys|);
    assert |keys| == |chains| by {
      AscendingCard(keys);
      assert (set i | 0 <= i < |keys| :: keys[i]) == chains.Keys;
    }
    var w := Walk(chains, start, draws[1..]);
    r := Joined(w);
    assert IsStart(chains, draws[0], start);
  }

  /** Determinism of `make_text`: the dictionary and the draws fix the result. */
  lemma TextOutcomeUnique(chains: Dictionary, draws: seq<nat>, r1: Result<string, TextError>, r2: Result<string, TextError>)
    requires TextOutcome(chains, draws, r1) && TextOutcome(chains, draws, r2)
    ensures r1 == r2
  {
    if chains != map[] && draws != [] {
      var s1, w1 :| IsStart(chains, draws[0], s1) && WalkOutcome(chains, s1, draws[1..], w1) && r1 == Joined(w1);
      var s2, w2 :| IsStart(chains, draws[0], s2) && WalkOutcome(chains, s2, draws[1..], w2) && r2 == Joined(w2);
      PositionUnique(chains.Keys, s1, s2);
      WalkOutcomeUnique(chains, s1, draws[1..], w1, w2);
    }
  }

  /** A dictionary built by `make_chains` has no empty list, so its walks never raise. */
  lemma BuiltNeverStuck(words: seq<Word>, start: Key, e: seq<Word>, draws: seq<nat>)
    ensures !Stuck(Chain(words), start, e, draws)
  {
    if Prefix(Chain(words), start, e, draws) && KeyAt(start, e, |e|) in Chain(words) {
      ChainListsNonEmpty(words, KeyAt(start, e, |e|));
    }
  }

  /** Every word a walk emits is in the list of the key it was drawn for. */
  lemma EmittedFromList(chains: Dictionary, start: Key, e: seq<Word>, draws: seq<nat>, j: nat)
    requires Prefix(chains, start, e, draws) && j < |e|
    ensures KeyAt(start, e, j) in chains && e[j] in chains[KeyAt(start, e, j)]
  {
  }

  /**
   * Over a dictionary built from `text`, the generated text splits back
   * into the emitted words: each one is a word of `text`.
   */
  lemma GeneratedTextSplits(text: string, start: Key, e: seq<Word>, draws: seq<nat>)
    requires Prefix(Chain(Split(text)), start, e, draws)
    ensures Split(Join(e)) == e
  {
    var words := Split(text);
    forall j | 0 <= j < |e|
      ensures IsWord(e[j])
    {
      ChainWords(words, KeyAt(start, e, j), e[j]);
    }
    SplitJoin(e);
  }
}
