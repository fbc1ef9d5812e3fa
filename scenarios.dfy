/**
 * Concrete texts: the docstring example of `make_chains`, the two-word text
 * that makes it fail, and a repetitive text whose walks never halt.
 */
module Scenarios {
  import opened Text
  import opened Ordering
  import opened Outcomes
  import opened Chains
  import opened Generate

  const HiThere: seq<Word> := ["hi", "there", "mary", "hi", "there", "juanita"]

  /** The dictionary the code builds for the docstring's text. */
  const HiThereChains: Dictionary :=
    map[("hi", "there") := ["mary", "juanita"], ("there", "mary") := ["hi"], ("mary", "hi") := ["there"]]

  /** A non-empty run of lower-case ASCII letters is a word. */
  lemma Lowercase(w: string)
    requires |w| > 0 && forall i :: 0 <= i < |w| ==> 'a' <= w[i] <= 'z'
    ensures IsWord(w)
  {
  }

  lemma JoinCons(w: string, rest: seq<string>)
    requires rest != []
    ensures Join([w] + rest) == w + " " + Join(rest)
  {
    assert ([w] + rest)[1..] == rest;
  }

  lemma JoinTail()
    ensures Join(HiThere[3..]) == "hi there juanita"
  {
    JoinCons("there", ["juanita"]);
    assert ["there"] + ["juanita"] == HiThere[4..];
    JoinCons("hi", HiThere[4..]);
    assert ["hi"] + HiThere[4..] == HiThere[3..];
  }

  lemma JoinEmitted()
    ensures Join(HiThere[2..]) == "mary hi there juanita"
  {
    JoinTail();
    JoinCons("mary", HiThere[3..]);
    assert ["mary"] + HiThere[3..] == HiThere[2..];
  }

  lemma HiThereJoin()
    ensures Join(HiThere) == "hi there mary hi there juanita"
  {
    JoinEmitted();
    JoinCons("there", HiThere[2..]);
    assert ["there"] + HiThere[2..] == HiThere[1..];
    assert Join(HiThere[1..]) == "there mary hi there juanita";
    JoinCons("hi", HiThere[1..]);
    assert ["hi"] + HiThere[1..] == HiThere;
  }

  lemma HiThereSplit()
    ensures Split("hi there mary hi there juanita") == HiThere
  {
    Lowercase("hi");
    Lowercase("there");
    Lowercase("mary");
    Lowercase("juanita");
    assert AllWords(HiThere);
    HiThereJoin();
    SplitJoin(HiThere);
  }

  lemma HiThereKeys()
    ensures BigramsBefore(HiThere, 4) == HiThereChains.Keys
  {
    var b := BigramsBefore(HiThere, 4);
    assert Bigram(HiThere, 0) == ("hi", "there") && Bigram(HiThere, 1) == ("there", "mary");
    assert Bigram(HiThere, 2) == ("mary", "hi") && Bigram(HiThere, 3) == ("hi", "there");
    assert ("hi", "there") in b && ("there", "mary") in b && ("mary", "hi") in b;
    forall k | k in b
      ensures k in HiThereChains
    {
      var i :| 0 <= i < 4 && Bigram(HiThere, i) == k;
    }
  }

  lemma HiThereFollowers()
    ensures Followers(HiThere, ("hi", "there"), 4) == ["mary", "juanita"]
    ensures Followers(HiThere, ("there", "mary"), 4) == ["hi"]
    ensures Followers(HiThere, ("mary", "hi"), 4) == ["there"]
  {
    assert Bigram(HiThere, 0) == ("hi", "there") && Bigram(HiThere, 1) == ("there", "mary");
    assert Bigram(HiThere, 2) == ("mary", "hi") && Bigram(HiThere, 3) == ("hi", "there");
    var k := ("hi", "there");
    assert Followers(HiThere, k, 1) == ["mary"];
    assert Followers(HiThere, k, 3) == ["mary"];
    k := ("there", "mary");
    assert Followers(HiThere, k, 1) == [];
    assert Followers(HiThere, k, 2) == ["hi"];
    k := ("mary", "hi");
    assert Followers(HiThere, k, 2) == [];
    assert Followers(HiThere, k, 3) == ["there"];
  }

  /**
   * `make_chains('hi there mary hi there juanita')`: three keys, the last
   * pair `('there', 'juanita')` is not one of them, and no list holds an
   * end marker.
   */
  lemma DocstringChains()
    ensures Chain(HiThere) == HiThereChains
    ensures ("there", "juanita") !in Chain(HiThere)
  {
    HiThereKeys();
    HiThereFollowers();
    var c := Chain(HiThere);
    assert c == Partial(HiThere, 4);
    assert c.Keys == HiThereChains.Keys;
    forall k | k in c
      ensures c[k] == HiThereChains[k]
    {
      assert k == ("hi", "there") || k == ("there", "mary") || k == ("mary", "hi");
      assert c[k] == Followers(HiThere, k, 4);
    }
  }

  /** `make_chains('hi there')` reads `words[2]` and fails. */
  lemma TwoWords()
    ensures Split("hi there") == ["hi", "there"]
  {
    Lowercase("hi");
    Lowercase("there");
    assert Join(["hi", "there"]) == "hi there";
    SplitJoin(["hi", "there"]);
  }

  /** `('hi', 'there')` is the smallest key, so draw 0 starts there. */
  lemma HiThereStart()
    ensures IsStart(HiThereChains, 0, ("hi", "there"))
  {
    assert !StrLess("mary", "hi") && !StrLess("there", "hi");
    var b := Below(HiThereChains.Keys, ("hi", "there"));
    forall k | k in b
      ensures false
    {
      StrLessIrreflexive("hi");
    }
    assert b == {};
  }

  /** From `('hi', 'there')`, draws 0, 0, 0, 1 go round once and leave by `'juanita'`. */
  lemma HiThereWalk()
    ensures WalkOutcome(HiThereChains, ("hi", "there"), [0, 0, 0, 1], Success(HiThere[2..]))
  {
    var c, start := HiThereChains, ("hi", "there");
    var draws: seq<nat> := [0, 0, 0, 1];
    var e := HiThere[2..];
    assert e == ["mary", "hi", "there", "juanita"];
    assert KeyAt(start, e, 0) == ("hi", "there");
    assert KeyAt(start, e, 1) == ("there", "mary");
    assert KeyAt(start, e, 2) == ("mary", "hi");
    assert KeyAt(start, e, 3) == ("hi", "there");
    assert KeyAt(start, e, 4) == ("there", "juanita");
    assert e[0] == Choose(c[("hi", "there")], draws[0]);
    assert e[1] == Choose(c[("there", "mary")], draws[1]);
    assert e[2] == Choose(c[("mary", "hi")], draws[2]);
    assert e[3] == Choose(c[("hi", "there")], draws[3]);
    assert Prefix(c, start, e, draws);
    assert Halted(c, start, e, draws);
  }

  /**
   * With draws 0, 0, 0, 0, 1 the walk over the docstring's dictionary starts
   * at `('hi', 'there')`, the smallest key, goes round once and leaves by
   * `'juanita'`.
   */
  lemma DocstringText()
    ensures TextOutcome(HiThereChains, [0, 0, 0, 0, 1], Success("mary hi there juanita"))
  {
    var draws: seq<nat> := [0, 0, 0, 0, 1];
    var e := HiThere[2..];
    HiThereStart();
    HiThereWalk();
    assert draws[1..] == [0, 0, 0, 1];
    JoinEmitted();
    assert ("hi", "there") in HiThereChains;
    assert Joined(Success(e)) == Success("mary hi there juanita");
  }

  const Cycle: seq<Word> := ["a", "b", "a", "b", "a", "b"]

  lemma CycleChains()
    ensures Chain(Cycle) == map[("a", "b") := ["a", "a"], ("b", "a") := ["b", "b"]]
  {
    var m := map[("a", "b") := ["a", "a"], ("b", "a") := ["b", "b"]];
    assert Bigram(Cycle, 0) == ("a", "b") && Bigram(Cycle, 1) == ("b", "a");
    assert Bigram(Cycle, 2) == ("a", "b") && Bigram(Cycle, 3) == ("b", "a");
    var b := BigramsBefore(Cycle, 4);
    assert ("a", "b") in b && ("b", "a") in b;
    forall k | k in b
      ensures k in m
    {
      var i :| 0 <= i < 4 && Bigram(Cycle, i) == k;
    }
    assert Followers(Cycle, ("a", "b"), 2) == ["a"];
    assert Followers(Cycle, ("a", "b"), 4) == ["a", "a"];
    assert Followers(Cycle, ("b", "a"), 1) == [];
    assert Followers(Cycle, ("b", "a"), 3) == ["b"];
    assert Followers(Cycle, ("b", "a"), 4) == ["b", "b"];
    var c := Chain(Cycle);
    assert c.Keys == m.Keys;
    forall k | k in c
      ensures c[k] == m[k]
    {
    }
  }

  /** Every key a walk over the dictionary of `a b a b a b` forms is in the dictionary. */
  lemma {:induction false} CycleStaysInside(start: Key, e: seq<Word>, draws: seq<nat>)
    requires start in Chain(Cycle) && Prefix(Chain(Cycle), start, e, draws)
    ensures KeyAt(start, e, |e|) in Chain(Cycle)
    decreases |e|
  {
    CycleChains();
    if e != [] {
      var j := |e| - 1;
      PrefixTrim(Chain(Cycle), start, e, draws, j);
      CycleStaysInside(start, e[..j], draws);
      var k := KeyAt(start, e, j);
      assert e[j] in Chain(Cycle)[k];
      NextKey(start, e, j);
    }
  }

  /** `make_text` over the dictionary of `a b a b a b` never returns, whatever the draws. */
  lemma CycleNeverHalts(draws: seq<nat>, r: Result<string, TextError>)
    requires TextOutcome(Chain(Cycle), draws, r)
    ensures r.Failure? && r.error == OutOfDraws
  {
    var c := Chain(Cycle);
    CycleChains();
    assert ("a", "b") in c;
    if draws != [] {
      var start, w :| IsStart(c, draws[0], start) && WalkOutcome(c, start, draws[1..], w) && r == Joined(w);
      var e := EndOf(c, start, draws[1..], w);
      CycleStaysInside(start, e, draws[1..]);
      BuiltNeverStuck(Cycle, start, e, draws[1..]);
    }
  }
}
