/**
 * Python's `str.split()` with no separator and `' '.join(...)`, the two
 * string builtins that `make_chains` and `make_text` call. A text is a
 * sequence of Unicode characters; a word is a non-empty run of characters
 * none of which is whitespace.
 */
module Text {

  /** The characters Python's `str.isspace` accepts, i.e. those `str.split()` splits on. */
  predicate IsSpace(c: char) {
    ('\U{0009}' <= c <= '\U{000D}') || ('\U{001C}' <= c <= '\U{0020}') ||
    c == '\U{0085}' || c == '\U{00A0}' || c == '\U{1680}' ||
    ('\U{2000}' <= c <= '\U{200A}') || c == '\U{2028}' || c == '\U{2029}' ||
    c == '\U{202F}' || c == '\U{205F}' || c == '\U{3000}'
  }

  predicate NoSpace(s: string) {
    forall i :: 0 <= i < |s| ==> !IsSpace(s[i])
  }

  /** A token `str.split()` can produce. */
  predicate IsWord(s: string) {
    |s| > 0 && NoSpace(s)
  }

  predicate AllWords(ws: seq<string>) {
    forall i :: 0 <= i < |ws| ==> IsWord(ws[i])
  }

  /**
   * Splits `s` into words, where `word` holds the characters of the word
   * being scanned when `s` begins. Runs of whitespace of any length, and
   * leading or trailing whitespace, produce no empty words.
   */
  function SplitFrom(s: string, word: string): (r: seq<string>)
    requires NoSpace(word)
    ensures AllWords(r)
    decreases |s|
  {
    if s == [] then
      (if word == [] then [] else [word])
    else if IsSpace(s[0]) then
      (if word == [] then [] else [word]) + SplitFrom(s[1..], [])
    else
      SplitFrom(s[1..], word + [s[0]])
  }

  /** `s.split()` */
  function Split(s: string): (r: seq<string>)
    ensures AllWords(r)
  {
    SplitFrom(s, [])
  }

  /** `' '.join(ws)` */
  function Join(ws: seq<string>): (s: string) {
    if ws == [] then ""
    else if |ws| == 1 then ws[0]
    else ws[0] + " " + Join(ws[1..])
  }

  /** Scanning a run of non-space characters only extends the current word. */
  lemma {:induction false} SplitFromWord(w: string, rest: string, word: string)
    requires NoSpace(word) && NoSpace(w)
    ensures SplitFrom(w + rest, word) == SplitFrom(rest, word + w)
    decreases |w|
  {
    if w == [] {
      assert w + rest == rest;
      assert word + w == word;
    } else {
      assert (w + rest)[1..] == w[1..] + rest;
      assert word + [w[0]] + w[1..] == word + w;
      SplitFromWord(w[1..], rest, word + [w[0]]);
    }
  }

  lemma {:induction false} SplitFromJoin(ws: seq<string>, word: string)
    requires ws != [] && AllWords(ws) && NoSpace(word)
    ensures SplitFrom(Join(ws), word) == [word + ws[0]] + ws[1..]
    decreases |ws|
  {
    if |ws| == 1 {
      SplitFromWord(ws[0], [], word);
      assert ws[0] + [] == ws[0];
    } else {
      var tail := " " + Join(ws[1..]);
      assert Join(ws) == ws[0] + tail;
      SplitFromWord(ws[0], tail, word);
      assert tail[1..] == Join(ws[1..]);
      SplitFromJoin(ws[1..], []);
      assert [] + ws[1][..] == ws[1];
    }
  }

  /** Joining words with single spaces and splitting again gives the words back. */
  lemma SplitJoin(ws: seq<string>)
    requires AllWords(ws)
    ensures Split(Join(ws)) == ws
  {
    if ws != [] {
      SplitFromJoin(ws, []);
      assert [] + ws[0] == ws[0];
    }
  }
}
