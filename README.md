# Markov text generator, modelled in Dafny

This project models `markov.py`, a small program that builds a second-order
Markov dictionary from a text and writes new text by a random walk over it.

- `make_chains(text)` splits the text on whitespace into `n` words. A first
  loop stores an empty list under each pair of consecutive words
  `(words[i], words[i+1])` for `i` from `0` to `n - 3`. It stops there through
  the `break` when `i + 2 == n - 1`. A second loop, over the same positions,
  appends `words[i + 2]` to that pair's list.
- `make_text(chains)` draws a start key from `sorted(chains)`. It then loops:
  it draws a word from the current key's list, appends it to the output, and
  forms the next key from the current key's second word and the drawn word.
  It stops as soon as that key is not in the dictionary. The result is the
  drawn words joined by single spaces.

Modules:

- `Outcomes` (`outcomes.dfy`): `Result<T, E>`, a value or an error of type
  `E`. It stands for a Python call that returns or raises.
- `Text` (`text.dfy`): the two string builtins the program uses.
  `Split` is `str.split()`, splitting on the characters `str.isspace` accepts.
  `Join` is `' '.join`. The lemma `SplitJoin` says they undo each other.
- `Ordering` (`ordering.dfy`): Python's `<` on strings and on pairs of
  strings, and `sorted(chains)` as the method `Sorted`. Because the order is
  strict and total, a key's position in the sorted list is the number of keys
  below it (`SortedPosition`, `PositionUnique`).
- `Chains` (`chains.dfy`): `make_chains` as the method `MakeChains`, with its
  two `while` loops and their `break`s, over a `map<(string, string), seq<string>>`
  that the loops reassign (the type `Dictionary`). Its only error is
  `IndexOutOfRange`. `Chain(words)` is the dictionary defined directly.
  Its keys are the pairs at positions `0 .. n - 3`. Under each key are the
  words that follow its occurrences, in text order. The lemmas are about
  `Chain`.
- `Generate` (`generate.dfy`): `make_text` as the method `MakeText`. Its
  `while True` loop is the method `Walk`. Its errors are `EmptyChoice` and
  `OutOfDraws`. The random source is a sequence of
  draws `draws: seq<nat>`. Each `random.choice(xs)` uses one draw `d` and
  yields `xs[d % len(xs)]`. A walk that would need more draws than it was given
  ends in `OutOfDraws`; this is how walks that never halt are represented.
  The predicates `Prefix`, `Halted`, `Stuck` and `Exhausted` say, without
  reference to the loop, what a walk may emit and how it may end.
  `WalkOutcomeUnique` and `TextOutcomeUnique` show that these predicates fix
  the result.
- `Scenarios` (`scenarios.dfy`): the docstring's text; the two-word text
  that makes `make_chains` fail; and `a b a b a b`, whose walks never halt.

Where the program's own documentation and its code disagree, the model follows
the code:

- The docstring (markov.py:38-39) shows `chains[('there','juanita')] -> [None]`.
  The code stores no end marker and never makes the text's last pair a key
  from its last position. So for that text `('there', 'juanita')` is not a
  key (`Scenarios.DocstringChains`). This agrees with the docstring's own
  `sorted(chains.keys())` example (markov.py:30-31).
- The last pair of a text is nevertheless a key when it also occurs at an
  earlier position (`a b a b`). `Chains.ChainKeys` states the exact condition.
- Line 54 reads `words[i + 2)`, which is not valid Python. The model reads it
  as `words[i + 2]`.
- With exactly two words, the first loop never reaches its `break`. The second
  loop then reads `words[2]` and raises `IndexError`. `MakeChains` returns
  `Failure(IndexOutOfRange)` in that case. With fewer than two words it returns
  an empty dictionary.
- `make_text` has no step bound. It raises `IndexError` when the dictionary is
  empty, and when it reaches a key whose list is empty. Both cases are
  `Failure(EmptyChoice)`.

## Model

| member | source | states |
|---|---|---|
| `Text.Split` | markov.py:41 | every token of `str.split()` is a non-empty run of non-whitespace characters |
| `Text.SplitJoin` | markov.py:81 | splitting `' '.join(ws)` gives back `ws` when every element of `ws` is a word |
| `Ordering.PairLessStrictTotal` | markov.py:67 | Python's `<` on pairs of strings is irreflexive, transitive and total, so `sorted` has one answer |
| `Ordering.Least` | markov.py:67 | returns the key of a non-empty set that is below every other key |
| `Ordering.Sorted` | markov.py:67 | `sorted(keys)` lists every key exactly once, in strictly ascending order |
| `Ordering.SortedPosition` | markov.py:67 | the key at position `i` of `sorted(keys)` has exactly `i` keys below it |
| `Ordering.PositionUnique` | markov.py:67 | two keys with the same number of keys below them are equal, so the drawn position fixes the start key |
| `Chains.MakeChains` | markov.py:17-59 | fails with `IndexOutOfRange` exactly when the text has two words; returns `{}` for fewer than two words; otherwise returns `Chain(words)` |
| `Chains.PartialStep` | markov.py:52-57 | one iteration of the second loop appends `words[i + 2]` to the list of the pair at `i` and changes nothing else |
| `Chains.ChainKeys` | markov.py:45-50 | a pair is a key exactly when it occurs at a position `i` with `i + 2 < n`, so the last pair is a key only if it also occurs earlier |
| `Chains.ChainListsNonEmpty` | markov.py:47-57 | no key's list is empty |
| `Chains.ChainSuccessor` | markov.py:52-57 | `w` is in a key's list exactly when `w` follows an occurrence of that key at a position up to `n - 3` |
| `Chains.ChainWords` | markov.py:54 | every stored word is a word of the text from position 2 on; no end marker is ever stored |
| `Chains.ChainMultiplicity` | markov.py:52-57 | a key's list holds `w` once for every occurrence of the key followed by `w`; duplicates are kept |
| `Chains.FollowersExtend` | markov.py:52-57 | lists only grow at the end, so followers of earlier occurrences come first (text order) |
| `Chains.RepeatedKey` | markov.py:52-57 | a pair occurring at two positions up to `n - 3` has a list of at least two words |
| `Chains.ChainTotal` | markov.py:52-57 | for three words or more, the list lengths add up to `n - 2` |
| `Generate.Choose` | markov.py:71 | `random.choice` returns an element of the list it is given |
| `Generate.NextKey` | markov.py:75-77 | the key after a step is the previous key's second word followed by the drawn word |
| `Generate.PrefixAgree` | markov.py:69-80 | two walks from the same key with the same draws emit the same words for as long as both run |
| `Generate.WalkOutcomeUnique` | markov.py:69-80 | the dictionary, start key and draws fix how the walk ends and what it emitted |
| `Generate.Walk` | markov.py:65-80 | ends in exactly one of three ways. It halts after emitting at least one word, with every key used for a draw in the dictionary and the last formed key absent. Or it meets a key with an empty list. Or it runs out of draws. Every emitted word is the one its draw selects from the current key's list |
| `Generate.MakeText` | markov.py:62-81 | an empty dictionary fails with `EmptyChoice`; otherwise the start key is `sorted(chains)[d % len(chains)]` for the first draw `d`, and the result is the walk's words joined by single spaces, or the walk's failure |
| `Generate.TextOutcomeUnique` | markov.py:62-81 | with fixed draws, `make_text` has exactly one result |
| `Generate.BuiltNeverStuck` | markov.py:71 | a walk over a dictionary built by `make_chains` never draws from an empty list |
| `Generate.EmittedFromList` | markov.py:71-73 | each emitted word is an element of the current key's list, and that key is in the dictionary |
| `Generate.GeneratedTextSplits` | markov.py:81 | over a dictionary built from a text, the generated text splits back into exactly the emitted words |
| `Scenarios.HiThereSplit` | markov.py:26 | `'hi there mary hi there juanita'` splits into its six words |
| `Scenarios.DocstringChains` | markov.py:26-39 | that text gives `('hi','there') -> ['mary','juanita']`, `('there','mary') -> ['hi']`, `('mary','hi') -> ['there']`, and `('there','juanita')` is not a key |
| `Scenarios.TwoWords` | markov.py:45-54 | `'hi there'` splits into two words, the case in which `make_chains` fails |
| `Scenarios.DocstringText` | markov.py:62-81 | over that dictionary, draws 0, 0, 0, 0, 1 give `'mary hi there juanita'` |
| `Scenarios.CycleChains` | markov.py:43-57 | `a b a b a b` gives `('a','b') -> ['a','a']` and `('b','a') -> ['b','b']` |
| `Scenarios.CycleStaysInside` | markov.py:75-80 | every key a walk over that dictionary forms is in the dictionary |
| `Scenarios.CycleNeverHalts` | markov.py:69-80 | `make_text` over that dictionary never returns text, whatever the draws |

## Left out

- `open_and_read_file` (markov.py:5-14) and the module-level script (markov.py:96-107): file I/O, a fixed file name and `print`.
- The `random` module: the pseudo-random generator and the distribution of its draws are not modelled. `random.choice(xs)` is the index `d % len(xs)` of an injected draw `d`, so every index below `len(xs)` can be drawn.
- Walks that never halt: a finite sequence of draws stands in for the random source, and `OutOfDraws` reports that the walk had not halted when the draws ran out. The source has no step bound.
- The pseudocode comments (markov.py:84-91): they are not code.
- Python's dictionary insertion order: the model's dictionary is an unordered map. The only order the source depends on is that of `sorted(chains)`, which is modelled.
- In-place list mutation: `chains[key].append(w)` is modelled as storing a new list under the key. No two keys share a list in the source, so no aliasing is lost.
- `make_text` accepts any dictionary in Python; here the values are lists of strings, which is what `make_chains` produces.
- `Generate.Walk` requires its start key to be in the dictionary, which `MakeText` guarantees by drawing it from the sorted keys, as the source does.
