# leining-app text core in Dafny

leining-app helps a reader practise chanting the Torah. A speech recogniser
turns a recording into Hebrew text. The app then compares that text with the
reference verse, with or without the vowel points and cantillation marks
(nikud). It also decides when the reader has reached a marker word, such as the
word before an etnahta pause. A desktop front end scrolls the verse on screen in
lines of at most 40 characters, unless a single word is longer than that: such
a word gets a line of its own.

This project models the two parts of the repository that make those decisions:

- `hebrew_text.dfy`, module `HebrewText`: the six functions of `logic.py`.
  - `remove_nikud` deletes the code points U+0591 to U+05C7.
  - `normalize_hebrew` deletes nikud and collapses whitespace.
  - `split_hebrew_words` is Python's `str.split()`.
  - `compare_hebrew_texts` returns the exact-match flag and the word similarity.
  - `find_word_position` returns the index of a word.
  - `has_reached_marker` reports whether the marker occurs in the transcription.

  They are pure string functions in the source, so they are Dafny functions on
  `string`. Each string is a sequence of Unicode scalar values. A Python `str` is
  a sequence of code points and can also hold the lone surrogates U+D800 to
  U+DFFF, which a Dafny `char` cannot.
  `' '.join` and `str.strip()` are modelled alongside them (`Join`, `Strip`).
- `line_wrap.dfy`, module `LineWrap`: `TorahReader.split_into_lines` of
  `leining-app.py`. It is a loop that appends to lists and updates a counter, so
  it is a Dafny method with a `for` loop.
  - The loop invariant, `InProgress`, ties the lines emitted so far, the open line
    and the running length to the words processed.
  - The method's postcondition says the result is a greedy layout (`Greedy`).
  - `LinesDetermined` proves there is only one greedy layout of a text, so the
    postcondition fixes the result completely.

Whitespace is an abstraction. `IsSpace` lists the code points that Python 3's
`str.split()` and `str.strip()` treat as whitespace: U+0009 to U+000D,
U+001C to U+0020, U+0085, U+00A0, U+1680, U+2000 to U+200A, U+2028, U+2029,
U+202F, U+205F and U+3000. The list is fixed here. Python itself takes it from
its Unicode database.

The model follows the code in three places where a natural reading of the
app's purpose would suggest something else:

- The similarity is not a position-by-position comparison. It counts the
  transcribed words that occur anywhere in the *set* of reference words, then
  divides by the number of reference words (logic.py:84-86).
  - Word order does not matter (`SimilarityIgnoresWordOrder`, `SimilarityOfSwappedReading`).
  - A repeated word counts again, so the score can exceed 1 (`SimilarityOfRepeatedReading`).
- A reference without words gives similarity 0.0, even against an empty
  transcription, which is still an exact match (logic.py:80-81; `CompareWithItself`).
- A marker is reached when it occurs as a substring, not as a whole word
  (logic.py:136).
  - An empty marker is always reached (`EmptyMarkerReached`).
  - So is a marker that sits inside a longer word, although `find_word_position`
    does not find it (`MarkerInsideWord`).

The partial reading in demo_usage.py:39-52 has read five of the seven words of
Genesis 1:1. `SimilarityOfPrefix` gives its score: 5/7.

## Model

| member | source | states |
|---|---|---|
| HebrewText.IsNikud | logic.py:10 | definition only: a character is nikud exactly when its code point lies in U+0591 to U+05C7, both ends included, as the class of `NIKUD_PATTERN` |
| HebrewText.RemoveNikud | logic.py:10-23 | the result holds no character of U+0591 to U+05C7 and is no longer than the input |
| HebrewText.RemoveNikudCounts | logic.py:10-23 | every character outside the nikud class occurs in the result exactly as often as in the input; every nikud character occurs zero times |
| HebrewText.RemoveNikudConcat | logic.py:23 | deleting nikud acts on each part of a text separately, so the kept characters stay in their original order |
| HebrewText.RemoveNikudUnchangedIff | logic.py:23 | a text is left unchanged exactly when it holds no nikud |
| HebrewText.RemoveNikudOfJoin | logic.py:23 | deleting nikud from a line of words gives the line of the words with their nikud deleted |
| HebrewText.SplitHebrewWords | logic.py:41-51 | every word is non-empty and contains no whitespace |
| HebrewText.SplitKeepsLetters | logic.py:51 | the words, written one after another, are exactly the non-whitespace characters of the text, in order |
| HebrewText.SplitSkipsLeadingSpace | logic.py:51 | leading whitespace does not change the words |
| HebrewText.SplitSkipsTrailingSpace | logic.py:51 | trailing whitespace does not change the words |
| HebrewText.SplitAroundSpace | logic.py:51 | the words of `a + " " + b` are the words of `a` followed by the words of `b` |
| HebrewText.Join | logic.py:37 | definition only: `' '.join`, the words with one plain space between neighbours; `SplitJoin`, `JoinSplit` and `JoinWellFormed` state its properties |
| HebrewText.SplitJoin | logic.py:37 | splitting words joined by single spaces gives back the same words |
| HebrewText.JoinSplit | logic.py:37 | a text with no leading, trailing or doubled whitespace, and no whitespace but plain spaces, is the join of its own words |
| HebrewText.JoinWellFormed | logic.py:37 | joining words with single spaces gives a text with no leading, trailing or doubled whitespace |
| HebrewText.Strip | logic.py:38 | the result is no longer than the input and neither starts nor ends with whitespace |
| HebrewText.StripLeft | logic.py:38 | the result is a suffix of the input that does not start with whitespace, and everything removed is whitespace |
| HebrewText.StripRight | logic.py:38 | the result is a prefix of the input that does not end with whitespace, and everything removed is whitespace |
| HebrewText.StripEnds | logic.py:38 | a stripped text neither starts nor ends with whitespace, and a text that does neither is left unchanged |
| HebrewText.StripKeepsLetters | logic.py:38 | stripping removes only whitespace |
| HebrewText.SplitStrip | logic.py:70-71 | stripping does not change the words |
| HebrewText.Normalize | logic.py:26-38 | the result has no nikud, no leading or trailing whitespace, no whitespace but single plain spaces, and the same words as the text with its nikud deleted |
| HebrewText.NormalizeFixpointIff | logic.py:26-38 | the texts normalisation leaves unchanged are exactly those without nikud and with only single spaces between words |
| HebrewText.NormalizeIdempotent | logic.py:26-38 | normalising twice is normalising once |
| HebrewText.NormalizeKeepsLetters | logic.py:36-38 | normalisation keeps every character that is neither nikud nor whitespace, in order |
| HebrewText.NormalizeEmptyIff | logic.py:26-38 | a text normalises to the empty string exactly when it consists only of nikud and whitespace |
| HebrewText.NormalizeOfWords | logic.py:36-38 | nikud-free words joined by single spaces are their own normalisation and split back into the same words |
| HebrewText.NormalizeOfPointedWords | logic.py:36-38 | pointed words joined by single spaces normalise to the same words without nikud |
| HebrewText.PrepareForComparison | logic.py:66-71 | with nikud ignored the prepared text has no nikud and is well formed (no edge whitespace, single plain spaces); when nikud counts it is stripped, so it neither starts nor ends with whitespace |
| HebrewText.Vocabulary | logic.py:84 | definition only: `set(ref_words)`, the set of the words of the list |
| HebrewText.CountIn | logic.py:85 | the number of matched words is at most the number of transcribed words |
| HebrewText.CountInAllIff | logic.py:85 | every transcribed word is counted exactly when every one belongs to the reference vocabulary |
| HebrewText.CountInNoneIff | logic.py:85 | no transcribed word is counted exactly when none belongs to the reference vocabulary |
| HebrewText.CountInConcat | logic.py:85 | the count over two parts of the transcription is the sum of their counts |
| HebrewText.Similarity | logic.py:80-86 | 0.0 for an empty reference; otherwise similarity times the number of reference words equals the number of transcribed words found among the reference words; it lies between 0 and the ratio of transcribed to reference word counts; it is 0 exactly when no transcribed word is found, and equals that ratio exactly when every one is |
| HebrewText.CompareHebrewTexts | logic.py:54-88 | the similarity is that of the two texts' compared words; an exact match has similarity 1.0, or 0.0 when the reference has no words |
| HebrewText.ComparedWordsOf | logic.py:64-79 | the compared words are the words of the nikud-free text, or of the raw text when nikud counts |
| HebrewText.CompareExactMatchIff | logic.py:64-74 | the exact-match flag holds exactly when the two nikud-free texts have the same words, or, when nikud counts, when their stripped forms are equal |
| HebrewText.CompareWithItself | logic.py:64-88 | a text compared with itself is an exact match with similarity 1.0, or 0.0 when it has no words |
| HebrewText.SimilarityWithItself | logic.py:84-86 | words compared with themselves have similarity 1.0, or 0.0 when there are none |
| HebrewText.SimilarityEmptyReference | logic.py:80-81 | a reference with no words gives similarity 0.0 whatever the transcription |
| HebrewText.SimilarityIgnoresWordOrder | logic.py:84-86 | exchanging the two halves of a transcription does not change its similarity |
| HebrewText.SimilaritySwap | logic.py:84-86 | exchanging two parts of the transcribed words does not change the similarity |
| HebrewText.SimilarityOfRepeatedReading | logic.py:84-86 | a transcription that repeats a non-empty reference scores 2.0 |
| HebrewText.SimilarityOfDoubled | logic.py:84-86 | the reference words read twice score 2.0 |
| HebrewText.SimilarityOfSwappedReading | logic.py:64-86 | the two halves of a text read in the other order score 1.0, yet with nikud ignored they match exactly only if the word lists coincide |
| HebrewText.SimilarityOfRotation | logic.py:84-86 | a rotation of the reference words scores 1.0 |
| HebrewText.SimilarityOfPrefix | demo_usage.py:39-52 | a transcription of the first k of n reference words scores k/n |
| HebrewText.SearchForm | logic.py:103-108 | with nikud ignored the searched text has no nikud and is well formed; when nikud counts it is the raw text. has_reached_marker prepares its texts the same way (logic.py:129-134) |
| HebrewText.IndexOf | logic.py:110-114 | -1 exactly when the word is absent; otherwise the index of its first occurrence |
| HebrewText.FindWordPosition | logic.py:91-114 | -1 exactly when the prepared word is not among the words of the (nikud-free) text; otherwise the index of the first equal word |
| HebrewText.FindWordPositionNeedsOneWord | logic.py:105-114 | only a word can be found: a search word that normalises to several words or to none gives -1 |
| HebrewText.Contains | logic.py:136 | definition only: Python's `m in t` on strings, by recursion on `t`: `m` is a prefix of `t` or occurs in `t` without its first character; `ContainsIff` states its meaning |
| HebrewText.ContainsIff | logic.py:136 | Python's `m in t` holds exactly when `m` occurs at some position of `t` |
| HebrewText.HasReachedMarker | logic.py:117-136 | true exactly when the prepared marker occurs as a contiguous part of the prepared transcription |
| HebrewText.EmptyMarkerReached | logic.py:129-136 | an empty marker, or with nikud ignored one made only of nikud and whitespace, is always reached |
| HebrewText.WordsOccur | logic.py:51 | every word of a text occurs in the text |
| HebrewText.WholeWordMarkerReached | logic.py:117-136 | a marker that find_word_position finds is reached |
| HebrewText.MarkerInsideWord | logic.py:117-136 | a marker at the end of a longer word is reached, although find_word_position gives -1 for it |
| LineWrap.SplitIntoLines | leining-app.py:189-207 | every line is its words joined by single spaces, and the lines are a greedy layout of `text.split()`: see `Greedy` below |
| LineWrap.LinesDetermined | leining-app.py:189-207 | two lists of lines that both lay out the same words greedily are equal, so the postcondition of SplitIntoLines fixes its result |
| LineWrap.GreedyUnique | leining-app.py:195-205 | two greedy layouts of the same words are equal |
| LineWrap.NextWordOverflows | leining-app.py:196-202 | in a greedy layout no longer run of the words would fit on the first line |
| LineWrap.LayoutEmptyIff | leining-app.py:190-207 | a layout is empty exactly when there are no words |
| LineWrap.GreedyFacts | leining-app.py:190-207 | no words give no lines; there are at most one more lines than words; the first line is empty exactly when the first word plus one exceeds the width |
| LineWrap.FirstLineEmptyIff | leining-app.py:196-201 | the first line is empty exactly when the first word's length plus one exceeds the width |
| LineWrap.LoadPrefix | leining-app.py:196-198 | adding words to a line never lowers its running length |

The postcondition of `SplitIntoLines` speaks about the words of each output line.
`LineWords(lines)` splits every line back into its words. It is a helper of the
specification and models no code of its own.

`Greedy(words, lines, width)` says four things about the word lists of the lines:

- Written one after another, they are exactly `words`, with none lost, repeated or reordered.
- The last line is not empty. Only the first line can be empty.
- Every line fits. The first line, if it is not empty, has length plus one at
  most `width`. A later line is longer than `width` only when it holds a single word.
- Every line after the first opens with a word that would not have fitted on the line before it.

## Left out

- backend/main.py and app.py are not part of this model. They are web, UI,
  file and microphone I/O and the speech model, and their logic is calls into
  logic.py.
- leining-app.py apart from `split_into_lines` is not modelled: Tk widgets,
  pygame playback, MP3 length, and timing and scrolling in floating point.
  `get_color_for_opacity` only thresholds a float opacity.
- HebrewText.Similarity: computed as an exact real number. Python divides in
  binary floating point, so the model does not capture rounding in the last place.
- HebrewText.IsSpace: a fixed list of whitespace code points, standing in for
  Python's Unicode database.
- `NIKUD_PATTERN.sub` is modelled directly as a character filter, not through a
  regular-expression engine.
- Python's set hashing for `set(ref_words)` is not modelled. A set-membership
  test stands in for it.
- The `ignore_nikud=True` default arguments are not modelled. Every function
  takes the flag explicitly.
- The worked examples of test_logic.py and demo_usage.py are not restated on
  their literal Hebrew strings. Contracts on those strings unroll the string
  functions character by character and are too costly to prove. The general
  lemmas above (`NormalizeOfPointedWords`, `SplitJoin`, `FindWordPosition`,
  `WholeWordMarkerReached`, `SimilarityOfPrefix`) state what those examples check.
- `bidi.algorithm.get_display`, applied to each line after wrapping
  (leining-app.py:134), is a foreign call and is not modelled.
- Lone surrogate code points (U+D800 to U+DFFF), which a Python `str` can hold,
  are outside the model: a Dafny `char` is a Unicode scalar value.
