/**
 * The line layout of the scrolling reader (leining-app.py:189-207,
 * `TorahReader.split_into_lines`): the text's words are laid out greedily,
 * from the first word to the last, on lines of at most `charsPerLine`
 * characters, except that a word longer than that gets a line of its own.
 *
 * The loop keeps a running length that charges every word its length plus
 * one for a separating space, except the first word of a line opened by a
 * break, which is charged its length alone. So the first line of the layout
 * pays one character more than its text, and the later lines pay exactly
 * their text. When even the first word does not fit on the first line, the
 * loop emits an empty first line before it.
 */
module LineWrap {
  import opened HebrewText

  /** The words of every line of a layout. */
  function LineWords(lines: seq<string>): (groups: seq<seq<string>>)
    ensures |groups| == |lines|
    ensures forall i :: 0 <= i < |lines| ==> groups[i] == SplitHebrewWords(lines[i])
  {
    seq(|lines|, i requires 0 <= i < |lines| => SplitHebrewWords(lines[i]))
  }

  /**
   * What the running length of leining-app.py:193-202 amounts to for the
   * non-empty words `g` of line number `i`: the text of the line, plus one on
   * the first line.
   */
  function Load(i: nat, g: seq<string>): int {
    |Join(g)| + (if i == 0 then 1 else 0)
  }

  /**
   * Line number `i` keeps within `width`: the first line may be empty; a
   * later line is never empty, and exceeds the width only when it holds a
   * single word.
   */
  predicate Fits(i: nat, g: seq<string>, width: int) {
    if i == 0 then g == [] || Load(0, g) <= width
    else g != [] && (|g| == 1 || Load(i, g) <= width)
  }

  /**
   * `groups` lays out `words` greedily in lines of `width` characters: all
   * the words in order, every line fits, the last line is not empty, and the
   * first word of each line would not have fitted on the line before it.
   */
  predicate Greedy(words: seq<string>, groups: seq<seq<string>>, width: int) {
    GreedyFrom(words, groups, width, 0)
  }

  /** `Greedy` for lines numbered from `start` on. */
  predicate GreedyFrom(words: seq<string>, groups: seq<seq<string>>, width: int, start: nat) {
    && Flatten(groups) == words
    && (groups != [] ==> groups[|groups| - 1] != [])
    && (forall i :: 0 <= i < |groups| ==> Fits(start + i, groups[i], width))
    && (forall i :: 0 < i < |groups| ==> BreaksBefore(groups, start, i, width))
  }

  /** Line `i` opens with a word that would not have fitted at the end of line `i - 1`. */
  predicate BreaksBefore(groups: seq<seq<string>>, start: nat, i: nat, width: int)
    requires 0 < i < |groups|
  {
    groups[i] != [] && width < Load(start + i - 1, groups[i - 1] + [groups[i][0]])
  }

  /** `split_into_lines(text, charsPerLine)`. */
  method SplitIntoLines(text: string, charsPerLine: int) returns (lines: seq<string>)
    ensures forall i :: 0 <= i < |lines| ==> lines[i] == Join(SplitHebrewWords(lines[i]))
    ensures Greedy(SplitHebrewWords(text), LineWords(lines), charsPerLine)
  {
    var words := SplitHebrewWords(text);
    lines := [];
    var currentLine: seq<string> := [];
    var currentLength := 0;
    ghost var groups: seq<seq<string>> := [];
    Started(words, charsPerLine);
    for k := 0 to |words|
      invariant InProgress(words[..k], groups, lines, currentLine, currentLength, charsPerLine)
    {
      var word := words[k];
      if currentLength + |word| + 1 <= charsPerLine {
        ExtendLine(words, k, groups, lines, currentLine, currentLength, charsPerLine);
        currentLine := currentLine + [word];
        currentLength := currentLength + |word| + 1;
      } else {
        BreakLine(words, k, groups, lines, currentLine, currentLength, charsPerLine);
        lines := lines + [Join(currentLine)];
        groups := groups + [currentLine];
        currentLine := [word];
        currentLength := |word|;
      }
    }
    LastLine(words, groups, lines, currentLine, currentLength, charsPerLine);
    if currentLine != [] {
      lines := lines + [Join(currentLine)];
      groups := groups + [currentLine];
    }
    Finished(words, groups, lines, charsPerLine);
  }

  /**
   * The state of the loop of leining-app.py:195-202 after the words `done`:
   * `lines` are the joins of the closed lines `groups`, `current` holds the
   * words of the open line, and `length` is the loop's running length.
   */
  ghost predicate InProgress(done: seq<string>, groups: seq<seq<string>>, lines: seq<string>,
                             current: seq<string>, length: int, width: int)
  {
    && |groups| == |lines|
    && (forall i :: 0 <= i < |lines| ==> lines[i] == Join(groups[i]))
    && Flatten(groups) + current == done
    && (forall i :: 0 <= i < |groups| ==> AllWords(groups[i]))
    && AllWords(current)
    && (groups != [] ==> current != [])
    && length == (if current == [] then 0 else Load(|groups|, current))
    && (forall i :: 0 <= i < |groups| ==> Fits(i, groups[i], width))
    && Fits(|groups|, current, width)
    && (forall i :: 0 < i < |groups| ==> BreaksBefore(groups, 0, i, width))
    && (groups != [] ==> width < Load(|groups| - 1, groups[|groups| - 1] + [current[0]]))
  }

  /** Before the first word there are no lines and the open line is empty. */
  lemma Started(words: seq<string>, width: int)
    ensures InProgress(words[..0], [], [], [], 0, width)
  {
    assert words[..0] == [];
  }

  /** The next word fits: it joins the open line. */
  lemma ExtendLine(words: seq<string>, k: nat, groups: seq<seq<string>>, lines: seq<string>,
                   current: seq<string>, length: int, width: int)
    requires AllWords(words) && k < |words|
    requires InProgress(words[..k], groups, lines, current, length, width)
    requires length + |words[k]| + 1 <= width
    ensures InProgress(words[..k + 1], groups, lines, current + [words[k]], length + |words[k]| + 1, width)
  {
    var word := words[k];
    assert IsWord(word);
    assert words[..k + 1] == words[..k] + [word];
    LoadSnoc(|groups|, current, word);
    assert AllWords(current + [word]) by {
      forall j | 0 <= j < |current| + 1 ensures IsWord((current + [word])[j]) {
        if j < |current| { assert (current + [word])[j] == current[j]; }
      }
    }
  }

  /** The next word does not fit: the open line is closed and the word opens the next one. */
  lemma BreakLine(words: seq<string>, k: nat, groups: seq<seq<string>>, lines: seq<string>,
                  current: seq<string>, length: int, width: int)
    requires AllWords(words) && k < |words|
    requires InProgress(words[..k], groups, lines, current, length, width)
    requires width < length + |words[k]| + 1
    ensures InProgress(words[..k + 1], groups + [current], lines + [Join(current)], [words[k]], |words[k]|, width)
  {
    var word := words[k];
    assert IsWord(word);
    assert words[..k + 1] == words[..k] + [word];
    LoadSnoc(|groups|, current, word);
    FlattenSnoc(groups, current);
    assert Flatten(groups + [current]) + [word] == words[..k + 1];
    BreaksBeforeSnoc(groups, current, width);
    CloseLine(groups, lines, current, width);
    assert Load(|groups| + 1, [word]) == |word|;
  }

  /** Closing the open line extends the closed lines by its words and its join. */
  lemma CloseLine(groups: seq<seq<string>>, lines: seq<string>, current: seq<string>, width: int)
    requires |groups| == |lines|
    requires forall i :: 0 <= i < |lines| ==> lines[i] == Join(groups[i])
    requires forall i :: 0 <= i < |groups| ==> AllWords(groups[i]) && Fits(i, groups[i], width)
    requires AllWords(current) && Fits(|groups|, current, width)
    ensures var groups', lines' := groups + [current], lines + [Join(current)];
      && (forall i :: 0 <= i < |lines'| ==> lines'[i] == Join(groups'[i]))
      && (forall i :: 0 <= i < |groups'| ==> AllWords(groups'[i]) && Fits(i, groups'[i], width))
  {
    var groups', lines' := groups + [current], lines + [Join(current)];
    forall i | 0 <= i < |groups'| ensures AllWords(groups'[i]) && Fits(i, groups'[i], width) {
      if i < |groups| { assert groups'[i] == groups[i]; }
    }
    forall i | 0 <= i < |lines'| ensures lines'[i] == Join(groups'[i]) {
      if i < |lines| { assert lines'[i] == lines[i]; }
    }
  }

  /** After the last word, closing the open line, if any, completes the layout. */
  lemma LastLine(words: seq<string>, groups: seq<seq<string>>, lines: seq<string>,
                 current: seq<string>, length: int, width: int)
    requires InProgress(words[..|words|], groups, lines, current, length, width)
    ensures current == [] ==> Complete(words, groups, lines, width)
    ensures current != [] ==> Complete(words, groups + [current], lines + [Join(current)], width)
  {
    assert words[..|words|] == words;
    if current != [] {
      FlattenSnoc(groups, current);
      BreaksBeforeSnoc(groups, current, width);
      CloseLine(groups, lines, current, width);
    }
  }

  /** The loop's closed lines `groups`, joined into `lines`, lay out all of `words`. */
  ghost predicate Complete(words: seq<string>, groups: seq<seq<string>>, lines: seq<string>, width: int) {
    && |groups| == |lines|
    && (forall i :: 0 <= i < |lines| ==> lines[i] == Join(groups[i]))
    && (forall i :: 0 <= i < |groups| ==> AllWords(groups[i]))
    && Greedy(words, groups, width)
  }

  /** After the last word the closed lines are the layout. */
  lemma Finished(words: seq<string>, groups: seq<seq<string>>, lines: seq<string>, width: int)
    requires Complete(words, groups, lines, width)
    ensures forall i :: 0 <= i < |lines| ==> lines[i] == Join(SplitHebrewWords(lines[i]))
    ensures Greedy(words, LineWords(lines), width)
  {
    forall i | 0 <= i < |lines| ensures SplitHebrewWords(lines[i]) == groups[i] {
      SplitJoin(groups[i]);
    }
    assert LineWords(lines) == groups;
  }

  lemma {:induction false} FlattenSnoc(groups: seq<seq<string>>, g: seq<string>)
    ensures Flatten(groups + [g]) == Flatten(groups) + g
  {
    if groups != [] {
      assert (groups + [g])[1..] == groups[1..] + [g];
      FlattenSnoc(groups[1..], g);
    }
  }

  /** A line appended to a layout whose breaks are all forced keeps them so. */
  lemma BreaksBeforeSnoc(groups: seq<seq<string>>, g: seq<string>, width: int)
    requires forall i :: 0 < i < |groups| ==> BreaksBefore(groups, 0, i, width)
    requires groups != [] ==> g != [] && width < Load(|groups| - 1, groups[|groups| - 1] + [g[0]])
    ensures forall i :: 0 < i < |groups| + 1 ==> BreaksBefore(groups + [g], 0, i, width)
  {
    forall i | 0 < i < |groups| + 1 ensures BreaksBefore(groups + [g], 0, i, width) {
      if i < |groups| {
        assert BreaksBefore(groups, 0, i, width);
      }
    }
  }

  /** One more word on a line costs its length and a space. */
  lemma LoadSnoc(i: nat, g: seq<string>, w: string)
    requires AllWords(g) && IsWord(w)
    ensures Load(i, g + [w]) == if g == [] then |w| + (if i == 0 then 1 else 0) else Load(i, g) + |w| + 1
  {
    if g == [] {
      assert g + [w] == [w];
    } else {
      JoinAppend(g, [w]);
    }
  }

  // ---------------------------------------------------------------------------
  // What a greedy layout is, independently of the loop that builds it
  // ---------------------------------------------------------------------------

  /** The layout is determined: two lists of lines that both lay out the words greedily are equal. */
  lemma LinesDetermined(words: seq<string>, lines1: seq<string>, lines2: seq<string>, width: int)
    requires forall i :: 0 <= i < |lines1| ==> lines1[i] == Join(SplitHebrewWords(lines1[i]))
    requires forall i :: 0 <= i < |lines2| ==> lines2[i] == Join(SplitHebrewWords(lines2[i]))
    requires Greedy(words, LineWords(lines1), width) && Greedy(words, LineWords(lines2), width)
    ensures lines1 == lines2
  {
    GreedyUnique(words, LineWords(lines1), LineWords(lines2), width, 0);
    forall i | 0 <= i < |lines1| ensures lines1[i] == lines2[i] {
      assert LineWords(lines1)[i] == LineWords(lines2)[i];
    }
  }

  /** Two greedy layouts of the same words from the same line on are equal. */
  lemma {:induction false} GreedyUnique(words: seq<string>, a: seq<seq<string>>, b: seq<seq<string>>, width: int, start: nat)
    requires GreedyFrom(words, a, width, start) && GreedyFrom(words, b, width, start)
    ensures a == b
    decreases |a|
  {
    LayoutEmptyIff(words, a, width, start);
    LayoutEmptyIff(words, b, width, start);
    if a != [] {
      FirstLinesAgree(words, a, b, width, start);
      LayoutTail(words, a, width, start);
      LayoutTail(words, b, width, start);
      GreedyUnique(words[|a[0]|..], a[1..], b[1..], width, start + 1);
      assert a == [a[0]] + a[1..];
      assert b == [b[0]] + b[1..];
    }
  }

  /** Two greedy layouts of the same words open with the same line. */
  lemma FirstLinesAgree(words: seq<string>, a: seq<seq<string>>, b: seq<seq<string>>, width: int, start: nat)
    requires GreedyFrom(words, a, width, start) && GreedyFrom(words, b, width, start)
    requires a != [] && b != []
    ensures a[0] == b[0]
  {
    LayoutTail(words, a, width, start);
    LayoutTail(words, b, width, start);
    NextWordOverflows(words, a, width, start);
    NextWordOverflows(words, b, width, start);
    assert Fits(start, b[0], width);
    assert Fits(start, a[0], width);
  }

  /**
   * Greedy means maximal: no longer run of the words than the first line
   * would have fitted there.
   */
  lemma NextWordOverflows(words: seq<string>, a: seq<seq<string>>, width: int, start: nat)
    requires GreedyFrom(words, a, width, start) && a != []
    ensures forall m :: |a[0]| < m <= |words| ==> !Fits(start, words[..m], width)
  {
    var g := a[0];
    LayoutTail(words, a, width, start);
    if |g| < |words| {
      var rest := words[|g|..];
      LayoutEmptyIff(rest, a[1..], width, start + 1);
      assert BreaksBefore(a, start, 1, width);
      var w := a[1][0];
      assert a[1..][0] == a[1];
      assert rest == a[1] + Flatten(a[2..]) by { assert a[1..][1..] == a[2..]; }
      assert words[..|g| + 1] == g + [w];
      assert Fits(start, g, width);
      forall m | |g| < m <= |words| ensures !Fits(start, words[..m], width) {
        assert words[..m][..|g| + 1] == words[..|g| + 1];
        LoadPrefix(start, words[..m], |g| + 1);
      }
    }
  }

  /** The rest of a layout after its first line lays out the rest of the words, from the next line on. */
  lemma LayoutTail(words: seq<string>, groups: seq<seq<string>>, width: int, start: nat)
    requires GreedyFrom(words, groups, width, start) && groups != []
    ensures |groups[0]| <= |words| && words[..|groups[0]|] == groups[0]
    ensures GreedyFrom(words[|groups[0]|..], groups[1..], width, start + 1)
  {
    var tail := groups[1..];
    assert words == groups[0] + Flatten(tail);
    assert words[|groups[0]|..] == Flatten(tail);
    forall i | 0 <= i < |tail| ensures Fits(start + 1 + i, tail[i], width) {
      assert Fits(start + (i + 1), groups[i + 1], width);
    }
    var next := start + 1;
    forall i | 0 < i < |tail| ensures BreaksBefore(tail, next, i, width) {
      assert BreaksBefore(groups, start, i + 1, width);
    }
  }

  /** A layout is empty exactly when there are no words. */
  lemma LayoutEmptyIff(words: seq<string>, groups: seq<seq<string>>, width: int, start: nat)
    requires GreedyFrom(words, groups, width, start)
    ensures groups == [] <==> words == []
  {
    FlattenEmptyIff(groups);
  }

  lemma {:induction false} FlattenEmptyIff(groups: seq<seq<string>>)
    ensures Flatten(groups) == [] <==> forall i :: 0 <= i < |groups| ==> groups[i] == []
  {
    if groups != [] {
      FlattenEmptyIff(groups[1..]);
      assert forall i :: 0 < i < |groups| ==> groups[i] == groups[1..][i - 1];
    }
  }

  /** A line's cost only grows as words are added to it. */
  lemma LoadPrefix(i: nat, h: seq<string>, m: nat)
    requires 1 <= m <= |h|
    ensures Load(i, h[..m]) <= Load(i, h)
  {
    if m < |h| {
      assert h == h[..m] + h[m..];
      JoinAppend(h[..m], h[m..]);
    } else {
      assert h[..m] == h;
    }
  }

  /**
   * Facts about every greedy layout: no words give no lines, the lines
   * number at most one more than the words, and the first line is empty
   * exactly when the first word with its space is wider than the line.
   */
  lemma GreedyFacts(words: seq<string>, groups: seq<seq<string>>, width: int)
    requires Greedy(words, groups, width)
    ensures groups == [] <==> words == []
    ensures |groups| <= |words| + 1
    ensures words != [] ==> (groups[0] == [] <==> width < |words[0]| + 1)
  {
    LayoutEmptyIff(words, groups, width, 0);
    if groups != [] {
      LayoutTail(words, groups, width, 0);
      FlattenAtLeast(groups[1..]);
      if words != [] {
        FirstLineEmptyIff(words, groups, width);
      }
    }
  }

  lemma FirstLineEmptyIff(words: seq<string>, groups: seq<seq<string>>, width: int)
    requires Greedy(words, groups, width) && words != [] && groups != []
    ensures groups[0] == [] <==> width < |words[0]| + 1
  {
    LayoutTail(words, groups, width, 0);
    var g := groups[0];
    assert Fits(0, g, width);
    if g == [] {
      assert words == Flatten(groups[1..]);
      LayoutEmptyIff(words, groups[1..], width, 1);
      assert BreaksBefore(groups, 0, 1, width);
      assert groups[1..][0] == groups[1];
      assert words[0] == groups[1][0];
      assert [] + [groups[1][0]] == [words[0]];
    } else {
      LoadPrefix(0, g, 1);
      assert g[..1] == [words[0]];
    }
  }

  lemma {:induction false} FlattenAtLeast(groups: seq<seq<string>>)
    requires forall i :: 0 <= i < |groups| ==> groups[i] != []
    ensures |groups| <= |Flatten(groups)|
  {
    if groups != [] {
      assert groups[0] != [];
      FlattenAtLeast(groups[1..]);
    }
  }
}
