/**
 * The Hebrew text-processing helpers of logic.py: deleting nikud, normalising
 * whitespace, splitting into words, comparing a transcription with a reference,
 * locating a word and detecting a marker.  Every operation of the source is a
 * pure function on strings, so every one is a Dafny function on `string`
 * (`seq<char>`, one element per Unicode code point, as a Python `str`).
 */
module HebrewText {

  // ---------------------------------------------------------------------------
  // Character classes
  // ---------------------------------------------------------------------------

  /** NIKUD_PATTERN's class, U+0591 to U+05C7: Hebrew points, cantillation marks and punctuation. */
  predicate IsNikud(c: char) {
    '\U{0591}' <= c <= '\U{05C7}'
  }

  /**
   * The code points that Python's `str.split()` and `str.strip()` (both called
   * without arguments) treat as whitespace: tab, newline, vertical tab, form
   * feed, carriage return, the four information separators, space, NEL,
   * no-break space and the Unicode space separators and line/paragraph
   * separators.
   */
  predicate IsSpace(c: char) {
    ('\U{0009}' <= c <= '\U{000D}') || ('\U{001C}' <= c <= '\U{0020}') ||
    c == '\U{0085}' || c == '\U{00A0}' || c == '\U{1680}' ||
    ('\U{2000}' <= c <= '\U{200A}') || c == '\U{2028}' || c == '\U{2029}' ||
    c == '\U{202F}' || c == '\U{205F}' || c == '\U{3000}'
  }

  predicate NoNikud(s: string) {
    forall i :: 0 <= i < |s| ==> !IsNikud(s[i])
  }

  /** A word as `str.split()` produces it: non-empty and free of whitespace. */
  predicate IsWord(w: string) {
    w != [] && forall i :: 0 <= i < |w| ==> !IsSpace(w[i])
  }

  predicate AllWords(ws: seq<string>) {
    forall k :: 0 <= k < |ws| ==> IsWord(ws[k])
  }

  /**
   * The shape of a normalised text: no leading or trailing whitespace, the
   * only whitespace character is the plain space, and no two spaces are adjacent.
   */
  predicate WellFormed(s: string) {
    (s != [] ==> !IsSpace(s[0]) && !IsSpace(s[|s| - 1])) &&
    (forall i :: 0 <= i < |s| && IsSpace(s[i]) ==> s[i] == ' ') &&
    (forall i :: 0 <= i < |s| - 1 && IsSpace(s[i]) ==> !IsSpace(s[i + 1]))
  }

  /** The characters of `s` that are not whitespace, in their order. */
  function NonSpace(s: string): string {
    if s == [] then []
    else if IsSpace(s[0]) then NonSpace(s[1..])
    else [s[0]] + NonSpace(s[1..])
  }

  /**
   * The sequences of `xss` written one after another, with no separator: the
   * letters of a list of words, or the words of a list of lines.
   */
  function Flatten<T>(xss: seq<seq<T>>): seq<T> {
    if xss == [] then [] else xss[0] + Flatten(xss[1..])
  }

  // ---------------------------------------------------------------------------
  // remove_nikud (logic.py:10-23)
  // ---------------------------------------------------------------------------

  /** `NIKUD_PATTERN.sub('', text)`: deletes every character of the nikud class. */
  function RemoveNikud(s: string): (r: string)
    ensures |r| <= |s|
    ensures NoNikud(r)
  {
    if s == [] then []
    else if IsNikud(s[0]) then RemoveNikud(s[1..])
    else [s[0]] + RemoveNikud(s[1..])
  }

  /** Every character outside the nikud class is kept as often as it occurs, and every nikud character is dropped. */
  lemma {:induction false} RemoveNikudCounts(s: string)
    ensures forall c :: multiset(RemoveNikud(s))[c] == if IsNikud(c) then 0 else multiset(s)[c]
  {
    if s != [] {
      assert s == [s[0]] + s[1..];
      RemoveNikudCounts(s[1..]);
      if !IsNikud(s[0]) {
        assert RemoveNikud(s) == [s[0]] + RemoveNikud(s[1..]);
      }
    }
  }

  lemma RemoveNikudAroundSpace(a: string, b: string)
    ensures RemoveNikud(a + " " + b) == RemoveNikud(a) + " " + RemoveNikud(b)
  {
    RemoveNikudConcat(a, " " + b);
    RemoveNikudConcat(" ", b);
    assert a + " " + b == a + (" " + b);
  }

  /** Deleting nikud acts on each part of a text separately, so it keeps the order of what it keeps. */
  lemma {:induction false} RemoveNikudConcat(a: string, b: string)
    ensures RemoveNikud(a + b) == RemoveNikud(a) + RemoveNikud(b)
  {
    if a == [] {
      assert a + b == b;
    } else {
      assert (a + b)[0] == a[0];
      assert (a + b)[1..] == a[1..] + b;
      RemoveNikudConcat(a[1..], b);
    }
  }

  /** Nikud removed from each word separately. */
  function RemoveNikudEach(ws: seq<string>): (r: seq<string>)
    ensures |r| == |ws|
    ensures forall k :: 0 <= k < |ws| ==> r[k] == RemoveNikud(ws[k])
  {
    if ws == [] then [] else [RemoveNikud(ws[0])] + RemoveNikudEach(ws[1..])
  }

  /** Deleting nikud from a line of words is deleting it from each word. */
  lemma {:induction false} RemoveNikudOfJoin(ws: seq<string>)
    ensures RemoveNikud(Join(ws)) == Join(RemoveNikudEach(ws))
  {
    if |ws| > 1 {
      RemoveNikudOfJoin(ws[1..]);
      RemoveNikudAroundSpace(ws[0], Join(ws[1..]));
      assert RemoveNikudEach(ws)[1..] == RemoveNikudEach(ws[1..]);
    }
  }

  /** A text is left unchanged exactly when it holds no nikud. */
  lemma {:induction false} RemoveNikudUnchangedIff(s: string)
    ensures RemoveNikud(s) == s <==> NoNikud(s)
  {
    if NoNikud(s) && s != [] {
      RemoveNikudUnchangedIff(s[1..]);
      assert NoNikud(s[1..]);
    }
  }

  // ---------------------------------------------------------------------------
  // split_hebrew_words / str.split() (logic.py:41-51)
  // ---------------------------------------------------------------------------

  /** The length of the run of non-whitespace characters that starts `s`. */
  function TokenEnd(s: string): (n: nat)
    ensures n <= |s|
    ensures forall i :: 0 <= i < n ==> !IsSpace(s[i])
    ensures n < |s| ==> IsSpace(s[n])
  {
    if s == [] || IsSpace(s[0]) then 0 else 1 + TokenEnd(s[1..])
  }

  /** The leading run of `a + b` is that of `a` when it ends inside `a` or `b` starts with whitespace. */
  lemma {:induction false} TokenEndConcat(a: string, b: string)
    requires TokenEnd(a) < |a| || b == [] || IsSpace(b[0])
    ensures TokenEnd(a + b) == TokenEnd(a)
  {
    if a == [] {
      assert a + b == b;
    } else {
      assert (a + b)[0] == a[0];
      if !IsSpace(a[0]) {
        assert (a + b)[1..] == a[1..] + b;
        TokenEndConcat(a[1..], b);
      }
    }
  }

  lemma {:induction false} TokenEndOfWord(w: string)
    requires forall i :: 0 <= i < |w| ==> !IsSpace(w[i])
    ensures TokenEnd(w) == |w|
  {
    if w != [] {
      TokenEndOfWord(w[1..]);
    }
  }

  /**
   * `text.split()`: the maximal runs of non-whitespace characters, in order.
   * logic.py calls it both directly (split_hebrew_words) and inside normalize_hebrew.
   */
  function SplitHebrewWords(s: string): (ws: seq<string>)
    ensures AllWords(ws)
    decreases |s|
  {
    if s == [] then []
    else if IsSpace(s[0]) then SplitHebrewWords(s[1..])
    else
      var n := TokenEnd(s);
      [s[..n]] + SplitHebrewWords(s[n..])
  }

  /** Splitting loses and adds no character other than whitespace, and keeps their order. */
  lemma {:induction false} SplitKeepsLetters(s: string)
    ensures Flatten(SplitHebrewWords(s)) == NonSpace(s)
    decreases |s|
  {
    if s != [] {
      if IsSpace(s[0]) {
        SplitKeepsLetters(s[1..]);
      } else {
        var n := TokenEnd(s);
        assert s == s[..n] + s[n..];
        NonSpaceConcat(s[..n], s[n..]);
        NonSpaceOfWord(s[..n]);
        SplitKeepsLetters(s[n..]);
        assert ([s[..n]] + SplitHebrewWords(s[n..]))[1..] == SplitHebrewWords(s[n..]);
      }
    }
  }

  lemma {:induction false} NonSpaceConcat(a: string, b: string)
    ensures NonSpace(a + b) == NonSpace(a) + NonSpace(b)
  {
    if a == [] {
      assert a + b == b;
    } else {
      assert (a + b)[0] == a[0];
      assert (a + b)[1..] == a[1..] + b;
      NonSpaceConcat(a[1..], b);
    }
  }

  lemma {:induction false} NonSpaceOfWord(w: string)
    requires forall i :: 0 <= i < |w| ==> !IsSpace(w[i])
    ensures NonSpace(w) == w
  {
    if w != [] {
      NonSpaceOfWord(w[1..]);
    }
  }

  /** Leading whitespace does not change the words. */
  lemma {:induction false} SplitSkipsLeadingSpace(p: string, x: string)
    requires forall i :: 0 <= i < |p| ==> IsSpace(p[i])
    ensures SplitHebrewWords(p + x) == SplitHebrewWords(x)
  {
    if p == [] {
      assert p + x == x;
    } else {
      assert (p + x)[0] == p[0];
      assert (p + x)[1..] == p[1..] + x;
      SplitSkipsLeadingSpace(p[1..], x);
    }
  }

  /** Trailing whitespace does not change the words. */
  lemma {:induction false} SplitSkipsTrailingSpace(x: string, q: string)
    requires forall i :: 0 <= i < |q| ==> IsSpace(q[i])
    ensures SplitHebrewWords(x + q) == SplitHebrewWords(x)
    decreases |x|
  {
    if x == [] {
      assert [] + q == q;
      SplitSkipsLeadingSpace(q, []);
      assert q + [] == q;
    } else if IsSpace(x[0]) {
      assert (x + q)[1..] == x[1..] + q;
      SplitSkipsTrailingSpace(x[1..], q);
    } else {
      var n := TokenEnd(x);
      TokenEndConcat(x, q);
      var m := TokenEnd(x + q);
      assert (x + q)[0] == x[0];
      assert (x + q)[..m] == x[..n];
      assert (x + q)[m..] == x[n..] + q;
      SplitSkipsTrailingSpace(x[n..], q);
    }
  }

  // ---------------------------------------------------------------------------
  // ' '.join (logic.py:37)
  // ---------------------------------------------------------------------------

  /** `' '.join(ws)`. */
  function Join(ws: seq<string>): string {
    if ws == [] then ""
    else if |ws| == 1 then ws[0]
    else ws[0] + " " + Join(ws[1..])
  }

  /** Joining two non-empty lists of words puts one space between their joins. */
  lemma {:induction false} JoinAppend(a: seq<string>, b: seq<string>)
    requires a != [] && b != []
    ensures Join(a + b) == Join(a) + " " + Join(b)
  {
    if |a| > 1 {
      JoinAppend(a[1..], b);
      assert (a + b)[1..] == a[1..] + b;
    }
  }

  lemma {:induction false} JoinNonEmpty(ws: seq<string>)
    requires AllWords(ws)
    ensures Join(ws) == [] <==> ws == []
  {
    if |ws| > 1 {
      assert IsWord(ws[0]);
    } else if |ws| == 1 {
      assert IsWord(ws[0]);
    }
  }

  /** Joining words with single spaces gives a well-formed text. */
  lemma {:induction false} JoinWellFormed(ws: seq<string>)
    requires AllWords(ws)
    ensures WellFormed(Join(ws))
  {
    if |ws| == 1 {
      assert IsWord(ws[0]);
    } else if |ws| > 1 {
      var w, j := ws[0], Join(ws[1..]);
      assert IsWord(w);
      assert AllWords(ws[1..]) by {
        forall k | 0 <= k < |ws[1..]| ensures IsWord(ws[1..][k]) { assert ws[1..][k] == ws[k + 1]; }
      }
      JoinWellFormed(ws[1..]);
      JoinNonEmpty(ws[1..]);
      var s := w + " " + j;
      assert s == Join(ws);
      assert forall i :: 0 <= i < |w| ==> s[i] == w[i];
      assert s[|w|] == ' ';
      assert forall i :: |w| < i < |s| ==> s[i] == j[i - |w| - 1];
      assert s[|s| - 1] == j[|j| - 1];
      forall i | 0 <= i < |s| - 1 && IsSpace(s[i]) ensures !IsSpace(s[i + 1]) {
        if i == |w| { assert s[i + 1] == j[0]; }
        else { assert i > |w|; assert s[i + 1] == j[i - |w|]; }
      }
    }
  }

  /** Round trip: splitting words joined with single spaces gives back the words. */
  lemma {:induction false} SplitJoin(ws: seq<string>)
    requires AllWords(ws)
    ensures SplitHebrewWords(Join(ws)) == ws
  {
    if ws != [] {
      var w := ws[0];
      assert IsWord(w);
      if |ws| == 1 {
        TokenEndOfWord(w);
        assert w[..|w|] == w;
        assert w[|w|..] == [];
      } else {
        assert AllWords(ws[1..]) by {
          forall k | 0 <= k < |ws[1..]| ensures IsWord(ws[1..][k]) { assert ws[1..][k] == ws[k + 1]; }
        }
        var j := Join(ws[1..]);
        var s := w + " " + j;
        assert s == w + (" " + j);
        TokenEndOfWord(w);
        TokenEndConcat(w, " " + j);
        assert s[..|w|] == w;
        assert s[|w|..] == " " + j;
        assert (" " + j)[1..] == j;
        SplitJoin(ws[1..]);
        assert [w] + ws[1..] == ws;
      }
    }
  }

  /** Round trip the other way: a well-formed text is the join of its words. */
  lemma {:induction false} JoinSplit(s: string)
    requires WellFormed(s)
    ensures Join(SplitHebrewWords(s)) == s
    decreases |s|
  {
    if s != [] {
      var n := TokenEnd(s);
      var tok := s[..n];
      if n == |s| {
        assert s[n..] == [];
        assert tok == s;
      } else {
        WellFormedAfterWord(s, n);
        var t := s[n + 1..];
        SplitAfterWord(s, n);
        SpaceAt(s, n);
        JoinSplit(t);
        JoinCons(tok, SplitHebrewWords(t));
      }
    }
  }

  /** In a well-formed text the first word and one space come off the front of the words. */
  lemma SplitAfterWord(s: string, n: nat)
    requires WellFormed(s) && n == TokenEnd(s) < |s|
    requires s[n] == ' ' && n + 1 < |s| && !IsSpace(s[n + 1])
    ensures SplitHebrewWords(s) == [s[..n]] + SplitHebrewWords(s[n + 1..])
    ensures SplitHebrewWords(s[n + 1..]) != []
  {
    assert s[n..][1..] == s[n + 1..];
  }

  lemma SpaceAt(s: string, n: nat)
    requires n < |s| && s[n] == ' '
    ensures s == s[..n] + " " + s[n + 1..]
  {
    assert s == s[..n] + [s[n]] + s[n + 1..];
  }

  lemma JoinCons(w: string, ws: seq<string>)
    requires ws != []
    ensures Join([w] + ws) == w + " " + Join(ws)
  {
    assert ([w] + ws)[1..] == ws;
  }

  /** In a well-formed text the first word is followed by one space and a well-formed rest. */
  lemma WellFormedAfterWord(s: string, n: nat)
    requires WellFormed(s) && n == TokenEnd(s) < |s|
    ensures s[n] == ' ' && n + 1 < |s| && !IsSpace(s[n + 1]) && WellFormed(s[n + 1..])
  {
    var t := s[n + 1..];
    assert forall i :: 0 <= i < |t| ==> t[i] == s[n + 1 + i];
  }

  lemma {:induction false} SplitNoNikud(s: string)
    requires NoNikud(s)
    ensures forall k :: 0 <= k < |SplitHebrewWords(s)| ==> NoNikud(SplitHebrewWords(s)[k])
    decreases |s|
  {
    if s != [] {
      if IsSpace(s[0]) {
        SplitNoNikud(s[1..]);
      } else {
        var n := TokenEnd(s);
        assert NoNikud(s[n..]);
        SplitNoNikud(s[n..]);
      }
    }
  }

  lemma {:induction false} JoinNoNikud(ws: seq<string>)
    requires forall k :: 0 <= k < |ws| ==> NoNikud(ws[k])
    ensures NoNikud(Join(ws))
  {
    if |ws| > 1 {
      JoinNoNikud(ws[1..]);
      assert NoNikud(ws[0]);
    }
  }

  // ---------------------------------------------------------------------------
  // str.strip() (logic.py:38, 70-71)
  // ---------------------------------------------------------------------------

  function StripLeft(s: string): (r: string)
    ensures |r| <= |s| && r == s[|s| - |r|..]
    ensures r != [] ==> !IsSpace(r[0])
    ensures forall i :: 0 <= i < |s| - |r| ==> IsSpace(s[i])
  {
    if s != [] && IsSpace(s[0]) then StripLeft(s[1..]) else s
  }

  function StripRight(s: string): (r: string)
    ensures |r| <= |s| && r == s[..|r|]
    ensures r != [] ==> !IsSpace(r[|r| - 1])
    ensures forall i :: |r| <= i < |s| ==> IsSpace(s[i])
  {
    if s != [] && IsSpace(s[|s| - 1]) then StripRight(s[..|s| - 1]) else s
  }

  /** `str.strip()`: the text without its leading and trailing whitespace. */
  function Strip(s: string): (r: string)
    ensures |r| <= |s|
    ensures r != [] ==> !IsSpace(r[0]) && !IsSpace(r[|r| - 1])
  {
    var l := StripLeft(s);
    var r := StripRight(l);
    assert r != [] ==> r[0] == l[0];
    r
  }

  /** Stripping leaves no whitespace at either end, and leaves alone a text that has none there. */
  lemma StripEnds(s: string)
    ensures Strip(s) != [] ==> !IsSpace(Strip(s)[0]) && !IsSpace(Strip(s)[|Strip(s)| - 1])
    ensures s == [] || (!IsSpace(s[0]) && !IsSpace(s[|s| - 1])) ==> Strip(s) == s
  {
    var l := StripLeft(s);
    var r := StripRight(l);
    if r != [] {
      assert r[0] == l[0];
    }
  }

  /** Stripping removes only whitespace. */
  lemma StripKeepsLetters(s: string)
    ensures NonSpace(Strip(s)) == NonSpace(s)
  {
    var l := StripLeft(s);
    NonSpaceAfterSpaces(s, |s| - |l|);
    var r := StripRight(l);
    NonSpaceBeforeSpaces(l, |r|);
  }

  lemma NonSpaceAfterSpaces(s: string, k: nat)
    requires k <= |s| && forall i :: 0 <= i < k ==> IsSpace(s[i])
    ensures NonSpace(s[k..]) == NonSpace(s)
  {
    var p := s[..k];
    assert s == p + s[k..];
    assert forall i :: 0 <= i < |p| ==> p[i] == s[i];
    NonSpaceConcat(p, s[k..]);
    NonSpaceOfSpaces(p);
  }

  lemma NonSpaceBeforeSpaces(s: string, k: nat)
    requires k <= |s| && forall i :: k <= i < |s| ==> IsSpace(s[i])
    ensures NonSpace(s[..k]) == NonSpace(s)
  {
    var p, q := s[..k], s[k..];
    assert s == p + q;
    NonSpaceConcat(p, q);
    NonSpaceOfSpaces(q);
  }

  lemma {:induction false} NonSpaceOfSpaces(p: string)
    requires forall i :: 0 <= i < |p| ==> IsSpace(p[i])
    ensures NonSpace(p) == []
  {
    if p != [] {
      NonSpaceOfSpaces(p[1..]);
    }
  }

  /** Stripping does not change the words. */
  lemma SplitStrip(s: string)
    ensures SplitHebrewWords(Strip(s)) == SplitHebrewWords(s)
  {
    var l := StripLeft(s);
    SplitAfterSpaces(s, |s| - |l|);
    var r := StripRight(l);
    SplitBeforeSpaces(l, |r|);
  }

  lemma SplitAfterSpaces(s: string, k: nat)
    requires k <= |s| && forall i :: 0 <= i < k ==> IsSpace(s[i])
    ensures SplitHebrewWords(s[k..]) == SplitHebrewWords(s)
  {
    var p := s[..k];
    assert s == p + s[k..];
    assert forall i :: 0 <= i < |p| ==> p[i] == s[i];
    SplitSkipsLeadingSpace(p, s[k..]);
  }

  lemma SplitBeforeSpaces(s: string, k: nat)
    requires k <= |s| && forall i :: k <= i < |s| ==> IsSpace(s[i])
    ensures SplitHebrewWords(s[..k]) == SplitHebrewWords(s)
  {
    var q := s[k..];
    assert s == s[..k] + q;
    assert forall i :: 0 <= i < |q| ==> q[i] == s[k + i];
    SplitSkipsTrailingSpace(s[..k], q);
  }

  // ---------------------------------------------------------------------------
  // normalize_hebrew (logic.py:26-38)
  // ---------------------------------------------------------------------------

  /**
   * `remove_nikud`, then `' '.join(text.split())`, then `strip()`.  The result
   * holds no nikud, is well formed, and has the words of the nikud-free text.
   */
  function Normalize(s: string): (r: string)
    ensures NoNikud(r) && WellFormed(r)
    ensures SplitHebrewWords(r) == SplitHebrewWords(RemoveNikud(s))
  {
    JoinedWordsFacts(RemoveNikud(s));
    Strip(Join(SplitHebrewWords(RemoveNikud(s))))
  }

  lemma JoinedWordsFacts(s: string)
    requires NoNikud(s)
    ensures var joined := Join(SplitHebrewWords(s));
      && Strip(joined) == joined && NoNikud(joined) && WellFormed(joined)
      && SplitHebrewWords(joined) == SplitHebrewWords(s)
  {
    var ws := SplitHebrewWords(s);
    JoinWellFormed(ws);
    SplitNoNikud(s);
    JoinNoNikud(ws);
    SplitJoin(ws);
    StripEnds(Join(ws));
  }

  /** The texts that normalisation leaves unchanged are exactly the nikud-free well-formed ones. */
  lemma NormalizeFixpointIff(s: string)
    ensures Normalize(s) == s <==> NoNikud(s) && WellFormed(s)
  {
    if NoNikud(s) && WellFormed(s) {
      RemoveNikudUnchangedIff(s);
      JoinSplit(s);
      assert StripLeft(s) == s;
      assert StripRight(s) == s;
    }
  }

  /** normalize_hebrew is idempotent. */
  lemma NormalizeIdempotent(s: string)
    ensures Normalize(Normalize(s)) == Normalize(s)
  {
    NormalizeFixpointIff(Normalize(s));
  }

  /** Normalisation keeps every non-whitespace, non-nikud character, in order. */
  lemma NormalizeKeepsLetters(s: string)
    ensures NonSpace(Normalize(s)) == NonSpace(RemoveNikud(s))
  {
    var r := Normalize(s);
    NormalizeFixpointIff(r);
    NormalizeIdempotent(s);
    JoinSplit(r);
    SplitKeepsLetters(r);
    SplitKeepsLetters(RemoveNikud(s));
  }

  /** Normalisation gives the empty text exactly when the input holds only nikud and whitespace. */
  lemma NormalizeEmptyIff(s: string)
    ensures Normalize(s) == [] <==> forall i :: 0 <= i < |s| ==> IsNikud(s[i]) || IsSpace(s[i])
  {
    var ws := SplitHebrewWords(RemoveNikud(s));
    JoinSplit(Normalize(s));
    JoinNonEmpty(ws);
    SplitKeepsLetters(RemoveNikud(s));
    FlattenWordsEmptyIff(ws);
    NonSpaceEmptyIff(RemoveNikud(s));
    RemoveNikudCounts(s);
    if forall i :: 0 <= i < |s| ==> IsNikud(s[i]) || IsSpace(s[i]) {
      forall i | 0 <= i < |RemoveNikud(s)| ensures IsSpace(RemoveNikud(s)[i]) {
        var c := RemoveNikud(s)[i];
        assert c in multiset(RemoveNikud(s));
        assert c in multiset(s);
      }
    } else {
      var i :| 0 <= i < |s| && !IsNikud(s[i]) && !IsSpace(s[i]);
      assert s[i] in multiset(s);
      var c := s[i];
      assert c in multiset(RemoveNikud(s));
      var j :| 0 <= j < |RemoveNikud(s)| && RemoveNikud(s)[j] == c;
    }
  }

  lemma {:induction false} FlattenWordsEmptyIff(ws: seq<string>)
    requires AllWords(ws)
    ensures Flatten(ws) == [] <==> ws == []
  {
    if ws != [] {
      assert IsWord(ws[0]);
    }
  }

  lemma {:induction false} NonSpaceEmptyIff(s: string)
    ensures NonSpace(s) == [] <==> forall i :: 0 <= i < |s| ==> IsSpace(s[i])
  {
    if s != [] {
      NonSpaceEmptyIff(s[1..]);
      if !IsSpace(s[0]) {
        assert NonSpace(s) != [];
      } else {
        assert forall i :: 1 <= i < |s| ==> s[i] == s[1..][i - 1];
      }
    }
  }

  /** A text made of words, with no nikud, is its own normalisation and splits back into those words. */
  lemma NormalizeOfWords(ws: seq<string>)
    requires AllWords(ws)
    requires forall k :: 0 <= k < |ws| ==> NoNikud(ws[k])
    ensures Normalize(Join(ws)) == Join(ws)
    ensures SplitHebrewWords(Join(ws)) == ws
  {
    JoinWellFormed(ws);
    JoinNoNikud(ws);
    NormalizeFixpointIff(Join(ws));
    SplitJoin(ws);
  }

  /**
   * Words written with nikud and joined by single spaces normalise to the
   * same words without nikud, provided no word consists of nikud alone.
   */
  lemma NormalizeOfPointedWords(ws: seq<string>)
    requires AllWords(RemoveNikudEach(ws))
    ensures Normalize(Join(ws)) == Join(RemoveNikudEach(ws))
    ensures SplitHebrewWords(RemoveNikud(Join(ws))) == RemoveNikudEach(ws)
  {
    var plain := RemoveNikudEach(ws);
    assert forall k :: 0 <= k < |plain| ==> NoNikud(plain[k]);
    RemoveNikudOfJoin(ws);
    NormalizeOfWords(plain);
    RemoveNikudUnchangedIff(Join(plain));
    assert Normalize(Join(ws)) == Normalize(Join(plain));
  }

  /** Whitespace between two texts separates their words: the words are those of each part. */
  lemma SplitAroundSpace(a: string, b: string)
    ensures SplitHebrewWords(a + " " + b) == SplitHebrewWords(a) + SplitHebrewWords(b)
  {
    assert a + " " + b == a + (" " + b);
    SplitBeforeSpace(a, " " + b);
    assert (" " + b)[1..] == b;
  }

  lemma {:induction false} SplitBeforeSpace(a: string, c: string)
    requires c != [] && IsSpace(c[0])
    ensures SplitHebrewWords(a + c) == SplitHebrewWords(a) + SplitHebrewWords(c)
    decreases |a|
  {
    if a == [] {
      assert a + c == c;
    } else if IsSpace(a[0]) {
      assert (a + c)[0] == a[0];
      assert (a + c)[1..] == a[1..] + c;
      SplitBeforeSpace(a[1..], c);
    } else {
      var n := TokenEnd(a);
      TokenEndConcat(a, c);
      assert (a + c)[0] == a[0];
      assert (a + c)[..n] == a[..n];
      assert (a + c)[n..] == a[n..] + c;
      SplitBeforeSpace(a[n..], c);
      assert [a[..n]] + (SplitHebrewWords(a[n..]) + SplitHebrewWords(c)) ==
        ([a[..n]] + SplitHebrewWords(a[n..])) + SplitHebrewWords(c);
    }
  }

  // ---------------------------------------------------------------------------
  // compare_hebrew_texts (logic.py:54-88)
  // ---------------------------------------------------------------------------

  /** What compare_hebrew_texts returns: the exact-match flag and the similarity score. */
  datatype Comparison = Comparison(exactMatch: bool, similarity: real)

  /** How compare_hebrew_texts prepares each text: normalised, or only stripped. */
  function PrepareForComparison(s: string, ignoreNikud: bool): (r: string)
    ensures ignoreNikud ==> NoNikud(r) && WellFormed(r)
    ensures !ignoreNikud ==> r != [] ==> !IsSpace(r[0]) && !IsSpace(r[|r| - 1])
  {
    if ignoreNikud then Normalize(s) else Strip(s)
  }

  /** The words compare_hebrew_texts compares for a text. */
  function ComparedWords(s: string, ignoreNikud: bool): seq<string> {
    SplitHebrewWords(PrepareForComparison(s, ignoreNikud))
  }

  /** `set(words)`. */
  function Vocabulary(words: seq<string>): set<string> {
    set w | w in words
  }

  /** `sum(1 for word in words if word in vocabulary)`: repeated words count again. */
  function CountIn(words: seq<string>, vocabulary: set<string>): (n: nat)
    ensures n <= |words|
  {
    if words == [] then 0
    else (if words[0] in vocabulary then 1 else 0) + CountIn(words[1..], vocabulary)
  }

  /**
   * The similarity score of logic.py:80-86 for reference words `r` and
   * transcribed words `t`: 0.0 when `r` is empty, otherwise the number of words
   * of `t` that occur in `r` (repeats counted again) divided by `|r|`.  It lies
   * between 0 and |t| / |r| and so can exceed 1; it is 0 exactly when no word
   * of `t` occurs in `r`, and |t| / |r| exactly when every word of `t` does.
   */
  function Similarity(r: seq<string>, t: seq<string>): (sim: real)
    ensures r == [] ==> sim == 0.0
    ensures r != [] ==> sim * (|r| as real) == CountIn(t, Vocabulary(r)) as real
    ensures 0.0 <= sim
    ensures r != [] ==> sim <= (|t| as real) / (|r| as real)
    ensures r != [] ==> (sim == 0.0 <==> forall k :: 0 <= k < |t| ==> t[k] !in r)
    ensures r != [] ==> (sim == (|t| as real) / (|r| as real) <==> forall k :: 0 <= k < |t| ==> t[k] in r)
  {
    if r == [] then 0.0
    else
      var vocabulary := Vocabulary(r);
      var matches := CountIn(t, vocabulary);
      CountInAllIff(t, vocabulary);
      CountInNoneIff(t, vocabulary);
      DivisionFacts(matches, |t|, |r|);
      matches as real / |r| as real
  }

  /**
   * compare_hebrew_texts: the texts match exactly when their prepared forms are
   * equal, and are then also fully similar; the similarity is that of their words.
   */
  function CompareHebrewTexts(reference: string, transcribed: string, ignoreNikud: bool): (c: Comparison)
    ensures c.similarity == Similarity(ComparedWords(reference, ignoreNikud), ComparedWords(transcribed, ignoreNikud))
    ensures c.exactMatch ==>
      c.similarity == if ComparedWords(reference, ignoreNikud) == [] then 0.0 else 1.0
  {
    var refNormalized := PrepareForComparison(reference, ignoreNikud);
    var transNormalized := PrepareForComparison(transcribed, ignoreNikud);
    var exactMatch := refNormalized == transNormalized;
    var refWords := SplitHebrewWords(refNormalized);
    var transWords := SplitHebrewWords(transNormalized);
    SimilarityWithItself(refWords);
    Comparison(exactMatch, Similarity(refWords, transWords))
  }

  /** Words compared with themselves are fully similar. */
  lemma SimilarityWithItself(r: seq<string>)
    ensures Similarity(r, r) == if r == [] then 0.0 else 1.0
  {
    if r != [] {
      CountInAllIff(r, Vocabulary(r));
      DivisionFacts(|r|, |r|, |r|);
    }
  }

  /** Every word is counted exactly when every word belongs to the vocabulary. */
  lemma {:induction false} CountInAllIff(words: seq<string>, vocabulary: set<string>)
    ensures CountIn(words, vocabulary) == |words| <==> forall k :: 0 <= k < |words| ==> words[k] in vocabulary
  {
    if words != [] {
      CountInAllIff(words[1..], vocabulary);
      assert forall k :: 1 <= k < |words| ==> words[k] == words[1..][k - 1];
    }
  }

  /** No word is counted exactly when no word belongs to the vocabulary. */
  lemma {:induction false} CountInNoneIff(words: seq<string>, vocabulary: set<string>)
    ensures CountIn(words, vocabulary) == 0 <==> forall k :: 0 <= k < |words| ==> words[k] !in vocabulary
  {
    if words != [] {
      CountInNoneIff(words[1..], vocabulary);
      assert forall k :: 1 <= k < |words| ==> words[k] == words[1..][k - 1];
    }
  }

  /** The count adds up over the parts of a word list, so it does not depend on their order. */
  lemma {:induction false} CountInConcat(a: seq<string>, b: seq<string>, vocabulary: set<string>)
    ensures CountIn(a + b, vocabulary) == CountIn(a, vocabulary) + CountIn(b, vocabulary)
  {
    if a == [] {
      assert a + b == b;
    } else {
      assert (a + b)[0] == a[0];
      assert (a + b)[1..] == a[1..] + b;
      CountInConcat(a[1..], b, vocabulary);
    }
  }

  /** The words being compared are those of the nikud-free (or the raw) text. */
  lemma ComparedWordsOf(s: string, ignoreNikud: bool)
    ensures ComparedWords(s, ignoreNikud) == SplitHebrewWords(if ignoreNikud then RemoveNikud(s) else s)
  {
    SplitStrip(s);
  }

  /**
   * The exact-match flag holds exactly when the two texts have the same words
   * once nikud is deleted, or, when nikud counts, when they are equal after stripping.
   */
  lemma CompareExactMatchIff(reference: string, transcribed: string, ignoreNikud: bool)
    ensures CompareHebrewTexts(reference, transcribed, ignoreNikud).exactMatch <==>
      if ignoreNikud then SplitHebrewWords(RemoveNikud(reference)) == SplitHebrewWords(RemoveNikud(transcribed))
      else Strip(reference) == Strip(transcribed)
  {
  }

  /** A text compared with itself matches exactly, with similarity 1.0 (0.0 if it has no words). */
  lemma CompareWithItself(s: string, ignoreNikud: bool)
    ensures CompareHebrewTexts(s, s, ignoreNikud).exactMatch
    ensures CompareHebrewTexts(s, s, ignoreNikud).similarity ==
      if ComparedWords(s, ignoreNikud) == [] then 0.0 else 1.0
  {
  }

  /** A reference without words gives similarity 0.0, whatever the transcription. */
  lemma SimilarityEmptyReference(reference: string, transcribed: string, ignoreNikud: bool)
    requires ComparedWords(reference, ignoreNikud) == []
    ensures CompareHebrewTexts(reference, transcribed, ignoreNikud).similarity == 0.0
  {
  }

  lemma DivisionFacts(n: nat, m: nat, d: nat)
    requires n <= m && 0 < d
    ensures 0.0 <= (n as real) / (d as real)
    ensures ((n as real) / (d as real)) * (d as real) == n as real
    ensures n == d ==> (n as real) / (d as real) == 1.0
    ensures (n as real) / (d as real) <= (m as real) / (d as real)
    ensures (n as real) / (d as real) == 0.0 <==> n == 0
    ensures (n as real) / (d as real) == (m as real) / (d as real) <==> n == m
  {
    var x, y := (n as real) / (d as real), (m as real) / (d as real);
    QuotientTimes(n as real, d as real);
    QuotientTimes(m as real, d as real);
    QuotientNonNegative(n as real, d as real);
    QuotientMonotone(n as real, m as real, d as real);
    if n == d {
      QuotientOfItself(d as real);
    }
    if x == y {
      assert n as real == x * (d as real) == y * (d as real) == m as real;
    }
    if x == 0.0 {
      assert n as real == 0.0 * (d as real);
    }
  }

  lemma QuotientTimes(a: real, b: real)
    requires 0.0 < b
    ensures (a / b) * b == a
  {
  }

  lemma QuotientOfItself(b: real)
    requires 0.0 < b
    ensures b / b == 1.0
  {
  }

  lemma QuotientNonNegative(a: real, b: real)
    requires 0.0 <= a && 0.0 < b
    ensures 0.0 <= a / b
  {
  }

  lemma QuotientMonotone(a: real, c: real, b: real)
    requires a <= c && 0.0 < b
    ensures a / b <= c / b
  {
    QuotientNonNegative(c - a, b);
    QuotientTimes(a, b);
    QuotientTimes(c, b);
    QuotientTimes(c - a, b);
    assert (c - a) / b == c / b - a / b;
  }

  /**
   * The similarity is not positional: exchanging the two halves of the
   * transcription leaves it unchanged.
   */
  lemma SimilarityIgnoresWordOrder(reference: string, a: string, b: string, ignoreNikud: bool)
    ensures CompareHebrewTexts(reference, a + " " + b, ignoreNikud).similarity ==
      CompareHebrewTexts(reference, b + " " + a, ignoreNikud).similarity
  {
    var r := ComparedWords(reference, ignoreNikud);
    var a', b' := if ignoreNikud then RemoveNikud(a) else a, if ignoreNikud then RemoveNikud(b) else b;
    TranscriptionWordsAroundSpace(a, b, ignoreNikud);
    TranscriptionWordsAroundSpace(b, a, ignoreNikud);
    SimilaritySwap(r, SplitHebrewWords(a'), SplitHebrewWords(b'));
  }

  /** Exchanging two parts of the transcribed words keeps the similarity. */
  lemma SimilaritySwap(r: seq<string>, t1: seq<string>, t2: seq<string>)
    ensures Similarity(r, t1 + t2) == Similarity(r, t2 + t1)
  {
    var vocabulary := Vocabulary(r);
    CountInConcat(t1, t2, vocabulary);
    CountInConcat(t2, t1, vocabulary);
  }

  lemma TranscriptionWordsAroundSpace(a: string, b: string, ignoreNikud: bool)
    ensures ComparedWords(a + " " + b, ignoreNikud) ==
      SplitHebrewWords(if ignoreNikud then RemoveNikud(a) else a) +
      SplitHebrewWords(if ignoreNikud then RemoveNikud(b) else b)
  {
    ComparedWordsOf(a + " " + b, ignoreNikud);
    if ignoreNikud {
      RemoveNikudAroundSpace(a, b);
      SplitAroundSpace(RemoveNikud(a), RemoveNikud(b));
    } else {
      SplitAroundSpace(a, b);
    }
  }

  /** A transcription that reads the reference twice scores 2.0: repeated words count again. */
  lemma SimilarityOfRepeatedReading(reference: string, ignoreNikud: bool)
    requires ComparedWords(reference, ignoreNikud) != []
    ensures CompareHebrewTexts(reference, reference + " " + reference, ignoreNikud).similarity == 2.0
  {
    var r := ComparedWords(reference, ignoreNikud);
    TranscriptionWordsAroundSpace(reference, reference, ignoreNikud);
    ComparedWordsOf(reference, ignoreNikud);
    SimilarityOfDoubled(r);
  }

  lemma SimilarityOfDoubled(r: seq<string>)
    requires r != []
    ensures Similarity(r, r + r) == 2.0
  {
    var t := r + r;
    forall k | 0 <= k < |t| ensures t[k] in Vocabulary(r) {
      if k >= |r| { assert t[k] == r[k - |r|]; }
    }
    assert |t| == 2 * |r|;
    RatioOfMultiple(2, |r|);
  }

  /**
   * A transcription that has read the first `k` reference words so far scores
   * k / |r|: the similarity measures how far the reading has come.
   */
  lemma SimilarityOfPrefix(r: seq<string>, k: nat)
    requires k <= |r| && r != []
    ensures Similarity(r, r[..k]) == (k as real) / (|r| as real)
  {
    var t := r[..k];
    forall j | 0 <= j < |t| ensures t[j] in Vocabulary(r) {
      assert t[j] == r[j];
    }
  }

  lemma RatioOfMultiple(k: nat, d: nat)
    requires 0 < d
    ensures ((k * d) as real) / (d as real) == k as real
  {
  }

  /**
   * Similarity is not positional: the two halves of a text read in the other
   * order score 1.0; when nikud is ignored they still fail the exact match
   * unless the two word lists agree.
   */
  lemma SimilarityOfSwappedReading(a: string, b: string, ignoreNikud: bool)
    requires ComparedWords(a + " " + b, ignoreNikud) != []
    ensures CompareHebrewTexts(a + " " + b, b + " " + a, ignoreNikud).similarity == 1.0
    ensures ignoreNikud ==>
      (CompareHebrewTexts(a + " " + b, b + " " + a, ignoreNikud).exactMatch <==>
       ComparedWords(a + " " + b, ignoreNikud) == ComparedWords(b + " " + a, ignoreNikud))
  {
    var a', b' := if ignoreNikud then RemoveNikud(a) else a, if ignoreNikud then RemoveNikud(b) else b;
    TranscriptionWordsAroundSpace(a, b, ignoreNikud);
    TranscriptionWordsAroundSpace(b, a, ignoreNikud);
    SimilarityOfRotation(SplitHebrewWords(a'), SplitHebrewWords(b'));
    if ignoreNikud {
      CompareExactMatchIff(a + " " + b, b + " " + a, ignoreNikud);
      ComparedWordsOf(a + " " + b, ignoreNikud);
      ComparedWordsOf(b + " " + a, ignoreNikud);
    }
  }

  lemma SimilarityOfRotation(wa: seq<string>, wb: seq<string>)
    requires wa + wb != []
    ensures Similarity(wa + wb, wb + wa) == 1.0
  {
    var r, t := wa + wb, wb + wa;
    forall k | 0 <= k < |t| ensures t[k] in Vocabulary(r) {
      if k < |wb| { assert t[k] == wb[k] == r[|wa| + k]; } else { assert t[k] == wa[k - |wb|] == r[k - |wb|]; }
    }
    RatioOfMultiple(1, |r|);
  }

  // ---------------------------------------------------------------------------
  // find_word_position and has_reached_marker (logic.py:91-136)
  // ---------------------------------------------------------------------------

  /** How find_word_position and has_reached_marker prepare a text: normalised, or left as it is. */
  function SearchForm(s: string, ignoreNikud: bool): (r: string)
    ensures ignoreNikud ==> NoNikud(r) && WellFormed(r)
  {
    if ignoreNikud then Normalize(s) else s
  }

  /** `words.index(w)`, with the ValueError of a missing word turned into -1. */
  function IndexOf(words: seq<string>, w: string): (r: int)
    ensures -1 <= r < |words|
    ensures r == -1 <==> w !in words
    ensures 0 <= r ==> words[r] == w && forall j :: 0 <= j < r ==> words[j] != w
  {
    if words == [] then -1
    else if words[0] == w then 0
    else
      var r := IndexOf(words[1..], w);
      if r == -1 then -1 else r + 1
  }

  /**
   * find_word_position: the index of the first word of the text equal to the
   * prepared word, or -1 when there is none.  After normalisation the words of
   * the text are those of its nikud-free form.
   */
  function FindWordPosition(text: string, word: string, ignoreNikud: bool): (r: int)
    ensures var words := SplitHebrewWords(if ignoreNikud then RemoveNikud(text) else text);
      var w := SearchForm(word, ignoreNikud);
      && -1 <= r < |words|
      && (r == -1 <==> w !in words)
      && (0 <= r ==> words[r] == w && forall j :: 0 <= j < r ==> words[j] != w)
  {
    var words := SplitHebrewWords(SearchForm(text, ignoreNikud));
    IndexOf(words, SearchForm(word, ignoreNikud))
  }

  /**
   * Only a single word can be found: a word that normalises to several words,
   * or to none, gives -1; so does, when nikud counts, a word with any whitespace.
   */
  lemma FindWordPositionNeedsOneWord(text: string, word: string, ignoreNikud: bool)
    requires 0 <= FindWordPosition(text, word, ignoreNikud)
    ensures IsWord(SearchForm(word, ignoreNikud))
    ensures ignoreNikud ==> SplitHebrewWords(RemoveNikud(word)) == [Normalize(word)]
  {
    var w := SearchForm(word, ignoreNikud);
    var words := SplitHebrewWords(SearchForm(text, ignoreNikud));
    var k := IndexOf(words, w);
    assert words[k] == w;
    if ignoreNikud {
      SplitOfWord(w);
    }
  }

  /** A single word splits into itself. */
  lemma SplitOfWord(w: string)
    requires IsWord(w)
    ensures SplitHebrewWords(w) == [w]
  {
    SplitJoin([w]);
  }

  /** Python's `m in t` on strings: `m` occurs as a contiguous part of `t`. */
  function Contains(t: string, m: string): bool
    decreases |t|
  {
    m <= t || (t != [] && Contains(t[1..], m))
  }

  predicate OccursAt(m: string, t: string, i: int) {
    0 <= i && i + |m| <= |t| && t[i..i + |m|] == m
  }

  /** The search finds `m` exactly when `m` occurs at some position of `t`. */
  lemma {:induction false} ContainsIff(t: string, m: string)
    ensures Contains(t, m) <==> exists i :: OccursAt(m, t, i)
    decreases |t|
  {
    if t != [] {
      ContainsIff(t[1..], m);
    }
    if m <= t {
      assert OccursAt(m, t, 0);
    } else if exists i :: OccursAt(m, t, i) {
      var i :| OccursAt(m, t, i);
      assert i != 0;
      assert t[1..][i - 1..i - 1 + |m|] == t[i..i + |m|];
      assert OccursAt(m, t[1..], i - 1);
    }
    if t != [] && Contains(t[1..], m) {
      var i :| OccursAt(m, t[1..], i);
      assert t[i + 1..i + 1 + |m|] == t[1..][i..i + |m|];
      assert OccursAt(m, t, i + 1);
    }
  }

  /**
   * has_reached_marker: the prepared marker occurs anywhere in the prepared
   * transcription, inside a word or across words; it need not be a whole word.
   */
  function HasReachedMarker(transcribed: string, markerWord: string, ignoreNikud: bool): (b: bool)
    ensures b <==> exists i :: OccursAt(SearchForm(markerWord, ignoreNikud), SearchForm(transcribed, ignoreNikud), i)
  {
    var transNormalized := SearchForm(transcribed, ignoreNikud);
    var markerNormalized := SearchForm(markerWord, ignoreNikud);
    ContainsIff(transNormalized, markerNormalized);
    Contains(transNormalized, markerNormalized)
  }

  /**
   * An empty marker is always reached, and so, when nikud is ignored, is a
   * marker made only of nikud and whitespace.
   */
  lemma EmptyMarkerReached(transcribed: string, markerWord: string, ignoreNikud: bool)
    requires markerWord == [] ||
      (ignoreNikud && forall i :: 0 <= i < |markerWord| ==> IsNikud(markerWord[i]) || IsSpace(markerWord[i]))
    ensures HasReachedMarker(transcribed, markerWord, ignoreNikud)
  {
    NormalizeEmptyIff(markerWord);
    assert OccursAt(SearchForm(markerWord, ignoreNikud), SearchForm(transcribed, ignoreNikud), 0);
  }

  /** Each word of a text occurs in that text. */
  lemma {:induction false} WordsOccur(s: string, k: nat)
    requires k < |SplitHebrewWords(s)|
    ensures exists i :: OccursAt(SplitHebrewWords(s)[k], s, i)
    decreases |s|
  {
    var w := SplitHebrewWords(s)[k];
    if IsSpace(s[0]) {
      assert w == SplitHebrewWords(s[1..])[k];
      WordsOccur(s[1..], k);
      var i :| OccursAt(w, s[1..], i);
      OccursInSuffix(w, s, 1, i);
    } else {
      var n := TokenEnd(s);
      if k == 0 {
        assert OccursAt(w, s, 0);
      } else {
        assert w == SplitHebrewWords(s[n..])[k - 1];
        WordsOccur(s[n..], k - 1);
        var i :| OccursAt(w, s[n..], i);
        OccursInSuffix(w, s, n, i);
      }
    }
  }

  lemma OccursInSuffix(m: string, t: string, d: nat, i: int)
    requires d <= |t| && OccursAt(m, t[d..], i)
    ensures OccursAt(m, t, d + i)
  {
    assert t[d..][i..i + |m|] == t[d + i..d + i + |m|];
  }

  /**
   * A marker inside a word is reached although find_word_position does not
   * find it: here a nikud-free word `w` preceded by more letters `p`.
   */
  lemma MarkerInsideWord(p: string, w: string, ignoreNikud: bool)
    requires IsWord(p) && IsWord(w) && NoNikud(p) && NoNikud(w)
    ensures HasReachedMarker(p + w, w, ignoreNikud)
    ensures FindWordPosition(p + w, w, ignoreNikud) == -1
  {
    var t := p + w;
    PlainConcat(p, w);
    PlainWordFacts(t);
    PlainWordFacts(w);
    assert SearchForm(t, ignoreNikud) == t && SearchForm(w, ignoreNikud) == w;
    assert OccursAt(w, t, |p|);
    assert |t| > |w|;
    assert IndexOf([t], w) == -1;
  }

  lemma PlainConcat(p: string, w: string)
    requires IsWord(p) && IsWord(w) && NoNikud(p) && NoNikud(w)
    ensures IsWord(p + w) && NoNikud(p + w) && (p + w)[|p|..|p| + |w|] == w
  {
    var t := p + w;
    assert forall i :: 0 <= i < |t| ==> t[i] == if i < |p| then p[i] else w[i - |p|];
  }

  /** A nikud-free word is its own normalisation and its only word. */
  lemma PlainWordFacts(w: string)
    requires IsWord(w) && NoNikud(w)
    ensures Normalize(w) == w && RemoveNikud(w) == w && SplitHebrewWords(w) == [w]
  {
    NormalizeOfWords([w]);
    RemoveNikudUnchangedIff(w);
  }

  /** A marker found as a whole word is reached. */
  lemma WholeWordMarkerReached(transcribed: string, markerWord: string, ignoreNikud: bool)
    requires 0 <= FindWordPosition(transcribed, markerWord, ignoreNikud)
    ensures HasReachedMarker(transcribed, markerWord, ignoreNikud)
  {
    var t := SearchForm(transcribed, ignoreNikud);
    var k := FindWordPosition(transcribed, markerWord, ignoreNikud);
    assert SplitHebrewWords(t)[k] == SearchForm(markerWord, ignoreNikud);
    WordsOccur(t, k);
  }
}
