/** The string functions the option matcher relies on: splitting into words, the XPath 1.0
    `normalize-space` function (section 4.2 of XPath 1.0) and the longest space-free word
    of a label. */
module Text {

  /** The two delimiter sets in use: a `java.util.StringTokenizer` built with the delimiter
      string " " splits on the space character only; XPath 1.0 whitespace (production S) is
      space, tab, carriage return and line feed. */
  datatype Delims = Space | XmlWhitespace

  predicate IsDelim(c: char, d: Delims) {
    c == ' ' || (d == XmlWhitespace && (c == '\t' || c == '\r' || c == '\n'))
  }

  /** `w` occurs in `s` as a substring (XPath `contains`, Java `String.contains`). */
  predicate Contains(s: string, w: string) {
    exists i | 0 <= i <= |s| - |w| :: OccursAt(s, w, i)
  }

  /** `w` occurs in `s` starting at position `i`. */
  predicate OccursAt(s: string, w: string, i: int) {
    0 <= i && i + |w| <= |s| && s[i..i + |w|] == w
  }

  /** The length of the run of non-delimiters that starts `s`. */
  function RunLength(s: string, d: Delims): (n: nat)
    ensures n <= |s|
    ensures forall i :: 0 <= i < n ==> !IsDelim(s[i], d)
    ensures n < |s| ==> IsDelim(s[n], d)
  {
    if s == [] || IsDelim(s[0], d) then 0 else 1 + RunLength(s[1..], d)
  }

  /** The maximal runs of non-delimiters of `s`, left to right: the tokens a
      `StringTokenizer` hands out one by one. */
  function Fields(s: string, d: Delims): (ws: seq<string>)
    ensures forall j :: 0 <= j < |ws| ==> ws[j] != []
    ensures forall j, i :: 0 <= j < |ws| && 0 <= i < |ws[j]| ==> !IsDelim(ws[j][i], d)
    decreases |s|
  {
    if s == [] then []
    else if IsDelim(s[0], d) then Fields(s[1..], d)
    else var n := RunLength(s, d); [s[..n]] + Fields(s[n..], d)
  }

  /** `w` is a maximal run of non-delimiters of `s` starting at `i`: it occurs there, is not
      empty, holds no delimiter, and has a delimiter or an end of `s` on either side. */
  predicate MaximalRun(s: string, w: string, i: int, d: Delims) {
    && OccursAt(s, w, i) && w != []
    && (forall k :: 0 <= k < |w| ==> !IsDelim(w[k], d))
    && (i == 0 || IsDelim(s[i - 1], d))
    && (i + |w| == |s| || IsDelim(s[i + |w|], d))
  }

  /** Where the `m`-th field of `s` starts. */
  function FieldStart(s: string, d: Delims, m: nat): nat
    requires m < |Fields(s, d)|
    decreases |s|
  {
    if IsDelim(s[0], d) then 1 + FieldStart(s[1..], d, m)
    else if m == 0 then 0
    else RunLength(s, d) + FieldStart(s[RunLength(s, d)..], d, m - 1)
  }

  /** The words joined by single spaces. */
  function Join(ws: seq<string>): string {
    if ws == [] then "" else if |ws| == 1 then ws[0] else ws[0] + " " + Join(ws[1..])
  }

  /** XPath 1.0 `normalize-space`: leading and trailing whitespace stripped, every inner
      run of whitespace replaced by one space. */
  function NormalizeSpace(s: string): string {
    Join(Fields(s, XmlWhitespace))
  }

  /** The strings `normalize-space` leaves as they are: no whitespace but single spaces
      between non-blank characters. */
  predicate Normalized(s: string) {
    && (forall i :: 0 <= i < |s| && IsDelim(s[i], XmlWhitespace) ==> s[i] == ' ')
    && (|s| > 0 ==> s[0] != ' ' && s[|s| - 1] != ' ')
    && (forall i :: 0 < i < |s| && s[i] == ' ' ==> s[i - 1] != ' ')
  }

  /** The first of the longest words: a later word replaces the current one only when it
      is strictly longer. */
  function Longest(ws: seq<string>): string {
    if ws == [] then ""
    else
      var best := Longest(ws[..|ws| - 1]);
      if |ws[|ws| - 1]| > |best| then ws[|ws| - 1] else best
  }

  /** The longest run of non-space characters of `s`, the first one on a tie. */
  function LongestWord(s: string): string {
    Longest(Fields(s, Space))
  }

  /** The tokenizer loop of the longest-word helper: keeps the first token that is strictly
      longer than every token before it. */
  method LongestSubstringWithoutSpace(s: string) returns (result: string)
    ensures result == LongestWord(s)
  {
    result := "";
    var tokens := Fields(s, Space);
    var k := 0;
    while k < |tokens|
      invariant k <= |tokens|
      invariant result == Longest(tokens[..k])
    {
      var t := tokens[k];
      if |t| > |result| {
        result := t;
      }
      assert tokens[..k + 1][..k] == tokens[..k];
      k := k + 1;
    }
    assert tokens[..k] == tokens;
  }

  // ---------------------------------------------------------------------------------------
  // Properties of the tokenizer

  /** A string has no words exactly when it is made of delimiters only. */
  lemma {:induction false} FieldsEmptyIff(s: string, d: Delims)
    ensures Fields(s, d) == [] <==> forall i :: 0 <= i < |s| ==> IsDelim(s[i], d)
    decreases |s|
  {
    if s != [] && IsDelim(s[0], d) {
      FieldsEmptyIff(s[1..], d);
      assert forall i :: 1 <= i < |s| ==> s[i] == s[1..][i - 1];
    }
  }

  lemma ContainsInSuffix(s: string, k: nat, w: string)
    requires k <= |s|
    requires Contains(s[k..], w)
    ensures Contains(s, w)
  {
    var i :| 0 <= i <= |s[k..]| - |w| && OccursAt(s[k..], w, i);
    assert s[k + i..k + i + |w|] == w;
    assert OccursAt(s, w, k + i);
  }

  /** Every word of `s` occurs in `s`. */
  lemma {:induction false} FieldsOccur(s: string, d: Delims)
    ensures forall j :: 0 <= j < |Fields(s, d)| ==> Contains(s, Fields(s, d)[j])
    decreases |s|
  {
    if s != [] {
      var rest := if IsDelim(s[0], d) then s[1..] else s[RunLength(s, d)..];
      FieldsOccur(rest, d);
      forall j | 0 <= j < |Fields(rest, d)|
        ensures Contains(s, Fields(rest, d)[j])
      {
        ContainsInSuffix(s, |s| - |rest|, Fields(rest, d)[j]);
      }
      if !IsDelim(s[0], d) {
        var n := RunLength(s, d);
        assert s[0..0 + |s[..n]|] == s[..n];
        assert OccursAt(s, s[..n], 0);
      }
    }
  }

  /** A maximal run of a suffix `s[k..]` is one of `s`, unless it starts the suffix right
      after a non-delimiter. */
  lemma RunFromSuffix(s: string, d: Delims, k: nat, w: string, i: nat)
    requires k <= |s| && MaximalRun(s[k..], w, i, d)
    requires i > 0 || k == 0 || IsDelim(s[k - 1], d)
    ensures MaximalRun(s, w, k + i, d)
  {
    var rest := s[k..];
    assert rest[i..i + |w|] == s[k + i..k + i + |w|];
    if i > 0 {
      assert rest[i - 1] == s[k + i - 1];
    }
    if i + |w| < |rest| {
      assert rest[i + |w|] == s[k + i + |w|];
    }
  }

  /** A maximal run of `s` starting at or after `k` is one of the suffix `s[k..]`. */
  lemma RunInSuffix(s: string, d: Delims, k: nat, w: string, i: nat)
    requires k <= i && MaximalRun(s, w, i, d)
    ensures MaximalRun(s[k..], w, i - k, d)
  {
    var rest := s[k..];
    assert rest[i - k..i - k + |w|] == s[i..i + |w|];
    if i - k > 0 {
      assert rest[i - k - 1] == s[i - 1];
    }
    if i - k + |w| < |rest| {
      assert rest[i - k + |w|] == s[i + |w|];
    }
  }

  /** The `m`-th field is the maximal run that starts at FieldStart(s, d, m). */
  lemma {:induction false} FieldsAreRuns(s: string, d: Delims, m: nat)
    requires m < |Fields(s, d)|
    ensures MaximalRun(s, Fields(s, d)[m], FieldStart(s, d, m), d)
    decreases |s|, 1
  {
    if IsDelim(s[0], d) {
      FieldsAreRunsAfterDelim(s, d, m);
    } else if m == 0 {
      FirstFieldIsRun(s, d);
    } else {
      FieldsAreRunsAfterWord(s, d, m);
    }
  }

  /** FieldsAreRuns for a string that starts with a delimiter. */
  lemma {:induction false} FieldsAreRunsAfterDelim(s: string, d: Delims, m: nat)
    requires m < |Fields(s, d)| && IsDelim(s[0], d)
    ensures MaximalRun(s, Fields(s, d)[m], FieldStart(s, d, m), d)
    decreases |s|, 0
  {
    FieldAfterDelim(s, d, m);
    FieldsAreRuns(s[1..], d, m);
    RunFromSuffix(s, d, 1, Fields(s, d)[m], FieldStart(s[1..], d, m));
  }

  /** FieldsAreRuns for a field after the first of a string that starts with a word. */
  lemma {:induction false} FieldsAreRunsAfterWord(s: string, d: Delims, m: nat)
    requires 0 < m < |Fields(s, d)| && !IsDelim(s[0], d)
    ensures MaximalRun(s, Fields(s, d)[m], FieldStart(s, d, m), d)
    decreases |s|, 0
  {
    var n := RunLength(s, d);
    FieldAfterWord(s, d, m);
    FieldsAreRuns(s[n..], d, m - 1);
    RunFromSuffix(s, d, n, Fields(s, d)[m], FieldStart(s[n..], d, m - 1));
  }

  /** After a leading delimiter, the fields and their starts are those of the rest, one
      position further. */
  lemma FieldAfterDelim(s: string, d: Delims, m: nat)
    requires m < |Fields(s, d)| && IsDelim(s[0], d)
    ensures m < |Fields(s[1..], d)| && Fields(s, d)[m] == Fields(s[1..], d)[m]
    ensures FieldStart(s, d, m) == 1 + FieldStart(s[1..], d, m)
  {
  }

  /** The first field of a string that starts with a word is that word, at position 0. */
  lemma FirstFieldIsRun(s: string, d: Delims)
    requires 0 < |Fields(s, d)| && !IsDelim(s[0], d)
    ensures MaximalRun(s, Fields(s, d)[0], 0, d) && FieldStart(s, d, 0) == 0
  {
    var n := RunLength(s, d);
    FieldsFromWord(s, d);
    assert s[0..0 + n] == s[..n];
  }

  /** After a leading word, the later fields and their starts are those of the rest after
      the word, which starts with a delimiter. */
  lemma FieldAfterWord(s: string, d: Delims, m: nat)
    requires 0 < m < |Fields(s, d)| && !IsDelim(s[0], d)
    ensures var n := RunLength(s, d);
      && 0 < n < |s| && IsDelim(s[n], d)
      && m - 1 < |Fields(s[n..], d)| && Fields(s, d)[m] == Fields(s[n..], d)[m - 1]
      && FieldStart(s, d, m) == n + FieldStart(s[n..], d, m - 1)
      && FieldStart(s[n..], d, m - 1) > 0
  {
    var n := RunLength(s, d);
    FieldsFromWord(s, d);
    assert s[n..][0] == s[n];
  }

  /** Later fields start further right. */
  lemma {:induction false} FieldStartIncreasing(s: string, d: Delims, m: nat, m': nat)
    requires m < m' < |Fields(s, d)|
    ensures FieldStart(s, d, m) < FieldStart(s, d, m')
    decreases |s|
  {
    if IsDelim(s[0], d) {
      FieldsFromDelim(s, d);
      FieldStartIncreasing(s[1..], d, m, m');
    } else {
      FieldsFromWord(s, d);
      if m > 0 {
        FieldStartIncreasing(s[RunLength(s, d)..], d, m - 1, m' - 1);
      }
    }
  }

  /** Every maximal run of `s` is one of its fields, starting where that field starts. */
  lemma {:induction false} RunsAreFields(s: string, d: Delims, w: string, i: nat)
    requires MaximalRun(s, w, i, d)
    ensures exists m :: 0 <= m < |Fields(s, d)| && FieldStart(s, d, m) == i && Fields(s, d)[m] == w
    decreases |s|, 1
  {
    assert s[i] == s[i..i + |w|][0] == w[0];
    if IsDelim(s[0], d) {
      RunsAreFieldsAfterDelim(s, d, w, i);
    } else if i == 0 {
      RunAtStart(s, d, w);
      FieldsFromWord(s, d);
      assert FieldStart(s, d, 0) == 0;
    } else {
      RunsAreFieldsAfterWord(s, d, w, i);
    }
  }

  /** RunsAreFields for a string that starts with a delimiter. */
  lemma {:induction false} RunsAreFieldsAfterDelim(s: string, d: Delims, w: string, i: nat)
    requires MaximalRun(s, w, i, d) && IsDelim(s[0], d) && i > 0
    ensures exists m :: 0 <= m < |Fields(s, d)| && FieldStart(s, d, m) == i && Fields(s, d)[m] == w
    decreases |s|, 0
  {
    var rest := s[1..];
    RunInSuffix(s, d, 1, w, i);
    RunsAreFields(rest, d, w, i - 1);
    var m :| 0 <= m < |Fields(rest, d)| && FieldStart(rest, d, m) == i - 1 && Fields(rest, d)[m] == w;
    FieldsFromDelim(s, d);
    assert FieldStart(s, d, m) == i;
  }

  /** RunsAreFields for a run after the first word of a string that starts with a word. */
  lemma {:induction false} RunsAreFieldsAfterWord(s: string, d: Delims, w: string, i: nat)
    requires MaximalRun(s, w, i, d) && !IsDelim(s[0], d) && i > 0
    ensures exists m :: 0 <= m < |Fields(s, d)| && FieldStart(s, d, m) == i && Fields(s, d)[m] == w
    decreases |s|, 0
  {
    var n := RunLength(s, d);
    var rest := s[n..];
    assert i - 1 >= n;
    RunInSuffix(s, d, n, w, i);
    RunsAreFields(rest, d, w, i - n);
    var m :| 0 <= m < |Fields(rest, d)| && FieldStart(rest, d, m) == i - n && Fields(rest, d)[m] == w;
    FieldsFromWord(s, d);
    assert FieldStart(s, d, m + 1) == i && Fields(s, d)[m + 1] == w;
  }

  /** The maximal run at the start of `s` is its leading run of non-delimiters. */
  lemma RunAtStart(s: string, d: Delims, w: string)
    requires MaximalRun(s, w, 0, d)
    ensures w == s[..RunLength(s, d)]
  {
  }

  /** Every stretch of non-delimiters of `s` is no longer than some field. */
  lemma {:induction false} StretchWithinField(s: string, d: Delims, i: nat, j: nat)
    requires i < j <= |s| && forall k :: i <= k < j ==> !IsDelim(s[k], d)
    ensures exists m :: 0 <= m < |Fields(s, d)| && j - i <= |Fields(s, d)[m]|
    decreases |s|, 1
  {
    var n := RunLength(s, d);
    if IsDelim(s[0], d) || i >= n {
      StretchInRest(s, d, i, j);
    } else {
      assert j <= n;
      FieldsFromWord(s, d);
      assert j - i <= |Fields(s, d)[0]|;
    }
  }

  /** StretchWithinField for a stretch that starts after a leading delimiter or word. */
  lemma {:induction false} StretchInRest(s: string, d: Delims, i: nat, j: nat)
    requires i < j <= |s| && forall k :: i <= k < j ==> !IsDelim(s[k], d)
    requires IsDelim(s[0], d) || i >= RunLength(s, d)
    ensures exists m :: 0 <= m < |Fields(s, d)| && j - i <= |Fields(s, d)[m]|
    decreases |s|, 0
  {
    var n := if IsDelim(s[0], d) then 1 else RunLength(s, d);
    var rest := s[n..];
    assert forall k :: i - n <= k < j - n ==> rest[k] == s[k + n];
    StretchWithinField(rest, d, i - n, j - n);
    var m :| 0 <= m < |Fields(rest, d)| && j - i <= |Fields(rest, d)[m]|;
    if IsDelim(s[0], d) {
      FieldsFromDelim(s, d);
    } else {
      FieldsFromWord(s, d);
      assert Fields(s, d)[m + 1] == Fields(rest, d)[m];
    }
  }

  // ---------------------------------------------------------------------------------------
  // Properties of normalize-space

  lemma {:induction false} JoinLength(ws: seq<string>)
    requires ws != [] && forall j :: 0 <= j < |ws| ==> ws[j] != []
    ensures |Join(ws)| >= |ws[0]| > 0
    ensures Join(ws)[0] == ws[0][0]
    ensures Join(ws)[|Join(ws)| - 1] == ws[|ws| - 1][|ws[|ws| - 1]| - 1]
    decreases |ws|
  {
    if |ws| > 1 {
      JoinLength(ws[1..]);
    }
  }

  /** Joining non-empty words free of whitespace gives a normalized string. */
  lemma {:induction false} JoinNormalized(ws: seq<string>)
    requires forall j :: 0 <= j < |ws| ==> ws[j] != []
    requires forall j, i :: 0 <= j < |ws| && 0 <= i < |ws[j]| ==> !IsDelim(ws[j][i], XmlWhitespace)
    ensures Normalized(Join(ws))
    decreases |ws|
  {
    if |ws| > 1 {
      var tail := Join(ws[1..]);
      JoinNormalized(ws[1..]);
      JoinLength(ws[1..]);
      var s := ws[0] + " " + tail;
      var h := |ws[0]|;
      assert Join(ws) == s;
      forall i | 0 <= i < |s| && IsDelim(s[i], XmlWhitespace)
        ensures s[i] == ' '
      {
        if i > h {
          assert s[i] == tail[i - h - 1];
        }
      }
      forall i | 0 < i < |s| && s[i] == ' '
        ensures s[i - 1] != ' '
      {
        if i <= h {
          assert s[i - 1] == ws[0][i - 1];
        } else if i > h + 1 {
          assert s[i] == tail[i - h - 1] && s[i - 1] == tail[i - h - 2];
        }
      }
      assert s[0] == ws[0][0];
      assert s[|s| - 1] == tail[|tail| - 1];
    }
  }

  /** Whatever the input, `normalize-space` produces a normalized string. */
  lemma NormalizeSpaceNormalizes(s: string)
    ensures Normalized(NormalizeSpace(s))
  {
    JoinNormalized(Fields(s, XmlWhitespace));
  }

  /** In a normalized string, the first word that does not end the string is followed by
      one space and a normalized rest. */
  lemma NormalizedRest(s: string, n: nat)
    requires Normalized(s) && 0 < n < |s| && n == RunLength(s, XmlWhitespace)
    ensures s[n] == ' ' && n + 1 < |s|
    ensures Normalized(s[n + 1..]) && !IsDelim(s[n + 1], XmlWhitespace)
  {
    var rest := s[n + 1..];
    forall i | 0 < i < |rest| && rest[i] == ' '
      ensures rest[i - 1] != ' '
    {
      assert rest[i] == s[n + 1 + i] && rest[i - 1] == s[n + i];
    }
    forall i | 0 <= i < |rest| && IsDelim(rest[i], XmlWhitespace)
      ensures rest[i] == ' '
    {
      assert rest[i] == s[n + 1 + i];
    }
  }

  /** A string that starts with a word splits into that word and the fields after it. */
  lemma FieldsFromWord(s: string, d: Delims)
    requires s != [] && !IsDelim(s[0], d)
    ensures Fields(s, d) == [s[..RunLength(s, d)]] + Fields(s[RunLength(s, d)..], d)
  {
  }

  /** A leading delimiter is skipped. */
  lemma FieldsFromDelim(s: string, d: Delims)
    requires s != [] && IsDelim(s[0], d)
    ensures Fields(s, d) == Fields(s[1..], d)
  {
  }

  /** Joining a word in front of further words puts one space between. */
  lemma JoinCons(w: string, ws: seq<string>)
    requires ws != []
    ensures Join([w] + ws) == w + " " + Join(ws)
  {
    assert ([w] + ws)[1..] == ws;
  }

  /** `normalize-space` leaves a normalized string as it is. */
  lemma {:induction false} NormalizeSpaceKeepsNormalized(s: string)
    requires Normalized(s)
    ensures NormalizeSpace(s) == s
    decreases |s|
  {
    if s != [] {
      var n := RunLength(s, XmlWhitespace);
      FieldsFromWord(s, XmlWhitespace);
      if n == |s| {
        assert s[n..] == [];
        assert s[..n] == s;
      } else {
        NormalizedRest(s, n);
        NormalizeSpaceKeepsNormalized(s[n + 1..]);
        NormalizeSpaceAfterWord(s, n);
      }
    }
  }

  /** A word, one space, and a rest that `normalize-space` keeps: the whole is kept too. */
  lemma NormalizeSpaceAfterWord(s: string, n: nat)
    requires 0 < n && n + 1 < |s| && n == RunLength(s, XmlWhitespace) && s[n] == ' '
    requires !IsDelim(s[n + 1], XmlWhitespace) && NormalizeSpace(s[n + 1..]) == s[n + 1..]
    ensures NormalizeSpace(s) == s
  {
    var rest := s[n + 1..];
    FieldsFromWord(s, XmlWhitespace);
    FieldsAfterDelim(s, n);
    FieldsFromWord(rest, XmlWhitespace);
    JoinCons(s[..n], Fields(rest, XmlWhitespace));
    SplitAtSpace(s, n);
  }

  /** The fields from a delimiter on are the fields after it. */
  lemma FieldsAfterDelim(s: string, n: nat)
    requires n < |s| && IsDelim(s[n], XmlWhitespace)
    ensures Fields(s[n..], XmlWhitespace) == Fields(s[n + 1..], XmlWhitespace)
  {
    assert s[n..][1..] == s[n + 1..];
    FieldsFromDelim(s[n..], XmlWhitespace);
  }

  lemma SplitAtSpace(s: string, n: nat)
    requires n < |s| && s[n] == ' '
    ensures s[..n] + " " + s[n + 1..] == s
  {
  }

  /** Normalizing twice is normalizing once. */
  lemma NormalizeSpaceIdempotent(s: string)
    ensures NormalizeSpace(NormalizeSpace(s)) == NormalizeSpace(s)
  {
    NormalizeSpaceNormalizes(s);
    NormalizeSpaceKeepsNormalized(NormalizeSpace(s));
  }

  // ---------------------------------------------------------------------------------------
  // Properties of the longest word

  /** `Longest` returns a word at least as long as every word, and the first such word. */
  lemma {:induction false} LongestIsFirstMaximal(ws: seq<string>)
    ensures forall j :: 0 <= j < |ws| ==> |ws[j]| <= |Longest(ws)|
    ensures Longest(ws) == "" || exists j :: 0 <= j < |ws| && ws[j] == Longest(ws) && forall i :: 0 <= i < j ==> |ws[i]| < |ws[j]|
    ensures (forall j :: 0 <= j < |ws| ==> ws[j] != "") ==> (Longest(ws) == "" <==> ws == [])
  {
    if ws != [] {
      var init := ws[..|ws| - 1];
      LongestIsFirstMaximal(init);
      assert forall j :: 0 <= j < |init| ==> init[j] == ws[j];
      if |ws[|ws| - 1]| <= |Longest(init)| && Longest(init) != "" {
        var j :| 0 <= j < |init| && init[j] == Longest(init) && forall i :: 0 <= i < j ==> |init[i]| < |init[j]|;
        assert ws[j] == Longest(ws);
      }
    }
  }

  /** The longest-word helper returns "" exactly when the label has no non-space character;
      otherwise it returns a space-free word of the label that is at least as long as every
      other word, the first of them on a tie. */
  lemma LongestWordSpec(s: string)
    ensures LongestWord(s) == "" <==> forall i :: 0 <= i < |s| ==> s[i] == ' '
    ensures forall i :: 0 <= i < |LongestWord(s)| ==> LongestWord(s)[i] != ' '
    ensures Contains(s, LongestWord(s))
    ensures forall j :: 0 <= j < |Fields(s, Space)| ==> |Fields(s, Space)[j]| <= |LongestWord(s)|
    ensures LongestWord(s) == "" || exists j :: 0 <= j < |Fields(s, Space)| && Fields(s, Space)[j] == LongestWord(s) && forall i :: 0 <= i < j ==> |Fields(s, Space)[i]| < |LongestWord(s)|
  {
    var ws := Fields(s, Space);
    LongestIsFirstMaximal(ws);
    FieldsEmptyIff(s, Space);
    FieldsOccur(s, Space);
    if LongestWord(s) == "" {
      assert OccursAt(s, "", 0);
    }
  }

  /** Stated on the string itself: no stretch of non-space characters is longer than the
      result, and a non-empty result is a maximal run of non-space characters that every
      maximal run starting before it is strictly shorter than. */
  lemma LongestWordIsFirstLongestRun(s: string)
    ensures forall i, j :: 0 <= i <= j <= |s| && ' ' !in s[i..j] ==> j - i <= |LongestWord(s)|
    ensures LongestWord(s) != "" ==>
      exists p :: && MaximalRun(s, LongestWord(s), p, Space)
                  && forall q, w :: MaximalRun(s, w, q, Space) && q < p ==> |w| < |LongestWord(s)|
  {
    var ws := Fields(s, Space);
    var r := LongestWord(s);
    LongestIsFirstMaximal(ws);
    forall i, j | 0 <= i <= j <= |s| && ' ' !in s[i..j]
      ensures j - i <= |r|
    {
      if i < j {
        forall k | i <= k < j
          ensures !IsDelim(s[k], Space)
        {
          assert s[k] == s[i..j][k - i];
        }
        StretchWithinField(s, Space, i, j);
      }
    }
    if r != "" {
      var j :| 0 <= j < |ws| && ws[j] == r && forall i :: 0 <= i < j ==> |ws[i]| < |ws[j]|;
      var p := FieldStart(s, Space, j);
      FieldsAreRuns(s, Space, j);
      forall q, w | MaximalRun(s, w, q, Space) && q < p
        ensures |w| < |r|
      {
        RunsAreFields(s, Space, w, q);
        var m :| 0 <= m < |ws| && FieldStart(s, Space, m) == q && ws[m] == w;
        if m > j {
          FieldStartIncreasing(s, Space, j, m);
        }
      }
    }
  }
}
