/**
 * `parseCoverLetter` and the greeting of src/components/CoverLetterPDF.tsx.
 *
 * The letter is split into paragraphs at runs of two or more newlines; each
 * trimmed, non-empty paragraph then goes through a fixed chain of global
 * regular-expression replacements. Each replacement is modelled as a
 * left-to-right scan that, like a global `replace`, resumes after the end
 * of every match. In multiline mode `^` holds at the start of the string
 * and after any line terminator of the string being scanned.
 */
module CoverLetter {
  import opened Wrappers
  import opened JsText

  // ---------------------------------------------------------------------------
  // Paragraphs: markdown.split(/\n\n+/).map(trim).filter(non-empty)

  /** No two consecutive newlines. */
  predicate NoBlankLine(s: string) {
    forall i :: 0 <= i < |s| - 1 ==> !(s[i] == '\n' && s[i + 1] == '\n')
  }

  /** `s` starts with two newlines: a separator begins here. */
  predicate AtBlankLine(s: string) {
    |s| >= 2 && s[0] == '\n' && s[1] == '\n'
  }

  /** `s` with its leading newlines removed. */
  function SkipNewlines(s: string): (r: string)
    ensures |r| <= |s| && r == s[|s| - |r|..]
    ensures r == [] || r[0] != '\n'
    ensures s != [] && s[0] == '\n' ==> |r| < |s|
    decreases |s|
  {
    if s != [] && s[0] == '\n' then SkipNewlines(s[1..]) else s
  }

  /** `s.split(/\n\n+/)`: the separators are the maximal runs of two or more newlines. */
  function SplitBlankLines(s: string): (r: seq<string>)
    ensures |r| >= 1
    ensures s != [] && !AtBlankLine(s) ==> r[0] != [] && r[0][0] == s[0]
    decreases |s|
  {
    if s == [] then [""]
    else if AtBlankLine(s) then [""] + SplitBlankLines(SkipNewlines(s))
    else
      var rest := SplitBlankLines(s[1..]);
      [[s[0]] + rest[0]] + rest[1..]
  }

  /** What `parseCoverLetter` keeps of a field: trimmed, and not empty. */
  predicate IsParagraph(p: string) {
    p != [] && IsTrimmed(p)
  }

  /** The trimmed fields that are not empty, in order. */
  function NonBlank(fields: seq<string>): (r: seq<string>)
    ensures forall k :: 0 <= k < |r| ==> IsParagraph(r[k])
    ensures |r| <= |fields|
  {
    if fields == [] then []
    else
      var t := Trim(fields[0]);
      var rest := NonBlank(fields[1..]);
      if t == [] then rest
      else
        ParagraphsCons(t, rest);
        [t] + rest
  }

  /** A paragraph in front of paragraphs. */
  lemma {:induction false} ParagraphsCons(t: string, rest: seq<string>)
    requires IsParagraph(t)
    requires forall k :: 0 <= k < |rest| ==> IsParagraph(rest[k])
    ensures forall k :: 0 <= k < |rest| + 1 ==> IsParagraph(([t] + rest)[k])
  {
    forall k | 0 <= k < |rest| + 1 ensures IsParagraph(([t] + rest)[k]) {
      if k > 0 {
        assert ([t] + rest)[k] == rest[k - 1];
      }
    }
  }

  /** The paragraphs `parseCoverLetter` cleans. */
  function Paragraphs(markdown: string): (r: seq<string>)
    ensures forall k :: 0 <= k < |r| ==> IsParagraph(r[k]) && NoBlankLine(r[k])
    ensures |r| <= |SplitBlankLines(markdown)|
  {
    var fields := SplitBlankLines(markdown);
    SplitBlankLinesFields(markdown);
    NonBlankNoBlankLine(fields);
    NonBlank(fields)
  }

  /** A blank line does not appear in part of a text that has none. */
  lemma {:induction false} NoBlankLineInfix(s: string, i: nat, j: nat)
    requires i <= j <= |s| && NoBlankLine(s)
    ensures NoBlankLine(s[i..j])
  {
    forall k | 0 <= k < j - i - 1 ensures !(s[i..j][k] == '\n' && s[i..j][k + 1] == '\n') {
      assert s[i..j][k] == s[i + k] && s[i..j][k + 1] == s[i + k + 1];
    }
  }

  /** Trimming and dropping empty fields keeps fields free of blank lines. */
  lemma {:induction false} NonBlankNoBlankLine(fields: seq<string>)
    requires forall k :: 0 <= k < |fields| ==> NoBlankLine(fields[k])
    ensures forall k :: 0 <= k < |NonBlank(fields)| ==> NoBlankLine(NonBlank(fields)[k])
    decreases |fields|
  {
    if fields != [] {
      NoBlankLineTail(fields);
      NonBlankNoBlankLine(fields[1..]);
      var i, j := TrimIsInfix(fields[0]);
      NoBlankLineInfix(fields[0], i, j);
      NoBlankLineCons(Trim(fields[0]), NonBlank(fields[1..]));
    }
  }

  /** The tail of fields free of blank lines is free of them too. */
  lemma {:induction false} NoBlankLineTail(fields: seq<string>)
    requires fields != [] && forall k :: 0 <= k < |fields| ==> NoBlankLine(fields[k])
    ensures forall k :: 0 <= k < |fields| - 1 ==> NoBlankLine(fields[1..][k])
  {
    assert forall k :: 0 <= k < |fields| - 1 ==> fields[1..][k] == fields[k + 1];
  }

  /** A field free of blank lines in front of fields free of them. */
  lemma {:induction false} NoBlankLineCons(t: string, rest: seq<string>)
    requires NoBlankLine(t)
    requires forall k :: 0 <= k < |rest| ==> NoBlankLine(rest[k])
    ensures forall k :: 0 <= k < |rest| + 1 ==> NoBlankLine(([t] + rest)[k])
  {
    assert forall k :: 1 <= k < |rest| + 1 ==> ([t] + rest)[k] == rest[k - 1];
  }

  /** No field of the split holds a blank line. */
  lemma {:induction false} SplitBlankLinesFields(s: string)
    ensures forall k :: 0 <= k < |SplitBlankLines(s)| ==> NoBlankLine(SplitBlankLines(s)[k])
    decreases |s|
  {
    if s != [] {
      if AtBlankLine(s) {
        SplitBlankLinesFields(SkipNewlines(s));
      } else {
        SplitBlankLinesFields(s[1..]);
        var rest := SplitBlankLines(s[1..]);
        var f := [s[0]] + rest[0];
        assert NoBlankLine(rest[0]);
        forall i | 0 <= i < |f| - 1 ensures !(f[i] == '\n' && f[i + 1] == '\n') {
          if i > 0 {
            assert f[i] == rest[0][i - 1] && f[i + 1] == rest[0][i];
          }
        }
        assert forall k :: 1 <= k < |rest| ==> ([f] + rest[1..])[k] == rest[k];
      }
    }
  }

  /** Paragraphs joined by a blank line. */
  function JoinParagraphs(ps: seq<string>): string
    requires |ps| >= 1
  {
    if |ps| == 1 then ps[0] else ps[0] + "\n\n" + JoinParagraphs(ps[1..])
  }

  /** A field that can stand between separators and be split off again. */
  predicate IsField(p: string) {
    p != [] && p[0] != '\n' && p[|p| - 1] != '\n' && NoBlankLine(p)
  }

  /** Skipping the newlines of a blank line lands on what follows it. */
  lemma {:induction false} SkipNewlinesOfBlankLine(b: string)
    requires b == [] || b[0] != '\n'
    ensures SkipNewlines("\n\n" + b) == b
  {
    DoubleNewline(b);
    SkipNewlinesCons("\n" + b);
    SkipNewlinesCons(b);
  }

  /** A blank line is two newlines, one after the other. */
  lemma {:induction false} DoubleNewline(b: string)
    ensures "\n\n" + b == "\n" + ("\n" + b)
  {
  }

  /** A leading newline is skipped. */
  lemma {:induction false} SkipNewlinesCons(t: string)
    ensures SkipNewlines("\n" + t) == SkipNewlines(t)
  {
    assert ("\n" + t)[1..] == t;
  }

  /** A field followed by a blank line is split off whole. */
  lemma {:induction false} SplitFieldThenBlankLine(a: string, b: string)
    requires NoBlankLine(a) && (a == [] || a[|a| - 1] != '\n')
    requires b == [] || b[0] != '\n'
    ensures SplitBlankLines(a + "\n\n" + b) == [a] + SplitBlankLines(b)
    decreases |a|
  {
    var s := a + "\n\n" + b;
    if a == [] {
      assert s == "\n\n" + b;
      SkipNewlinesOfBlankLine(b);
    } else {
      var a' := a[1..];
      assert s[0] == a[0] && s[1..] == a' + "\n\n" + b;
      if a' != [] {
        assert a'[0] == a[1] && a[|a| - 1] == a'[|a'| - 1];
        assert !(a[0] == '\n' && a[1] == '\n');
      }
      assert NoBlankLine(a') by {
        forall i | 0 <= i < |a'| - 1 ensures !(a'[i] == '\n' && a'[i + 1] == '\n') {
          assert a'[i] == a[i + 1] && a'[i + 1] == a[i + 2];
        }
      }
      SplitFieldThenBlankLine(a', b);
      assert [a[0]] + a' == a;
    }
  }

  /** Splitting paragraphs joined by blank lines gives them back. */
  lemma {:induction false} SplitJoinParagraphs(ps: seq<string>)
    requires |ps| >= 1
    requires forall k :: 0 <= k < |ps| ==> IsField(ps[k])
    ensures SplitBlankLines(JoinParagraphs(ps)) == ps
    decreases |ps|
  {
    if |ps| == 1 {
      SplitNoBlankLine(ps[0]);
    } else {
      var b := JoinParagraphs(ps[1..]);
      JoinParagraphsStart(ps[1..]);
      SplitFieldThenBlankLine(ps[0], b);
      SplitJoinParagraphs(ps[1..]);
      HeadTail(ps);
    }
  }

  /** A join of fields starts with the first character of its first field. */
  lemma {:induction false} JoinParagraphsStart(ps: seq<string>)
    requires |ps| >= 1 && ps[0] != []
    ensures JoinParagraphs(ps) != [] && JoinParagraphs(ps)[0] == ps[0][0]
  {
  }

  /** A string without a blank line is a single field. */
  lemma {:induction false} SplitNoBlankLine(s: string)
    requires NoBlankLine(s)
    ensures SplitBlankLines(s) == [s]
    decreases |s|
  {
    if s != [] {
      assert !AtBlankLine(s);
      assert NoBlankLine(s[1..]) by {
        forall i | 0 <= i < |s| - 2 ensures !(s[1..][i] == '\n' && s[1..][i + 1] == '\n') {
          assert s[1..][i] == s[i + 1] && s[1..][i + 1] == s[i + 2];
        }
      }
      SplitNoBlankLine(s[1..]);
      HeadTail(s);
    }
  }

  /** Trimmed, non-empty paragraphs without blank lines are found again in their join. */
  lemma {:induction false} ParagraphsOfJoin(ps: seq<string>)
    requires |ps| >= 1
    requires forall k :: 0 <= k < |ps| ==> ps[k] != [] && IsTrimmed(ps[k]) && NoBlankLine(ps[k])
    ensures Paragraphs(JoinParagraphs(ps)) == ps
  {
    SplitJoinParagraphs(ps);
    NonBlankOfTrimmed(ps);
  }

  /** Trimmed, non-empty fields pass the trim and filter unchanged. */
  lemma {:induction false} NonBlankOfTrimmed(ps: seq<string>)
    requires forall k :: 0 <= k < |ps| ==> ps[k] != [] && IsTrimmed(ps[k])
    ensures NonBlank(ps) == ps
    decreases |ps|
  {
    if ps != [] {
      NonBlankOfTrimmed(ps[1..]);
      HeadTail(ps);
    }
  }

  // ---------------------------------------------------------------------------
  // Markers at line starts: replace(/^#+\s+/gm, '') and replace(/^[-*]\s+/gm, '')

  /** The number of `#` characters `s` starts with. */
  function HashRun(s: string): (n: nat)
    ensures n <= |s|
    ensures forall i :: 0 <= i < n ==> s[i] == '#'
    ensures n == |s| || s[n] != '#'
    decreases |s|
  {
    if s != [] && s[0] == '#' then 1 + HashRun(s[1..]) else 0
  }

  /** A list marker character. */
  predicate IsListMark(c: char) {
    c == '-' || c == '*'
  }

  /**
   * The length of the match of `#+\s+` (when `hashes`) or `[-*]\s+` at the
   * start of `s`, or 0 when there is none. Both quantifiers are greedy.
   */
  function LineMarkLen(s: string, hashes: bool): nat {
    var h := if hashes then HashRun(s) else if s != [] && IsListMark(s[0]) then 1 else 0;
    if h == 0 || h >= |s| || !IsJsWs(s[h]) then 0
    else h + WsRun(s[h..])
  }

  /** `s.replace(/^#+\s+/gm, '')` when `hashes`, otherwise `s.replace(/^[-*]\s+/gm, '')`. */
  function StripLineMarks(s: string, hashes: bool, lineStart: bool): (r: string)
    ensures |r| <= |s|
    decreases |s|
  {
    if s == [] then []
    else
      var n := if lineStart then LineMarkLen(s, hashes) else 0;
      if n > 0 then StripLineMarks(s[n..], hashes, IsLineTerminator(s[n - 1]))
      else [s[0]] + StripLineMarks(s[1..], hashes, IsLineTerminator(s[0]))
  }

  /** A character the marker removal may delete. */
  predicate IsMarkOrWs(c: char, hashes: bool) {
    IsJsWs(c) || (if hashes then c == '#' else IsListMark(c))
  }

  /** `s` without the characters the marker removal may delete. */
  function Residue(s: string, hashes: bool): (r: string)
    ensures forall c :: c in r ==> !IsMarkOrWs(c, hashes)
  {
    if s == [] then []
    else (if IsMarkOrWs(s[0], hashes) then [] else [s[0]]) + Residue(s[1..], hashes)
  }

  /** `Residue` of a concatenation. */
  lemma {:induction false} ResidueAppend(a: string, b: string, hashes: bool)
    ensures Residue(a + b, hashes) == Residue(a, hashes) + Residue(b, hashes)
    decreases |a|
  {
    if a != [] {
      TailOfAppend(a, b);
      ResidueAppend(a[1..], b, hashes);
    } else {
      assert a + b == b;
    }
  }

  /** A string made only of deletable characters has an empty residue. */
  lemma {:induction false} ResidueOfMarks(s: string, hashes: bool)
    requires forall i :: 0 <= i < |s| ==> IsMarkOrWs(s[i], hashes)
    ensures Residue(s, hashes) == []
    decreases |s|
  {
    if s != [] {
      ResidueOfMarks(s[1..], hashes);
    }
  }

  /** What a marker match covers is deletable. */
  lemma {:induction false} LineMarkDeletable(s: string, hashes: bool)
    requires LineMarkLen(s, hashes) > 0
    ensures LineMarkLen(s, hashes) <= |s|
    ensures forall i :: 0 <= i < LineMarkLen(s, hashes) ==> IsMarkOrWs(s[i], hashes)
  {
    var h := if hashes then HashRun(s) else 1;
    var n := LineMarkLen(s, hashes);
    forall i | h <= i < n ensures IsJsWs(s[i]) {
      assert s[h..][..n - h][i - h] == s[i];
    }
  }

  /**
   * The marker removal deletes only marker characters and whitespace: the
   * other characters are kept, in order.
   */
  lemma {:induction false} StripLineMarksKeepsText(s: string, hashes: bool, lineStart: bool)
    ensures Residue(StripLineMarks(s, hashes, lineStart), hashes) == Residue(s, hashes)
    decreases |s|
  {
    if s != [] {
      var n := if lineStart then LineMarkLen(s, hashes) else 0;
      if n > 0 {
        MarkResidue(s, hashes);
        StripLineMarksKeepsText(s[n..], hashes, IsLineTerminator(s[n - 1]));
      } else {
        StripLineMarksKeepsText(s[1..], hashes, IsLineTerminator(s[0]));
        CopiedResidue(s, hashes, lineStart);
      }
    }
  }

  /** A marker match at the start of `s` adds nothing to its residue. */
  lemma {:induction false} MarkResidue(s: string, hashes: bool)
    requires LineMarkLen(s, hashes) > 0
    ensures LineMarkLen(s, hashes) <= |s|
    ensures Residue(s[LineMarkLen(s, hashes)..], hashes) == Residue(s, hashes)
  {
    var n := LineMarkLen(s, hashes);
    LineMarkDeletable(s, hashes);
    ResidueOfMarks(s[..n], hashes);
    ResidueAppend(s[..n], s[n..], hashes);
    assert s[..n] + s[n..] == s;
  }

  /** A character copied where no marker matches keeps the residue, given that the rest does. */
  lemma {:induction false} CopiedResidue(s: string, hashes: bool, lineStart: bool)
    requires s != [] && (lineStart ==> LineMarkLen(s, hashes) == 0)
    requires var t := StripLineMarks(s[1..], hashes, IsLineTerminator(s[0]));
      Residue(t, hashes) == Residue(s[1..], hashes)
    ensures Residue(StripLineMarks(s, hashes, lineStart), hashes) == Residue(s, hashes)
  {
    var t := StripLineMarks(s[1..], hashes, IsLineTerminator(s[0]));
    assert StripLineMarks(s, hashes, lineStart) == [s[0]] + t;
    ResidueAppend([s[0]], t, hashes);
  }

  /** Without marker characters the removal changes nothing. */
  lemma {:induction false} StripLineMarksNoMark(s: string, hashes: bool, lineStart: bool)
    requires forall i :: 0 <= i < |s| ==> (if hashes then s[i] != '#' else !IsListMark(s[i]))
    ensures StripLineMarks(s, hashes, lineStart) == s
    decreases |s|
  {
    if s != [] {
      assert LineMarkLen(s, hashes) == 0;
      StripLineMarksNoMark(s[1..], hashes, IsLineTerminator(s[0]));
      HeadTail(s);
    }
  }

  /** A run of `#` followed by whitespace is exactly what `#+` and `\s+` take. */
  lemma {:induction false} HeadingMarkLen(hs: string, w: string, title: string)
    requires hs != [] && forall i :: 0 <= i < |hs| ==> hs[i] == '#'
    requires w != [] && AllWs(w)
    requires title == [] || !IsJsWs(title[0])
    ensures LineMarkLen(hs + w + title, true) == |hs| + |w|
    ensures (hs + w + title)[|hs| + |w|..] == title
  {
    var s := hs + w + title;
    assert s[|hs|] == w[0];
    assert forall i :: 0 <= i < |hs| ==> s[i] == hs[i];
    assert HashRun(s) == |hs|;
    var t := s[|hs|..];
    assert t == w + title;
    assert forall i :: 0 <= i < |w| ==> t[i] == w[i];
    if |w| < |t| {
      assert t[|w|] == title[0];
    }
    assert WsRun(t) == |w|;
  }

  /**
   * A heading line, one or more `#` and a whitespace run before a title,
   * loses its marker and keeps its title: `## Title` becomes `Title`.
   */
  lemma {:induction false} HeadingMarkRemoved(hs: string, w: string, title: string)
    requires hs != [] && forall i :: 0 <= i < |hs| ==> hs[i] == '#'
    requires w != [] && AllWs(w)
    requires title != [] && !IsJsWs(title[0])
    requires forall i :: 0 <= i < |title| ==> title[i] != '#'
    ensures StripLineMarks(hs + w + title, true, true) == title
  {
    HeadingMarkLen(hs, w, title);
    StripLineMarksNoMark(title, true, IsLineTerminator((hs + w + title)[|hs| + |w| - 1]));
  }

  /**
   * The `m` flag: a heading marker that opens a later line is removed too,
   * while the text before the line break is kept.
   */
  lemma {:induction false} LineBreakHeadingMarkRemoved(x: string, hs: string, w: string, title: string, lineStart: bool)
    requires forall i :: 0 <= i < |x| ==> x[i] != '#'
    requires hs != [] && forall i :: 0 <= i < |hs| ==> hs[i] == '#'
    requires w != [] && AllWs(w)
    requires title != [] && !IsJsWs(title[0])
    requires forall i :: 0 <= i < |title| ==> title[i] != '#'
    ensures StripLineMarks(x + "\n" + hs + w + title, true, lineStart) == x + "\n" + title
    decreases |x|
  {
    var s := x + "\n" + hs + w + title;
    if x == [] {
      assert s == "\n" + (hs + w + title);
      assert LineMarkLen(s, true) == 0;
      assert s[1..] == hs + w + title;
      HeadingMarkRemoved(hs, w, title);
    } else {
      assert s[0] == x[0];
      assert LineMarkLen(s, true) == 0;
      assert s[1..] == x[1..] + "\n" + hs + w + title;
      LineBreakHeadingMarkRemoved(x[1..], hs, w, title, IsLineTerminator(x[0]));
      assert [x[0]] + (x[1..] + "\n" + title) == x + "\n" + title;
    }
  }

  /** A list item `- text` or `* text` loses its marker and the space after it. */
  lemma {:induction false} ListMarkRemoved(m: char, text: string)
    requires IsListMark(m)
    requires text != [] && !IsJsWs(text[0])
    requires forall i :: 0 <= i < |text| ==> !IsListMark(text[i])
    ensures StripLineMarks([m, ' '] + text, false, true) == text
  {
    var s := [m, ' '] + text;
    assert s[1] == ' ' && s[2] == text[0];
    assert s[1..][1..] == text;
    assert WsRun(s[1..]) == 1;
    assert s[2..] == text;
    StripLineMarksNoMark(text, false, false);
  }

  /**
   * The `m` flag: a list marker that opens a later line is removed too,
   * while the text before the line break is kept.
   */
  lemma {:induction false} LineBreakListMarkRemoved(x: string, m: char, text: string, lineStart: bool)
    requires forall i :: 0 <= i < |x| ==> !IsListMark(x[i])
    requires IsListMark(m)
    requires text != [] && !IsJsWs(text[0])
    requires forall i :: 0 <= i < |text| ==> !IsListMark(text[i])
    ensures StripLineMarks(x + "\n" + [m, ' '] + text, false, lineStart) == x + "\n" + text
    decreases |x|
  {
    var s := x + "\n" + [m, ' '] + text;
    if x == [] {
      assert s == "\n" + ([m, ' '] + text);
      assert LineMarkLen(s, false) == 0;
      assert s[1..] == [m, ' '] + text;
      ListMarkRemoved(m, text);
    } else {
      assert s[0] == x[0];
      assert LineMarkLen(s, false) == 0;
      assert s[1..] == x[1..] + "\n" + [m, ' '] + text;
      LineBreakListMarkRemoved(x[1..], m, text, IsLineTerminator(x[0]));
      assert [x[0]] + (x[1..] + "\n" + text) == x + "\n" + text;
    }
  }

  // ---------------------------------------------------------------------------
  // Emphasis: the bold and the italic replacement, each global

  /** The number of characters other than `*` that `s` starts with: what `[^*]+` takes. */
  function NonStarRun(s: string): (n: nat)
    ensures n <= |s|
    ensures forall i :: 0 <= i < n ==> s[i] != '*'
    ensures n == |s| || s[n] == '*'
    decreases |s|
  {
    if s != [] && s[0] != '*' then 1 + NonStarRun(s[1..]) else 0
  }

  /** An emphasis delimiter. */
  predicate IsDelimiter(d: string) {
    d == "*" || d == "**"
  }

  /**
   * The length of the text the pattern `d([^*]+)d` captures at the start of
   * `s`, or 0 when it does not match there.
   */
  function EmphasisLen(s: string, d: string): nat
    requires IsDelimiter(d)
  {
    if !StartsWith(s, d) then 0
    else
      var k := NonStarRun(s[|d|..]);
      if k > 0 && StartsWith(s[|d| + k..], d) then k else 0
  }

  /**
   * Global replacement of the pattern `d([^*]+)d` by its group: the bold
   * pattern for `d == "**"`, the italic one for `d == "*"`.
   */
  function Unwrap(s: string, d: string): (r: string)
    requires IsDelimiter(d)
    ensures |r| <= |s|
    decreases |s|
  {
    if s == [] then []
    else
      var k := EmphasisLen(s, d);
      if k > 0 then s[|d|..|d| + k] + Unwrap(s[2 * |d| + k..], d)
      else [s[0]] + Unwrap(s[1..], d)
  }

  /** A match of length `k` fits in `s`. */
  lemma {:induction false} EmphasisBound(s: string, d: string, k: nat)
    requires IsDelimiter(d) && 0 < k == EmphasisLen(s, d)
    ensures 2 * |d| + k <= |s|
  {
  }

  /** Where the pattern matches, `s` is the delimiter, a star-free text, the delimiter and the rest. */
  lemma {:induction false} EmphasisParts(s: string, d: string, k: nat)
    requires IsDelimiter(d) && 0 < k == EmphasisLen(s, d)
    ensures 2 * |d| + k <= |s|
    ensures s == d + s[|d|..|d| + k] + d + s[2 * |d| + k..]
    ensures '*' !in s[|d|..|d| + k]
  {
    var n := |d|;
    EmphasisBound(s, d, k);
    CutThree(s, n, k);
    assert s[..n] == d;
    assert s[n + k..][..n] == d;
    NoStarPrefix(s[n..], k);
  }

  /** The pieces of `s` around a middle part of length `k` between two parts of length `n`. */
  lemma {:induction false} CutThree(s: string, n: nat, k: nat)
    requires 2 * n + k <= |s|
    ensures s[n..][..k] == s[n..n + k]
    ensures s[n + k..][..n] == s[n + k..2 * n + k]
    ensures s == s[..n] + s[n..n + k] + s[n + k..2 * n + k] + s[2 * n + k..]
  {
    SplitThree(s, n, n + k, 2 * n + k);
  }

  /** The first `k` characters of `t`, none a star, hold no star. */
  lemma {:induction false} NoStarPrefix(t: string, k: nat)
    requires k <= |t| && forall i :: 0 <= i < k ==> t[i] != '*'
    ensures '*' !in t[..k]
  {
    forall i | 0 <= i < k ensures t[..k][i] != '*' {
      assert t[..k][i] == t[i];
    }
  }

  /** A string is the concatenation of its pieces between three cut points. */
  lemma {:induction false} SplitThree(s: string, i: nat, j: nat, l: nat)
    requires i <= j <= l <= |s|
    ensures s == s[..i] + s[i..j] + s[j..l] + s[l..]
  {
    assert s[..j] == s[..i] + s[i..j];
    assert s[..l] == s[..j] + s[j..l];
    assert s == s[..l] + s[l..];
  }

  /** The pattern matches a delimited star-free text, and captures all of it. */
  lemma {:induction false} EmphasisOfWrapped(x: string, d: string, y: string)
    requires IsDelimiter(d) && x != [] && '*' !in x
    ensures EmphasisLen(d + x + d + y, d) == |x|
  {
    var s := d + x + d + y;
    var n := |d|;
    assert s[..n] == d;
    NonStarRunOf(x, d + y);
    assert s[n..] == x + (d + y);
    assert s[n + |x|..] == d + y;
  }

  /** `[^*]+` stops exactly at the first star. */
  lemma {:induction false} NonStarRunOf(x: string, t: string)
    requires '*' !in x && t != [] && t[0] == '*'
    ensures NonStarRun(x + t) == |x|
    decreases |x|
  {
    if x != [] {
      TailOfAppend(x, t);
      NonStarRunOf(x[1..], t);
    } else {
      assert x + t == t;
    }
  }

  /** A leading delimiter leaves nothing behind. */
  lemma {:induction false} UnstarredDelimiter(d: string, t: string)
    requires IsDelimiter(d)
    ensures Unstarred(d + t) == Unstarred(t)
  {
    if d == "*" {
      UnstarredLeadingStar(t);
    } else {
      assert d + t == "*" + ("*" + t);
      UnstarredLeadingStar("*" + t);
      UnstarredLeadingStar(t);
    }
  }

  /** The stars of a delimited text go, the text stays. */
  lemma {:induction false} UnstarredWrapped(x: string, d: string, y: string)
    requires IsDelimiter(d) && '*' !in x
    ensures Unstarred(d + x + d + y) == x + Unstarred(y)
  {
    AppendAssoc(d + x, d, y);
    AppendAssoc(d, x, d + y);
    UnstarredDelimiter(d, x + (d + y));
    UnstarredAppend(x, d + y);
    UnstarredNoStar(x);
    UnstarredDelimiter(d, y);
  }

  /** Removing emphasis deletes only `*` characters: the text is kept, in order. */
  lemma {:induction false} UnwrapKeepsText(s: string, d: string)
    requires IsDelimiter(d)
    ensures Unstarred(Unwrap(s, d)) == Unstarred(s)
    decreases |s|
  {
    if s != [] {
      var k := EmphasisLen(s, d);
      if k > 0 {
        var body, rest := EmphasisSplit(s, d);
        UnwrapKeepsText(rest, d);
        UnstarredAppend(body, Unwrap(rest, d));
        UnstarredNoStar(body);
      } else {
        UnwrapKeepsText(s[1..], d);
        UnwrapCopyKeepsText(s, d);
      }
    }
  }

  /**
   * Where the pattern matches, `Unwrap` keeps a star-free body and goes on
   * with the rest, and the body is all the text up to that rest.
   */
  lemma {:induction false} EmphasisSplit(s: string, d: string) returns (body: string, rest: string)
    requires IsDelimiter(d) && s != [] && EmphasisLen(s, d) > 0
    ensures '*' !in body && |rest| < |s|
    ensures Unwrap(s, d) == body + Unwrap(rest, d)
    ensures Unstarred(s) == body + Unstarred(rest)
  {
    UnwrapAtMatch(s, d);
    UnstarredAtMatch(s, d);
    body := s[|d|..|d| + EmphasisLen(s, d)];
    rest := s[2 * |d| + EmphasisLen(s, d)..];
  }

  /** One step of `Unwrap` where the pattern matches. */
  lemma {:induction false} UnwrapAtMatch(s: string, d: string)
    requires IsDelimiter(d) && EmphasisLen(s, d) > 0
    ensures 2 * |d| + EmphasisLen(s, d) <= |s|
    ensures Unwrap(s, d) == s[|d|..|d| + EmphasisLen(s, d)] + Unwrap(s[2 * |d| + EmphasisLen(s, d)..], d)
  {
    EmphasisBound(s, d, EmphasisLen(s, d));
    assert s != [];
  }

  /** Where the pattern matches, the text of `s` is the star-free body followed by the text of the rest. */
  lemma {:induction false} UnstarredAtMatch(s: string, d: string)
    requires IsDelimiter(d) && EmphasisLen(s, d) > 0
    ensures 2 * |d| + EmphasisLen(s, d) <= |s|
    ensures '*' !in s[|d|..|d| + EmphasisLen(s, d)]
    ensures Unstarred(s) == s[|d|..|d| + EmphasisLen(s, d)] + Unstarred(s[2 * |d| + EmphasisLen(s, d)..])
  {
    var k := EmphasisLen(s, d);
    EmphasisParts(s, d, k);
    UnstarredWrapped(s[|d|..|d| + k], d, s[2 * |d| + k..]);
  }

  /** A character copied where the pattern does not match keeps the text, given that the rest does. */
  lemma {:induction false} UnwrapCopyKeepsText(s: string, d: string)
    requires IsDelimiter(d) && s != [] && EmphasisLen(s, d) == 0
    requires Unstarred(Unwrap(s[1..], d)) == Unstarred(s[1..])
    ensures Unstarred(Unwrap(s, d)) == Unstarred(s)
  {
    assert Unwrap(s, d) == [s[0]] + Unwrap(s[1..], d);
    UnstarredAppend([s[0]], Unwrap(s[1..], d));
    UnstarredAppend([s[0]], s[1..]);
    HeadTail(s);
  }

  /** Without `*` the emphasis removal changes nothing. */
  lemma {:induction false} UnwrapNoStar(s: string, d: string)
    requires IsDelimiter(d) && '*' !in s
    ensures Unwrap(s, d) == s
    decreases |s|
  {
    if s != [] {
      NoStarHeadTail(s);
      NoEmphasisAtNonStar(s, d);
      UnwrapNoStar(s[1..], d);
      HeadTail(s);
    }
  }

  /** Neither the head nor the tail of a star-free string holds a star. */
  lemma {:induction false} NoStarHeadTail(s: string)
    requires s != [] && '*' !in s
    ensures s[0] != '*' && '*' !in s[1..]
  {
    assert s[0] in s;
    assert forall c :: c in s[1..] ==> c in s;
  }

  /** The pattern does not match at a character other than a star. */
  lemma {:induction false} NoEmphasisAtNonStar(s: string, d: string)
    requires IsDelimiter(d) && s != [] && s[0] != '*'
    ensures EmphasisLen(s, d) == 0
  {
    if StartsWith(s, d) {
      StartsWithChars(s, d);
    }
  }

  /** `**x**` and `*x*` become `x` when `x` holds no `*`. */
  lemma {:induction false} UnwrapWrapped(x: string, d: string, y: string)
    requires IsDelimiter(d) && x != [] && '*' !in x
    ensures Unwrap(d + x + d + y, d) == x + Unwrap(y, d)
  {
    EmphasisOfWrapped(x, d, y);
    WrappedSlices(d, x, y);
    UnwrapOfParts(d + x + d + y, d, x, y);
  }

  /** `Unwrap` where the pattern matches `s` and captures `x`, leaving `y`. */
  lemma {:induction false} UnwrapOfParts(s: string, d: string, x: string, y: string)
    requires IsDelimiter(d) && x != [] && EmphasisLen(s, d) == |x|
    requires 2 * |d| + |x| <= |s|
    requires s[|d|..|d| + |x|] == x && s[2 * |d| + |x|..] == y
    ensures Unwrap(s, d) == x + Unwrap(y, d)
  {
    UnwrapAtMatch(s, d);
    assert s[|d|..|d| + EmphasisLen(s, d)] == x;
    assert s[2 * |d| + EmphasisLen(s, d)..] == y;
  }

  /** The pieces of `d + x + d + y`, cut back out. */
  lemma {:induction false} WrappedSlices(d: string, x: string, y: string)
    ensures var s, n := d + x + d + y, |d|;
      && s[n..n + |x|] == x
      && s[2 * n + |x|..] == y
  {
    var s, n := d + x + d + y, |d|;
    assert s == (d + x) + (d + y);
    assert s[n..n + |x|] == x;
    assert s[2 * n + |x|..] == y;
  }

  // ---------------------------------------------------------------------------
  // The remaining replacements

  /** `s.replace(/\n/g, ' ')`. */
  function NewlinesToSpaces(s: string): (r: string)
    ensures |r| == |s| && '\n' !in r
    ensures forall i :: 0 <= i < |s| && s[i] != '\n' ==> r[i] == s[i]
  {
    seq(|s|, i requires 0 <= i < |s| => if s[i] == '\n' then ' ' else s[i])
  }

  /** The three characters an em dash becomes when its UTF-8 bytes are read as Windows-1252. */
  const Misencoded: string := "\U{E2}\U{20AC}\U{201D}"

  /**
   * The length of the match of whitespace, the misencoded dash and
   * whitespace (both runs greedy) at the start of `s`, or 0 when there is none.
   */
  function DashMatchLen(s: string): nat {
    var w := WsRun(s);
    if StartsWith(s[w..], Misencoded) then w + 3 + WsRun(s[w + 3..]) else 0
  }

  /** Global replacement of the misencoded dash and the whitespace around it by `, `. */
  function FixMisencodedDash(s: string): (r: string)
    ensures |r| <= |s|
    decreases |s|
  {
    if s == [] then []
    else
      var e := DashMatchLen(s);
      if e > 0 then ", " + FixMisencodedDash(s[e..])
      else [s[0]] + FixMisencodedDash(s[1..])
  }

  /** No match where the whitespace run is not followed by the dash's first character. */
  lemma {:induction false} NoDashMatch(s: string)
    requires WsRun(s) == |s| || s[WsRun(s)] != '\U{E2}'
    ensures DashMatchLen(s) == 0
  {
  }

  /** Text without the first character of the misencoded dash is left unchanged, a real U+2014 included. */
  lemma {:induction false} FixMisencodedDashNoop(s: string)
    requires '\U{E2}' !in s
    ensures FixMisencodedDash(s) == s
    decreases |s|
  {
    if s != [] {
      NoDashInText(s);
      FixMisencodedDashCopies(s);
      FixMisencodedDashNoop(s[1..]);
      ConsAppend(s, []);
    }
  }

  /** No match starts in text without the first character of the dash, nor in its tail. */
  lemma {:induction false} NoDashInText(s: string)
    requires s != [] && '\U{E2}' !in s
    ensures DashMatchLen(s) == 0 && '\U{E2}' !in s[1..]
  {
    var w := WsRun(s);
    if w < |s| {
      assert s[w] in s;
    }
    NoDashMatch(s);
    assert forall c :: c in s[1..] ==> c in s;
  }

  /** The whitespace run stops at the first character that is not whitespace. */
  lemma {:induction false} WsRunBound(s: string, i: nat)
    requires i < |s| && !IsJsWs(s[i])
    ensures WsRun(s) <= i
    decreases i
  {
    if i > 0 && IsJsWs(s[0]) {
      WsRunBound(s[1..], i - 1);
    }
  }

  /** A whitespace run before a non-whitespace character is taken whole. */
  lemma {:induction false} WsRunOf(w: string, t: string)
    requires AllWs(w)
    requires t == [] || !IsJsWs(t[0])
    ensures WsRun(w + t) == |w|
  {
    var s := w + t;
    assert forall i :: 0 <= i < |w| ==> s[i] == w[i];
    if t != [] {
      assert s[|w|] == t[0];
    }
  }

  /** The dash between two whitespace runs matches as a whole. */
  lemma {:induction false} DashMatchBetween(w1: string, w2: string, y: string)
    requires AllWs(w1) && AllWs(w2)
    requires y == [] || !IsJsWs(y[0])
    ensures DashMatchLen(w1 + Misencoded + w2 + y) == |w1| + 3 + |w2|
    ensures (w1 + Misencoded + w2 + y)[|w1| + 3 + |w2|..] == y
  {
    var s := w1 + Misencoded + w2 + y;
    DashPieces(w1, w2, y);
    WsRunOf(w1, Misencoded + w2 + y);
    WsRunOf(w2, y);
    DashMatchOf(s, |w1|, |w2|);
  }

  /** The pieces of whitespace, the dash, whitespace and the rest. */
  lemma {:induction false} DashPieces(w1: string, w2: string, y: string)
    ensures var s := w1 + Misencoded + w2 + y;
      && s == w1 + (Misencoded + w2 + y)
      && StartsWith(s[|w1|..], Misencoded)
      && s[|w1| + 3..] == w2 + y
      && s[|w1| + 3 + |w2|..] == y
  {
    var s := w1 + Misencoded + w2 + y;
    assert s[|w1|..] == Misencoded + w2 + y;
    assert s[|w1| + 3..] == w2 + y;
    assert s[|w1| + 3..][|w2|..] == y;
  }

  /** A whitespace run of length `a`, the dash, and a run of length `b` make a match of `a + 3 + b` characters. */
  lemma {:induction false} DashMatchOf(s: string, a: nat, b: nat)
    requires WsRun(s) == a && StartsWith(s[a..], Misencoded)
    requires WsRun(s[a + 3..]) == b
    ensures DashMatchLen(s) == a + 3 + b
  {
  }

  /** Scanning past a prefix without the dash: a prefix ending in a non-whitespace character. */
  lemma {:induction false} NoDashMatchInPrefix(x: string, t: string)
    requires x != [] && '\U{E2}' !in x && !IsJsWs(x[|x| - 1])
    ensures DashMatchLen(x + t) == 0
  {
    var s := x + t;
    WsRunBound(s, |x| - 1);
    var w := WsRun(s);
    assert s[w] == x[w];
    NoDashMatch(s);
  }

  /** Where no match starts, the scan copies one character. */
  lemma {:induction false} FixMisencodedDashCopies(s: string)
    requires s != [] && DashMatchLen(s) == 0
    ensures FixMisencodedDash(s) == [s[0]] + FixMisencodedDash(s[1..])
  {
  }

  /** Putting the head back in front of the tail. */
  lemma {:induction false} ConsAppend(x: string, tail: string)
    requires x != []
    ensures [x[0]] + (x[1..] + tail) == x + tail
  {
    HeadTail(x);
  }

  /** The scan copies the first character of a prefix without the dash that ends in a non-whitespace character. */
  lemma {:induction false} FixMisencodedDashPrefixStep(x: string, t: string)
    requires x != [] && '\U{E2}' !in x && !IsJsWs(x[|x| - 1])
    ensures FixMisencodedDash(x + t) == [x[0]] + FixMisencodedDash(x[1..] + t)
  {
    NoDashMatchInPrefix(x, t);
    FixMisencodedDashCopies(x + t);
    assert (x + t)[0] == x[0];
    TailOfAppend(x, t);
  }

  /** The tail of a prefix without the dash that ends in a non-whitespace character is one too. */
  lemma {:induction false} PrefixTail(x: string)
    requires x != [] && '\U{E2}' !in x && !IsJsWs(x[|x| - 1])
    ensures '\U{E2}' !in x[1..] && (x[1..] == [] || !IsJsWs(x[1..][|x[1..]| - 1]))
  {
    assert forall c :: c in x[1..] ==> c in x;
    if x[1..] != [] {
      assert x[1..][|x[1..]| - 1] == x[|x| - 1];
    }
  }

  /** A match at the start of `t` is still found after a prefix without the dash. */
  lemma {:induction false} FixMisencodedDashAfter(x: string, t: string, e: nat)
    requires '\U{E2}' !in x && (x == [] || !IsJsWs(x[|x| - 1]))
    requires t != [] && DashMatchLen(t) == e > 0 && e <= |t|
    ensures FixMisencodedDash(x + t) == x + (", " + FixMisencodedDash(t[e..]))
    decreases |x|
  {
    if x == [] {
      assert x + t == t;
    } else {
      FixMisencodedDashPrefixStep(x, t);
      PrefixTail(x);
      FixMisencodedDashAfter(x[1..], t, e);
      ConsAppend(x, ", " + FixMisencodedDash(t[e..]));
    }
  }

  /** Regrouping the text around the dash. */
  lemma {:induction false} DashAssoc(x: string, w1: string, w2: string, y: string, z: string)
    ensures x + w1 + Misencoded + w2 + y == x + (w1 + Misencoded + w2 + y)
    ensures x + ", " + z == x + (", " + z)
  {
  }

  /**
   * `x`, whitespace, the misencoded em dash, whitespace and `y` becomes
   * `x, y`, whatever whitespace surrounds the dash, none included.
   */
  lemma {:induction false} FixMisencodedDashBetween(x: string, w1: string, w2: string, y: string)
    requires '\U{E2}' !in x && (x == [] || !IsJsWs(x[|x| - 1]))
    requires AllWs(w1) && AllWs(w2)
    requires y == [] || !IsJsWs(y[0])
    ensures FixMisencodedDash(x + w1 + Misencoded + w2 + y) == x + ", " + FixMisencodedDash(y)
  {
    DashMatchBetween(w1, w2, y);
    FixMisencodedDashAfter(x, w1 + Misencoded + w2 + y, |w1| + 3 + |w2|);
    DashAssoc(x, w1, w2, y, FixMisencodedDash(y));
  }

  /** No two consecutive whitespace characters. */
  predicate NoDoubleWs(s: string) {
    forall i :: 0 <= i < |s| - 1 ==> !(IsJsWs(s[i]) && IsJsWs(s[i + 1]))
  }

  /** The only whitespace character in `s` is the space. */
  predicate SpacesOnly(s: string) {
    forall i :: 0 <= i < |s| && IsJsWs(s[i]) ==> s[i] == ' '
  }

  /** `s.replace(/\s+/g, ' ')`. */
  function CollapseWs(s: string): (r: string)
    ensures NoDoubleWs(r) && SpacesOnly(r)
    ensures s != [] ==> r != [] && (IsJsWs(r[0]) <==> IsJsWs(s[0]))
    decreases |s|
  {
    if s == [] then []
    else if IsJsWs(s[0]) then
      var rest := CollapseWs(s[WsRun(s)..]);
      assert forall i :: 1 <= i < |rest| + 1 ==> ([' '] + rest)[i] == rest[i - 1];
      [' '] + rest
    else
      var rest := CollapseWs(s[1..]);
      assert forall i :: 1 <= i < |rest| + 1 ==> ([s[0]] + rest)[i] == rest[i - 1];
      [s[0]] + rest
  }

  /** `s` without its whitespace. */
  function Unspaced(s: string): (r: string)
    ensures forall c :: c in r ==> !IsJsWs(c)
  {
    if s == [] then []
    else (if IsJsWs(s[0]) then [] else [s[0]]) + Unspaced(s[1..])
  }

  /** `Unspaced` drops a whitespace prefix. */
  lemma {:induction false} UnspacedDropsWs(s: string, n: nat)
    requires n <= |s| && AllWs(s[..n])
    ensures Unspaced(s[n..]) == Unspaced(s)
    decreases n
  {
    if n > 0 {
      assert IsJsWs(s[..n][0]);
      assert s[1..][n - 1..] == s[n..];
      assert s[1..][..n - 1] == s[..n][1..];
      UnspacedDropsWs(s[1..], n - 1);
    }
  }

  /** Collapsing whitespace keeps every other character, in order. */
  lemma {:induction false} CollapseWsKeepsText(s: string)
    ensures Unspaced(CollapseWs(s)) == Unspaced(s)
    decreases |s|
  {
    if s != [] {
      if IsJsWs(s[0]) {
        var n := WsRun(s);
        CollapseWsKeepsText(s[n..]);
        UnspacedDropsWs(s, n);
        assert ([' '] + CollapseWs(s[n..]))[1..] == CollapseWs(s[n..]);
      } else {
        CollapseWsKeepsText(s[1..]);
        assert ([s[0]] + CollapseWs(s[1..]))[1..] == CollapseWs(s[1..]);
      }
    }
  }

  /** Both properties survive taking an infix. */
  lemma {:induction false} CleanInfix(s: string, i: nat, j: nat)
    requires i <= j <= |s| && NoDoubleWs(s) && SpacesOnly(s)
    ensures NoDoubleWs(s[i..j]) && SpacesOnly(s[i..j])
  {
    var t := s[i..j];
    assert forall k :: 0 <= k < |t| ==> t[k] == s[i + k];
  }

  /** Trimming keeps both properties. */
  lemma {:induction false} TrimKeepsClean(s: string)
    requires NoDoubleWs(s) && SpacesOnly(s)
    ensures NoDoubleWs(Trim(s)) && SpacesOnly(Trim(s))
  {
    var i, j := TrimIsInfix(s);
    CleanInfix(s, i, j);
  }

  // ---------------------------------------------------------------------------
  // The whole cleaner

  /** The replacement chain `parseCoverLetter` applies to one trimmed paragraph. */
  function CleanParagraph(paragraph: string): (r: string)
    ensures '\n' !in r && IsTrimmed(r) && NoDoubleWs(r) && SpacesOnly(r)
  {
    var noHeadings := StripLineMarks(paragraph, true, true);
    var noBold := Unwrap(noHeadings, "**");
    var noItalic := Unwrap(noBold, "*");
    var noBullets := StripLineMarks(noItalic, false, true);
    var oneLine := NewlinesToSpaces(noBullets);
    var dashes := FixMisencodedDash(oneLine);
    var collapsed := CollapseWs(dashes);
    TrimKeepsClean(collapsed);
    Trim(collapsed)
  }

  /** `parseCoverLetter(markdown)`. */
  function ParseCoverLetter(markdown: string): (r: seq<string>)
    ensures |r| == |Paragraphs(markdown)|
    ensures forall k :: 0 <= k < |r| ==> '\n' !in r[k] && IsTrimmed(r[k]) && NoDoubleWs(r[k])
  {
    var ps := Paragraphs(markdown);
    seq(|ps|, k requires 0 <= k < |ps| => CleanParagraph(ps[k]))
  }

  /** A letter of plain paragraphs, joined by blank lines, comes back paragraph by paragraph. */
  lemma {:induction false} ParseCoverLetterOfPlainText(ps: seq<string>)
    requires |ps| >= 1
    requires forall k :: 0 <= k < |ps| ==> ps[k] != [] && IsTrimmed(ps[k]) && NoBlankLine(ps[k])
    ensures ParseCoverLetter(JoinParagraphs(ps)) == seq(|ps|, k requires 0 <= k < |ps| => CleanParagraph(ps[k]))
  {
    ParagraphsOfJoin(ps);
  }

  /** Text already collapsed is left as it is. */
  lemma {:induction false} CollapseWsOfClean(s: string)
    requires NoDoubleWs(s) && SpacesOnly(s)
    ensures CollapseWs(s) == s
    decreases |s|
  {
    if s != [] {
      CleanInfix(s, 1, |s|);
      CollapseWsOfClean(s[1..]);
      if IsJsWs(s[0]) {
        assert s[0] == ' ';
        assert s == [' '] + s[1..];
        assert |s| > 1 ==> !IsJsWs(s[1..][0]);
        WsRunOf([' '], s[1..]);
      }
      HeadTail(s);
    }
  }

  /** Text with only single spaces has no newline to replace. */
  lemma {:induction false} NewlinesToSpacesOfClean(s: string)
    requires SpacesOnly(s)
    ensures NewlinesToSpaces(s) == s
  {
    assert forall i :: 0 <= i < |s| ==> s[i] != '\n' by {
      forall i | 0 <= i < |s| ensures s[i] != '\n' {
        if s[i] == '\n' {
          assert IsJsWs(s[i]);
        }
      }
    }
  }

  /**
   * A paragraph of plain text, trimmed and single-spaced, with no marker
   * characters and no misencoded dash, comes out of the chain unchanged.
   */
  lemma {:induction false} CleanParagraphOfPlainText(p: string)
    requires IsTrimmed(p) && NoDoubleWs(p) && SpacesOnly(p)
    requires '#' !in p && '*' !in p && '-' !in p && '\U{E2}' !in p
    ensures CleanParagraph(p) == p
  {
    StripLineMarksNoMark(p, true, true);
    UnwrapNoStar(p, "**");
    UnwrapNoStar(p, "*");
    StripLineMarksNoMark(p, false, true);
    NewlinesToSpacesOfClean(p);
    FixMisencodedDashNoop(p);
    CollapseWsOfClean(p);
  }

  /** A paragraph of plain text is free of blank lines. */
  lemma {:induction false} PlainTextNoBlankLine(p: string)
    requires SpacesOnly(p)
    ensures NoBlankLine(p)
  {
    forall i | 0 <= i < |p| - 1 ensures !(p[i] == '\n' && p[i + 1] == '\n') {
      if p[i] == '\n' {
        assert IsJsWs(p[i]);
      }
    }
  }

  /**
   * A letter of plain-text paragraphs joined by blank lines parses back
   * into exactly those paragraphs.
   */
  lemma {:induction false} ParseCoverLetterRoundTrip(ps: seq<string>)
    requires |ps| >= 1
    requires forall k :: 0 <= k < |ps| ==>
      && ps[k] != [] && IsTrimmed(ps[k]) && NoDoubleWs(ps[k]) && SpacesOnly(ps[k])
      && '#' !in ps[k] && '*' !in ps[k] && '-' !in ps[k] && '\U{E2}' !in ps[k]
    ensures ParseCoverLetter(JoinParagraphs(ps)) == ps
  {
    forall k | 0 <= k < |ps| ensures NoBlankLine(ps[k]) && CleanParagraph(ps[k]) == ps[k] {
      PlainTextNoBlankLine(ps[k]);
      CleanParagraphOfPlainText(ps[k]);
    }
    ParseCoverLetterOfPlainText(ps);
  }

  // ---------------------------------------------------------------------------
  // Greeting

  const GreetingPrefix: string := "Dear "
  const TeamSuffix: string := " Hiring Team,"
  const DefaultGreeting: string := "Dear Hiring Manager,"

  /** The greeting line: the company's hiring team when a non-empty name is given. */
  function Greeting(companyName: Option<string>): (g: string)
    ensures StartsWith(g, GreetingPrefix)
  {
    if companyName.Some? && companyName.value != "" then GreetingPrefix + companyName.value + TeamSuffix
    else DefaultGreeting
  }

  /** The company a greeting addresses, if it addresses one. */
  function GreetedCompany(g: string): Option<string> {
    if |g| > |GreetingPrefix| + |TeamSuffix| && StartsWith(g, GreetingPrefix)
      && g[|g| - |TeamSuffix|..] == TeamSuffix
    then Some(g[|GreetingPrefix|..|g| - |TeamSuffix|])
    else None
  }

  /** The greeting names exactly the non-empty company it was given, and no company otherwise. */
  lemma {:induction false} GreetingNamesCompany(companyName: Option<string>)
    ensures GreetedCompany(Greeting(companyName)) ==
      if companyName.Some? && companyName.value != "" then companyName else None
  {
    var g := Greeting(companyName);
    if companyName.Some? && companyName.value != "" {
      var v := companyName.value;
      assert g[..|GreetingPrefix|] == GreetingPrefix;
      assert g[|g| - |TeamSuffix|..] == TeamSuffix;
      assert g[|GreetingPrefix|..|g| - |TeamSuffix|] == v;
    } else {
      assert g[|g| - |TeamSuffix|..] != TeamSuffix by {
        assert g[|g| - |TeamSuffix|..][0] == 'r' && TeamSuffix[0] == ' ';
      }
    }
  }

  /** Every greeting that names a company is the greeting of that company. */
  lemma {:induction false} GreetedCompanyGreeting(g: string)
    requires GreetedCompany(g).Some?
    ensures GreetedCompany(g).value != "" && Greeting(GreetedCompany(g)) == g
  {
    var v := GreetedCompany(g).value;
    assert g == g[..|GreetingPrefix|] + v + g[|g| - |TeamSuffix|..];
  }
}
