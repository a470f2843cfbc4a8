/**
 * The markdown resume parser of src/lib/parseResume.ts: a single pass over the
 * lines of the generated resume that opens a position at every header line
 * and appends bullet lines to the most recently opened position.
 *
 * `Grouped` is the reference definition of the result: every header line
 * becomes a position whose bullets are the bullet lines that follow it up to
 * the next header line. `ParseMarkdownResume` is the loop of the source,
 * proved equal to it.
 */
module ParseResume {
  import opened Wrappers
  import opened JsText

  datatype ParsedPosition = ParsedPosition(title: string, company: string, dates: string, bullets: seq<string>)

  datatype ParsedResume = ParsedResume(positions: seq<ParsedPosition>)

  /** The three fields of a position header. */
  datatype Header = Header(title: string, company: string, dates: string)

  /** What one trimmed line means to the parser. */
  datatype LineKind = Skip | HeaderLine(header: Header) | Bullet(text: string) | Other

  // ---------------------------------------------------------------------------
  // Classification of one trimmed line

  /** A character of the class `[|*\-\s]`. */
  predicate IsFormattingChar(c: char) {
    c == '|' || c == '*' || c == '-' || IsJsWs(c)
  }

  /** The line matches `^[|*\-\s]+$`. */
  predicate OnlyFormatting(line: string)
    ensures OnlyFormatting(line) <==> line != [] && forall i :: 0 <= i < |line| ==> IsFormattingChar(line[i])
    decreases |line|
  {
    |line| > 0 && IsFormattingChar(line[0]) && (|line| == 1 || OnlyFormatting(line[1..]))
  }

  /** Blank lines, `# ` and `## ` headings and stray formatting lines are skipped. */
  predicate IsSkipped(line: string)
    ensures (forall i :: 0 <= i < |line| ==> IsFormattingChar(line[i])) ==> IsSkipped(line)
    ensures IsSkipped(line) && line != [] ==> line[0] == '#' || IsFormattingChar(line[0])
  {
    || line == ""
    || StartsWith(line, "# ")
    || StartsWith(line, "## ")
    || line == "|"
    || line == "**"
    || OnlyFormatting(line)
  }

  /** No two adjacent asterisks. */
  predicate NoDoubleStar(s: string) {
    forall k :: 0 <= k < |s| - 1 ==> !(s[k] == '*' && s[k + 1] == '*')
  }

  /**
   * `s.replace(/\*\*\/g, '')`: every `**` found scanning from the left is
   * removed; no `**` is left behind.
   */
  function RemoveDoubleStars(s: string): (r: string)
    ensures NoDoubleStar(r)
    ensures |r| <= |s|
    ensures s != [] && s[0] != '*' ==> r != [] && r[0] == s[0]
    decreases |s|
  {
    if StartsWith(s, "**") then RemoveDoubleStars(s[2..])
    else if s == [] then []
    else [s[0]] + RemoveDoubleStars(s[1..])
  }

  /** A string without `**` is left as it is. */
  lemma {:induction false} RemoveDoubleStarsNoop(s: string)
    requires NoDoubleStar(s)
    ensures RemoveDoubleStars(s) == s
    decreases |s|
  {
    if s != [] {
      RemoveDoubleStarsNoop(s[1..]);
      HeadTail(s);
    }
  }

  /** Removing `**` twice is removing it once. */
  lemma {:induction false} RemoveDoubleStarsIdempotent(s: string)
    ensures RemoveDoubleStars(RemoveDoubleStars(s)) == RemoveDoubleStars(s)
  {
    RemoveDoubleStarsNoop(RemoveDoubleStars(s));
  }

  /** Removing `**` deletes only asterisks: every other character is kept, in order. */
  lemma {:induction false} RemoveDoubleStarsKeepsText(s: string)
    ensures Unstarred(RemoveDoubleStars(s)) == Unstarred(s)
    decreases |s|
  {
    if StartsWith(s, "**") {
      RemoveDoubleStarsKeepsText(s[2..]);
      StarPairTail(s);
    } else if s != [] {
      RemoveDoubleStarsKeepsText(s[1..]);
      UnstarredAppend([s[0]], RemoveDoubleStars(s[1..]));
      UnstarredAppend([s[0]], s[1..]);
      HeadTail(s);
    }
  }

  /** A leading `**` contributes nothing to `Unstarred`. */
  lemma {:induction false} StarPairTail(s: string)
    requires StartsWith(s, "**")
    ensures Unstarred(s) == Unstarred(s[2..])
  {
    assert s == "*" + ("*" + s[2..]);
    UnstarredLeadingStar("*" + s[2..]);
    UnstarredLeadingStar(s[2..]);
  }

  /** `parts[k] || ''`: the k-th field, or the empty string past the end. */
  function FieldOr(parts: seq<string>, k: nat): string {
    if k < |parts| then parts[k] else ""
  }

  /** The fields of `s.split('|').map(p => p.trim())`. */
  function TrimmedFields(s: string): seq<string> {
    TrimAll(Split(s, '|'))
  }

  /** Each field trimmed. */
  function TrimAll(fields: seq<string>): seq<string> {
    seq(|fields|, k requires 0 <= k < |fields| => Trim(fields[k]))
  }

  /** A trimmed field, or `""` when missing, is the field, or `""`, trimmed. */
  lemma {:induction false} FieldOrTrimAll(fields: seq<string>, k: nat)
    ensures FieldOr(TrimAll(fields), k) == Trim(FieldOr(fields, k))
  {
    var t := TrimAll(fields);
    assert |t| == |fields|;
    if k < |fields| {
      assert t[k] == Trim(fields[k]);
    } else {
      TrimEmpty();
    }
  }

  /** There is one field more than there are `|` characters. */
  lemma {:induction false} TrimmedFieldsCount(s: string)
    ensures |TrimmedFields(s)| == Count(s, '|') + 1
  {
    SplitFields(s, '|');
  }

  /** Title, company and dates of a header text: its first three trimmed fields, or `""`. */
  function HeaderFields(headerText: string): (h: Header)
    ensures '|' !in headerText ==> h == Header(Trim(headerText), "", "")
  {
    var parts := TrimmedFields(headerText);
    assert '|' !in headerText ==> parts == [Trim(headerText)] by {
      if '|' !in headerText {
        TrimmedFieldsNoPipe(headerText);
      }
    }
    Header(FieldOr(parts, 0), FieldOr(parts, 1), FieldOr(parts, 2))
  }

  /** A header without `|` is one field. */
  lemma {:induction false} TrimmedFieldsNoPipe(headerText: string)
    requires '|' !in headerText
    ensures TrimmedFields(headerText) == [Trim(headerText)]
  {
    SplitNoSeparator(headerText, '|');
  }

  /** Each header field is free of `|` and of surrounding whitespace. */
  lemma {:induction false} HeaderFieldsClean(headerText: string)
    ensures var h := HeaderFields(headerText);
      && IsTrimmed(h.title) && IsTrimmed(h.company) && IsTrimmed(h.dates)
      && '|' !in h.title && '|' !in h.company && '|' !in h.dates
  {
    FieldOrClean(headerText, 0);
    FieldOrClean(headerText, 1);
    FieldOrClean(headerText, 2);
  }

  /** One header field, present or not, is free of `|` and of surrounding whitespace. */
  lemma {:induction false} FieldOrClean(headerText: string, k: nat)
    ensures var f := FieldOr(TrimmedFields(headerText), k);
      IsTrimmed(f) && '|' !in f
  {
    var fields := Split(headerText, '|');
    if k < |fields| {
      SplitFields(headerText, '|');
      TrimNoNewChar(fields[k], '|');
    }
  }

  /** A bullet marker of `[-*]`. */
  predicate IsBulletMarker(c: char) {
    c == '-' || c == '*'
  }

  /** `line.replace(/^[-*]\s+/, '')`: the marker and the whitespace after it removed. */
  function StripBulletMarker(line: string): (r: string)
    ensures |r| <= |line| && r == line[|line| - |r|..]
    ensures r != line ==> IsBulletMarker(line[0]) && AllWs(line[1..|line| - |r|]) && (r == [] || !IsJsWs(r[0]))
  {
    if |line| >= 2 && IsBulletMarker(line[0]) && IsJsWs(line[1]) then
      var t := line[1..];
      var r := TrimStart(t);
      assert line[1..|line| - |r|] == t[..|t| - |r|];
      r
    else line
  }

  /** The branch of the loop body that a trimmed line takes. */
  function Classify(line: string): (r: LineKind)
    ensures r.Skip? <==> IsSkipped(line)
    ensures r.HeaderLine? <==>
      !IsSkipped(line) && (StartsWith(line, "### ") || (StartsWith(line, "**") && Contains(line, "|")))
    ensures r.HeaderLine? && StartsWith(line, "### ") ==> r.header == HeaderFields(line[4..])
    ensures r.HeaderLine? && !StartsWith(line, "### ") ==> r.header == HeaderFields(Trim(RemoveDoubleStars(line)))
    ensures r.Bullet? <==> !IsSkipped(line) && !r.HeaderLine? && (StartsWith(line, "- ") || StartsWith(line, "* "))
    ensures IsTrimmed(line) && r.Bullet? ==> r.text == Trim(line[1..]) != ""
  {
    if IsSkipped(line) then Skip
    // `line.replace('### ', '')` removes the first occurrence, which is the prefix
    else if StartsWith(line, "### ") then HeaderLine(HeaderFields(line[4..]))
    else if StartsWith(line, "**") && Contains(line, "|") then
      HeaderLine(HeaderFields(Trim(RemoveDoubleStars(line))))
    else if StartsWith(line, "- ") || StartsWith(line, "* ") then
      if IsTrimmed(line) then
        BulletText(line);
        Bullet(Trim(StripBulletMarker(line)))
      else Bullet(Trim(StripBulletMarker(line)))
    else Other
  }

  /** What a raw line of the input means, once trimmed. */
  function Kind(line: string): LineKind {
    Classify(Trim(line))
  }

  /** The kinds of the lines of `lines`, one per line. */
  function Kinds(lines: seq<string>): (ks: seq<LineKind>) {
    seq(|lines|, i requires 0 <= i < |lines| => Kind(lines[i]))
  }

  // ---------------------------------------------------------------------------
  // Reference definition of the result, over the kinds of the lines

  /** The bullet text a line of this kind adds to an open position, if any. */
  function BulletOf(kind: LineKind): seq<string> {
    match kind
    case Bullet(b) => if b != "" then [b] else []
    case _ => []
  }

  /** The bullets of `ks` up to (not including) the first header line. */
  function LeadingBullets(ks: seq<LineKind>): seq<string>
    decreases |ks|
  {
    if ks == [] then []
    else if ks[0].HeaderLine? then []
    else BulletOf(ks[0]) + LeadingBullets(ks[1..])
  }

  /**
   * One position per header line, in input order; each takes the bullets
   * between its header and the next. Lines before the first header
   * contribute nothing.
   */
  function Grouped(ks: seq<LineKind>): (ps: seq<ParsedPosition>)
    ensures |ps| <= |ks|
    decreases |ks|
  {
    if ks == [] then []
    else
      var rest := Grouped(ks[1..]);
      match ks[0]
      case HeaderLine(h) => [ParsedPosition(h.title, h.company, h.dates, LeadingBullets(ks[1..]))] + rest
      case _ => rest
  }

  /** The headers of the header lines, in input order. */
  function HeaderLines(ks: seq<LineKind>): seq<Header>
    decreases |ks|
  {
    if ks == [] then []
    else
      var rest := HeaderLines(ks[1..]);
      match ks[0]
      case HeaderLine(h) => [h] + rest
      case _ => rest
  }

  function HeaderOf(p: ParsedPosition): Header {
    Header(p.title, p.company, p.dates)
  }

  /** What the parse of a whole resume text is. */
  function Parse(markdown: string): (r: ParsedResume)
    ensures |r.positions| <= Count(markdown, '\n') + 1
  {
    SplitFields(markdown, '\n');
    ParsedResume(Grouped(Kinds(Split(markdown, '\n'))))
  }

  /** The position list as it stands once the current position is flushed. */
  function Flushed(current: Option<ParsedPosition>): seq<ParsedPosition> {
    if current.Some? then [current.value] else []
  }

  /** What one more line does to the positions parsed so far. */
  function Step(ps: seq<ParsedPosition>, kind: LineKind): seq<ParsedPosition> {
    match kind
    case HeaderLine(h) => ps + [ParsedPosition(h.title, h.company, h.dates, [])]
    case Bullet(b) =>
      if ps != [] && b != "" then
        var last := ps[|ps| - 1];
        ps[..|ps| - 1] + [last.(bullets := last.bullets + [b])]
      else ps
    case _ => ps
  }

  // ---------------------------------------------------------------------------
  // The parser

  /** `parseMarkdownResume`: total, and equal to `Parse`. */
  method ParseMarkdownResume(markdown: string) returns (r: ParsedResume)
    ensures r == Parse(markdown)
  {
    var positions: seq<ParsedPosition> := [];
    var lines := Split(markdown, '\n');
    var current: Option<ParsedPosition> := None;
    ghost var ks := Kinds(lines);
    var i := 0;
    while i < |lines|
      invariant 0 <= i <= |lines|
      invariant positions + Flushed(current) == Grouped(ks[..i])
      invariant current.None? ==> positions == []
    {
      var line := Trim(lines[i]);
      ghost var before := positions + Flushed(current);
      positions, current := ReadLine(line, positions, current);
      GroupedPrefix(ks, i, before, positions + Flushed(current));
      i := i + 1;
    }
    if current.Some? {
      positions := positions + [current.value];
    }
    FullPrefix(ks);
    r := ParsedResume(positions);
  }

  /**
   * The body of the loop of `parseMarkdownResume` for one trimmed line:
   * `positions` holds the flushed positions and `current` the open one.
   */
  method ReadLine(line: string, positions: seq<ParsedPosition>, current: Option<ParsedPosition>)
    returns (positions': seq<ParsedPosition>, current': Option<ParsedPosition>)
    requires current.None? ==> positions == []
    ensures current'.None? ==> positions' == []
    ensures positions' + Flushed(current') == Step(positions + Flushed(current), Classify(line))
  {
    positions', current' := positions, current;
    if IsSkipped(line) {
      // blank lines, `#`/`##` headings and stray formatting change nothing
      assert Classify(line) == Skip;
    } else if StartsWith(line, "### ") {
      if current.Some? {
        positions' := positions + [current.value];
      }
      var h := HeaderFields(line[4..]);
      current' := Some(ParsedPosition(h.title, h.company, h.dates, []));
      assert Classify(line) == HeaderLine(h);
      StepHeader(positions, current, h);
    } else if StartsWith(line, "**") && Contains(line, "|") {
      if current.Some? {
        positions' := positions + [current.value];
      }
      var h := HeaderFields(Trim(RemoveDoubleStars(line)));
      current' := Some(ParsedPosition(h.title, h.company, h.dates, []));
      assert Classify(line) == HeaderLine(h);
      StepHeader(positions, current, h);
    } else if StartsWith(line, "- ") || StartsWith(line, "* ") {
      assert Classify(line) == Bullet(Trim(StripBulletMarker(line)));
      if current.Some? {
        var bullet := Trim(StripBulletMarker(line));
        if bullet != "" {
          current' := Some(current.value.(bullets := current.value.bullets + [bullet]));
        }
        StepBullet(positions, current.value, bullet);
      }
    } else {
      assert Classify(line) == Other;
    }
  }

  /** A header line flushes the open position, if any, and opens a new one. */
  lemma {:induction false} StepHeader(positions: seq<ParsedPosition>, current: Option<ParsedPosition>, h: Header)
    ensures (positions + Flushed(current)) + Flushed(Some(ParsedPosition(h.title, h.company, h.dates, [])))
      == Step(positions + Flushed(current), HeaderLine(h))
  {
  }

  /** A bullet line adds its text, when not empty, to the open position. */
  lemma {:induction false} StepBullet(positions: seq<ParsedPosition>, current: ParsedPosition, bullet: string)
    ensures var current' := if bullet != "" then current.(bullets := current.bullets + [bullet]) else current;
      positions + Flushed(Some(current')) == Step(positions + Flushed(Some(current)), Bullet(bullet))
  {
    var before := positions + [current];
    assert before[..|before| - 1] == positions;
  }

  // ---------------------------------------------------------------------------
  // Grouped is the left-to-right pass

  /** Extending the parsed prefix of the lines by one line is one `Step`. */
  lemma {:induction false} GroupedPrefix(ks: seq<LineKind>, i: nat, before: seq<ParsedPosition>, after: seq<ParsedPosition>)
    requires i < |ks|
    requires before == Grouped(ks[..i])
    requires after == Step(before, ks[i])
    ensures after == Grouped(ks[..i + 1])
  {
    PrefixSnoc(ks, i);
    GroupedSnoc(ks[..i], ks[i]);
  }

  /** Once a header has been seen, later lines add no leading bullets. */
  lemma {:induction false} LeadingBulletsSnoc(ks: seq<LineKind>, kind: LineKind)
    ensures LeadingBullets(ks + [kind]) ==
      if HeaderLines(ks) != [] || kind.HeaderLine? then LeadingBullets(ks)
      else LeadingBullets(ks) + BulletOf(kind)
    decreases |ks|
  {
    if ks == [] {
      assert [kind][1..] == [];
    } else {
      TailOfAppend(ks, [kind]);
      LeadingBulletsSnoc(ks[1..], kind);
    }
  }

  /** The positions carry the headers of the header lines, in order. */
  lemma {:induction false} GroupedHeaders(ks: seq<LineKind>)
    ensures |Grouped(ks)| == |HeaderLines(ks)|
    ensures forall k :: 0 <= k < |Grouped(ks)| ==> HeaderOf(Grouped(ks)[k]) == HeaderLines(ks)[k]
    decreases |ks|
  {
    if ks != [] {
      GroupedHeaders(ks[1..]);
      var g, hs := Grouped(ks[1..]), HeaderLines(ks[1..]);
      if ks[0].HeaderLine? {
        var h := ks[0].header;
        HeadersCons(ParsedPosition(h.title, h.company, h.dates, LeadingBullets(ks[1..])), g, h, hs);
      }
    }
  }

  /** A position with header `h` in front of positions with headers `hs`. */
  lemma {:induction false} HeadersCons(p: ParsedPosition, g: seq<ParsedPosition>, h: Header, hs: seq<Header>)
    requires HeaderOf(p) == h && |g| == |hs|
    requires forall k :: 0 <= k < |g| ==> HeaderOf(g[k]) == hs[k]
    ensures forall k :: 0 <= k < |g| + 1 ==> HeaderOf(([p] + g)[k]) == ([h] + hs)[k]
  {
    forall k | 0 <= k < |g| + 1 ensures HeaderOf(([p] + g)[k]) == ([h] + hs)[k] {
      if k > 0 {
        assert ([p] + g)[k] == g[k - 1];
        assert ([h] + hs)[k] == hs[k - 1];
      }
    }
  }

  /** A `Step` after a first position touches only the rest, unless the first is also the last. */
  lemma {:induction false} StepCons(p: ParsedPosition, g: seq<ParsedPosition>, kind: LineKind)
    ensures Step([p] + g, kind) ==
      if g == [] then [p.(bullets := p.bullets + BulletOf(kind))] + Step(g, kind)
      else [p] + Step(g, kind)
  {
    if kind.Bullet? && kind.text != "" && g != [] {
      assert ([p] + g)[..|g|] == [p] + g[..|g| - 1];
      assert ([p] + g)[|g|] == g[|g| - 1];
    } else if g == [] && !(kind.Bullet? && kind.text != "") {
      assert p.(bullets := p.bullets + []) == p;
    }
  }

  /** Grouping the lines with one more at the end is one more `Step`. */
  lemma {:induction false} GroupedSnoc(ks: seq<LineKind>, kind: LineKind)
    ensures Grouped(ks + [kind]) == Step(Grouped(ks), kind)
    decreases |ks|
  {
    if ks == [] {
      assert [kind][1..] == [];
    } else {
      var tail := ks[1..];
      var g := Grouped(tail);
      assert (ks + [kind])[1..] == tail + [kind];
      GroupedSnoc(tail, kind);
      if ks[0].HeaderLine? {
        var h := ks[0].header;
        var p := ParsedPosition(h.title, h.company, h.dates, LeadingBullets(tail));
        LeadingBulletsSnoc(tail, kind);
        GroupedHeaders(tail);
        StepCons(p, g, kind);
        if kind.HeaderLine? {
          assert BulletOf(kind) == [] && p.(bullets := p.bullets + []) == p;
        }
      }
    }
  }

  // ---------------------------------------------------------------------------
  // Properties of the result

  /** A line that is neither a header nor a bullet changes nothing, wherever it stands. */
  lemma {:induction false} InertLineChangesNothing(a: seq<LineKind>, kind: LineKind, b: seq<LineKind>)
    requires kind.Skip? || kind.Other?
    ensures Grouped(a + [kind] + b) == Grouped(a + b)
    decreases |a|
  {
    var s := a + [kind] + b;
    if a == [] {
      assert s == [kind] + b && s[0] == kind && s[1..] == b && a + b == b;
    } else {
      assert s[0] == a[0] && (a + b)[0] == a[0];
      assert s[1..] == a[1..] + [kind] + b;
      TailOfAppend(a, b);
      InertLineChangesNothing(a[1..], kind, b);
      InertLineNoBullet(a[1..], kind, b);
    }
  }

  /** The same for the bullets that follow a header. */
  lemma {:induction false} InertLineNoBullet(a: seq<LineKind>, kind: LineKind, b: seq<LineKind>)
    requires kind.Skip? || kind.Other?
    ensures LeadingBullets(a + [kind] + b) == LeadingBullets(a + b)
    decreases |a|
  {
    var s := a + [kind] + b;
    if a == [] {
      assert s == [kind] + b && s[0] == kind && s[1..] == b && a + b == b;
      assert BulletOf(kind) == [];
    } else {
      assert s[0] == a[0] && (a + b)[0] == a[0];
      assert s[1..] == a[1..] + [kind] + b;
      TailOfAppend(a, b);
      InertLineNoBullet(a[1..], kind, b);
    }
  }

  /** Lines before the first header, bullets included, contribute nothing. */
  lemma {:induction false} LinesBeforeFirstHeaderDropped(pre: seq<LineKind>, rest: seq<LineKind>)
    requires HeaderLines(pre) == []
    ensures Grouped(pre + rest) == Grouped(rest)
    decreases |pre|
  {
    if pre != [] {
      assert (pre + rest)[0] == pre[0];
      TailOfAppend(pre, rest);
      assert !pre[0].HeaderLine?;
      LinesBeforeFirstHeaderDropped(pre[1..], rest);
    } else {
      assert pre + rest == rest;
    }
  }

  /** The bullets a header takes are non-empty texts of bullet lines. */
  lemma {:induction false} LeadingBulletsFromBulletLines(ks: seq<LineKind>)
    ensures forall b :: b in LeadingBullets(ks) ==> b != "" && Bullet(b) in ks
    decreases |ks|
  {
    if ks != [] && !ks[0].HeaderLine? {
      LeadingBulletsFromBulletLines(ks[1..]);
      assert forall k :: k in ks[1..] ==> k in ks;
    }
  }

  /** Every stored bullet is the non-empty text of some bullet line of the input. */
  lemma {:induction false} StoredBulletsFromBulletLines(ks: seq<LineKind>, p: ParsedPosition, b: string)
    requires p in Grouped(ks) && b in p.bullets
    ensures b != "" && Bullet(b) in ks
    decreases |ks|
  {
    var rest := Grouped(ks[1..]);
    if ks[0].HeaderLine? && p == ParsedPosition(ks[0].header.title, ks[0].header.company, ks[0].header.dates, LeadingBullets(ks[1..])) {
      LeadingBulletsFromBulletLines(ks[1..]);
    } else {
      assert p in rest;
      StoredBulletsFromBulletLines(ks[1..], p, b);
    }
    assert Bullet(b) in ks[1..];
  }

  /**
   * The text stored for a bullet line is the trimmed line with its leading
   * `-` or `*` and the whitespace after it removed: non-empty and otherwise
   * unchanged.
   */
  lemma {:induction false} BulletText(line: string)
    requires IsTrimmed(line)
    requires StartsWith(line, "- ") || StartsWith(line, "* ")
    ensures Trim(StripBulletMarker(line)) == Trim(line[1..]) != ""
  {
    var u := line[1..];
    BulletMarkerStripped(line);
    TrimAfterTrimStart(u);
    TrimmedTail(line);
    TrimNonEmpty(u);
  }

  /** A `- ` or `* ` marker loses its first character and the whitespace after it. */
  lemma {:induction false} BulletMarkerStripped(line: string)
    requires StartsWith(line, "- ") || StartsWith(line, "* ")
    ensures StripBulletMarker(line) == TrimStart(line[1..])
  {
    if StartsWith(line, "- ") {
      StartsWithChars(line, "- ");
    } else {
      StartsWithChars(line, "* ");
    }
    assert IsJsWs(line[1]);
  }

  /** A trimmed line of two characters or more still ends in a non-whitespace character without its first. */
  lemma {:induction false} TrimmedTail(line: string)
    requires IsTrimmed(line) && |line| >= 2
    ensures line[1..] != [] && !IsJsWs(line[1..][|line[1..]| - 1])
  {
    assert line[1..][|line[1..]| - 1] == line[|line| - 1];
  }

  /** The three header fields of a `|`-joined header text, missing fields empty, extra fields dropped. */
  lemma {:induction false} HeaderFieldsOfJoin(fields: seq<string>)
    requires |fields| >= 1
    requires forall k :: 0 <= k < |fields| ==> '|' !in fields[k]
    ensures HeaderFields(Join(fields, '|')) ==
      Header(Trim(fields[0]), Trim(FieldOr(fields, 1)), Trim(FieldOr(fields, 2)))
  {
    SplitJoin(fields, '|');
    FieldOrTrimAll(fields, 0);
    FieldOrTrimAll(fields, 1);
    FieldOrTrimAll(fields, 2);
  }
}
