/**
 * The data preparation of src/components/ResumePDF.tsx: `formatDate`, the
 * per-position metadata table filled from the matched blocks and the
 * repository, and the enrichment of the parsed positions with it.
 */
module ResumePdf {
  import opened Wrappers
  import opened JsText
  import opened Types
  import opened ParseResume

  // ---------------------------------------------------------------------------
  // parseInt(s, 10)

  /** The number `parseInt` returns: `NaN` or an integer. */
  datatype JsInt = NaN | Int(value: int)

  predicate IsDigit(c: char) {
    '0' <= c <= '9'
  }

  /** The decimal digits `s` starts with. */
  function LeadingDigits(s: string): (ds: string)
    ensures |ds| <= |s| && ds == s[..|ds|]
    ensures forall i :: 0 <= i < |ds| ==> IsDigit(ds[i])
    ensures |ds| == |s| || !IsDigit(s[|ds|])
    decreases |s|
  {
    if s != [] && IsDigit(s[0]) then [s[0]] + LeadingDigits(s[1..]) else []
  }

  /** The value of a decimal digit. */
  function DigitValue(c: char): (d: nat)
    requires IsDigit(c)
    ensures d < 10
  {
    c as int - '0' as int
  }

  /** The value of a string of decimal digits. */
  function DigitsValue(ds: string): nat
    requires forall i :: 0 <= i < |ds| ==> IsDigit(ds[i])
  {
    if ds == [] then 0 else 10 * DigitsValue(ds[..|ds| - 1]) + DigitValue(ds[|ds| - 1])
  }

  /** The longest run of decimal digits at the start of `u`, read as a number; `NaN` when there is none. */
  function ParseUnsigned(u: string): (r: JsInt)
    ensures r.Int? ==> r.value >= 0
  {
    var ds := LeadingDigits(u);
    if ds == [] then NaN else Int(DigitsValue(ds))
  }

  /** The negation of a parsed number; `NaN` stays `NaN`. */
  function Negate(n: JsInt): JsInt {
    if n.Int? then Int(-n.value) else NaN
  }

  /**
   * `parseInt(s, 10)`: leading whitespace skipped, an optional sign, then
   * the longest run of decimal digits; `NaN` when there is no digit.
   */
  function ParseInt(s: string): (r: JsInt)
    ensures TrimStart(s) == [] ==> r == NaN
    ensures var t := TrimStart(s); t != [] && IsDigit(t[0]) ==> r.Int? && r.value >= 0
    ensures var t := TrimStart(s); t != [] && !IsDigit(t[0]) && t[0] != '-' && t[0] != '+' ==> r == NaN
  {
    var t := TrimStart(s);
    if t != [] && t[0] == '-' then Negate(ParseUnsigned(t[1..]))
    else if t != [] && t[0] == '+' then ParseUnsigned(t[1..])
    else ParseUnsigned(t)
  }

  /** The decimal digit of `d`. */
  function Digit(d: nat): (c: char)
    requires d < 10
    ensures IsDigit(c) && DigitValue(c) == d
  {
    ('0' as int + d) as char
  }

  /** The decimal representation of `n`, without leading zeros. */
  function NatToString(n: nat): (s: string)
    ensures s != [] && forall i :: 0 <= i < |s| ==> IsDigit(s[i])
  {
    if n < 10 then [Digit(n)] else NatToString(n / 10) + [Digit(n % 10)]
  }

  /** Reading the digits of a number gives the number back. */
  lemma {:induction false} DigitsValueOfNat(n: nat)
    ensures DigitsValue(NatToString(n)) == n
  {
    if n >= 10 {
      var s := NatToString(n);
      assert s[..|s| - 1] == NatToString(n / 10);
      DigitsValueOfNat(n / 10);
    }
  }

  /** The leading digits of digits followed by a non-digit are those digits. */
  lemma {:induction false} LeadingDigitsOf(ds: string, rest: string)
    requires forall i :: 0 <= i < |ds| ==> IsDigit(ds[i])
    requires rest == [] || !IsDigit(rest[0])
    ensures LeadingDigits(ds + rest) == ds
    decreases |ds|
  {
    if ds != [] {
      TailOfAppend(ds, rest);
      LeadingDigitsOf(ds[1..], rest);
      HeadTail(ds);
    } else {
      assert ds + rest == rest;
    }
  }

  /** No decimal digit is whitespace. */
  lemma {:induction false} DigitNotWs(c: char)
    requires IsDigit(c)
    ensures !IsJsWs(c)
  {
  }

  /** A string starting with a digit has no whitespace or sign for `parseInt` to skip. */
  lemma {:induction false} ParseIntAtDigit(s: string)
    requires s != [] && IsDigit(s[0])
    ensures ParseInt(s) == ParseUnsigned(s)
  {
    DigitNotWs(s[0]);
    TrimStartAtNonWs(s);
  }

  /** The unsigned part of `parseInt` reads a run of digits up to the first non-digit. */
  lemma {:induction false} ParseUnsignedOfDigits(ds: string, rest: string)
    requires ds != [] && forall i :: 0 <= i < |ds| ==> IsDigit(ds[i])
    requires rest == [] || !IsDigit(rest[0])
    ensures ParseUnsigned(ds + rest) == Int(DigitsValue(ds))
  {
    LeadingDigitsOf(ds, rest);
  }

  /** `parseInt` reads a run of digits and stops at the first character that is not one. */
  lemma {:induction false} ParseIntOfDigits(ds: string, rest: string)
    requires ds != [] && forall i :: 0 <= i < |ds| ==> IsDigit(ds[i])
    requires rest == [] || !IsDigit(rest[0])
    ensures ParseInt(ds + rest) == Int(DigitsValue(ds))
  {
    assert (ds + rest)[0] == ds[0];
    ParseIntAtDigit(ds + rest);
    ParseUnsignedOfDigits(ds, rest);
  }

  /** `parseInt` reads a nonempty string of digits as its value. */
  lemma {:induction false} ParseIntOfAllDigits(ds: string)
    requires ds != [] && forall i :: 0 <= i < |ds| ==> IsDigit(ds[i])
    ensures ParseInt(ds) == Int(DigitsValue(ds))
  {
    ParseIntOfDigits(ds, []);
    AppendEmpty(ds);
  }

  /** `parseInt` is the inverse of printing a natural number. */
  lemma {:induction false} ParseIntOfNat(n: nat)
    ensures ParseInt(NatToString(n)) == Int(n)
  {
    ParseIntOfAllDigits(NatToString(n));
    DigitsValueOfNat(n);
  }

  // ---------------------------------------------------------------------------
  // formatDate

  const MonthNames: seq<string> := [
    "January", "February", "March", "April", "May", "June",
    "July", "August", "September", "October", "November", "December"]

  /** `monthNames[parseInt(month, 10) - 1]` rendered in a template: `undefined` outside the table. */
  function MonthName(month: JsInt): (r: string)
    ensures r == "undefined" <==> !(month.Int? && 1 <= month.value <= 12)
    ensures r != "undefined" ==> r in MonthNames
  {
    if month.Int? && 1 <= month.value <= 12 then MonthNames[month.value - 1] else "undefined"
  }

  /** The month field of `dateString.split('-')`; a missing field is `undefined`, which `parseInt` reads as text. */
  function MonthField(fields: seq<string>): string {
    if |fields| >= 2 then fields[1] else "undefined"
  }

  /** The text `formatDate` builds from the `-`-separated fields of a date. */
  function FormatFields(fields: seq<string>): string
    requires |fields| >= 1
  {
    MonthName(ParseInt(MonthField(fields))) + " " + fields[0]
  }

  /** What `formatDate` prints for a month: a month name, or `undefined`. */
  predicate IsMonthText(month: string) {
    month in MonthNames || month == "undefined"
  }

  /** `formatDate(dateString)`: a month text, a space, then the year field. */
  function FormatDate(dateString: string): (r: string)
    ensures exists month :: IsMonthText(month) && r == month + " " + Split(dateString, '-')[0]
  {
    var fields := Split(dateString, '-');
    var month := MonthName(ParseInt(MonthField(fields)));
    assert IsMonthText(month);
    month + " " + fields[0]
  }

  /** A two-digit month text such as `03`: the tens digit, then the ones digit. */
  function TwoDigits(tens: nat, ones: nat): string
    requires tens < 10 && ones < 10
  {
    [Digit(tens), Digit(ones)]
  }

  /** Two digits read as the number they spell. */
  lemma {:induction false} ParseIntOfTwoDigits(tens: nat, ones: nat)
    requires tens < 10 && ones < 10
    ensures ParseInt(TwoDigits(tens, ones)) == Int(10 * tens + ones)
  {
    TwoDigitsAreDigits(tens, ones);
    ParseIntOfAllDigits(TwoDigits(tens, ones));
    DigitsValueOfTwo(tens, ones);
  }

  /** Two digits are a nonempty string of digits. */
  lemma {:induction false} TwoDigitsAreDigits(tens: nat, ones: nat)
    requires tens < 10 && ones < 10
    ensures TwoDigits(tens, ones) != [] && forall i :: 0 <= i < |TwoDigits(tens, ones)| ==> IsDigit(TwoDigits(tens, ones)[i])
  {
  }

  /** Two digits spell ten times the first plus the second. */
  lemma {:induction false} DigitsValueOfTwo(tens: nat, ones: nat)
    requires tens < 10 && ones < 10
    ensures DigitsValue(TwoDigits(tens, ones)) == 10 * tens + ones
  {
    var ab := TwoDigits(tens, ones);
    var first := [Digit(tens)];
    TwoDigitsPrefixes(tens, ones);
    assert DigitsValue(first) == 10 * DigitsValue([]) + DigitValue(Digit(tens)) == tens;
    assert DigitsValue(ab) == 10 * DigitsValue(first) + DigitValue(Digit(ones));
  }

  /** The prefixes of a two-digit text. */
  lemma {:induction false} TwoDigitsPrefixes(tens: nat, ones: nat)
    requires tens < 10 && ones < 10
    ensures [Digit(tens)][..0] == []
    ensures TwoDigits(tens, ones)[..1] == [Digit(tens)] && TwoDigits(tens, ones)[1] == Digit(ones)
  {
  }

  /** The name a two-digit month gets: its entry in the table, or `undefined` outside 1 to 12. */
  lemma {:induction false} MonthNameOfTwoDigits(tens: nat, ones: nat)
    requires tens < 10 && ones < 10
    ensures var m := 10 * tens + ones;
      && (1 <= m <= 12 ==> MonthName(ParseInt(TwoDigits(tens, ones))) == MonthNames[m - 1])
      && (!(1 <= m <= 12) ==> MonthName(ParseInt(TwoDigits(tens, ones))) == "undefined")
  {
    ParseIntOfTwoDigits(tens, ones);
    MonthNameOfInt(10 * tens + ones);
  }

  /** The name of a month number. */
  lemma {:induction false} MonthNameOfInt(m: int)
    ensures 1 <= m <= 12 ==> MonthName(Int(m)) == MonthNames[m - 1]
    ensures !(1 <= m <= 12) ==> MonthName(Int(m)) == "undefined"
  {
  }

  /** The word `undefined` is not a number. */
  lemma {:induction false} ParseIntOfUndefined()
    ensures ParseInt("undefined") == NaN
  {
    TrimStartAtNonWs("undefined");
    assert LeadingDigits("undefined") == [];
  }

  /** `formatDate` of `-`-separated fields works on those fields. */
  lemma {:induction false} FormatDateOfJoin(fields: seq<string>)
    requires |fields| >= 1
    requires forall k :: 0 <= k < |fields| ==> '-' !in fields[k]
    ensures FormatDate(Join(fields, '-')) == FormatFields(fields)
  {
    SplitJoin(fields, '-');
  }

  /** The fields of a year, a month and any further fields, none holding a `-`. */
  lemma {:induction false} DateFields(year: string, month: string, more: seq<string>)
    requires '-' !in year && '-' !in month
    requires forall k :: 0 <= k < |more| ==> '-' !in more[k]
    ensures var fields := [year, month] + more;
      && fields[0] == year && MonthField(fields) == month
      && forall k :: 0 <= k < |fields| ==> '-' !in fields[k]
  {
    var fields := [year, month] + more;
    forall k | 0 <= k < |fields| ensures '-' !in fields[k] {
      if k >= 2 {
        assert fields[k] == more[k - 2];
      }
    }
  }

  /** The text for a year and a month, with any further `-` fields: the month's name as `parseInt` reads it, then the year. */
  lemma {:induction false} FormatDateOfYearAndMonth(year: string, month: string, more: seq<string>)
    requires '-' !in year && '-' !in month
    requires forall k :: 0 <= k < |more| ==> '-' !in more[k]
    ensures FormatDate(Join([year, month] + more, '-')) == MonthName(ParseInt(month)) + " " + year
  {
    var fields := [year, month] + more;
    DateFields(year, month, more);
    assert FormatDate(Join(fields, '-')) == FormatFields(fields) by {
      FormatDateOfJoin(fields);
    }
  }

  /** A year and a two-digit month, with any further `-` fields, render as the month's name and the year. */
  lemma {:induction false} FormatDateOfYearMonth(year: string, tens: nat, ones: nat, more: seq<string>)
    requires tens < 10 && ones < 10 && 1 <= 10 * tens + ones <= 12 && '-' !in year
    requires forall k :: 0 <= k < |more| ==> '-' !in more[k]
    ensures FormatDate(Join([year, TwoDigits(tens, ones)] + more, '-')) == MonthNames[10 * tens + ones - 1] + " " + year
  {
    var month := TwoDigits(tens, ones);
    MonthNameOfTwoDigits(tens, ones);
    assert MonthName(ParseInt(month)) == MonthNames[10 * tens + ones - 1];
    FormatDateOfYearAndMonth(year, month, more);
  }

  /** A two-digit month outside 1 to 12 renders as `undefined`, then the year. */
  lemma {:induction false} FormatDateOfInvalidMonth(year: string, tens: nat, ones: nat, more: seq<string>)
    requires tens < 10 && ones < 10 && !(1 <= 10 * tens + ones <= 12) && '-' !in year
    requires forall k :: 0 <= k < |more| ==> '-' !in more[k]
    ensures FormatDate(Join([year, TwoDigits(tens, ones)] + more, '-')) == "undefined" + " " + year
  {
    var month := TwoDigits(tens, ones);
    MonthNameOfTwoDigits(tens, ones);
    assert MonthName(ParseInt(month)) == "undefined";
    FormatDateOfYearAndMonth(year, month, more);
  }

  /** A date with no `-` has no month: it renders as `undefined` and the whole text. */
  lemma {:induction false} FormatDateWithoutMonth(dateString: string)
    requires '-' !in dateString
    ensures FormatDate(dateString) == "undefined" + " " + dateString
  {
    SplitNoSeparator(dateString, '-');
    ParseIntOfUndefined();
  }

  // ---------------------------------------------------------------------------
  // positionMetadata

  /** The company and the date range shown for a position. */
  datatype PositionMeta = PositionMeta(company: string, dates: string)

  /** `repository.positions.find((p) => p.id === id)`. */
  function FindPosition(positions: seq<Position>, id: string): (r: Option<Position>)
    ensures r.Some? ==> r.value.id == id && r.value in positions
    ensures r.None? <==> forall p :: p in positions ==> p.id != id
  {
    if positions == [] then None
    else if positions[0].id == id then Some(positions[0])
    else FindPosition(positions[1..], id)
  }

  /**
   * `start – end` with an en dash: the end is `Present` when the end date is
   * null or empty, and the formatted end date otherwise.
   */
  function Dates(p: Position): (r: string)
    ensures p.endDate.None? || p.endDate.value == "" ==> r == FormatDate(p.startDate) + " \U{2013} " + "Present"
    ensures p.endDate.Some? && p.endDate.value != "" ==> r == FormatDate(p.startDate) + " \U{2013} " + FormatDate(p.endDate.value)
  {
    var endDate := if p.endDate.Some? && p.endDate.value != "" then FormatDate(p.endDate.value) else "Present";
    FormatDate(p.startDate) + " \U{2013} " + endDate
  }

  /** The metadata recorded for a position. */
  function MetaOf(p: Position): PositionMeta {
    PositionMeta(p.company, Dates(p))
  }

  /** The position ids the blocks refer to. */
  function BlockIds(blocks: seq<MatchedBlock>): set<string> {
    set b | b in blocks :: b.positionId
  }

  /** The ids of the repository positions. */
  function PositionIds(positions: seq<Position>): set<string> {
    set p | p in positions :: p.id
  }

  /** The metadata of every repository id, taken from the first position with that id. */
  function KnownMeta(positions: seq<Position>): map<string, PositionMeta>
  {
    map id | id in PositionIds(positions) :: MetaOf(FindPosition(positions, id).value)
  }

  /** The entries of `m` whose key is in `ids`. */
  function Restrict(m: map<string, PositionMeta>, ids: set<string>): map<string, PositionMeta>
  {
    map id | id in ids && id in m :: m[id]
  }

  /**
   * The table the loop builds: one entry per referenced id that the
   * repository knows, holding the metadata of the first repository position
   * with that id.
   */
  function ExpectedMetadata(blocks: seq<MatchedBlock>, repository: Repository): (r: map<string, PositionMeta>)
    ensures r.Keys == BlockIds(blocks) * PositionIds(repository.positions)
  {
    Restrict(KnownMeta(repository.positions), BlockIds(blocks))
  }

  /** The `forEach` that fills `positionMetadata`; an id already present is left alone. */
  method BuildPositionMetadata(blocks: seq<MatchedBlock>, repository: Repository)
    returns (positionMetadata: map<string, PositionMeta>)
    ensures positionMetadata == ExpectedMetadata(blocks, repository)
  {
    positionMetadata := map[];
    var i := 0;
    ExpectedMetadataEmpty(blocks, repository);
    while i < |blocks|
      invariant 0 <= i <= |blocks|
      invariant positionMetadata == ExpectedMetadata(blocks[..i], repository)
    {
      ghost var before := positionMetadata;
      var block := blocks[i];
      var position := FindPosition(repository.positions, block.positionId);
      if position.Some? && block.positionId !in positionMetadata {
        positionMetadata := positionMetadata[block.positionId := MetaOf(position.value)];
      }
      ExpectedMetadataStep(blocks, i, repository, before, positionMetadata);
      i := i + 1;
    }
    FullPrefix(blocks);
  }

  /** No blocks, no entries. */
  lemma {:induction false} ExpectedMetadataEmpty(blocks: seq<MatchedBlock>, repository: Repository)
    ensures ExpectedMetadata(blocks[..0], repository) == map[]
  {
    assert BlockIds(blocks[..0]) == {};
    assert ExpectedMetadata(blocks[..0], repository).Keys == {};
  }

  /** One more block adds its id when the repository knows it and the id is new. */
  lemma {:induction false} ExpectedMetadataSnoc(blocks: seq<MatchedBlock>, block: MatchedBlock, repository: Repository)
    ensures var before := ExpectedMetadata(blocks, repository);
      var position := FindPosition(repository.positions, block.positionId);
      ExpectedMetadata(blocks + [block], repository) ==
        if position.Some? && block.positionId !in before
        then before[block.positionId := MetaOf(position.value)]
        else before
  {
    var known := KnownMeta(repository.positions);
    BlockIdsSnoc(blocks, block);
    RestrictInsert(known, BlockIds(blocks), block.positionId);
  }

  /** Restricting to one more id adds its entry, unless it is unknown or already there. */
  lemma {:induction false} RestrictInsert(m: map<string, PositionMeta>, ids: set<string>, id: string)
    ensures var before := Restrict(m, ids);
      Restrict(m, ids + {id}) == if id in m && id !in before then before[id := m[id]] else before
  {
  }

  /** The ids of one more block. */
  lemma {:induction false} BlockIdsSnoc(blocks: seq<MatchedBlock>, block: MatchedBlock)
    ensures BlockIds(blocks + [block]) == BlockIds(blocks) + {block.positionId}
  {
    forall b | b in blocks + [block] ensures b in blocks || b == block {
    }
  }

  /** The table after block `i` is the table before it, updated as the loop body does. */
  lemma {:induction false} ExpectedMetadataStep(blocks: seq<MatchedBlock>, i: nat, repository: Repository,
                                                 before: map<string, PositionMeta>, after: map<string, PositionMeta>)
    requires i < |blocks| && before == ExpectedMetadata(blocks[..i], repository)
    requires var block := blocks[i];
      var position := FindPosition(repository.positions, block.positionId);
      after == if position.Some? && block.positionId !in before
        then before[block.positionId := MetaOf(position.value)]
        else before
    ensures after == ExpectedMetadata(blocks[..i + 1], repository)
  {
    PrefixSnoc(blocks, i);
    ExpectedMetadataSnoc(blocks[..i], blocks[i], repository);
  }

  /**
   * An id has an entry exactly when some block refers to it and some
   * repository position has it; the entry is that of the first such position.
   */
  lemma {:induction false} ExpectedMetadataEntries(blocks: seq<MatchedBlock>, repository: Repository, id: string)
    ensures id in ExpectedMetadata(blocks, repository) <==>
      (exists b :: b in blocks && b.positionId == id) && (exists p :: p in repository.positions && p.id == id)
    ensures id in ExpectedMetadata(blocks, repository) ==>
      exists k :: (0 <= k < |repository.positions| && repository.positions[k].id == id
        && ExpectedMetadata(blocks, repository)[id] == MetaOf(repository.positions[k])
        && forall j :: 0 <= j < k ==> repository.positions[j].id != id)
  {
    if id in ExpectedMetadata(blocks, repository) {
      FirstPosition(repository.positions, id);
    }
  }

  /** `FindPosition` returns the position at the first index with the id. */
  lemma {:induction false} FirstPosition(positions: seq<Position>, id: string)
    requires FindPosition(positions, id).Some?
    ensures exists k :: (0 <= k < |positions| && positions[k] == FindPosition(positions, id).value
      && forall j :: 0 <= j < k ==> positions[j].id != id)
  {
    if positions[0].id != id {
      FirstPosition(positions[1..], id);
      var k :| 0 <= k < |positions[1..]| && positions[1..][k] == FindPosition(positions[1..], id).value
        && (forall j :: 0 <= j < k ==> positions[1..][j].id != id);
      assert positions[k + 1] == FindPosition(positions, id).value;
      forall j | 0 <= j < k + 1 ensures positions[j].id != id {
        if j > 0 {
          assert positions[j] == positions[1..][j - 1];
        }
      }
    } else {
      assert positions[0] == FindPosition(positions, id).value;
    }
  }

  /** The table does not depend on the order of the blocks, nor on how often an id recurs. */
  lemma {:induction false} ExpectedMetadataOrderFree(blocks1: seq<MatchedBlock>, blocks2: seq<MatchedBlock>, repository: Repository)
    requires forall b :: b in blocks1 <==> b in blocks2
    ensures ExpectedMetadata(blocks1, repository) == ExpectedMetadata(blocks2, repository)
  {
    assert BlockIds(blocks1) == BlockIds(blocks2);
  }

  // ---------------------------------------------------------------------------
  // enrichedPositions

  /** `block.position_title.includes(title) || title.includes(block.position_title)`. */
  predicate TitleMatches(block: MatchedBlock, title: string)
    ensures title == block.positionTitle ==> TitleMatches(block, title)
    ensures title == "" || block.positionTitle == "" ==> TitleMatches(block, title)
  {
    ContainsEmpty(block.positionTitle);
    ContainsEmpty(title);
    assert StartsWith(title, title);
    Contains(block.positionTitle, title) || Contains(title, block.positionTitle)
  }

  /**
   * A block matches a title exactly when one of the two titles occurs
   * somewhere in the other: `Engineer` matches `Senior Engineer, Platform`.
   */
  lemma {:induction false} TitleMatchesIff(block: MatchedBlock, title: string)
    ensures TitleMatches(block, title) <==>
      (exists i: nat :: OccursAt(block.positionTitle, title, i))
      || (exists i: nat :: OccursAt(title, block.positionTitle, i))
  {
    ContainsIff(block.positionTitle, title);
    ContainsIff(title, block.positionTitle);
  }

  /** `matchedBlocks.find(...)`: the first block whose title matches. */
  function FindTitleMatch(blocks: seq<MatchedBlock>, title: string): (r: Option<MatchedBlock>)
    ensures r.None? <==> forall b :: b in blocks ==> !TitleMatches(b, title)
    ensures r.Some? ==> r.value in blocks && TitleMatches(r.value, title)
  {
    if blocks == [] then None
    else if TitleMatches(blocks[0], title) then Some(blocks[0])
    else FindTitleMatch(blocks[1..], title)
  }

  /** A matched block is the first one that matches. */
  lemma {:induction false} FindTitleMatchFirst(blocks: seq<MatchedBlock>, title: string, k: nat)
    requires k < |blocks| && TitleMatches(blocks[k], title)
    requires forall j :: 0 <= j < k ==> !TitleMatches(blocks[j], title)
    ensures FindTitleMatch(blocks, title) == Some(blocks[k])
    decreases k
  {
    if k > 0 {
      FindTitleMatchFirst(blocks[1..], title, k - 1);
    }
  }

  /** An empty title matches the first block, since every string includes the empty one. */
  lemma {:induction false} EmptyTitleMatchesFirst(blocks: seq<MatchedBlock>)
    requires blocks != []
    ensures FindTitleMatch(blocks, "") == Some(blocks[0])
  {
    ContainsEmpty(blocks[0].positionTitle);
  }

  /** One parsed position with the company and dates of its first title match, when that match has metadata. */
  function Enrich(parsed: ParsedPosition, blocks: seq<MatchedBlock>, metadata: map<string, PositionMeta>): (r: ParsedPosition)
    ensures r.title == parsed.title && r.bullets == parsed.bullets
  {
    match FindTitleMatch(blocks, parsed.title)
    case Some(block) =>
      if block.positionId in metadata then
        parsed.(company := metadata[block.positionId].company, dates := metadata[block.positionId].dates)
      else parsed
    case None => parsed
  }

  /** `parsedResume.positions.map(...)`. */
  function EnrichPositions(positions: seq<ParsedPosition>, blocks: seq<MatchedBlock>, metadata: map<string, PositionMeta>)
    : (r: seq<ParsedPosition>)
    ensures |r| == |positions|
    ensures forall i :: 0 <= i < |r| ==> r[i].title == positions[i].title && r[i].bullets == positions[i].bullets
  {
    seq(|positions|, i requires 0 <= i < |positions| => Enrich(positions[i], blocks, metadata))
  }

  /**
   * A position changes exactly when some block's title matches its title
   * and the first such block has metadata; it then shows that metadata.
   */
  lemma {:induction false} EnrichChanges(parsed: ParsedPosition, blocks: seq<MatchedBlock>, metadata: map<string, PositionMeta>, k: nat)
    requires k < |blocks| && TitleMatches(blocks[k], parsed.title)
    requires forall j :: 0 <= j < k ==> !TitleMatches(blocks[j], parsed.title)
    ensures blocks[k].positionId in metadata ==>
      Enrich(parsed, blocks, metadata) ==
        parsed.(company := metadata[blocks[k].positionId].company, dates := metadata[blocks[k].positionId].dates)
    ensures blocks[k].positionId !in metadata ==> Enrich(parsed, blocks, metadata) == parsed
  {
    FindTitleMatchFirst(blocks, parsed.title, k);
  }

  /** A position no block's title matches is left as parsed. */
  lemma {:induction false} EnrichUnmatched(parsed: ParsedPosition, blocks: seq<MatchedBlock>, metadata: map<string, PositionMeta>)
    requires forall b :: b in blocks ==> !TitleMatches(b, parsed.title)
    ensures Enrich(parsed, blocks, metadata) == parsed
  {
  }

  /** Enriching twice is enriching once. */
  lemma {:induction false} EnrichIdempotent(parsed: ParsedPosition, blocks: seq<MatchedBlock>, metadata: map<string, PositionMeta>)
    ensures Enrich(Enrich(parsed, blocks, metadata), blocks, metadata) == Enrich(parsed, blocks, metadata)
  {
  }

  /** The positions the resume shows: the parsed ones enriched with the metadata of the matched blocks. */
  method ResumePositions(parsedResume: ParsedResume, matchedBlocks: seq<MatchedBlock>, repository: Repository)
    returns (positions: seq<ParsedPosition>)
    ensures positions == EnrichPositions(parsedResume.positions, matchedBlocks, ExpectedMetadata(matchedBlocks, repository))
  {
    var positionMetadata := BuildPositionMetadata(matchedBlocks, repository);
    positions := EnrichPositions(parsedResume.positions, matchedBlocks, positionMetadata);
  }
}
