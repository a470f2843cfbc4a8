/**
 * The JavaScript string primitives the core relies on: the whitespace class
 * shared by `String.prototype.trim` and the regular-expression escape `\s`,
 * `trim`, `startsWith`, `includes`, and `split` with a one-character separator.
 * Strings are sequences of Unicode scalar values.
 */
module JsText {

  /** LineTerminator of ECMAScript: LF, CR, LINE SEPARATOR, PARAGRAPH SEPARATOR. */
  predicate IsLineTerminator(c: char) {
    c == '\n' || c == '\r' || c == '\U{2028}' || c == '\U{2029}'
  }

  /**
   * WhiteSpace plus LineTerminator of ECMAScript: the set matched by `\s`
   * and removed by `trim()`. WhiteSpace is TAB, VT, FF, SPACE, NBSP, ZWNBSP
   * and the Unicode space separators (category Zs).
   */
  predicate IsJsWs(c: char) {
    || c == '\t' || c == '\U{0B}' || c == '\U{0C}' || c == ' '
    || c == '\U{A0}' || c == '\U{FEFF}' || c == '\U{1680}'
    || ('\U{2000}' <= c <= '\U{200A}')
    || c == '\U{202F}' || c == '\U{205F}' || c == '\U{3000}'
    || IsLineTerminator(c)
  }

  /** Every character of `s` is whitespace. */
  predicate AllWs(s: string) {
    forall k :: 0 <= k < |s| ==> IsJsWs(s[k])
  }

  /** No leading and no trailing whitespace. */
  predicate IsTrimmed(t: string) {
    t == [] || (!IsJsWs(t[0]) && !IsJsWs(t[|t| - 1]))
  }

  /** The leading whitespace of `s` removed: what is left is a suffix of `s`. */
  function TrimStart(s: string): (r: string)
    ensures |r| <= |s| && r == s[|s| - |r|..]
    ensures AllWs(s[..|s| - |r|])
    ensures r == [] || !IsJsWs(r[0])
    decreases |s|
  {
    if |s| > 0 && IsJsWs(s[0]) then
      var r := TrimStart(s[1..]);
      TrimStartStep(s, r);
      r
    else s
  }

  /** A leading whitespace character joins the whitespace `trimStart` removes from the rest. */
  lemma {:induction false} TrimStartStep(s: string, r: string)
    requires |s| > 0 && IsJsWs(s[0])
    requires |r| <= |s| - 1 && r == s[1..][|s| - 1 - |r|..] && AllWs(s[1..][..|s| - 1 - |r|])
    ensures r == s[|s| - |r|..] && AllWs(s[..|s| - |r|])
  {
    assert s[..|s| - |r|] == [s[0]] + s[1..][..|s| - 1 - |r|];
  }

  /** A string that does not start with whitespace is its own `trimStart()`. */
  lemma {:induction false} TrimStartAtNonWs(s: string)
    requires s == [] || !IsJsWs(s[0])
    ensures TrimStart(s) == s
  {
  }

  /** The trailing whitespace of `s` removed: what is left is a prefix of `s`. */
  function TrimEnd(s: string): (r: string)
    ensures |r| <= |s| && r == s[..|r|]
    ensures AllWs(s[|r|..])
    ensures r == [] || !IsJsWs(r[|r| - 1])
    decreases |s|
  {
    if |s| > 0 && IsJsWs(s[|s| - 1]) then
      var r := TrimEnd(s[..|s| - 1]);
      TrimEndStep(s, r);
      r
    else s
  }

  /** A trailing whitespace character joins the whitespace `trimEnd` removes from the rest. */
  lemma {:induction false} TrimEndStep(s: string, r: string)
    requires |s| > 0 && IsJsWs(s[|s| - 1])
    requires |r| <= |s| - 1 && r == s[..|s| - 1][..|r|] && AllWs(s[..|s| - 1][|r|..])
    ensures r == s[..|r|] && AllWs(s[|r|..])
  {
    assert s[|r|..] == s[..|s| - 1][|r|..] + [s[|s| - 1]];
  }

  /** `s.trim()`. */
  function Trim(s: string): (r: string)
    ensures IsTrimmed(r)
    ensures IsTrimmed(s) ==> r == s
  {
    TrimEnd(TrimStart(s))
  }

  /** The empty string trims to itself. */
  lemma {:induction false} TrimEmpty()
    ensures Trim("") == ""
  {
    assert TrimStart("") == "";
  }

  /** The length of the run of whitespace that `s` starts with: what a greedy `\s*` takes. */
  function WsRun(s: string): (n: nat)
    ensures n <= |s| && AllWs(s[..n])
    ensures n == |s| || !IsJsWs(s[n])
    decreases |s|
  {
    if s != [] && IsJsWs(s[0]) then
      var n := 1 + WsRun(s[1..]);
      assert s[..n] == [s[0]] + s[1..][..n - 1];
      n
    else 0
  }

  /**
   * `trimStart()` drops exactly the run a greedy `\s*` takes. `TrimStart`
   * is kept for the string it returns, `WsRun` for the index where the
   * scans of the regular expressions continue.
   */
  lemma {:induction false} TrimStartIsWsRun(s: string)
    ensures TrimStart(s) == s[WsRun(s)..]
    decreases |s|
  {
    if |s| > 0 && IsJsWs(s[0]) {
      TrimStartIsWsRun(s[1..]);
      assert s[1..][WsRun(s[1..])..] == s[1 + WsRun(s[1..])..];
    }
  }

  /** Trimming removes characters only at the ends: what is left is an infix. */
  lemma {:induction false} TrimIsInfix(s: string) returns (i: nat, j: nat)
    ensures i <= j <= |s| && Trim(s) == s[i..j]
  {
    var t := TrimStart(s);
    var n := |TrimEnd(t)|;
    i := |s| - |t|;
    j := i + n;
    SliceOfSuffix(s, i, n);
  }

  /** A prefix of a suffix is an infix. */
  lemma {:induction false} SliceOfSuffix<T>(s: seq<T>, i: nat, n: nat)
    requires i + n <= |s|
    ensures s[i..][..n] == s[i..i + n]
  {
  }

  /** Removing leading whitespace twice is removing it once. */
  lemma {:induction false} TrimStartIdempotent(s: string)
    ensures TrimStart(TrimStart(s)) == TrimStart(s)
  {
  }

  /** Trimming what has lost its leading whitespace is trimming the original. */
  lemma {:induction false} TrimAfterTrimStart(s: string)
    ensures Trim(TrimStart(s)) == Trim(s)
  {
    TrimStartIdempotent(s);
  }

  /** A string that ends in a non-whitespace character does not trim to nothing. */
  lemma {:induction false} TrimNonEmpty(s: string)
    requires s != [] && !IsJsWs(s[|s| - 1])
    ensures Trim(s) != []
  {
    var t := TrimStart(s);
    assert t[|t| - 1] == s[|s| - 1];
  }

  /** Trimming adds no character: a character absent from `s` is absent from `Trim(s)`. */
  lemma {:induction false} TrimNoNewChar(s: string, c: char)
    requires c !in s
    ensures c !in Trim(s)
  {
  }

  /** `s.startsWith(p)`. */
  predicate StartsWith(s: string, p: string) {
    |p| <= |s| && s[..|p|] == p
  }

  /** `s.includes(sub)`. */
  predicate Contains(s: string, sub: string)
    ensures Contains(s, sub) ==> |sub| <= |s|
    ensures StartsWith(s, sub) ==> Contains(s, sub)
    decreases |s|
  {
    StartsWith(s, sub) || (s != [] && Contains(s[1..], sub))
  }

  /** Every string includes the empty string. */
  lemma {:induction false} ContainsEmpty(s: string)
    ensures Contains(s, "")
  {
    assert StartsWith(s, "");
  }

  /** `sub` occurs in `s` at index `i`. */
  predicate OccursAt(s: string, sub: string, i: nat) {
    i + |sub| <= |s| && s[i..i + |sub|] == sub
  }

  /** `includes` holds exactly when the text occurs at some position. */
  lemma {:induction false} ContainsIff(s: string, sub: string)
    ensures Contains(s, sub) <==> exists i: nat :: OccursAt(s, sub, i)
    decreases |s|
  {
    if StartsWith(s, sub) {
      assert OccursAt(s, sub, 0);
    }
    if OccursAt(s, sub, 0) {
      assert s[..|sub|] == s[0..|sub|];
    }
    if s == [] {
      forall i: nat | OccursAt(s, sub, i) ensures StartsWith(s, sub) {
      }
    } else {
      ContainsIff(s[1..], sub);
      forall i: nat | OccursAt(s[1..], sub, i) ensures OccursAt(s, sub, i + 1) {
        assert s[1..][i..i + |sub|] == s[i + 1..i + 1 + |sub|];
      }
      forall i: nat | OccursAt(s, sub, i) && i > 0 ensures OccursAt(s[1..], sub, i - 1) {
        assert s[1..][i - 1..i - 1 + |sub|] == s[i..i + |sub|];
      }
    }
  }

  /** `s` without its `*` characters. */
  function Unstarred(s: string): (r: string)
    ensures '*' !in r
  {
    if s == [] then []
    else (if s[0] == '*' then [] else [s[0]]) + Unstarred(s[1..])
  }

  /** `Unstarred` of a concatenation. */
  lemma {:induction false} UnstarredAppend(a: string, b: string)
    ensures Unstarred(a + b) == Unstarred(a) + Unstarred(b)
    decreases |a|
  {
    if a != [] {
      TailOfAppend(a, b);
      UnstarredAppend(a[1..], b);
    } else {
      assert a + b == b;
    }
  }

  /** A string without stars is kept whole. */
  lemma {:induction false} UnstarredNoStar(s: string)
    requires '*' !in s
    ensures Unstarred(s) == s
    decreases |s|
  {
    if s != [] {
      UnstarredNoStar(s[1..]);
      HeadTail(s);
    }
  }

  /** A leading `*` leaves nothing behind. */
  lemma {:induction false} UnstarredLeadingStar(t: string)
    ensures Unstarred("*" + t) == Unstarred(t)
  {
    assert ("*" + t)[1..] == t;
  }

  /** The number of times `c` occurs in `s`. */
  function Count(s: string, c: char): nat {
    multiset(s)[c]
  }

  /**
   * `s.split(sep)` for a one-character separator: n separators give n + 1
   * fields, none of which contains the separator.
   */
  function Split(s: string, sep: char): (r: seq<string>)
    ensures |r| >= 1
    decreases |s|
  {
    if s == [] then [""]
    else
      var rest := Split(s[1..], sep);
      if s[0] == sep then [""] + rest
      else [[s[0]] + rest[0]] + rest[1..]
  }

  /** `Split` yields one field more than there are separators, and no field holds one. */
  lemma {:induction false} SplitFields(s: string, sep: char)
    ensures |Split(s, sep)| == Count(s, sep) + 1
    ensures forall k :: 0 <= k < |Split(s, sep)| ==> sep !in Split(s, sep)[k]
    decreases |s|
  {
    if s != [] {
      SplitFields(s[1..], sep);
      assert s == [s[0]] + s[1..];
      var rest := Split(s[1..], sep);
      if s[0] != sep {
        assert sep !in [s[0]] + rest[0];
        assert forall k :: 1 <= k < |rest| ==> (rest[1..])[k - 1] == rest[k];
      } else {
        assert forall k :: 1 <= k < |rest| + 1 ==> ([""] + rest)[k] == rest[k - 1];
      }
    }
  }

  /** `fields.join(sep)`, the inverse of `Split`. */
  function Join(fields: seq<string>, sep: char): string
    requires |fields| >= 1
    decreases |fields|
  {
    if |fields| == 1 then fields[0] else fields[0] + [sep] + Join(fields[1..], sep)
  }

  /** Joining the fields of a split with the separator gives the string back. */
  lemma {:induction false} JoinSplit(s: string, sep: char)
    ensures Join(Split(s, sep), sep) == s
    decreases |s|
  {
    if s != [] {
      JoinSplit(s[1..], sep);
      var rest := Split(s[1..], sep);
      if s[0] != sep {
        if |rest| > 1 {
          assert Join(rest, sep) == rest[0] + [sep] + Join(rest[1..], sep);
        }
      }
    }
  }

  /** Splitting a join of separator-free fields gives the fields back. */
  lemma {:induction false} SplitJoin(fields: seq<string>, sep: char)
    requires |fields| >= 1
    requires forall k :: 0 <= k < |fields| ==> sep !in fields[k]
    ensures Split(Join(fields, sep), sep) == fields
    decreases |fields|, |fields[0]|
  {
    var f0 := fields[0];
    if |fields| == 1 {
      SplitNoSeparator(f0, sep);
    } else if f0 == [] {
      SplitJoin(fields[1..], sep);
      SplitJoinEmptyHead(fields, sep);
    } else {
      var shorter := [f0[1..]] + fields[1..];
      assert shorter[1..] == fields[1..];
      assert sep !in f0[1..] by {
        assert sep !in f0;
        assert forall x :: x in f0[1..] ==> x in f0;
      }
      assert forall k :: 0 <= k < |shorter| ==> sep !in shorter[k];
      SplitJoin(shorter, sep);
      SplitJoinStep(fields, shorter, sep);
    }
  }

  lemma {:induction false} SplitJoinEmptyHead(fields: seq<string>, sep: char)
    requires |fields| >= 2 && fields[0] == []
    requires forall k :: 0 <= k < |fields| ==> sep !in fields[k]
    requires Split(Join(fields[1..], sep), sep) == fields[1..]
    ensures Split(Join(fields, sep), sep) == fields
  {
    var tail := Join(fields[1..], sep);
    assert Join(fields, sep) == [sep] + tail;
    SplitCons(sep, tail, sep);
  }

  lemma {:induction false} SplitJoinStep(fields: seq<string>, shorter: seq<string>, sep: char)
    requires |fields| >= 2 && fields[0] != [] && fields[0][0] != sep
    requires shorter == [fields[0][1..]] + fields[1..]
    requires Split(Join(shorter, sep), sep) == shorter
    ensures Split(Join(fields, sep), sep) == fields
  {
    var f0 := fields[0];
    var tail := Join(shorter, sep);
    var rest := Join(fields[1..], sep);
    assert shorter[1..] == fields[1..];
    assert tail == f0[1..] + [sep] + rest;
    assert Join(fields, sep) == f0 + [sep] + rest;
    assert f0 == [f0[0]] + f0[1..];
    assert Join(fields, sep) == [f0[0]] + tail;
    SplitCons(f0[0], tail, sep);
    HeadTail(f0);
  }

  /** `Split` unfolded once, on a string given as its first character and the rest. */
  lemma {:induction false} SplitCons(c: char, t: string, sep: char)
    ensures Split([c] + t, sep) ==
      if c == sep then [""] + Split(t, sep) else [[c] + Split(t, sep)[0]] + Split(t, sep)[1..]
  {
    assert ([c] + t)[1..] == t;
  }

  /** A string without the separator is a single field. */
  lemma {:induction false} SplitNoSeparator(s: string, sep: char)
    requires sep !in s
    ensures Split(s, sep) == [s]
    decreases |s|
  {
    if s != [] {
      SplitNoSeparator(s[1..], sep);
      HeadTail(s);
    }
  }

  /** A prefix one element longer is the prefix with that element appended. */
  lemma {:induction false} PrefixSnoc<T>(s: seq<T>, i: nat)
    requires i < |s|
    ensures s[..i + 1] == s[..i] + [s[i]]
  {
    assert forall k :: 0 <= k < i ==> s[..i + 1][k] == s[..i][k];
  }

  /** Concatenation is associative. */
  lemma {:induction false} AppendAssoc<T>(a: seq<T>, b: seq<T>, c: seq<T>)
    ensures (a + b) + c == a + (b + c)
  {
  }

  /** The tail of a concatenation with a non-empty first part. */
  lemma {:induction false} TailOfAppend<T>(a: seq<T>, b: seq<T>)
    requires a != []
    ensures (a + b)[1..] == a[1..] + b
  {
  }

  /** The prefix as long as the sequence is the sequence. */
  lemma {:induction false} FullPrefix<T>(s: seq<T>)
    ensures s[..|s|] == s
  {
  }

  /** Appending nothing changes nothing. */
  lemma {:induction false} AppendEmpty<T>(s: seq<T>)
    ensures s + [] == s
  {
  }

  /** A nonempty sequence is its head followed by its tail. */
  lemma {:induction false} HeadTail<T>(s: seq<T>)
    requires s != []
    ensures [s[0]] + s[1..] == s
  {
  }

  /** The characters of a prefix, one by one. */
  lemma {:induction false} StartsWithChars(s: string, p: string)
    requires StartsWith(s, p)
    ensures |p| <= |s| && forall i :: 0 <= i < |p| ==> s[i] == p[i]
  {
    forall i | 0 <= i < |p| ensures s[i] == p[i] {
      assert s[..|p|][i] == s[i];
    }
  }
}
