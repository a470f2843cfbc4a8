/**
 * `extractJSON` of src/lib/claude.ts: the body of the first Markdown code
 * fence of a model reply, trimmed, or the whole reply trimmed when there is
 * no fence.
 *
 * The regular expression /```(?:json)?\s*([\s\S]*?)```/ is modelled twice:
 * `RegexMatch` says which (start, tag, body start, body end) tuples the
 * pattern can match at all, and `Match` is the scan that picks the one the
 * JavaScript backtracking engine returns. The lemmas show that the scan
 * returns a match exactly when one exists, and the one of highest priority:
 * leftmost start, then the `json` tag taken when possible, then the longest
 * `\s*`, then the shortest lazy body.
 */
module Claude {
  import opened Wrappers
  import opened JsText

  /** Three backticks begin at index `i` of `s`. */
  predicate IsFenceAt(s: string, i: int) {
    0 <= i && i + 3 <= |s| && s[i] == '`' && s[i + 1] == '`' && s[i + 2] == '`'
  }

  /** `s` holds no three consecutive backticks. */
  predicate NoFence(s: string) {
    forall i :: 0 <= i < |s| ==> !IsFenceAt(s, i)
  }

  /** The characters `json` follow index `i`. */
  predicate JsonTagAt(s: string, i: int) {
    0 <= i && i + 4 <= |s| && s[i] == 'j' && s[i + 1] == 's' && s[i + 2] == 'o' && s[i + 3] == 'n'
  }

  /**
   * The pattern can match `s` starting at `x`, taking the `json` tag or not,
   * with `\s*` covering `s[after tag..c]` and the lazy group `s[c..v]`
   * followed by the closing fence at `v`.
   */
  predicate RegexMatch(s: string, x: int, json: bool, c: int, v: int)
    ensures RegexMatch(s, x, json, c, v) ==> 0 <= x && x + 3 <= c <= v && v + 3 <= |s|
  {
    && IsFenceAt(s, x)
    && (json ==> JsonTagAt(s, x + 3))
    && var a := if json then x + 7 else x + 3;
    && a <= c <= v
    && IsFenceAt(s, v)
    && AllWs(s[a..c])
  }

  /** The first fence at or after `from`. */
  function FindFence(s: string, from: nat): (r: Option<nat>)
    ensures r.Some? ==> from <= r.value && IsFenceAt(s, r.value)
    ensures r.Some? ==> forall j :: from <= j < r.value ==> !IsFenceAt(s, j)
    ensures r.None? ==> forall j :: from <= j ==> !IsFenceAt(s, j)
    decreases |s| - from
  {
    if from + 3 > |s| then None
    else if IsFenceAt(s, from) then Some(from)
    else FindFence(s, from + 1)
  }

  /** Greedy `\s*` from index `i`: the end of the whitespace run starting there. */
  function SkipWs(s: string, i: nat): (w: nat)
    requires i <= |s|
    ensures i <= w <= |s|
    ensures AllWs(s[i..w])
    ensures w == |s| || !IsJsWs(s[w])
    decreases |s| - i
  {
    if i < |s| && IsJsWs(s[i]) then
      var w := SkipWs(s, i + 1);
      assert s[i..w] == [s[i]] + s[i + 1..w];
      w
    else i
  }

  /** The scan's `\s*` is the shared whitespace run, taken from index `i`. */
  lemma {:induction false} SkipWsIsWsRun(s: string, i: nat)
    requires i <= |s|
    ensures SkipWs(s, i) == i + WsRun(s[i..])
    decreases |s| - i
  {
    if i < |s| && IsJsWs(s[i]) {
      SkipWsIsWsRun(s, i + 1);
      assert s[i..][1..] == s[i + 1..];
    }
  }

  /** Where a match starts, whether it took the `json` tag, and the captured group `s[bodyStart..bodyEnd]`. */
  datatype FenceMatch = FenceMatch(start: nat, json: bool, bodyStart: nat, bodyEnd: nat)

  /** The match `text.match(codeBlockRegex)` finds, if any. */
  function Match(s: string): (m: Option<FenceMatch>)
    ensures m.Some? ==> RegexMatch(s, m.value.start, m.value.json, m.value.bodyStart, m.value.bodyEnd)
  {
    match FindFence(s, 0)
    case None => None
    case Some(p) =>
      var json := JsonTagAt(s, p + 3);
      var a := if json then p + 7 else p + 3;
      var w := SkipWs(s, a);
      match FindFence(s, w)
      case None => None
      case Some(q) => Some(FenceMatch(p, json, w, q))
  }

  /** `extractJSON(text)`. */
  function ExtractJson(text: string): (r: string)
    ensures IsTrimmed(r)
    ensures Match(text).None? ==> r == Trim(text)
  {
    match Match(text)
    case Some(m) => Trim(text[m.bodyStart..m.bodyEnd])
    case None => Trim(text)
  }

  // ---------------------------------------------------------------------------
  // The scan against the pattern

  /** When the scan finds nothing, the pattern cannot match anywhere. */
  lemma {:induction false} MatchComplete(s: string, x: int, json: bool, c: int, v: int)
    requires RegexMatch(s, x, json, c, v)
    ensures Match(s).Some?
  {
  }

  /**
   * The scan returns the match the engine prefers: no match starts further
   * left, the `json` tag is taken whenever it can be, `\s*` takes as much
   * as it can, and the lazy group stops at the first closing fence.
   */
  lemma {:induction false} MatchPreferred(s: string, x: int, json: bool, c: int, v: int)
    requires RegexMatch(s, x, json, c, v)
    ensures Match(s).Some?
    ensures var m := Match(s).value;
      && m.start <= x
      && (m.start == x ==> (json ==> m.json))
      && (m.start == x && json == m.json ==> c <= m.bodyStart)
      && (m.start == x && json == m.json && c == m.bodyStart ==> m.bodyEnd <= v)
  {
    MatchComplete(s, x, json, c, v);
  }

  // ---------------------------------------------------------------------------
  // Properties of extractJSON

  /** A fence-free string has fence-free infixes. */
  lemma {:induction false} NoFenceInfix(s: string, i: int, j: int)
    requires 0 <= i <= j <= |s|
    requires forall k :: i <= k ==> !IsFenceAt(s, k)
    ensures NoFence(s[i..j])
  {
    forall k | IsFenceAt(s[i..j], k) ensures false {
      assert IsFenceAt(s, i + k);
    }
  }

  /** The captured group holds no fence, so neither does the fenced result. */
  lemma {:induction false} FencedResultHasNoFence(text: string)
    requires Match(text).Some?
    ensures NoFence(ExtractJson(text))
  {
    var m := Match(text).value;
    var body := text[m.bodyStart..m.bodyEnd];
    NoFenceInfix(text[..m.bodyEnd], m.bodyStart, m.bodyEnd) by {
      forall k | m.bodyStart <= k ensures !IsFenceAt(text[..m.bodyEnd], k) {
        if IsFenceAt(text[..m.bodyEnd], k) {
          assert IsFenceAt(text, k);
        }
      }
    }
    assert text[..m.bodyEnd][m.bodyStart..m.bodyEnd] == body;
    var i, j := TrimIsInfix(body);
    NoFenceInfix(body, i, j);
  }

  /** A string with no fence at all does not match. */
  lemma {:induction false} NoFenceNoMatch(s: string)
    requires NoFence(s)
    ensures Match(s).None?
  {
  }

  /** Two fences, the second starting after the first ends, always match. */
  lemma {:induction false} FencePairMatches(s: string, x: int, v: int)
    requires IsFenceAt(s, x) && IsFenceAt(s, v) && x + 3 <= v
    ensures Match(s).Some?
  {
    assert RegexMatch(s, x, false, x + 3, v);
    MatchComplete(s, x, false, x + 3, v);
  }

  /** A fence in an infix is a fence in the whole string. */
  lemma {:induction false} FenceInInfix(s: string, i: int, j: int, k: int)
    requires 0 <= i <= j <= |s| && IsFenceAt(s[i..j], k)
    ensures IsFenceAt(s, i + k)
  {
    var t := s[i..j];
    assert t[k] == s[i + k] && t[k + 1] == s[i + k + 1] && t[k + 2] == s[i + k + 2];
  }

  /** An infix of a string that does not match does not match either. */
  lemma {:induction false} NoMatchInfix(s: string, i: int, j: int)
    requires 0 <= i <= j <= |s|
    requires Match(s).None?
    ensures Match(s[i..j]).None?
  {
    var t := s[i..j];
    if Match(t).Some? {
      var m := Match(t).value;
      FenceInInfix(s, i, j, m.start);
      FenceInInfix(s, i, j, m.bodyEnd);
      FencePairMatches(s, i + m.start, i + m.bodyEnd);
    }
  }

  /** Cleaning a reply twice is cleaning it once. */
  lemma {:induction false} ExtractJsonIdempotent(text: string)
    ensures ExtractJson(ExtractJson(text)) == ExtractJson(text)
  {
    var r := ExtractJson(text);
    if Match(text).Some? {
      FencedResultHasNoFence(text);
      NoFenceNoMatch(r);
    } else {
      var i, j := TrimIsInfix(text);
      NoMatchInfix(text, i, j);
    }
  }

  /** The scan stops at a fence when no fence lies between its start and that fence. */
  lemma {:induction false} FindFenceAt(s: string, from: nat, v: nat)
    requires from <= v && IsFenceAt(s, v)
    requires forall j :: from <= j < v ==> !IsFenceAt(s, j)
    ensures FindFence(s, from) == Some(v)
  {
  }

  /** The tag a fence opens with in the replies below: `json`, or none. */
  predicate IsTag(tag: string) {
    tag == "json" || tag == ""
  }

  /** Where the pieces of a fenced reply lie in the whole reply. */
  lemma {:induction false} FencedReplyChars(p: string, tag: string, w: string, b: string, q: string)
    ensures var s := p + "```" + tag + w + b + "```" + q;
      var a := |p| + 3 + |tag|;
      var c := a + |w|;
      var v := c + |b|;
      && |s| == v + 3 + |q|
      && (forall j :: 0 <= j < |p| ==> s[j] == p[j])
      && s[|p|..|p| + 3] == "```"
      && (forall j :: |p| + 3 <= j < a ==> s[j] == tag[j - |p| - 3])
      && (forall j :: a <= j < c ==> s[j] == w[j - a])
      && (forall j :: c <= j < v ==> s[j] == b[j - c])
      && s[v..v + 3] == "```"
  {
    var s := p + "```" + tag + w + b + "```" + q;
    assert s == p + ("```" + (tag + (w + (b + ("```" + q)))));
  }

  /**
   * The scan's result read off the reply: the first fence at `x`, tagged
   * `json` exactly when `json`, whitespace up to `c`, and the next fence at `v`.
   */
  lemma {:induction false} MatchOfFence(s: string, x: nat, json: bool, c: nat, v: nat)
    requires IsFenceAt(s, x) && (json <==> JsonTagAt(s, x + 3))
    requires forall j :: 0 <= j < x ==> !IsFenceAt(s, j)
    requires (if json then x + 7 else x + 3) <= c <= v && v + 3 <= |s|
    requires AllWs(s[(if json then x + 7 else x + 3)..c]) && !IsJsWs(s[c])
    requires forall j :: c <= j < v ==> !IsFenceAt(s, j)
    requires IsFenceAt(s, v)
    ensures Match(s) == Some(FenceMatch(x, json, c, v))
  {
    FindFenceAt(s, 0, x);
    SkipWsTo(s, if json then x + 7 else x + 3, c);
    FindFenceAt(s, c, v);
  }

  /** Greedy `\s*` from `a` ends at `c` when `s[a..c]` is whitespace and `s[c]` is not. */
  lemma {:induction false} SkipWsTo(s: string, a: nat, c: nat)
    requires a <= c < |s| && AllWs(s[a..c]) && !IsJsWs(s[c])
    ensures SkipWs(s, a) == c
  {
  }

  /**
   * A reply that opens a fence, tagged `json` or not, after text without
   * backticks: the scan takes the tag when there is one, the whole
   * whitespace run after it, and the body up to the closing fence. An
   * untagged body that follows the fence directly must not itself start
   * with `json`, which the engine would take as the tag.
   */
  lemma {:induction false} MatchFencedReply(p: string, tag: string, w: string, b: string, q: string)
    requires IsTag(tag) && '`' !in p && '`' !in b
    requires AllWs(w) && (b == [] || !IsJsWs(b[0]))
    requires tag == "" && w == [] ==> !StartsWith(b, "json")
    ensures var a := |p| + 3 + |tag| + |w|;
      Match(p + "```" + tag + w + b + "```" + q) == Some(FenceMatch(|p|, tag == "json", a, a + |b|))
  {
    var s := p + "```" + tag + w + b + "```" + q;
    var c := |p| + 3 + |tag| + |w|;
    assert (if tag == "json" then |p| + 7 else |p| + 3) == |p| + 3 + |tag|;
    FencedOpening(p, tag, w, b, q);
    FencedWhitespace(p, tag, w, b, q);
    FencedClosing(p, tag, w, b, q);
    MatchOfFence(s, |p|, tag == "json", c, c + |b|);
  }

  /** A fenced reply opens its first fence right after `p`, tagged `json` exactly when `tag` is. */
  lemma {:induction false} FencedOpening(p: string, tag: string, w: string, b: string, q: string)
    requires IsTag(tag) && '`' !in p
    requires AllWs(w)
    requires tag == "" && w == [] ==> !StartsWith(b, "json")
    ensures var s := p + "```" + tag + w + b + "```" + q;
      && IsFenceAt(s, |p|) && (tag == "json" <==> JsonTagAt(s, |p| + 3))
      && forall j :: 0 <= j < |p| ==> !IsFenceAt(s, j)
  {
    var s := p + "```" + tag + w + b + "```" + q;
    var x := |p|;
    FencedReplyChars(p, tag, w, b, q);
    assert s[x..x + 3][0] == s[x] && s[x..x + 3][2] == s[x + 2];
    if tag == "" {
      UntaggedOpening(s, x, w, b);
    }
    forall j | 0 <= j < x ensures !IsFenceAt(s, j) {
      assert s[j] == p[j];
    }
  }

  /** Without a tag, what follows the fence does not read `json`. */
  lemma {:induction false} UntaggedOpening(s: string, x: nat, w: string, b: string)
    requires AllWs(w)
    requires w == [] ==> !StartsWith(b, "json")
    requires x + 3 + |w| + |b| + 3 <= |s|
    requires forall j :: x + 3 <= j < x + 3 + |w| ==> s[j] == w[j - x - 3]
    requires forall j :: x + 3 + |w| <= j < x + 3 + |w| + |b| ==> s[j] == b[j - x - 3 - |w|]
    requires s[x + 3 + |w| + |b|] == '`'
    ensures !JsonTagAt(s, x + 3)
  {
    var c := x + 3 + |w|;
    if w != [] {
      assert s[x + 3] == w[0];
    } else if |b| >= 4 {
      assert b[..4] != "json";
      assert b[..4][0] == s[c] && b[..4][1] == s[c + 1] && b[..4][2] == s[c + 2] && b[..4][3] == s[c + 3];
    }
  }

  /** After the tag comes the whitespace run `w`, and it ends there. */
  lemma {:induction false} FencedWhitespace(p: string, tag: string, w: string, b: string, q: string)
    requires AllWs(w) && (b == [] || !IsJsWs(b[0]))
    ensures var s := p + "```" + tag + w + b + "```" + q;
      var a := |p| + 3 + |tag|;
      a + |w| < |s| && AllWs(s[a..a + |w|]) && !IsJsWs(s[a + |w|])
  {
    var s := p + "```" + tag + w + b + "```" + q;
    var a := |p| + 3 + |tag|;
    var c := a + |w|;
    var v := c + |b|;
    FencedReplyChars(p, tag, w, b, q);
    forall k | 0 <= k < c - a ensures IsJsWs(s[a..c][k]) {
      assert s[a + k] == w[k];
    }
    if b != [] {
      assert s[c] == b[0];
    } else {
      assert s[v..v + 3][0] == s[c];
    }
  }

  /** The body holds no fence, and the closing fence follows it. */
  lemma {:induction false} FencedClosing(p: string, tag: string, w: string, b: string, q: string)
    requires '`' !in b
    ensures var s := p + "```" + tag + w + b + "```" + q;
      var c := |p| + 3 + |tag| + |w|;
      && IsFenceAt(s, c + |b|)
      && forall j :: c <= j < c + |b| ==> !IsFenceAt(s, j)
  {
    var s := p + "```" + tag + w + b + "```" + q;
    var c := |p| + 3 + |tag| + |w|;
    var v := c + |b|;
    FencedReplyChars(p, tag, w, b, q);
    assert s[v..v + 3][0] == s[v] && s[v..v + 3][1] == s[v + 1] && s[v..v + 3][2] == s[v + 2];
    forall j | c <= j < v ensures !IsFenceAt(s, j) {
      assert s[j] == b[j - c];
    }
  }

  /** Such a reply yields its body, trimmed, whatever surrounds the fence. */
  lemma {:induction false} ExtractJsonFencedReply(p: string, tag: string, w: string, b: string, q: string)
    requires IsTag(tag) && '`' !in p && '`' !in b
    requires AllWs(w) && (b == [] || !IsJsWs(b[0]))
    requires tag == "" && w == [] ==> !StartsWith(b, "json")
    ensures ExtractJson(p + "```" + tag + w + b + "```" + q) == Trim(b)
  {
    var s := p + "```" + tag + w + b + "```" + q;
    var c := |p| + 3 + |tag| + |w|;
    MatchFencedReply(p, tag, w, b, q);
    FencedBody(p, tag, w, b, q);
    ExtractJsonOfMatch(s, FenceMatch(|p|, tag == "json", c, c + |b|), b);
  }

  /** The result of a reply whose match captures `body`. */
  lemma {:induction false} ExtractJsonOfMatch(s: string, m: FenceMatch, body: string)
    requires Match(s) == Some(m)
    requires m.bodyStart <= m.bodyEnd <= |s| && s[m.bodyStart..m.bodyEnd] == body
    ensures ExtractJson(s) == Trim(body)
  {
  }

  /** The body of a fenced reply, as a slice of the whole reply. */
  lemma {:induction false} FencedBody(p: string, tag: string, w: string, b: string, q: string)
    ensures var c := |p| + 3 + |tag| + |w|;
      c + |b| <= |p + "```" + tag + w + b + "```" + q|
      && (p + "```" + tag + w + b + "```" + q)[c..c + |b|] == b
  {
    var s := p + "```" + tag + w + b + "```" + q;
    assert s == (p + "```" + tag + w) + b + ("```" + q);
  }
}
