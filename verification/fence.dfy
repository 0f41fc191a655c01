/**
 * Unwrapping the inference service's reply before it is parsed as JSON
 * (music.py, inside `get_metadata_from_openrouter`): a ```json fenced
 * block is extracted with the pattern ```json\s*(.*?)\s*``` under DOTALL;
 * failing that, a reply that both starts and ends with three backticks has
 * its backticks and an optional `json` tag removed.
 */
module Fence {
  import opened Wrappers
  import opened Builtins

  /** `pat` occurs in `s` starting at `k`. */
  predicate OccursAt(s: string, pat: string, k: nat) {
    k + |pat| <= |s| && s[k..k + |pat|] == pat
  }

  /** The first occurrence of `pat` in `s` at or after `from`. */
  function FindFrom(s: string, pat: string, from: nat): (r: Option<nat>)
    ensures r.Some? ==> from <= r.value && OccursAt(s, pat, r.value)
    ensures r.Some? ==> forall k :: from <= k < r.value ==> !OccursAt(s, pat, k)
    ensures r.None? ==> forall k :: from <= k ==> !OccursAt(s, pat, k)
    decreases |s| - from
  {
    if from + |pat| > |s| then None
    else if s[from..from + |pat|] == pat then Some(from)
    else FindFrom(s, pat, from + 1)
  }

  /** The end of the whitespace run starting at `from` (what a greedy `\s*` consumes). */
  function SpaceEnd(s: string, from: nat): (e: nat)
    requires from <= |s|
    ensures from <= e <= |s|
    ensures forall k :: from <= k < e ==> IsSpace(s[k])
    ensures e == |s| || !IsSpace(s[e])
    decreases |s| - from
  {
    if from < |s| && IsSpace(s[from]) then SpaceEnd(s, from + 1) else from
  }

  /** The start of the whitespace run that ends at `j`, not going below `lo`. */
  function SpaceStart(s: string, lo: nat, j: nat): (b: nat)
    requires lo <= j <= |s|
    ensures lo <= b <= j
    ensures forall k :: b <= k < j ==> IsSpace(s[k])
    ensures b == lo || !IsSpace(s[b - 1])
    decreases j - lo
  {
    if lo < j && IsSpace(s[j - 1]) then SpaceStart(s, lo, j - 1) else j
  }

  const OpenTag: string := "```json"
  const Ticks: string := "```"

  /**
   * `re.search(r'```json\s*(.*?)\s*```', text, re.DOTALL).group(1)`: the
   * leftmost ```json, then the greedy whitespace after it, then the
   * shortest group that is followed by whitespace and a closing fence.
   * `None` when the search fails.
   */
  function FencedGroup(text: string): (g: Option<string>)
    ensures g.Some? ==> Stripped(g.value) && NoFence(g.value)
    ensures (forall k :: 0 <= k < |text| ==> !OccursAt(text, OpenTag, k)) ==> g.None?
  {
    match FindFrom(text, OpenTag, 0)
    case None => None
    case Some(i) =>
      var a := SpaceEnd(text, i + |OpenTag|);
      match FindFrom(text, Ticks, a)
      case None => None
      case Some(j) =>
        GroupShape(text, a, j);
        Some(text[a..SpaceStart(text, a, j)])
  }

  /**
   * The lazy group starts after the greedy whitespace and ends before the
   * whitespace that precedes the first closing fence, so it has no
   * whitespace at either end and holds no fence of its own.
   */
  lemma {:induction false} GroupShape(text: string, a: nat, j: nat)
    requires a <= j <= |text| && (a == |text| || !IsSpace(text[a]))
    requires forall k :: a <= k < j ==> !OccursAt(text, Ticks, k)
    ensures Stripped(text[a..SpaceStart(text, a, j)]) && NoFence(text[a..SpaceStart(text, a, j)])
  {
    var b := SpaceStart(text, a, j);
    var g := text[a..b];
    if a < b {
      assert g[0] == text[a] && g[|g| - 1] == text[b - 1];
    }
    forall k | 0 <= k < |g| ensures !OccursAt(g, Ticks, k) {
      if k + 3 <= |g| {
        assert g[k..k + 3] == text[a + k..a + k + 3];
        assert !OccursAt(text, Ticks, a + k);
      }
    }
  }

  predicate StartsWith(s: string, p: string) {
    |p| <= |s| && s[..|p|] == p
  }

  predicate EndsWith(s: string, p: string) {
    |p| <= |s| && s[|s| - |p|..] == p
  }

  predicate IsTick(c: char) {
    c == '`'
  }

  /**
   * The reply text handed to the JSON parser: stripped, then either the
   * fenced group, or a bare fence's inside with a leading `json` tag
   * dropped, or the stripped reply itself.
   */
  function ExtractJson(reply: string): (r: string)
    ensures Stripped(r)
  {
    var text := Strip(reply);
    match FencedGroup(text)
    case Some(g) => g
    case None =>
      if StartsWith(text, Ticks) && EndsWith(text, Ticks) then
        var t := Strip(Trim(text, IsTick));
        StripShape(Trim(text, IsTick));
        if StartsWith(t, "json") then StripShape(t[4..]); Strip(t[4..]) else t
      else StripShape(reply); text
  }

  /** Text in which three backticks never occur in a row. */
  predicate NoFence(s: string) {
    forall k :: 0 <= k < |s| ==> !OccursAt(s, Ticks, k)
  }

  /** Text with no backtick at all. */
  predicate NoTicks(s: string) {
    '`' !in s
  }

  /** Without backticks no fence and no opening tag can occur. */
  lemma NoTicksNoFence(s: string)
    requires NoTicks(s)
    ensures NoFence(s)
    ensures forall k :: 0 <= k < |s| ==> !OccursAt(s, OpenTag, k)
  {
    forall k | 0 <= k < |s|
      ensures !OccursAt(s, Ticks, k) && !OccursAt(s, OpenTag, k)
    {
      if k + 3 <= |s| {
        assert s[k..k + 3][0] == s[k];
      }
      if k + 7 <= |s| {
        assert s[k..k + 7][0] == s[k];
      }
    }
  }

  /** A ```json fence around a stripped body with no fence inside gives back the body. */
  lemma {:induction false} FencedRoundTrip(body: string)
    requires Stripped(body) && NoFence(body)
    ensures ExtractJson("```json\n" + body + "\n```") == body
  {
    var text := "```json\n" + body + "\n```";
    assert Strip(text) == text by { StripOfTrimmed(text); }
    assert FencedGroup(text) == Some(body) by { FencedGroupOfFence(body); }
    FencedBranch(text);
  }

  /** A stripped reply in which the pattern matches is handed on as the match's group. */
  lemma FencedBranch(text: string)
    requires Strip(text) == text && FencedGroup(text).Some?
    ensures ExtractJson(text) == FencedGroup(text).value
  {
  }

  /** The pattern's group, on a ```json fence around a stripped, fence-free body, is the body. */
  lemma {:induction false} FencedGroupOfFence(body: string)
    requires Stripped(body) && NoFence(body)
    ensures FencedGroup("```json\n" + body + "\n```") == Some(body)
  {
    var text := "```json\n" + body + "\n```";
    var n := |body|;
    assert forall i :: 0 <= i < n ==> text[8 + i] == body[i];
    assert text[7] == '\n' && text[9 + n] == '`';
    assert OccursAt(text, OpenTag, 0);
    var a := SpaceEnd(text, 7);
    assert a == (if n > 0 then 8 else 9);
    ClosingFenceFound(body, a);
    var b := SpaceStart(text, a, 9 + n);
    if n > 0 {
      assert !IsSpace(text[7 + n]);
      assert b == 8 + n;
      assert text[8..8 + n] == body;
    } else {
      assert b == 9;
      assert text[a..b] == [] == body;
    }
    assert FindFrom(text, OpenTag, 0) == Some(0);
    assert |OpenTag| == 7;
    assert FencedGroup(text) == Some(text[a..b]);
  }

  /** Searching a ```json fence around a fence-free body from inside it finds the closing fence. */
  lemma {:induction false} ClosingFenceFound(body: string, a: nat)
    requires NoFence(body) && 8 <= a <= 9 + |body|
    ensures FindFrom("```json\n" + body + "\n```", Ticks, a) == Some(9 + |body|)
  {
    var text := "```json\n" + body + "\n```";
    var n := |body|;
    var j := 9 + n;
    assert text[8 + n] == '\n';
    assert text[j..] == Ticks;
    assert OccursAt(text, Ticks, j);
    forall k | a <= k < j ensures !OccursAt(text, Ticks, k) {
      if k + 3 <= 8 + n {
        assert text[k..k + 3] == body[k - 8..k - 5];
        assert !OccursAt(body, Ticks, k - 8);
      } else {
        assert text[k..k + 3][8 + n - k] == '\n';
      }
    }
  }

  /** A reply with no backticks at all is only stripped. */
  lemma {:induction false} UnfencedReplyStripped(reply: string)
    requires NoTicks(reply)
    ensures ExtractJson(reply) == Strip(reply)
  {
    var text := Strip(reply);
    StripKeepsChars(reply);
    NoTicksNoFence(text);
    assert FindFrom(text, OpenTag, 0).None?;
    assert !StartsWith(text, Ticks) by {
      if |text| >= 3 {
        assert text[..3][0] == text[0];
      }
    }
  }

  /**
   * A bare fence (no `json` tag) around a stripped body with no backticks
   * gives back the body, as long as the body does not itself start with
   * `json`, which would be dropped as a tag.
   */
  lemma {:induction false} BareFenceRoundTrip(body: string)
    requires Stripped(body) && NoTicks(body) && !StartsWith(body, "json")
    ensures ExtractJson("```\n" + body + "\n```") == body
  {
    var text := "```\n" + body + "\n```";
    assert Strip(text) == text by { StripOfTrimmed(text); }
    assert FencedGroup(text).None? by { BareFenceHasNoGroup(body); }
    assert Strip(Trim(text, IsTick)) == body by { BareFenceInside(body); }
    BareFenceEnds(body);
    BareFenceBranch(text);
  }

  /** A bare fence starts and ends with three backticks. */
  lemma BareFenceEnds(body: string)
    ensures StartsWith("```\n" + body + "\n```", Ticks) && EndsWith("```\n" + body + "\n```", Ticks)
  {
    var text := "```\n" + body + "\n```";
    assert text[..3] == Ticks;
    assert text[|text| - 3..] == Ticks;
  }

  /** A stripped reply that the pattern misses but that is fenced by backticks goes to the fallback branch. */
  lemma BareFenceBranch(text: string)
    requires Strip(text) == text && FencedGroup(text).None?
    requires StartsWith(text, Ticks) && EndsWith(text, Ticks)
    requires !StartsWith(Strip(Trim(text, IsTick)), "json")
    ensures ExtractJson(text) == Strip(Trim(text, IsTick))
  {
  }

  /** The pattern finds nothing in a bare fence whose body has no backticks. */
  lemma {:induction false} BareFenceHasNoGroup(body: string)
    requires NoTicks(body)
    ensures FencedGroup("```\n" + body + "\n```").None?
  {
    var text := "```\n" + body + "\n```";
    var n := |body|;
    assert forall i :: 0 <= i < n ==> text[4 + i] == body[i] && body[i] in body;
    assert text[3] == '\n' && text[4 + n] == '\n';
    forall k | 0 <= k < |text| ensures !OccursAt(text, OpenTag, k) {
      if k + 7 <= |text| {
        if k < 3 {
          assert text[k..k + 7][3 - k] == text[3];
        } else {
          assert text[k..k + 7][0] == text[k];
        }
      }
    }
  }

  /** Removing a bare fence's backticks and stripping gives back a stripped body. */
  lemma {:induction false} BareFenceInside(body: string)
    requires Stripped(body) && NoTicks(body)
    ensures Strip(Trim("```\n" + body + "\n```", IsTick)) == body
  {
    OpeningTicksTrimmed(body);
    ClosingTicksTrimmed(body);
    StripPadded("\n", body, "\n");
  }

  lemma {:induction false} OpeningTicksTrimmed(body: string)
    ensures TrimLeft("```\n" + body + "\n```", IsTick) == "\n" + body + "\n```"
  {
    var text := "```\n" + body + "\n```";
    assert text[3] == '\n';
    TrimLeftExact(text, IsTick, 3);
    assert text[3..] == "\n" + body + "\n```";
  }

  lemma {:induction false} ClosingTicksTrimmed(body: string)
    ensures TrimRight("\n" + body + "\n```", IsTick) == "\n" + body + "\n"
  {
    var l := "\n" + body + "\n```";
    assert l[|l| - 4] == '\n';
    assert forall i :: |l| - 3 <= i < |l| ==> l[i] == '`';
    TrimRightExact(l, IsTick, |l| - 3);
    assert l[..|l| - 3] == "\n" + body + "\n";
  }
}
