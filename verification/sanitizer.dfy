/**
 * The cleaning that `validate_and_save_notes` applies to the raw model reply
 * before parsing it: strip surrounding whitespace, take the interior of a
 * Markdown code fence, and cut any prose in front of the first `{`.
 * Without a leading fence the result is a suffix of the stripped reply.
 * With a fence closed beyond the opener, everything from the last fence
 * on is dropped; an unclosed fence leaves the text in place.
 */
module Sanitizer {
  import opened TextOps

  /** The opening fence of a block tagged as JSON. */
  const JsonFence: string := "```json"
  /** A bare code fence, opening or closing. */
  const Fence: string := "```"

  /**
   * The fence step once the opening fence is known to end at `start`: the
   * stripped text between `start` and the last fence, when that fence lies
   * beyond `start`; otherwise the text unchanged.
   */
  function FenceInterior(s: string, start: int): (r: string)
    requires 0 <= start
    ensures IsSlice(r, s)
    ensures Stripped(s) ==> Stripped(r)
  {
    var e := RFind(s, Fence);
    if e > start then
      var inner := s[start..e];
      assert IsSlice(inner, s) by { assert 0 <= start <= e <= |s| && inner == s[start..e]; }
      SliceOfSlice(Strip(inner), inner, s);
      Strip(inner)
    else
      assert s == s[0..|s|];
      s
  }

  /** The fence step: a block opened by "```json" first, then a bare "```" block. */
  function StripFences(s: string): (r: string)
    ensures IsSlice(r, s)
    ensures Stripped(s) ==> Stripped(r)
    ensures !StartsWith(s, Fence) ==> r == s
  {
    if StartsWith(s, JsonFence) then
      assert s[..3] == s[..7][..3];
      FenceInterior(s, Find(s, JsonFence) + |JsonFence|)
    else if StartsWith(s, Fence) then
      FenceInterior(s, Find(s, Fence) + |Fence|)
    else
      assert s == s[0..|s|];
      s
  }

  /**
   * The prose step: drop everything in front of the first `{` when that
   * brace is not already at index 0. The result is a suffix of `s` that
   * starts at the first brace, or `s` itself when `s` has no brace.
   */
  function CutProse(s: string): (r: string)
    ensures |r| <= |s| && r == s[|s| - |r|..]
    ensures '{' !in s[..|s| - |r|]
    ensures '{' in s ==> r != [] && r[0] == '{'
    ensures '{' !in s ==> r == s
  {
    var i := Find(s, "{");
    FindChar(s, '{');
    if i > 0 then
      assert forall k :: 0 <= k < i ==> s[..i][k] != '{';
      s[i..]
    else
      s
  }

  /** A suffix of a stripped string that starts with `{` is itself stripped. */
  lemma CutProseStripped(s: string)
    requires Stripped(s)
    ensures Stripped(CutProse(s))
  {
    var r := CutProse(s);
    if r != [] {
      assert r == s[|s| - |r|..];
      assert r[|r| - 1] == s[|s| - 1];
      if '{' in s {
        assert r[0] == '{';
      } else {
        assert r == s;
      }
    }
  }

  /**
   * The whole clean-up of lines 128-146, from the raw reply to the text
   * handed to the JSON parser: it starts with `{` or holds no `{` at all.
   */
  function Sanitize(raw: string): (r: string)
    ensures '{' in r ==> r[0] == '{'
  {
    CutProse(StripFences(Strip(raw)))
  }

  /** The prose step keeps a contiguous piece of its input. */
  lemma CutProseIsSlice(s: string)
    ensures IsSlice(CutProse(s), s)
  {
    var r := CutProse(s);
    assert 0 <= |s| - |r| <= |s| <= |s| && r == s[|s| - |r|..|s|];
  }

  /** The output is one contiguous piece of the reply, so it is never longer. */
  lemma SanitizeIsSlice(raw: string)
    ensures IsSlice(Sanitize(raw), raw)
    ensures |Sanitize(raw)| <= |raw|
  {
    var stripped := Strip(raw);
    var unfenced := StripFences(stripped);
    CutProseIsSlice(unfenced);
    SliceOfSlice(unfenced, stripped, raw);
    SliceOfSlice(Sanitize(raw), unfenced, raw);
    SliceShorter(Sanitize(raw), raw);
  }

  /** The output neither begins nor ends with whitespace. */
  lemma SanitizeStripped(raw: string)
    ensures Stripped(Sanitize(raw))
  {
    CutProseStripped(StripFences(Strip(raw)));
  }

  /** A character absent from a string is absent from every slice of it. */
  lemma AbsentFromSlice(c: char, r: string, s: string)
    requires IsSlice(r, s) && c !in s
    ensures c !in r
  {
    var i, j :| 0 <= i <= j <= |s| && r == s[i..j];
    forall k | 0 <= k < |r| ensures r[k] != c {
      assert r[k] == s[i + k];
    }
  }

  /**
   * Without a leading fence, the output is a suffix of the stripped input:
   * only prose in front of the first `{` is cut, and nothing after the last `}` is.
   */
  lemma SanitizeKeepsEnd(raw: string)
    requires !StartsWith(Strip(raw), Fence)
    ensures var s, r := Strip(raw), Sanitize(raw); |r| <= |s| && r == s[|s| - |r|..] && '{' !in s[..|s| - |r|]
  {
    var s := Strip(raw);
    assert StripFences(s) == s;
    assert Sanitize(raw) == CutProse(s);
  }

  /** Text that does not begin with a backquote has no fence to strip. */
  lemma NotFenced(s: string)
    requires s == [] || s[0] != '`'
    ensures !StartsWith(s, Fence)
  {
    if |s| >= |Fence| { assert s[..|Fence|][0] == s[0]; }
  }

  /** Text that is already clean JSON (no surrounding whitespace, starting with `{`) comes back unchanged. */
  lemma CleanJsonUnchanged(s: string)
    requires s != [] && s[0] == '{' && !IsSpace(s[|s| - 1])
    ensures Sanitize(s) == s
  {
    StripStripped(s);
    NotFenced(s);
    FindChar(s, '{');
  }

  /** A reply with no `{` and no leading fence is only stripped (and the parse then fails on it). */
  lemma NoBraceOnlyStripped(raw: string)
    requires '{' !in raw && !StartsWith(Strip(raw), Fence)
    ensures Sanitize(raw) == Strip(raw)
  {
    AbsentFromSlice('{', Strip(raw), raw);
  }

  /**
   * Lines 131-136: after "```json", when the last fence lies beyond index 7,
   * the fence step yields exactly the stripped text between index 7 and that fence.
   */
  lemma JsonFenceInterior(s: string)
    requires StartsWith(s, JsonFence) && RFind(s, Fence) > |JsonFence|
    ensures StripFences(s) == Strip(s[|JsonFence|..RFind(s, Fence)])
  {
    FindPrefix(s, JsonFence);
  }

  /** Lines 137-142: the same for a bare "```" opening, from index 3; a language tag stays in the interior. */
  lemma BareFenceInterior(s: string)
    requires StartsWith(s, Fence) && !StartsWith(s, JsonFence) && RFind(s, Fence) > |Fence|
    ensures StripFences(s) == Strip(s[|Fence|..RFind(s, Fence)])
  {
    FindPrefix(s, Fence);
  }

  /**
   * Lines 135-136 and 141-142: when the last fence lies beyond `start`, the
   * result lies strictly between the opener and that fence, so the fence and
   * everything after it are dropped.
   */
  lemma ClosedFenceDropsTail(s: string, start: int)
    requires 0 <= start < RFind(s, Fence)
    ensures IsSlice(FenceInterior(s, start), s[start..RFind(s, Fence)])
  {
  }

  /** Lines 135 and 141: when the last fence lies at or before `start`, the text is left unchanged. */
  lemma FenceInteriorUnchanged(s: string, start: int)
    requires 0 <= start && RFind(s, Fence) <= start
    ensures FenceInterior(s, start) == s
  {
  }

  /** After "```json", a last fence at or before index 7 leaves the text unchanged, as for "```json```". */
  lemma JsonFenceUnclosed(s: string)
    requires StartsWith(s, JsonFence) && RFind(s, Fence) <= |JsonFence|
    ensures StripFences(s) == s
  {
    FindPrefix(s, JsonFence);
    FenceInteriorUnchanged(s, |JsonFence|);
  }

  /** After a bare "```", a last fence at or before index 3 leaves the text unchanged, as for "````". */
  lemma BareFenceUnclosed(s: string)
    requires StartsWith(s, Fence) && !StartsWith(s, JsonFence) && RFind(s, Fence) <= |Fence|
    ensures StripFences(s) == s
  {
    FindPrefix(s, Fence);
    FenceInteriorUnchanged(s, |Fence|);
  }

  /** A "```json" opener directly followed by the closing fence is kept as it is. */
  lemma JsonFenceWithoutBody()
    ensures StripFences("```json```") == "```json```"
  {
    var s := "```json```";
    assert s[..7] == JsonFence;
    assert OccursAt(s, Fence, 7);
    JsonFenceUnclosed(s);
  }

  /** Four backquotes hold a last fence at index 1, before the interior starts, and are kept as they are. */
  lemma FourBackquotesUnchanged()
    ensures StripFences("````") == "````"
  {
    var s := "````";
    assert s[..3] == Fence;
    assert OccursAt(s, Fence, 1);
    BareFenceUnclosed(s);
  }

  /** When the opening fence is the only one, `rfind` returns 0 and the text is left unchanged. */
  lemma LoneFenceUnchanged(s: string)
    requires StartsWith(s, Fence)
    requires forall i :: 0 < i ==> !OccursAt(s, Fence, i)
    ensures RFind(s, Fence) == 0
    ensures StripFences(s) == s
  {
    assert OccursAt(s, Fence, 0);
    if StartsWith(s, JsonFence) {
      FindPrefix(s, JsonFence);
    } else {
      FindPrefix(s, Fence);
    }
  }

  /** Sanitising is idempotent on every output that holds a `{`. */
  lemma SanitizeIdempotentOnBrace(raw: string)
    requires '{' in Sanitize(raw)
    ensures Sanitize(Sanitize(raw)) == Sanitize(raw)
  {
    SanitizeStripped(raw);
    CleanJsonUnchanged(Sanitize(raw));
  }

  /** A string that ends with `pat` has its last occurrence of `pat` right at the end. */
  lemma RFindAtEnd(s: string, pat: string)
    requires |pat| <= |s| && s[|s| - |pat|..] == pat
    ensures RFind(s, pat) == |s| - |pat|
  {
    assert OccursAt(s, pat, |s| - |pat|);
  }

  /**
   * `StripPadded` for a text `s` already known to equal `a + m + b`. It is
   * kept separate only so the fence lemmas stay within their resource limit.
   */
  lemma StripPaddedSlice(s: string, a: string, m: string, b: string)
    requires s == a + m + b && AllSpace(a) && AllSpace(b) && Stripped(m)
    ensures Strip(s) == m
  {
    StripPadded(a, m, b);
  }

  /** A "```json" block that ends with a fence: the fence step yields the stripped text between them. */
  lemma JsonFenceClosedAtEnd(s: string)
    requires StartsWith(s, JsonFence) && |s| > |JsonFence| + |Fence| && s[|s| - 3..] == Fence
    ensures StripFences(s) == Strip(s[|JsonFence|..|s| - |Fence|])
  {
    RFindAtEnd(s, Fence);
    JsonFenceInterior(s);
    assert s[|JsonFence|..RFind(s, Fence)] == s[|JsonFence|..|s| - |Fence|];
  }

  /** A bare "```" block that ends with a fence: the fence step yields the stripped text between them. */
  lemma BareFenceClosedAtEnd(s: string)
    requires StartsWith(s, Fence) && !StartsWith(s, JsonFence) && |s| > 2 * |Fence| && s[|s| - 3..] == Fence
    ensures StripFences(s) == Strip(s[|Fence|..|s| - |Fence|])
  {
    RFindAtEnd(s, Fence);
    BareFenceInterior(s);
    assert s[|Fence|..RFind(s, Fence)] == s[|Fence|..|s| - |Fence|];
  }

  /** Scenario: a reply wrapped in a "```json" block comes out as the JSON object inside it. */
  lemma FencedReply(body: string)
    requires body != [] && body[0] == '{' && Stripped(body)
    ensures Sanitize("```json\n" + body + "\n```") == body
  {
    var raw := "```json\n" + body + "\n```";
    FencedReplyShape(body);
    StripStripped(raw);
    FencedReplyFenceStep(body);
    FindChar(body, '{');
  }

  /** The string facts behind FencedReply. */
  lemma FencedReplyShape(body: string)
    requires body != [] && Stripped(body)
    ensures var raw := "```json\n" + body + "\n```";
      && Stripped(raw) && StartsWith(raw, JsonFence) && raw[|raw| - 3..] == Fence
      && raw[7..|raw| - 3] == "\n" + body + "\n"
  {
  }

  /** The fence step of FencedReply. */
  lemma FencedReplyFenceStep(body: string)
    requires body != [] && Stripped(body)
    ensures StripFences("```json\n" + body + "\n```") == body
  {
    FencedReplyShape(body);
    JsonFenceAround("```json\n" + body + "\n```", "\n", body);
  }

  /** A "```json" block whose interior is a stripped text between two equal whitespace paddings yields that text. */
  lemma JsonFenceAround(raw: string, pad: string, inner: string)
    requires StartsWith(raw, JsonFence) && |raw| > |JsonFence| + |Fence| && raw[|raw| - 3..] == Fence
    requires raw[7..|raw| - 3] == pad + inner + pad && AllSpace(pad) && Stripped(inner)
    ensures StripFences(raw) == inner
  {
    JsonFenceClosedAtEnd(raw);
    StripPaddedSlice(raw[7..|raw| - 3], pad, inner, pad);
  }

  /** Scenario: prose in front of the JSON object is cut at the first `{`. */
  lemma LeadingProse(prose: string, body: string)
    requires prose != [] && !IsSpace(prose[0]) && prose[0] != '`' && '{' !in prose
    requires body != [] && body[0] == '{' && !IsSpace(body[|body| - 1])
    ensures Sanitize(prose + body) == body
  {
    var raw := prose + body;
    assert raw[0] == prose[0] && raw[|raw| - 1] == body[|body| - 1];
    assert raw[|prose|] == '{';
    assert forall k :: 0 <= k < |prose| ==> raw[k] == prose[k];
    assert raw[|prose|..] == body;
    StripStripped(raw);
    NotFenced(raw);
    FindChar(raw, '{');
  }

  /** The string facts behind TaggedBareFence. */
  lemma TaggedBareFenceShape(tag: string, body: string)
    requires !StartsWith(tag, "json") && tag != [] && !IsSpace(tag[0])
    requires body != [] && Stripped(body)
    ensures var raw := "```" + tag + "\n" + body + "\n```";
      && Stripped(raw) && StartsWith(raw, Fence) && !StartsWith(raw, JsonFence)
      && raw[|raw| - 3..] == Fence
      && raw[3..|raw| - 3] == (tag + "\n" + body) + "\n"
      && Stripped(tag + "\n" + body)
  {
    var raw := "```" + tag + "\n" + body + "\n```";
    assert raw[..3] == Fence;
    assert raw[|raw| - 3..] == Fence;
    assert raw[3..|raw| - 3] == (tag + "\n" + body) + "\n";
    if |tag| >= 4 {
      assert raw[3..7] == tag[..4];
      assert raw[..7][3..] == raw[3..7];
    } else {
      assert raw[3 + |tag|] == '\n';
      assert raw[..7][3 + |tag|] == raw[3 + |tag|];
      assert JsonFence[3 + |tag|] != '\n';
    }
  }

  /** The fence step of TaggedBareFence keeps the tag. */
  lemma TaggedBareFenceStep(tag: string, body: string)
    requires !StartsWith(tag, "json") && tag != [] && !IsSpace(tag[0])
    requires body != [] && Stripped(body)
    ensures StripFences("```" + tag + "\n" + body + "\n```") == tag + "\n" + body
  {
    TaggedBareFenceShape(tag, body);
    BareFenceAround("```" + tag + "\n" + body + "\n```", tag + "\n" + body, "\n");
  }

  /** A bare "```" block whose interior is a stripped text followed by whitespace yields that text. */
  lemma BareFenceAround(raw: string, inner: string, pad: string)
    requires StartsWith(raw, Fence) && !StartsWith(raw, JsonFence)
    requires |raw| > 2 * |Fence| && raw[|raw| - 3..] == Fence
    requires raw[3..|raw| - 3] == inner + pad && AllSpace(pad) && Stripped(inner)
    ensures StripFences(raw) == inner
  {
    var interior := raw[3..|raw| - 3];
    assert StripFences(raw) == Strip(interior) by { BareFenceClosedAtEnd(raw); }
    assert Strip(interior) == inner by {
      assert interior == [] + inner + pad;
      StripPaddedSlice(interior, [], inner, pad);
    }
  }

  /** The prose step of TaggedBareFence drops the tag. */
  lemma TaggedBareFenceCut(tag: string, body: string)
    requires '{' !in tag
    requires body != [] && body[0] == '{'
    ensures CutProse(tag + "\n" + body) == body
  {
    var inner := tag + "\n" + body;
    assert inner[|tag| + 1] == '{';
    assert forall k :: 0 <= k < |tag| ==> inner[k] == tag[k];
    assert inner[|tag|] == '\n';
    assert inner[|tag| + 1..] == body;
    FindChar(inner, '{');
  }

  /**
   * Scenario: a bare fence keeps its language tag through the fence step;
   * the cut at the first `{` removes it afterwards.
   */
  lemma TaggedBareFence(tag: string, body: string)
    requires '{' !in tag && !StartsWith(tag, "json") && tag != [] && !IsSpace(tag[0])
    requires body != [] && body[0] == '{' && Stripped(body)
    ensures StripFences("```" + tag + "\n" + body + "\n```") == tag + "\n" + body
    ensures Sanitize("```" + tag + "\n" + body + "\n```") == body
  {
    var raw := "```" + tag + "\n" + body + "\n```";
    TaggedBareFenceShape(tag, body);
    StripStripped(raw);
    TaggedBareFenceStep(tag, body);
    TaggedBareFenceCut(tag, body);
  }

  /** The string facts behind NestedFencesNotIdempotent. */
  lemma NestedFencesShape(a: string)
    requires a != [] && Stripped(a) && !StartsWith(a, "json")
    ensures var raw, once := "```json ```" + a + "``` ```", "```" + a + "```";
      && Stripped(raw) && raw[..7] == JsonFence && raw[|raw| - 3..] == Fence
      && raw[7..|raw| - 3] == " " + once + " "
      && Stripped(once) && StartsWith(once, Fence) && !StartsWith(once, JsonFence)
      && once[|once| - 3..] == Fence && once[3..|once| - 3] == a
  {
    var once := "```" + a + "```";
    assert once[..3] == Fence;
    if |a| >= 4 {
      assert once[3..7] == a[..4];
      assert once[..7][3..] == once[3..7];
    } else {
      assert once[3 + |a|] == '`';
      assert once[..7][3 + |a|] == once[3 + |a|];
      assert JsonFence[3 + |a|] != '`';
    }
  }

  /** The fence step of the first pass of NestedFencesNotIdempotent. */
  lemma NestedFencesOuterStep(a: string)
    requires a != [] && Stripped(a) && !StartsWith(a, "json")
    ensures StripFences("```json ```" + a + "``` ```") == "```" + a + "```"
  {
    NestedFencesShape(a);
    JsonFenceAround("```json ```" + a + "``` ```", " ", "```" + a + "```");
  }

  /** The first pass of NestedFencesNotIdempotent removes the outer fence only. */
  lemma NestedFencesFirstPass(a: string)
    requires a != [] && Stripped(a) && '{' !in a && !StartsWith(a, "json")
    ensures Sanitize("```json ```" + a + "``` ```") == "```" + a + "```"
  {
    var raw := "```json ```" + a + "``` ```";
    var once := "```" + a + "```";
    NestedFencesShape(a);
    StripStripped(raw);
    NestedFencesOuterStep(a);
    BraceFreeFenced(a);
  }

  /** A fenced block with no brace inside has no prose to cut. */
  lemma BraceFreeFenced(a: string)
    requires '{' !in a
    ensures CutProse("```" + a + "```") == "```" + a + "```"
  {
    assert '{' !in "```" + a + "```";
  }

  /** The second pass of NestedFencesNotIdempotent removes the inner fence. */
  lemma NestedFencesSecondPass(a: string)
    requires a != [] && Stripped(a) && '{' !in a && !StartsWith(a, "json")
    ensures Sanitize("```" + a + "```") == a
  {
    var once := "```" + a + "```";
    NestedFencesShape(a);
    StripStripped(once);
    BareFenceClosedAtEnd(once);
    StripStripped(a);
    FindChar(a, '{');
  }

  /**
   * Sanitising is not idempotent on outputs without a `{`: a "```json" block
   * whose interior is itself a fenced block loses one fence per pass.
   */
  lemma NestedFencesNotIdempotent(a: string)
    requires a != [] && Stripped(a) && '{' !in a && !StartsWith(a, "json")
    ensures Sanitize(Sanitize("```json ```" + a + "``` ```")) != Sanitize("```json ```" + a + "``` ```")
  {
    NestedFencesFirstPass(a);
    NestedFencesSecondPass(a);
    assert |"```" + a + "```"| != |a|;
  }
}
