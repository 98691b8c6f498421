/** The clean-up of the generator's reply in `generate_answer`: the code
    fences are removed, the text is stripped, the span from the first `{`
    to the last `}` is cut out, and the result is returned as is when it
    parses as JSON, or replaced by a fixed `qa` record quoting the raw
    reply otherwise.
 */
module Sanitiser {
  import opened Text

  const Fence: string := "```"
  const JsonFence: string := "```json"
  const FallbackPrefix: string := "Error formatting response. Raw: "

  /** How much of the raw reply the fallback record quotes. */
  const RawExcerpt: nat := 200

  /** What `generate_answer` returns. `Verbatim(json)` is a text returned
      unchanged; `Qa(answer)` is the record `{"mode": "qa", "answer":
      answer, "sources": []}` as `json.dumps` renders it. */
  datatype Reply = Verbatim(json: string) | Qa(answer: string)

  /** The number of backticks `s` begins with. */
  function LeadTicks(s: string): (n: nat)
    ensures n <= |s|
  {
    if |s| > 0 && s[0] == '`' then 1 + LeadTicks(s[1..]) else 0
  }

  /** `s` begins with at least `k` backticks exactly when its first `k`
      characters are backticks. */
  lemma {:induction false} LeadTicksAtLeast(s: string, k: nat)
    ensures LeadTicks(s) >= k <==> k <= |s| && forall i | 0 <= i < k :: s[i] == '`'
  {
    if k == 0 {
    } else if |s| > 0 && s[0] == '`' {
      LeadTicksAtLeast(s[1..], k - 1);
      assert LeadTicks(s) == 1 + LeadTicks(s[1..]);
      if k <= |s| {
        assert forall i | 1 <= i < k :: s[i] == s[1..][i - 1];
      }
    } else {
      assert LeadTicks(s) == 0;
      assert k <= |s| ==> s[0] != '`';
    }
  }

  /** `s` starts with a fence exactly when it starts with three backticks. */
  lemma FenceAtStart(s: string)
    requires 3 <= |s|
    ensures s[..3] == Fence <==> s[0] == '`' && s[1] == '`' && s[2] == '`'
  {
    if s[0] == '`' && s[1] == '`' && s[2] == '`' {
      assert s[..3] == Fence;
    }
  }

  /** One step of the left-to-right scan of `replace`. */
  lemma RemoveFencesStep(s: string)
    requires 3 <= |s|
    ensures s[..3] == Fence ==> Replace(s, Fence, "") == Replace(s[3..], Fence, "")
    ensures s[..3] != Fence ==> Replace(s, Fence, "") == [s[0]] + Replace(s[1..], Fence, "")
  {
    if s[..3] == Fence {
      assert "" + Replace(s[3..], Fence, "") == Replace(s[3..], Fence, "");
    }
  }

  /** A backtick in front adds one to the count. */
  lemma LeadTicksCons(c: char, x: string)
    requires c == '`'
    ensures LeadTicks([c] + x) == 1 + LeadTicks(x)
  {
    assert ([c] + x)[1..] == x;
  }

  /** A leading fence accounts for three of the leading backticks. */
  lemma LeadTicksOfFence(s: string)
    requires 3 <= |s| && s[..3] == Fence
    ensures LeadTicks(s) == 3 + LeadTicks(s[3..])
  {
    FenceAtStart(s);
    assert s == [s[0]] + ([s[1]] + ([s[2]] + s[3..]));
    LeadTicksCons(s[2], s[3..]);
    LeadTicksCons(s[1], [s[2]] + s[3..]);
    LeadTicksCons(s[0], [s[1]] + ([s[2]] + s[3..]));
  }

  /** Without a leading fence, fewer than three backticks lead. */
  lemma LeadTicksBelowFence(s: string)
    requires 3 <= |s| && s[..3] != Fence
    ensures LeadTicks(s) < 3
  {
    FenceAtStart(s);
    LeadTicksAtLeast(s, 3);
  }

  /** Removing the fences of `s` leaves fewer than three leading
      backticks, and no more than `s` had: each removed fence takes three
      of them. */
  lemma {:induction false} RemoveFencesLeadTicks(s: string)
    ensures var n := LeadTicks(Replace(s, Fence, ""));
      n < 3 && n <= LeadTicks(s)
    decreases |s|
  {
    if |s| < 3 {
      assert Replace(s, Fence, "") == s;
    } else {
      RemoveFencesStep(s);
      if s[..3] == Fence {
        RemoveFencesLeadTicks(s[3..]);
        LeadTicksOfFence(s);
      } else {
        LeadTicksBelowFence(s);
        if s[0] == '`' {
          RemoveFencesLeadTicks(s[1..]);
          LeadTicksCons(s[0], s[1..]);
          LeadTicksCons(s[0], Replace(s[1..], Fence, ""));
          assert s == [s[0]] + s[1..];
        } else {
          assert Replace(s, Fence, "")[0] == s[0];
        }
      }
    }
  }

  /** When `s` does not start with a fence, neither does the result of
      removing the fences of `s[1..]` with `s[0]` put back in front. */
  lemma NoFenceAtFront(s: string)
    requires 3 <= |s| && s[..3] != Fence
    ensures !OccursAt([s[0]] + Replace(s[1..], Fence, ""), Fence, 0)
  {
    var r' := Replace(s[1..], Fence, "");
    var r := [s[0]] + r';
    FenceAtStart(s);
    RemoveFencesLeadTicks(s[1..]);
    LeadTicksAtLeast(s[1..], 2);
    assert s[1..][0] == s[1] && s[1..][1] == s[2];
    if s[0] == '`' {
      LeadTicksCons(s[0], r');
    } else {
      assert r[0] == s[0];
    }
    LeadTicksAtLeast(r, 3);
    if 3 <= |r| {
      FenceAtStart(r);
    }
  }

  /** Python's left-to-right `s.replace("```", "")` leaves no "```":
      a fence could only reappear where a removed fence closed the gap
      between backticks, and the count modulo 3 rules that out. */
  lemma {:induction false} RemoveFencesNoFence(s: string)
    ensures forall i: nat :: !OccursAt(Replace(s, Fence, ""), Fence, i)
    decreases |s|
  {
    var r := Replace(s, Fence, "");
    if |s| < 3 {
      assert r == s;
    } else {
      RemoveFencesStep(s);
      if s[..3] == Fence {
        RemoveFencesNoFence(s[3..]);
      } else {
        var r' := Replace(s[1..], Fence, "");
        RemoveFencesNoFence(s[1..]);
        NoFenceAtFront(s);
        forall i: nat | 0 < i ensures OccursAt(r, Fence, i) == OccursAt(r', Fence, i - 1) {
          if i + 3 <= |r| {
            assert r[i..i + 3] == r'[i - 1..i - 1 + 3];
          }
        }
      }
    }
  }

  /** `raw.replace("```json", "").replace("```", "").strip()`. */
  function StripFences(raw: string): string {
    Strip(Replace(Replace(raw, JsonFence, ""), Fence, ""))
  }

  /** A piece of a text without fences has none either. */
  lemma InfixHasNoFence(t: string, a: nat, c: string)
    requires !Contains(t, Fence)
    requires a + |c| <= |t| && c == t[a..a + |c|]
    ensures !Contains(c, Fence)
  {
    forall i: nat | i <= |c| ensures !OccursAt(c, Fence, i) {
      if OccursAt(c, Fence, i) {
        OccursInInfix(t, Fence, a, a + |c|, i);
      }
    }
  }

  /** The cleaned reply holds no code fence. */
  lemma StripFencesNoFence(raw: string)
    ensures !Contains(StripFences(raw), Fence)
  {
    var t := Replace(Replace(raw, JsonFence, ""), Fence, "");
    var r := StripFences(raw);
    RemoveFencesNoFence(Replace(raw, JsonFence, ""));
    if r != [] {
      InfixHasNoFence(t, ContentStart(t), r);
    }
  }

  /** A text without "```" holds no "```json" either. */
  lemma NoFenceNoJsonFence(s: string)
    requires !Contains(s, Fence)
    ensures !Contains(s, JsonFence)
  {
    forall i: nat | i <= |s| ensures !OccursAt(s, JsonFence, i) {
      if OccursAt(s, JsonFence, i) {
        assert s[i..i + 3] == JsonFence[..3];
        assert OccursAt(s, Fence, i);
      }
    }
  }

  /** Cleaning a cleaned reply changes nothing. */
  lemma StripFencesIdempotent(raw: string)
    ensures StripFences(StripFences(raw)) == StripFences(raw)
  {
    var x := StripFences(raw);
    StripFencesNoFence(raw);
    NoFenceNoJsonFence(x);
    assert Replace(x, JsonFence, "") == x;
    assert Replace(x, Fence, "") == x;
    StripIdempotent(Replace(Replace(raw, JsonFence, ""), Fence, ""));
  }

  /** `text[text.find('{'):text.rfind('}') + 1]` when both braces occur,
      and `text` itself otherwise. */
  function ExtractObject(text: string): string {
    var open := Find(text, '{');
    var close := FindLast(text, '}');
    if open.Some? && close.Some? then Slice(text, open.value, close.value + 1) else text
  }

  /** With a first `{` at `a` and a last `}` at `b`, the candidate is the
      span between them, braces included, or empty when the last `}`
      comes before the first `{`. */
  lemma ExtractBetweenBraces(text: string, a: nat, b: nat)
    requires a < |text| && text[a] == '{' && forall i | 0 <= i < a :: text[i] != '{'
    requires b < |text| && text[b] == '}' && forall i | b < i < |text| :: text[i] != '}'
    ensures a < b ==> ExtractObject(text) == text[a..b + 1]
    ensures b < a ==> ExtractObject(text) == []
  {
    FindInSpec(text, '{', 0, |text|);
    FindLastBeforeSpec(text, '}', |text|);
  }

  /** Without a `{` or without a `}`, the whole cleaned text is the
      candidate. */
  lemma ExtractWithoutBraces(text: string)
    requires (forall i | 0 <= i < |text| :: text[i] != '{') || (forall i | 0 <= i < |text| :: text[i] != '}')
    ensures ExtractObject(text) == text
  {
    FindInSpec(text, '{', 0, |text|);
    FindLastBeforeSpec(text, '}', |text|);
  }

  /** The extracted candidate is a piece of the text it was cut from,
      starting at `a`. */
  lemma ExtractIsInfix(text: string) returns (a: nat)
    ensures var c := ExtractObject(text);
      a + |c| <= |text| && c == text[a..a + |c|]
  {
    var c := ExtractObject(text);
    var open := Find(text, '{');
    var close := FindLast(text, '}');
    FindInSpec(text, '{', 0, |text|);
    FindLastBeforeSpec(text, '}', |text|);
    if open.Some? && close.Some? && open.value < close.value + 1 {
      a := open.value;
    } else if open.Some? && close.Some? {
      a := 0;
    } else {
      a := 0;
      assert c == text[0..|text|];
    }
  }

  /** The text handed to `json.loads`. */
  function Candidate(raw: string): string {
    ExtractObject(StripFences(raw))
  }

  /** `raw[:200]`: the first 200 characters of the reply, or all of a
      shorter one. */
  function Excerpt(raw: string): (e: string)
    ensures |e| <= RawExcerpt
    ensures e == raw[..Min(|raw|, RawExcerpt)]
  {
    if |raw| <= RawExcerpt then raw else raw[..RawExcerpt]
  }

  /** The end of `generate_answer`: the candidate when `json.loads` accepts
      it, the fail-soft record quoting the first 200 characters of the raw
      reply otherwise. */
  function Sanitise(raw: string, isValidJson: string -> bool): (r: Reply)
    ensures r.Verbatim? <==> isValidJson(Candidate(raw))
  {
    var candidate := Candidate(raw);
    if isValidJson(candidate) then Verbatim(candidate)
    else Qa(FallbackPrefix + Excerpt(raw))
  }

  /** An accepted reply is the candidate, whatever its `mode`, and holds
      no code fence. */
  lemma SanitiseAccepted(raw: string, isValidJson: string -> bool)
    requires isValidJson(Candidate(raw))
    ensures var r := Sanitise(raw, isValidJson);
      r.Verbatim? && r.json == Candidate(raw) && !Contains(r.json, Fence)
  {
    var t := StripFences(raw);
    StripFencesNoFence(raw);
    var a := ExtractIsInfix(t);
    InfixHasNoFence(t, a, Candidate(raw));
  }

  /** A rejected reply yields the fixed error answer quoting a prefix of
      at most 200 characters of the raw, not the cleaned, reply. */
  lemma SanitiseRejected(raw: string, isValidJson: string -> bool)
    requires !isValidJson(Candidate(raw))
    ensures var r := Sanitise(raw, isValidJson);
      && r.Qa?
      && |r.answer| == |FallbackPrefix| + Min(|raw|, RawExcerpt)
      && r.answer[..|FallbackPrefix|] == FallbackPrefix
      && r.answer[|FallbackPrefix|..] == raw[..Min(|raw|, RawExcerpt)]
  {
    var e := Excerpt(raw);
    assert (FallbackPrefix + e)[..|FallbackPrefix|] == FallbackPrefix;
    assert (FallbackPrefix + e)[|FallbackPrefix|..] == e;
  }

  /** A reply that already is a bare JSON object text, without fences or
      surrounding whitespace, comes back unchanged when it parses. */
  lemma SanitiseKeepsCleanObject(raw: string, isValidJson: string -> bool)
    requires 2 <= |raw| && raw[0] == '{' && raw[|raw| - 1] == '}'
    requires !Contains(raw, Fence) && isValidJson(raw)
    ensures Sanitise(raw, isValidJson) == Verbatim(raw)
  {
    NoFenceNoJsonFence(raw);
    assert Replace(raw, JsonFence, "") == raw;
    assert Replace(raw, Fence, "") == raw;
    StripTrimmed(raw);
    assert StripFences(raw) == raw;
    ExtractBetweenBraces(raw, 0, |raw| - 1);
    assert raw[0..|raw|] == raw;
  }
}
