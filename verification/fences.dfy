/** The code-fence stripper applied to the language model's answer
    (netlify/functions/analyze-patrimonial-status.js, line 53):
    `text.replace(/```json|```/g, '').trim()`. The global replacement scans
    left to right; at each position "```json" is tried before "```", a
    match is deleted and the scan resumes after it. */
module Fences {
  import opened Strings

  const Fence: string := "```"
  const JsonFence: string := "```json"

  /** `s` starts with "```". */
  predicate FenceAt(s: string) {
    |s| >= 3 && s[0] == '`' && s[1] == '`' && s[2] == '`'
  }

  /** `s` starts with "```json". */
  predicate JsonFenceAt(s: string) {
    FenceAt(s) && |s| >= 7 && s[3] == 'j' && s[4] == 's' && s[5] == 'o' && s[6] == 'n'
  }

  lemma FenceTestsArePrefixTests(s: string)
    ensures FenceAt(s) <==> StartsWith(s, Fence)
    ensures JsonFenceAt(s) <==> StartsWith(s, JsonFence)
  {
    if StartsWith(s, Fence) {
      assert s[..3] == Fence;
      assert s[0] == Fence[0] && s[1] == Fence[1] && s[2] == Fence[2];
    }
    if StartsWith(s, JsonFence) {
      assert s[..7] == JsonFence;
      assert s[0] == JsonFence[0] && s[1] == JsonFence[1] && s[2] == JsonFence[2] && s[3] == JsonFence[3];
      assert s[4] == JsonFence[4] && s[5] == JsonFence[5] && s[6] == JsonFence[6];
    }
  }

  /** Every match of the alternation deleted, left to right. */
  function RemoveFences(s: string): (r: string)
    ensures |r| <= |s|
    decreases |s|
  {
    if s == [] then []
    else if JsonFenceAt(s) then RemoveFences(s[7..])
    else if FenceAt(s) then RemoveFences(s[3..])
    else [s[0]] + RemoveFences(s[1..])
  }

  /** The stripped answer handed to `JSON.parse`. */
  function StripFences(s: string): string {
    Trim(RemoveFences(s))
  }

  /** Three backticks in a row start at position `i` of `r`. */
  predicate TickRunAt(r: string, i: int) {
    0 <= i && i + 3 <= |r| && r[i] == '`' && r[i + 1] == '`' && r[i + 2] == '`'
  }

  /** `r` contains no "```". */
  predicate TickRunFree(r: string) {
    forall i :: 0 <= i < |r| ==> !TickRunAt(r, i)
  }

  // ---------------------------------------------------------------------------
  // Plain text and the usual fenced answer
  // ---------------------------------------------------------------------------

  /** A text without backticks loses nothing to the scan: it is only
      trimmed. */
  lemma {:induction false} NoBacktickUntouched(s: string)
    requires forall i :: 0 <= i < |s| ==> s[i] != '`'
    ensures RemoveFences(s) == s
    decreases |s|
  {
    if s != [] {
      var rest := s[1..];
      assert forall i :: 0 <= i < |rest| ==> rest[i] == s[i + 1];
      assert !FenceAt(s);
      NoBacktickUntouched(rest);
      assert [s[0]] + rest == s;
    }
  }

  /** How many characters the scan moves past at the start of `s`: a
      "```json" match, a "```" match, or one kept character. */
  function Consumed(s: string): (n: nat)
    requires s != []
    ensures 1 <= n <= |s|
  {
    if JsonFenceAt(s) then 7 else if FenceAt(s) then 3 else 1
  }

  lemma RemoveFencesStep(s: string)
    requires s != []
    ensures RemoveFences(s) == (if Consumed(s) == 1 then [s[0]] else []) + RemoveFences(s[Consumed(s)..])
  {
  }

  /** A text followed by a line feed (or by nothing) starts with the same
      match as the text alone. */
  lemma ConsumedAppend(x: string, y: string)
    requires x != []
    requires y == [] || y[0] == '\n'
    ensures Consumed(x + y) == Consumed(x)
  {
    var s := x + y;
    if y == [] {
      assert s == x;
    } else {
      assert s[0] == x[0];
      assert forall k :: 0 <= k < |x| ==> s[k] == x[k];
      assert s[|x|] == '\n';
    }
  }

  /** The characters the scan keeps from the match at the start of `s`. */
  function Kept(s: string): string
    requires s != []
  {
    if Consumed(s) == 1 then [s[0]] else []
  }

  /** The first match of `x` followed by a line feed is the first match of
      `x` alone, and the scan resumes on the rest of `x` followed by `y`. */
  lemma AppendStep(x: string, y: string)
    requires x != []
    requires y == [] || y[0] == '\n'
    ensures RemoveFences(x + y) == Kept(x) + RemoveFences(x[Consumed(x)..] + y)
  {
    var s := x + y;
    ConsumedAppend(x, y);
    RemoveFencesStep(s);
    assert s[Consumed(x)..] == x[Consumed(x)..] + y;
    assert s[0] == x[0];
  }

  /** A line feed stops any fence: removing fences from `x` followed by a
      text starting with a line feed treats the two parts separately. */
  lemma {:induction false} RemoveFencesAppend(x: string, y: string)
    requires y == [] || y[0] == '\n'
    ensures RemoveFences(x + y) == RemoveFences(x) + RemoveFences(y)
    decreases |x|
  {
    if x == [] {
      assert x + y == y;
    } else {
      var n := Consumed(x);
      AppendStep(x, y);
      RemoveFencesStep(x);
      RemoveFencesAppend(x[n..], y);
      assert Kept(x) + (RemoveFences(x[n..]) + RemoveFences(y)) == (Kept(x) + RemoveFences(x[n..])) + RemoveFences(y);
    }
  }

  /** The usual answer "```json\n" + B + "\n```" comes back as B with its
      fences removed, trimmed. */
  lemma FencedAnswer(b: string)
    ensures StripFences(JsonFence + "\n" + b + "\n" + Fence) == Trim(RemoveFences(b))
  {
    FencesAroundAnswer(b);
    TrimOfPaddedAny("\n", RemoveFences(b), "\n");
  }

  /** ... and, when B holds no backtick, as B trimmed. */
  lemma PlainFencedAnswer(b: string)
    requires forall i :: 0 <= i < |b| ==> b[i] != '`'
    ensures StripFences(JsonFence + "\n" + b + "\n" + Fence) == Trim(b)
  {
    FencedAnswer(b);
    NoBacktickUntouched(b);
  }

  lemma FencesAroundAnswer(b: string)
    ensures RemoveFences(JsonFence + "\n" + b + "\n" + Fence) == "\n" + RemoveFences(b) + "\n"
  {
    var tail := "\n" + Fence;
    var body := b + tail;
    AnswerShape(b, tail);
    JsonFenceDropped("\n" + body);
    NewlineKept(body);
    RemoveFencesAppend(b, tail);
    ClosingFenceDropped();
    assert "\n" + (RemoveFences(b) + "\n") == "\n" + RemoveFences(b) + "\n";
  }

  lemma AnswerShape(b: string, tail: string)
    requires tail == "\n" + Fence
    ensures JsonFence + "\n" + b + "\n" + Fence == JsonFence + ("\n" + (b + tail))
  {
  }

  /** The closing fence on its own line leaves the line feed. */
  lemma ClosingFenceDropped()
    ensures RemoveFences("\n" + Fence) == "\n"
  {
    NewlineKept(Fence);
    FenceDropped([]);
    assert Fence + [] == Fence;
  }

  lemma JsonFenceDropped(u: string)
    ensures RemoveFences(JsonFence + u) == RemoveFences(u)
  {
    var s := JsonFence + u;
    assert JsonFenceAt(s);
    assert s[7..] == u;
  }

  lemma FenceDropped(u: string)
    requires u == [] || u[0] == '\n'
    ensures RemoveFences(Fence + u) == RemoveFences(u)
  {
    var s := Fence + u;
    assert FenceAt(s);
    assert !JsonFenceAt(s) by {
      if u != [] { assert s[3] == '\n'; }
    }
    assert s[3..] == u;
  }

  lemma NewlineKept(u: string)
    ensures RemoveFences("\n" + u) == "\n" + RemoveFences(u)
  {
    var s := "\n" + u;
    assert !FenceAt(s);
    assert s[1..] == u;
  }

  /** Trimming ignores extra white space around the text. */
  lemma TrimOfPaddedAny(a: string, m: string, b: string)
    requires AllSpace(a) && AllSpace(b)
    ensures Trim(a + m + b) == Trim(m)
  {
    var left, right := TrimDecomposes(m);
    var r := Trim(m);
    AllSpaceAppend(a, left);
    AllSpaceAppend(right, b);
    Regroup(a, left, r, right, b);
    TrimOfPadded(a + left, r, right + b);
  }

  /** What trimming removed: white space on either side. */
  lemma TrimDecomposes(m: string) returns (left: string, right: string)
    ensures AllSpace(left) && AllSpace(right)
    ensures m == left + Trim(m) + right
  {
    var r := Trim(m);
    var i := LeadingSpace(m);
    left, right := m[..i], m[i + |r|..];
    assert m == m[..i] + m[i..i + |r|] + m[i + |r|..];
  }

  lemma Regroup(a: string, l: string, r: string, g: string, b: string)
    ensures a + (l + r + g) + b == (a + l) + r + (g + b)
  {
  }

  lemma AllSpaceAppend(x: string, y: string)
    requires AllSpace(x) && AllSpace(y)
    ensures AllSpace(x + y)
  {
    forall k | 0 <= k < |x + y|
      ensures IsJsSpace((x + y)[k])
    {
      if k < |x| {
        assert (x + y)[k] == x[k];
      } else {
        assert (x + y)[k] == y[k - |x|];
      }
    }
  }

  // ---------------------------------------------------------------------------
  // The output holds no fence, so stripping is idempotent
  // ---------------------------------------------------------------------------

  /** Putting one character before a fence-free text keeps it fence-free
      unless the character and the text's first two are all backticks. */
  lemma ConsTickRunFree(c: char, r: string)
    requires TickRunFree(r)
    requires !(c == '`' && |r| >= 2 && r[0] == '`' && r[1] == '`')
    ensures TickRunFree([c] + r)
  {
    forall i | 0 <= i < |[c] + r| && TickRunAt([c] + r, i)
      ensures false
    {
      if i > 0 {
        assert TickRunAt(r, i - 1);
      }
    }
  }

  /** Whenever the first character of `s` starts no fence, the output
      begins with it. */
  lemma KeptFirst(s: string)
    requires s != [] && !FenceAt(s)
    ensures RemoveFences(s) == [s[0]] + RemoveFences(s[1..])
  {
  }

  /** The output never contains "```": a kept backtick is never followed by
      two more kept backticks. */
  lemma {:induction false} RemoveFencesTickRunFree(s: string)
    ensures TickRunFree(RemoveFences(s))
    decreases |s|
  {
    if s == [] {
    } else if JsonFenceAt(s) {
      RemoveFencesTickRunFree(s[7..]);
    } else if FenceAt(s) {
      RemoveFencesTickRunFree(s[3..]);
    } else {
      var rest := RemoveFences(s[1..]);
      RemoveFencesTickRunFree(s[1..]);
      if s[0] == '`' && |s| >= 2 {
        var s1 := s[1..];
        if s[1] != '`' {
          KeptFirst(s1);
        } else if |s| >= 3 {
          assert s[2] != '`';
          KeptFirst(s1);
          assert s1[1..] == s[2..];
          KeptFirst(s[2..]);
        } else {
          KeptFirst(s1);
        }
      }
      ConsTickRunFree(s[0], rest);
    }
  }

  /** A fence-free text has nothing removed. */
  lemma {:induction false} FenceFreeUntouched(s: string)
    requires TickRunFree(s)
    ensures RemoveFences(s) == s
    decreases |s|
  {
    if s != [] {
      assert !FenceAt(s) by {
        if FenceAt(s) {
          assert TickRunAt(s, 0);
        }
      }
      assert TickRunFree(s[1..]) by {
        forall i | 0 <= i < |s[1..]| && TickRunAt(s[1..], i)
          ensures false
        {
          assert TickRunAt(s, i + 1);
        }
      }
      FenceFreeUntouched(s[1..]);
      assert [s[0]] + s[1..] == s;
    }
  }

  /** Stripping twice is stripping once. */
  lemma StripFencesIdempotent(s: string)
    ensures StripFences(StripFences(s)) == StripFences(s)
  {
    var r := RemoveFences(s);
    var t := Trim(r);
    RemoveFencesTickRunFree(s);
    var i :| 0 <= i <= |r| - |t| && t == r[i..i + |t|] && AllSpace(r[..i]) && AllSpace(r[i + |t|..]);
    assert TickRunFree(t) by {
      forall j | 0 <= j < |t| && TickRunAt(t, j)
        ensures false
      {
        assert TickRunAt(r, i + j);
      }
    }
    FenceFreeUntouched(t);
    TrimKeepsTrimmed(t);
  }
}
