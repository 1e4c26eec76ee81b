/** How the VLM benchmark cuts the JSON object out of a model's reply: the
    reply is split into lines, a scan from both ends looks for a line that
    is exactly "{" and one that is exactly "}", and the lines between them
    are joined, freed of code fences and stripped. */
module VlmReply {
  import opened Wrappers
  import opened Text

  // ---------------------------------------------------------------------------
  // str.splitlines

  /** The characters Python's `str.splitlines` breaks lines at. */
  predicate LineBreak(c: char)
  {
    c == '\n' || c == '\r' || c == '\U{0b}' || c == '\U{0c}' || c == '\U{1c}' || c == '\U{1d}' ||
    c == '\U{1e}' || c == '\U{85}' || c == '\U{2028}' || c == '\U{2029}'
  }

  /** The index of the first line break at or after `from`, or `|s|`. */
  function BreakFrom(s: string, from: nat): (r: nat)
    requires from <= |s|
    ensures from <= r <= |s| && (r < |s| ==> LineBreak(s[r]))
    ensures forall k :: from <= k < r ==> !LineBreak(s[k])
    decreases |s| - from
  {
    if from == |s| || LineBreak(s[from]) then from else BreakFrom(s, from + 1)
  }

  /** `s.splitlines()`: the lines without their breaks, "\r\n" counting as
      one break and a final break starting no further line. */
  function SplitLines(s: string): (lines: seq<string>)
    ensures forall l :: l in lines ==> forall k :: 0 <= k < |l| ==> !LineBreak(l[k])
    decreases |s|
  {
    if s == [] then []
    else
      var k := BreakFrom(s, 0);
      if k == |s| then [s]
      else
        var width := BreakWidth(s, k);
        [s[..k]] + SplitLines(s[k + width..])
  }

  /** The break at `k` is "\r\n" when a '\n' follows a '\r', one character
      otherwise. */
  function BreakWidth(s: string, k: nat): (w: nat)
    requires k < |s|
    ensures 1 <= w <= 2 && k + w <= |s|
  {
    if s[k] == '\r' && k + 1 < |s| && s[k + 1] == '\n' then 2 else 1
  }

  /** A break `splitlines` drops: "\r\n" or one break character. */
  predicate IsBreak(e: string)
  {
    e == "\r\n" || (|e| == 1 && LineBreak(e[0]))
  }

  /** The break after each line of `SplitLines(s)`, or "" after a last line
      that ends the text. */
  function LineEnds(s: string): seq<string>
    decreases |s|
  {
    if s == [] then []
    else
      var k := BreakFrom(s, 0);
      if k == |s| then [""]
      else
        var width := BreakWidth(s, k);
        [s[k..k + width]] + LineEnds(s[k + width..])
  }

  /** Each line followed by its break, in order. */
  function Rejoin(lines: seq<string>, ends: seq<string>): string
    requires |lines| == |ends|
  {
    if lines == [] then "" else lines[0] + ends[0] + Rejoin(lines[1..], ends[1..])
  }

  /** Every end but the last is a break; the last is a break or nothing. */
  predicate EndsOk(ends: seq<string>)
  {
    (forall i :: 0 <= i < |ends| - 1 ==> IsBreak(ends[i])) &&
    (ends != [] ==> ends[|ends| - 1] == "" || IsBreak(ends[|ends| - 1]))
  }

  /** One step of `SplitLines` and `LineEnds` on a non-empty text. */
  lemma {:induction false} LinesStep(s: string)
    requires s != []
    ensures var k := BreakFrom(s, 0);
      (k == |s| ==> SplitLines(s) == [s] && LineEnds(s) == [""]) &&
      (k < |s| ==>
         var w := BreakWidth(s, k);
         SplitLines(s) == [s[..k]] + SplitLines(s[k + w..]) &&
         LineEnds(s) == [s[k..k + w]] + LineEnds(s[k + w..]) &&
         IsBreak(s[k..k + w]))
  {
    var k := BreakFrom(s, 0);
    if k < |s| {
      var e := s[k..k + BreakWidth(s, k)];
      if BreakWidth(s, k) == 2 {
        assert e == [s[k], s[k + 1]];
      } else {
        assert e[0] == s[k];
      }
    }
  }

  /** The lines of `s` are the text between its breaks: every line but the
      last is followed by a break, the last by a break or nothing, and
      putting the breaks back gives `s`. */
  lemma {:induction false} SplitLinesRejoin(s: string)
    ensures |LineEnds(s)| == |SplitLines(s)|
    ensures EndsOk(LineEnds(s))
    ensures Rejoin(SplitLines(s), LineEnds(s)) == s
    decreases |s|
  {
    if s != [] {
      LinesStep(s);
      var k := BreakFrom(s, 0);
      if k == |s| {
        assert Rejoin([s], [""]) == s + "" + "";
      } else {
        var w := BreakWidth(s, k);
        var rest := s[k + w..];
        var e := s[k..k + w];
        SplitLinesRejoin(rest);
        RejoinCons(s[..k], e, SplitLines(rest), LineEnds(rest));
        EndsCons(e, LineEnds(rest));
        ThreeSlices(s, k, k + w);
      }
    }
  }

  lemma RejoinCons(line: string, e: string, lines: seq<string>, ends: seq<string>)
    requires |lines| == |ends|
    ensures Rejoin([line] + lines, [e] + ends) == line + e + Rejoin(lines, ends)
  {
    assert ([line] + lines)[1..] == lines && ([e] + ends)[1..] == ends;
  }

  lemma EndsCons(e: string, ends: seq<string>)
    requires IsBreak(e) && EndsOk(ends)
    ensures EndsOk([e] + ends)
  {
    var all := [e] + ends;
    forall i | 0 <= i < |all| - 1 ensures IsBreak(all[i]) {
      if i > 0 {
        assert all[i] == ends[i - 1];
      }
    }
  }

  /** A text is its three slices at `i` and `j`. */
  lemma ThreeSlices(s: string, i: nat, j: nat)
    requires i <= j <= |s|
    ensures s == s[..i] + s[i..j] + s[j..]
  {
    assert s[..j] == s[..i] + s[i..j];
  }

  /** Only '\n' breaks lines in `s`. */
  predicate OnlyNewlines(s: string)
  {
    forall k :: 0 <= k < |s| && LineBreak(s[k]) ==> s[k] == '\n'
  }

  /** On a text whose only breaks are "\n", `s.splitlines()` is
      `s.split("\n")` without the empty piece a final "\n" leaves. */
  lemma {:induction false} SplitLinesNewlines(s: string)
    requires OnlyNewlines(s)
    ensures s != [] && s[|s| - 1] != '\n' ==> SplitLines(s) == Split(s, "\n")
    ensures s == [] || s[|s| - 1] == '\n' ==> SplitLines(s) + [""] == Split(s, "\n")
    decreases |s|
  {
    if s == [] {
      SplitNoSep([], '\n');
    } else {
      LinesStep(s);
      var k := BreakFrom(s, 0);
      if k == |s| {
        SplitNoSep(s, '\n');
      } else {
        var rest := s[k + 1..];
        NewlineSplitStep(s, k);
        SplitLinesNewlines(rest);
        if rest == [] {
          SplitNoSep([], '\n');
        }
        ConsThenEmpty(s[..k], SplitLines(rest));
      }
    }
  }

  lemma ConsThenEmpty(first: string, lines: seq<string>)
    ensures ([first] + lines) + [""] == [first] + (lines + [""])
  {
  }

  /** At the first break of a text whose only breaks are "\n", both
      splits cut the same first piece, and what follows has only "\n"
      breaks and the same last character. */
  lemma {:induction false} NewlineSplitStep(s: string, k: nat)
    requires OnlyNewlines(s) && k < |s| && k == BreakFrom(s, 0)
    ensures BreakWidth(s, k) == 1
    ensures Split(s, "\n") == [s[..k]] + Split(s[k + 1..], "\n")
    ensures OnlyNewlines(s[k + 1..])
    ensures s[k + 1..] == [] ==> s[|s| - 1] == '\n'
    ensures s[k + 1..] != [] ==> s[k + 1..][|s| - k - 2] == s[|s| - 1]
  {
    forall j: nat | j < k ensures !OccursAt(s, "\n", j) {
      assert s[j..j + 1][0] == s[j];
    }
    assert s[k..k + 1] == "\n";
    FirstOccurrence(s, "\n", k);
    Around(s, "\n", k);
    SplitAt(s[..k], "\n", s[k + 1..]);
    var rest := s[k + 1..];
    assert forall j :: 0 <= j < |rest| ==> rest[j] == s[k + 1 + j];
  }

  // ---------------------------------------------------------------------------
  // The scan from both ends

  /** After `t` steps (indices `0 .. t-1` seen from the front), the last
      line seen that is exactly "{". */
  function OpenAt(lines: seq<string>, t: nat): (r: Option<nat>)
    requires t <= |lines|
    ensures r.Some? ==> r.value < t && lines[r.value] == "{" && forall k :: r.value < k < t ==> lines[k] != "{"
    ensures r.None? ==> forall k :: 0 <= k < t ==> lines[k] != "{"
  {
    if t == 0 then None
    else if lines[t - 1] == "{" then Some(t - 1)
    else OpenAt(lines, t - 1)
  }

  /** After `t` steps (indices `|lines|-1` down to `|lines|-t` seen from
      the back), one past the nearest-to-the-front line seen that is
      exactly "}". */
  function CloseFrom(lines: seq<string>, t: nat): (r: Option<nat>)
    requires t <= |lines|
    ensures r.Some? ==> |lines| - t < r.value <= |lines| && lines[r.value - 1] == "}" &&
                        forall k :: |lines| - t <= k < r.value - 1 ==> lines[k] != "}"
    ensures r.None? ==> forall k :: |lines| - t <= k < |lines| ==> lines[k] != "}"
  {
    if t == 0 then None
    else if lines[|lines| - t] == "}" then Some(|lines| - t + 1)
    else CloseFrom(lines, t - 1)
  }

  /** Both braces have been seen after `t` steps. */
  predicate Found(lines: seq<string>, t: nat)
    requires t <= |lines|
  {
    OpenAt(lines, t).Some? && CloseFrom(lines, t).Some?
  }

  /** The step at which the scan stops, searching from step `t`: the first
      where both braces are seen, or where the back index reaches 0. */
  function Stop(lines: seq<string>, t: nat): (r: nat)
    requires t <= |lines|
    ensures t <= r <= |lines| && (|lines| >= 1 ==> r <= |lines| - 1 || r == t)
    ensures r + 1 < |lines| ==> Found(lines, r)
    ensures forall u :: t <= u < r ==> u + 1 < |lines| && !Found(lines, u)
    decreases |lines| - t
  {
    if t + 1 >= |lines| || Found(lines, t) then t else Stop(lines, t + 1)
  }

  /** `start_idx` and `end_idx` when the scan stops. */
  function Bounds(lines: seq<string>): (Option<nat>, Option<nat>)
  {
    var n := Stop(lines, 0);
    (OpenAt(lines, n), CloseFrom(lines, n))
  }

  /** Python `lines[start:end]` for indices within `0 .. |lines|`, `None`
      standing for the start or the end of the list. */
  function Slice(lines: seq<string>, start: Option<nat>, end: Option<nat>): seq<string>
    requires start.Some? ==> start.value <= |lines|
    requires end.Some? ==> end.value <= |lines|
  {
    var s := if start.Some? then start.value else 0;
    var e := if end.Some? then end.value else |lines|;
    if s < e then lines[s..e] else []
  }

  /** The lines the scan keeps. */
  function JsonLines(lines: seq<string>): seq<string>
  {
    var (start, end) := Bounds(lines);
    Slice(lines, start, end)
  }

  /** `cleaned_text`: the kept lines joined by "\n", every "```" removed,
      then stripped. */
  function Cleaned(rawText: string): string
  {
    Strip(RemoveAll(Join(JsonLines(SplitLines(rawText)), "\n"), Fence))
  }

  /** The sanity check that only logs a warning. */
  predicate Warns(cleanedText: string)
  {
    cleanedText == [] || !Contains(cleanedText, "{")
  }

  /** The scan from both ends of `extract_json_from_reply`: `i` walks
      forward remembering the last "{", `j` walks back remembering one past
      the last "}" seen, until both are seen or `j` reaches 0. */
  method ScanBraces(lines: seq<string>) returns (startIdx: Option<nat>, endIdx: Option<nat>)
    ensures (startIdx, endIdx) == Bounds(lines)
  {
    var i: nat, j: int := 0, |lines| - 1;
    startIdx, endIdx := None, None;
    var found := false;
    while j > 0 && !found
      invariant i + j == |lines| - 1 && i <= |lines|
      invariant startIdx == OpenAt(lines, i) && endIdx == CloseFrom(lines, i)
      invariant found == Found(lines, i)
      invariant Stop(lines, 0) == Stop(lines, i)
      decreases j
    {
      assert |lines| - (i + 1) == j;
      assert OpenAt(lines, i + 1) == if lines[i] == "{" then Some(i) else OpenAt(lines, i);
      assert CloseFrom(lines, i + 1) == if lines[j] == "}" then Some(j + 1) else CloseFrom(lines, i);
      startIdx := if "{" == lines[i] then Some(i) else startIdx;
      endIdx := if "}" == lines[j] then Some(j + 1) else endIdx;
      found := startIdx.Some? && endIdx.Some?;
      i := i + 1;
      j := j - 1;
    }
    ScanStops(lines, i);
  }

  /** `extract_json_from_reply` up to its sanity check (the file it writes
      and reads back is not modelled). */
  method ExtractJsonFromReply(rawText: string) returns (startIdx: Option<nat>, endIdx: Option<nat>, cleanedText: string, warned: bool)
    ensures (startIdx, endIdx) == Bounds(SplitLines(rawText))
    ensures cleanedText == Cleaned(rawText)
    ensures warned == Warns(cleanedText)
  {
    var lines := SplitLines(rawText);
    startIdx, endIdx := ScanBraces(lines);
    var kept := Slice(lines, startIdx, endIdx);
    cleanedText := Strip(RemoveAll(Join(kept, "\n"), Fence));
    warned := cleanedText == [] || !Contains(cleanedText, "{");
  }

  /** A scan that has reached step `i` without stopping earlier, and stops
      there, has found `Bounds(lines)`. */
  lemma {:induction false} ScanStops(lines: seq<string>, i: nat)
    requires i <= |lines| && Stop(lines, 0) == Stop(lines, i)
    requires i + 1 >= |lines| || Found(lines, i)
    ensures Bounds(lines) == (OpenAt(lines, i), CloseFrom(lines, i))
  {
  }

  // ---------------------------------------------------------------------------
  // What the scan finds

  /** With fewer than two lines the loop body never runs and both indices
      stay `None`. */
  lemma {:induction false} ShortReply(lines: seq<string>)
    requires |lines| < 2
    ensures Bounds(lines) == (None, None)
  {
  }

  /** Whatever the scan keeps starts at a line that is exactly "{" (or at
      the first line) and ends at one that is exactly "}" (or at the last
      line), and the scan takes at most `|lines| - 1` steps. */
  lemma {:induction false} BoundsSpec(lines: seq<string>)
    ensures Stop(lines, 0) <= if |lines| == 0 then 0 else |lines| - 1
    ensures Bounds(lines).0.Some? ==> lines[Bounds(lines).0.value] == "{"
    ensures Bounds(lines).1.Some? ==> 1 <= Bounds(lines).1.value <= |lines| && lines[Bounds(lines).1.value - 1] == "}"
  {
  }

  /** A reply that is just the object: the first line "{" and the last "}". */
  lemma {:induction false} BareReply(lines: seq<string>)
    requires |lines| >= 2 && lines[0] == "{" && lines[|lines| - 1] == "}"
    ensures Bounds(lines) == (Some(0), Some(|lines|))
    ensures JsonLines(lines) == lines
  {
    assert Found(lines, 1);
  }

  /** A reply fenced as "```json" / object / "```": the fence lines are
      dropped. */
  lemma {:induction false} FencedReply(opening: string, body: seq<string>, closing: string)
    requires opening != "{" && closing != "}"
    ensures var lines := [opening, "{"] + body + ["}", closing];
      Bounds(lines) == (Some(1), Some(|lines| - 1)) && JsonLines(lines) == ["{"] + body + ["}"]
  {
    var lines := [opening, "{"] + body + ["}", closing];
    var n := |lines|;
    assert !Found(lines, 0) && !Found(lines, 1);
    assert OpenAt(lines, 2) == Some(1);
    assert CloseFrom(lines, 2) == Some(n - 1);
    assert Stop(lines, 0) == Stop(lines, 1) == Stop(lines, 2) == 2;
    assert lines[1..n - 1] == ["{"] + body + ["}"];
  }

  /** A closing line seen before the opening one leaves nothing between
      them. */
  lemma {:induction false} BracesReversed()
    ensures Bounds(["a", "}", "{", "b"]) == (Some(2), Some(2))
    ensures JsonLines(["a", "}", "{", "b"]) == []
  {
    var lines := ["a", "}", "{", "b"];
    assert !Found(lines, 0) && !Found(lines, 1) && !Found(lines, 2);
    assert Stop(lines, 0) == Stop(lines, 1) == Stop(lines, 2) == Stop(lines, 3) == 3;
  }

  /** When the scan keeps no line the text is empty and the warning is
      logged. */
  lemma {:induction false} NothingKeptWarns(rawText: string)
    requires JsonLines(SplitLines(rawText)) == []
    ensures Cleaned(rawText) == [] && Warns(Cleaned(rawText))
  {
    assert Join([], "\n") == [];
  }

  // ---------------------------------------------------------------------------
  // The cleaned text

  /** A slice of a text without "```" has none either. */
  lemma {:induction false} SliceNoFence(s: string, a: nat, b: nat)
    requires a <= b <= |s| && forall k: nat :: !FenceAt(s, k)
    ensures forall k: nat :: !FenceAt(s[a..b], k)
  {
    forall k: nat | FenceAt(s[a..b], k) ensures false {
      assert FenceAt(s, a + k);
    }
  }

  /** Stripping a text without "```" leaves none. */
  lemma {:induction false} StripNoFence(s: string)
    requires forall k: nat :: !FenceAt(s, k)
    ensures !Contains(Strip(s), Fence)
  {
    var left := StripLeft(s);
    SliceNoFence(s, |s| - |left|, |s|);
    assert s[|s| - |left|..|s|] == left;
    var r := StripRight(left);
    SliceNoFence(left, 0, |r|);
    assert left[0..|r|] == r;
    if Contains(r, Fence) {
      FenceAtOccurs(r, IndexOf(r, Fence).value);
    }
  }

  /** No code fence survives the clean-up. */
  lemma {:induction false} CleanedHasNoFence(rawText: string)
    ensures !Contains(Cleaned(rawText), Fence)
  {
    var joined := Join(JsonLines(SplitLines(rawText)), "\n");
    RemoveFenceNoFenceAt(joined);
    StripNoFence(RemoveAll(joined, Fence));
  }
}
