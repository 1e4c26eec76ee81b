/** The super-resolution benchmark's pairing of files by the timestamp that
    leads their names. */
module SrBenchmark {
  import opened Wrappers
  import opened Text
  import opened DecimalRounding

  // ---------------------------------------------------------------------------
  // extract_timestamp

  /** The end of the run of digits that starts at `from`. */
  function DigitRun(s: string, from: nat): (r: nat)
    requires from <= |s|
    ensures from <= r <= |s|
    ensures forall k :: from <= k < r ==> IsDigit(s[k])
    ensures r < |s| ==> !IsDigit(s[r])
    decreases |s| - from
  {
    if from < |s| && IsDigit(s[from]) then DigitRun(s, from + 1) else from
  }

  /** The number `whole.frac` denotes. */
  function DecimalValue(whole: string, frac: string): real
    requires AllDigits(whole) && AllDigits(frac)
  {
    DigitsValue(whole) as real + DigitsValue(frac) as real / Pow10(|frac|) as real
  }

  /** `re.match(r"(\d+\.\d+)_", filename)` and `float` of the group: digits,
      a dot and digits at the very start, immediately followed by "_". */
  function ExtractTimestamp(filename: string): Option<real>
  {
    var i := DigitRun(filename, 0);
    if i == 0 || i == |filename| || filename[i] != '.' then None
    else
      var j := DigitRun(filename, i + 1);
      if j == i + 1 || j == |filename| || filename[j] != '_' then None
      else Some(DecimalValue(filename[..i], filename[i + 1..j]))
  }

  /** The pattern matches with the dot at `i` and the underscore at `j`. */
  predicate TimestampAt(s: string, i: nat, j: nat)
  {
    0 < i && i + 1 < j < |s| && AllDigits(s[..i]) && s[i] == '.' && AllDigits(s[i + 1..j]) && s[j] == '_'
  }

  lemma {:induction false} DigitRunAt(s: string, from: nat, k: nat)
    requires from <= k < |s| && !IsDigit(s[k])
    requires forall m :: from <= m < k ==> IsDigit(s[m])
    ensures DigitRun(s, from) == k
    decreases k - from
  {
    if from < k {
      DigitRunAt(s, from + 1, k);
    }
  }

  /** A timestamp is found exactly when the name matches the pattern, and
      it is the number the matched text denotes. */
  lemma {:induction false} ExtractTimestampSpec(s: string)
    ensures ExtractTimestamp(s).Some? <==> exists i: nat, j: nat :: TimestampAt(s, i, j)
    ensures forall i: nat, j: nat :: TimestampAt(s, i, j) ==> ExtractTimestamp(s) == Some(DecimalValue(s[..i], s[i + 1..j]))
  {
    forall i: nat, j: nat | TimestampAt(s, i, j) ensures ExtractTimestamp(s) == Some(DecimalValue(s[..i], s[i + 1..j])) {
      assert forall m :: 0 <= m < i ==> IsDigit(s[..i][m]);
      DigitRunAt(s, 0, i);
      var t := s[i + 1..j];
      assert forall m :: i + 1 <= m < j ==> s[m] == t[m - i - 1];
      DigitRunAt(s, i + 1, j);
    }
    if ExtractTimestamp(s).Some? {
      var i := DigitRun(s, 0);
      var j := DigitRun(s, i + 1);
      assert TimestampAt(s, i, j);
    }
  }

  /** Reading back a name written as `<whole>.<frac>_<rest>`. */
  lemma {:induction false} TimestampRoundTrip(whole: string, frac: string, rest: string)
    requires whole != [] && frac != [] && AllDigits(whole) && AllDigits(frac)
    ensures ExtractTimestamp(whole + "." + frac + "_" + rest) == Some(DecimalValue(whole, frac))
  {
    var s := whole + "." + frac + "_" + rest;
    var i, j := |whole|, |whole| + 1 + |frac|;
    assert s[..i] == whole && s[i + 1..j] == frac;
    assert TimestampAt(s, i, j);
    ExtractTimestampSpec(s);
  }

  // ---------------------------------------------------------------------------
  // find_closest_sr

  const DefaultTolerance: real := 10.0

  /** How a file scores: its difference from the target timestamp when its
      path contains the model tag, its name carries a timestamp and that
      difference is within the tolerance; `None` when it cannot be chosen. */
  function Score(f: string, timestamp: real, modelTag: string, tolerance: real): Option<real>
  {
    if !Contains(f, modelTag) then None
    else match ExtractTimestamp(Basename(f))
      case None => None
      case Some(ts) => if Abs(ts - timestamp) <= tolerance then Some(Abs(ts - timestamp)) else None
  }

  function Scores(timestamp: real, files: seq<string>, modelTag: string, tolerance: real): (r: seq<Option<real>>)
    ensures |r| == |files| && forall k :: 0 <= k < |files| ==> r[k] == Score(files[k], timestamp, modelTag, tolerance)
  {
    seq(|files|, k requires 0 <= k < |files| => Score(files[k], timestamp, modelTag, tolerance))
  }

  /** The index the scan keeps: a file replaces the one kept so far only
      when its difference is strictly smaller. */
  function Closest(scores: seq<Option<real>>): (r: Option<nat>)
    ensures r.Some? ==> r.value < |scores| && scores[r.value].Some?
  {
    if scores == [] then None
    else
      var best := Closest(scores[..|scores| - 1]);
      var last := scores[|scores| - 1];
      if last.Some? && (best.None? || last.value < scores[best.value].value) then Some(|scores| - 1)
      else best
  }

  /** `find_closest_sr`'s result. */
  function ClosestSr(timestamp: real, srFiles: seq<string>, modelTag: string, tolerance: real): Option<string>
  {
    match Closest(Scores(timestamp, srFiles, modelTag, tolerance))
    case None => None
    case Some(k) => Some(srFiles[k])
  }

  /** The scan's variables hold the file kept so far and its difference. */
  ghost predicate Kept(srFiles: seq<string>, scores: seq<Option<real>>, best: Option<nat>, bestFile: Option<string>, minDiff: Option<real>)
  {
    match best
    case None => bestFile.None? && minDiff.None?
    case Some(b) => b < |srFiles| && b < |scores| && bestFile == Some(srFiles[b]) && minDiff == scores[b]
  }

  /** The scan over `sr_files`. */
  method FindClosestSr(timestamp: real, srFiles: seq<string>, modelTag: string, tolerance: real) returns (bestFile: Option<string>)
    ensures bestFile == ClosestSr(timestamp, srFiles, modelTag, tolerance)
  {
    ghost var scores := Scores(timestamp, srFiles, modelTag, tolerance);
    bestFile := None;
    var minDiff: Option<real> := None;
    ghost var best: Option<nat> := None;
    for i := 0 to |srFiles|
      invariant best == Closest(scores[..i])
      invariant best.Some? ==> best.value < i
      invariant Kept(srFiles, scores, best, bestFile, minDiff)
    {
      ClosestStep(scores, i);
      var f := srFiles[i];
      if !Contains(f, modelTag) {
        continue;
      }
      var ts := ExtractTimestamp(Basename(f));
      if ts.None? {
        continue;
      }
      var diff := Abs(ts.value - timestamp);
      if (minDiff.None? || diff < minDiff.value) && diff <= tolerance {
        bestFile, minDiff := Some(f), Some(diff);
        best := Some(i);
      }
    }
    assert scores[..|srFiles|] == scores;
  }

  /** Nothing is kept exactly when no file scores; otherwise the kept file's
      difference is the least of all scoring files, and strictly less than
      that of every scoring file before it. */
  lemma {:induction false} ClosestSpec(scores: seq<Option<real>>)
    ensures Closest(scores).None? <==> forall k :: 0 <= k < |scores| ==> scores[k].None?
    ensures Closest(scores).Some? ==>
      var b := Closest(scores).value;
      forall k :: 0 <= k < |scores| && scores[k].Some? ==>
        scores[b].value <= scores[k].value && (k < b ==> scores[b].value < scores[k].value)
  {
    if scores != [] {
      var init := scores[..|scores| - 1];
      ClosestSpec(init);
      assert forall k :: 0 <= k < |init| ==> init[k] == scores[k];
    }
  }

  /** One more file in terms of the scan so far. */
  lemma {:induction false} ClosestStep(scores: seq<Option<real>>, i: nat)
    requires i < |scores|
    ensures var best := Closest(scores[..i]);
      Closest(scores[..i + 1]) ==
        if scores[i].Some? && (best.None? || scores[i].value < scores[best.value].value) then Some(i) else best
  {
    assert scores[..i + 1][..i] == scores[..i];
  }
}
