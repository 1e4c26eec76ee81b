/** The parcel finder's date window (the last few calendar months up to a
    given one) and the grouping of merged band files into RGB composites. */
module ParcelFinderUtils {
  import opened Wrappers
  import opened Text
  import opened Assoc

  // ---------------------------------------------------------------------------
  // The month window

  /** `strftime("%B")` in the default locale. */
  const MonthNames: seq<string> := ["January", "February", "March", "April", "May", "June", "July",
                                    "August", "September", "October", "November", "December"]

  /** Python `s.zfill(width)`: zeros on the left up to `width` characters,
      after a leading sign if there is one. */
  function ZFill(s: string, width: nat): (r: string)
    ensures |r| == if |s| >= width then |s| else width
  {
    if |s| >= width then s
    else if s != [] && (s[0] == '+' || s[0] == '-') then [s[0]] + Zeros(width - |s|) + s[1..]
    else Zeros(width - |s|) + s
  }

  function Zeros(n: nat): (r: string)
    ensures |r| == n && forall k :: 0 <= k < n ==> r[k] == '0'
  {
    seq(n, _ => '0')
  }

  /** A month as a count of months from January of year 0. */
  function MonthIndex(year: int, month: int): int
  {
    year * 12 + month - 1
  }

  function YearOf(i: int): int
  {
    i / 12
  }

  /** The month number, 1 to 12. */
  function MonthOf(i: int): (m: int)
    ensures 1 <= m <= 12
  {
    i % 12 + 1
  }

  /** The years `datetime` can hold. */
  predicate InRange(i: int)
  {
    1 <= YearOf(i) <= 9999
  }

  /** What the `%m` directive accepts when it must take the rest of the
      text: one or two digits denoting 1 to 12. */
  predicate MonthText(m: string)
  {
    1 <= |m| <= 2 && AllDigits(m) && 1 <= DigitsValue(m) <= 12
  }

  /** `datetime.strptime(text, "%Y-%m")` as a month index: exactly four
      digits, a dash and a month; year 0 does not exist. */
  function Strptime(text: string): Option<int>
  {
    if |text| < 6 || !AllDigits(text[..4]) || text[4] != '-' || !MonthText(text[5..]) then None
    else if DigitsValue(text[..4]) < 1 then None
    else Some(MonthIndex(DigitsValue(text[..4]), DigitsValue(text[5..])))
  }

  datatype DateError = BadDate | YearOutOfRange

  /** One element of the window: the year and the month's name. */
  function Entry(i: int): (int, string)
  {
    (YearOf(i), MonthNames[MonthOf(i) - 1])
  }

  /** The `n` months from `start` on. */
  function Window(start: int, n: nat): (r: seq<(int, string)>)
    ensures |r| == n && forall k :: 0 <= k < n ==> r[k] == Entry(start + k)
  {
    seq(n, k requires 0 <= k < n => Entry(start + k))
  }

  /** `generate_date_range_last_n_months`: from `monthRange` months before
      the given month up to that month. A start before year 1 or after year
      9999 fails, and so does stepping past December 9999 after the last
      month; a negative `monthRange` starts after the given month and gives
      no months. */
  function DateRange(year: string, month: string, monthRange: int): Result<seq<(int, string)>, DateError>
  {
    match Strptime(year + "-" + ZFill(month, 2))
    case None => Err(BadDate)
    case Some(current) =>
      var start := current - monthRange;
      if !InRange(start) then Err(YearOutOfRange)
      else if start > current then Ok([])
      else if !InRange(current + 1) then Err(YearOutOfRange)
      else Ok(Window(start, current - start + 1))
  }

  /** The loop that steps one month at a time. */
  method GenerateDateRange(year: string, month: string, monthRange: int) returns (r: Result<seq<(int, string)>, DateError>)
    ensures r == DateRange(year, month, monthRange)
  {
    var parsed := Strptime(year + "-" + ZFill(month, 2));
    if parsed.None? {
      return Err(BadDate);
    }
    var currentDate := parsed.value;
    var startDate := currentDate - monthRange;
    if !InRange(startDate) {
      return Err(YearOutOfRange);
    }
    ghost var first := startDate;
    var dateRange: seq<(int, string)> := [];
    while startDate <= currentDate
      invariant first <= startDate && InRange(startDate)
      invariant first <= currentDate ==> startDate <= currentDate + 1
      invariant first > currentDate ==> startDate == first
      invariant dateRange == Window(first, startDate - first)
      decreases currentDate - startDate
    {
      dateRange := dateRange + [Entry(startDate)];
      if !InRange(startDate + 1) {
        YearMonotone(startDate + 1, currentDate + 1);
        return Err(YearOutOfRange);
      }
      startDate := startDate + 1;
    }
    return Ok(dateRange);
  }

  lemma {:induction false} YearMonotone(i: int, j: int)
    requires i <= j
    ensures YearOf(i) <= YearOf(j)
  {
  }

  /** The month after a named month. */
  function Successor(e: (int, string)): (int, string)
  {
    var (y, name) := e;
    if name == "January" then (y, "February")
    else if name == "February" then (y, "March")
    else if name == "March" then (y, "April")
    else if name == "April" then (y, "May")
    else if name == "May" then (y, "June")
    else if name == "June" then (y, "July")
    else if name == "July" then (y, "August")
    else if name == "August" then (y, "September")
    else if name == "September" then (y, "October")
    else if name == "October" then (y, "November")
    else if name == "November" then (y, "December")
    else if name == "December" then (y + 1, "January")
    else e
  }

  /** One step of the index is one calendar month, the year moving on after
      December. */
  lemma {:induction false} EntryNext(i: int)
    ensures Entry(i + 1) == Successor(Entry(i))
  {
    NextIndex(i);
    SuccessorOf(YearOf(i), MonthOf(i));
  }

  lemma {:induction false} NextIndex(i: int)
    ensures MonthOf(i) < 12 ==> YearOf(i + 1) == YearOf(i) && MonthOf(i + 1) == MonthOf(i) + 1
    ensures MonthOf(i) == 12 ==> YearOf(i + 1) == YearOf(i) + 1 && MonthOf(i + 1) == 1
  {
    var q, m := i / 12, i % 12;
    assert i == 12 * q + m;
    if m == 11 {
      assert i + 1 == 12 * (q + 1) + 0;
    } else {
      assert i + 1 == 12 * q + (m + 1);
    }
  }

  lemma {:induction false} SuccessorOf(y: int, m: int)
    requires 1 <= m <= 12
    ensures Successor((y, MonthNames[m - 1])) == if m == 12 then (y + 1, MonthNames[0]) else (y, MonthNames[m])
  {
  }

  /** What a successful parse of the year and month says about them. */
  lemma {:induction false} DateParsed(year: string, month: string)
    requires Strptime(year + "-" + ZFill(month, 2)).Some?
    ensures |year| == 4 && AllDigits(year) && MonthText(ZFill(month, 2))
    ensures Strptime(year + "-" + ZFill(month, 2)).value == MonthIndex(DigitsValue(year), DigitsValue(ZFill(month, 2)))
  {
    var z := ZFill(month, 2);
    var text := year + "-" + z;
    assert text[|year|] == '-';
    assert text[..4] == year && text[5..] == z;
  }

  /** The window of `n + 1` months ending with month `m` of year `y`: the
      first is `n` months before it, the last is that year and month, and
      each is the calendar month after the one before it. */
  lemma {:induction false} WindowShape(y: int, m: int, n: nat)
    requires 1 <= m <= 12
    ensures var w := Window(MonthIndex(y, m) - n, n + 1);
      w[0] == Entry(MonthIndex(y, m) - n) && w[n] == (y, MonthNames[m - 1]) && Consecutive(w)
  {
    WindowEnds(MonthIndex(y, m) - n, n, y, m);
    WindowSteps(MonthIndex(y, m) - n, n + 1);
  }

  /** A successful window for a non-negative range is the `monthRange + 1`
      months ending with the given year and month, which parsed as four
      digits and a month 1 to 12. */
  lemma {:induction false} DateRangeWindow(year: string, month: string, monthRange: int)
    requires monthRange >= 0 && DateRange(year, month, monthRange).Ok?
    ensures |year| == 4 && AllDigits(year) && MonthText(ZFill(month, 2))
    ensures DateRange(year, month, monthRange) ==
      Ok(Window(MonthIndex(DigitsValue(year), DigitsValue(ZFill(month, 2))) - monthRange, monthRange + 1))
  {
    DateParsed(year, month);
  }

  lemma {:induction false} WindowEnds(start: int, n: nat, y: int, m: int)
    requires 1 <= m <= 12 && start + n == MonthIndex(y, m)
    ensures Window(start, n + 1)[n] == (y, MonthNames[m - 1])
  {
    assert MonthIndex(y, m) == 12 * y + (m - 1);
  }

  /** Each month is the calendar month after the one before it. */
  predicate Consecutive(r: seq<(int, string)>)
  {
    forall k :: 0 <= k < |r| - 1 ==> r[k + 1] == Successor(r[k])
  }

  lemma {:induction false} WindowSteps(start: int, n: nat)
    ensures Consecutive(Window(start, n))
  {
    forall k | 0 <= k < n - 1 ensures Window(start, n)[k + 1] == Successor(Window(start, n)[k]) {
      EntryNext(start + k);
    }
  }

  /** A negative range starts after the given month and yields no month. */
  lemma {:induction false} NegativeRange(year: string, month: string, monthRange: int)
    requires monthRange < 0 && DateRange(year, month, monthRange).Ok?
    ensures DateRange(year, month, monthRange).value == []
  {
  }

  /** The year must be four digits and the month one or two digits
      denoting 1 to 12, with or without its leading zero. */
  lemma {:induction false} DateRangeParses(year: string, month: string, monthRange: int)
    requires |year| == 4 && AllDigits(year) && DigitsValue(year) >= 1
    requires 1 <= |month| <= 2 && AllDigits(month)
    ensures DateRange(year, month, monthRange).Err? && DateRange(year, month, monthRange).error == BadDate
      <==> !(1 <= DigitsValue(month) <= 12)
  {
    var z := ZFill(month, 2);
    var text := year + "-" + z;
    assert text[..4] == year && text[4] == '-' && text[5..] == z;
    ZFillDigits(month);
  }

  /** A month given as "2" or as "02" gives the same window. */
  lemma {:induction false} LeadingZero(year: string, d: char, monthRange: int)
    requires IsDigit(d)
    ensures DateRange(year, [d], monthRange) == DateRange(year, ['0', d], monthRange)
  {
    assert ZFill([d], 2) == ['0', d];
  }

  lemma {:induction false} ZFillDigits(month: string)
    requires 1 <= |month| <= 2 && AllDigits(month)
    ensures |ZFill(month, 2)| == 2 && AllDigits(ZFill(month, 2)) && DigitsValue(ZFill(month, 2)) == DigitsValue(month)
  {
    if |month| == 1 {
      var z := ZFill(month, 2);
      assert z == ['0', month[0]];
      assert z[..1] == ['0'];
      assert month[..0] == [];
    }
  }

  // ---------------------------------------------------------------------------
  // Band files grouped by month

  /** A merged band file's (year, month) and band: parts 1 and 2, and parts
      3 and 4 joined by "_", of its name without extension split on "_";
      `None` when there are fewer than five parts. */
  function BandKey(path: string): Option<((string, string), string)>
  {
    var parts := Split(StripExt(Basename(path)), "_");
    if |parts| < 5 then None else Some(((parts[1], parts[2]), parts[3] + "_" + parts[4]))
  }

  /** A file name with fewer than five parts raises IndexError. */
  datatype GroupError = TooFewParts(path: string)

  type Grouped = Assoc<(string, string), Assoc<string, string>>

  /** `grouped`: per (year, month), in first-seen order, the file of each
      band, a later file replacing an earlier one. The first file with too
      few parts stops it. */
  function GroupByMonth(paths: seq<string>): Result<Grouped, GroupError>
  {
    if paths == [] then Ok([])
    else
      var file := paths[|paths| - 1];
      match GroupByMonth(paths[..|paths| - 1])
      case Err(e) => Err(e)
      case Ok(grouped) =>
        match BandKey(file)
        case None => Err(TooFewParts(file))
        case Some(key) => Ok(PutIn(grouped, key.0, key.1, file))
  }

  /** The grouping loop at the start of `rgb`. */
  method GroupBands(mergedPaths: seq<string>) returns (r: Result<Grouped, GroupError>)
    ensures r == GroupByMonth(mergedPaths)
  {
    var grouped: Grouped := [];
    for i := 0 to |mergedPaths|
      invariant GroupByMonth(mergedPaths[..i]) == Ok(grouped)
    {
      var file := mergedPaths[i];
      var key := BandKey(file);
      GroupByMonthStep(mergedPaths, i);
      if key.None? {
        GroupByMonthFailsEarly(mergedPaths, i + 1);
        return Err(TooFewParts(file));
      }
      var id := key.value.0;
      var band := key.value.1;
      ghost var before := grouped;
      if !HasKey(grouped, id) {
        grouped := Put(grouped, id, []);
      }
      grouped := Put(grouped, id, Put(GetOr(grouped, id, []), band, file));
      CreateThenPutIn(before, id, band, file);
    }
    assert mergedPaths[..|mergedPaths|] == mergedPaths;
    r := Ok(grouped);
  }

  /** One more file in terms of the grouping so far. */
  lemma {:induction false} GroupByMonthStep(paths: seq<string>, i: nat)
    requires i < |paths|
    ensures GroupByMonth(paths[..i + 1]) ==
      match GroupByMonth(paths[..i])
      case Err(e) => Err(e)
      case Ok(grouped) =>
        match BandKey(paths[i])
        case None => Err(TooFewParts(paths[i]))
        case Some(key) => Ok(PutIn(grouped, key.0, key.1, paths[i]))
  {
    assert paths[..i + 1][..i] == paths[..i];
  }

  lemma {:induction false} GroupByMonthFailsEarly(paths: seq<string>, n: nat)
    requires n <= |paths| && GroupByMonth(paths[..n]).Err?
    ensures GroupByMonth(paths) == GroupByMonth(paths[..n])
    decreases |paths| - n
  {
    if n < |paths| {
      GroupByMonthStep(paths, n);
      GroupByMonthFailsEarly(paths, n + 1);
    } else {
      assert paths[..n] == paths;
    }
  }

  /** The last file, in list order, with the given month and band. */
  function LastFile(paths: seq<string>, id: (string, string), band: string): (r: Option<string>)
    ensures r.Some? ==> r.value in paths && BandKey(r.value) == Some((id, band))
  {
    if paths == [] then None
    else if BandKey(paths[|paths| - 1]) == Some((id, band)) then Some(paths[|paths| - 1])
    else LastFile(paths[..|paths| - 1], id, band)
  }

  /** The months the files carry. */
  function Months(paths: seq<string>): set<(string, string)>
  {
    if paths == [] then {}
    else
      var key := BandKey(paths[|paths| - 1]);
      Months(paths[..|paths| - 1]) + if key.Some? then {key.value.0} else {}
  }

  /** Each month some file carries has a group, and no other month does. */
  lemma {:induction false} GroupByMonthHas(paths: seq<string>, id: (string, string))
    requires GroupByMonth(paths).Ok?
    ensures HasKey(GroupByMonth(paths).value, id) <==> id in Months(paths)
  {
    if paths != [] {
      var init := paths[..|paths| - 1];
      var file := paths[|paths| - 1];
      GroupByMonthHas(init, id);
      PutInHas(GroupByMonth(init).value, BandKey(file).value.0, BandKey(file).value.1, file, id);
    }
  }

  /** In a month's group, each band holds the last file with that month and
      band. */
  lemma {:induction false} GroupByMonthLast(paths: seq<string>, id: (string, string), band: string)
    requires GroupByMonth(paths).Ok?
    ensures Get(GetOr(GroupByMonth(paths).value, id, []), band) == LastFile(paths, id, band)
  {
    if paths != [] {
      var init := paths[..|paths| - 1];
      var file := paths[|paths| - 1];
      GroupByMonthLast(init, id, band);
      var grouped := GroupByMonth(init).value;
      var key := BandKey(file).value;
      GetPutIn(grouped, key.0, key.1, file, id, band);
    }
  }

  // ---------------------------------------------------------------------------
  // Complete groups

  /** The three bands an RGB composite needs. */
  predicate Complete(bands: Assoc<string, string>)
  {
    HasKey(bands, "B02_20m") && HasKey(bands, "B03_20m") && HasKey(bands, "B04_20m")
  }

  /** A composite written for one month: its path, year and month, and the
      files of channels 1, 2 and 3 (bands 04, 03 and 02). */
  datatype RgbTif = RgbTif(path: string, year: string, month: string, channels: seq<string>)

  function TifOf(outDir: string, group: ((string, string), Assoc<string, string>)): RgbTif
    requires Complete(group.1)
  {
    var ((year, month), bands) := group;
    RgbTif(PathJoin(outDir, "RGB_" + year + "_" + month + ".tif"), year, month,
           [Get(bands, "B04_20m").value, Get(bands, "B03_20m").value, Get(bands, "B02_20m").value])
  }

  /** The composites of the complete groups, in group order; an incomplete
      group is skipped. */
  function RgbTifs(outDir: string, grouped: Grouped): (r: seq<RgbTif>)
    ensures forall t :: t in r ==> exists i :: 0 <= i < |grouped| && Complete(grouped[i].1) && t == TifOf(outDir, grouped[i])
    ensures forall i :: 0 <= i < |grouped| && Complete(grouped[i].1) ==> TifOf(outDir, grouped[i]) in r
  {
    if grouped == [] then []
    else
      var init := grouped[..|grouped| - 1];
      var last := grouped[|grouped| - 1];
      var r := RgbTifs(outDir, init) + if Complete(last.1) then [TifOf(outDir, last)] else [];
      assert forall i :: 0 <= i < |init| ==> init[i] == grouped[i];
      r
  }

  /** The loop over the groups that writes one composite per complete
      group (the raster reads and writes themselves are not modelled). */
  method ComposeRgb(outDir: string, grouped: Grouped) returns (rgbTifPaths: seq<RgbTif>)
    ensures rgbTifPaths == RgbTifs(outDir, grouped)
  {
    rgbTifPaths := [];
    for i := 0 to |grouped|
      invariant rgbTifPaths == RgbTifs(outDir, grouped[..i])
    {
      assert grouped[..i + 1][..i] == grouped[..i];
      var ((year, monthNumber), bandsDict) := grouped[i];
      var red := Get(bandsDict, "B02_20m");
      var green := Get(bandsDict, "B03_20m");
      var blue := Get(bandsDict, "B04_20m");
      if red.None? || green.None? || blue.None? {
        continue;
      }
      var nombreTif := PathJoin(outDir, "RGB_" + year + "_" + monthNumber + ".tif");
      rgbTifPaths := rgbTifPaths + [RgbTif(nombreTif, year, monthNumber, [blue.value, green.value, red.value])];
    }
    assert grouped[..|grouped|] == grouped;
  }
}
