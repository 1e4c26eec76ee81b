/** The payment estimate: one row per group with both regions' payments,
    and a summary whose totals use the Peninsular rates only. The JSON
    rules text and the land-use text are taken as already decoded. */
module EcoschemeReport {
  import opened Wrappers
  import opened Text
  import opened Assoc
  import Sorting
  import opened DecimalRounding
  import opened EcoschemeRules
  import opened EcoschemeSelection
  import opened EcoschemeAssignment
  import opened EcoschemeGrouping

  /** The rate the payments of a group use: the numeric base rate, or 0 for
      a text holding '/'. Any other text cannot be multiplied by an area
      (`TypeError`). */
  function AppliedRate(spec: RateSpec, area: real): (r: Result<real, Error>)
  {
    match BaseRate(spec, area)
    case Amount(v) => Ok(v)
    case Wording(t) => if Contains(t, "/") then Ok(0.0) else Err(TypeError)
  }

  /** The report pays a scheme without the bonus at the very rate the
      selection compared, and a pluriannual scheme with a numeric rate at
      25 euros per hectare less than the selection compared. */
  lemma {:induction false} RateAgreesWithSelection(s: Scheme, spec: RateSpec, area: real)
    ensures !s.pluriannual ==> AppliedRate(spec, area) == PaymentPerHa(s, spec, area)
    ensures s.pluriannual && BaseRate(spec, area).Amount? ==>
      AppliedRate(spec, area).Ok? && PaymentPerHa(s, spec, area).Ok? &&
      PaymentPerHa(s, spec, area).value == AppliedRate(spec, area).value + PluriannualityBonus
    ensures AppliedRate(spec, area).Err? ==> PaymentPerHa(s, spec, area).Err?
  {
  }

  /** One region's figures for a group. */
  datatype RegionPayment = RegionPayment(appliedRate: real, basePayment: real, withPluriannuality: real, applicable: string)

  function ApplicableText(t: Tier): string
  {
    match t
    case FlatRate => "Yes (Flat Rate)"
    case Tier1 => "Yes (Tier 1 Applied)"
    case Tier2 => "Yes (Tier 2 Applied)"
  }

  /** The payments of one region for a group's area: the rate rounded to 6
      places, and the base payment and the payment with the bonus rounded
      to cents. */
  function CalcPayments(area: Hectares, spec: RateSpec, pluri: bool): (r: Result<RegionPayment, Error>)
    ensures r.Err? <==> AppliedRate(spec, area).Err?
  {
    match AppliedRate(spec, area)
    case Err(e) => Err(e)
    case Ok(rate) => Ok(Payments(area, rate, pluri, TierFor(spec, area)))
  }

  /** The figures for an area paid at `rate`. */
  function Payments(area: Hectares, rate: real, pluri: bool, tier: Tier): (p: RegionPayment)
    ensures IsQuantized(p.appliedRate, 6) && IsQuantized(p.basePayment, 2) && IsQuantized(p.withPluriannuality, 2)
  {
    var base := area * rate;
    var withBonus := if pluri then area * (rate + PluriannualityBonus) else base;
    RegionPayment(HalfUp(rate, 6), HalfUp(base, 2), HalfUp(withBonus, 2), ApplicableText(tier))
  }

  /** The payments are the exact amounts rounded to the nearest unit of
      their last place: the base payment is within half a cent of area
      times rate, the payment with the bonus within half a cent of area
      times (rate + 25), and the rate within half a millionth. */
  lemma {:induction false} PaymentsSpec(area: Hectares, rate: real, pluri: bool, tier: Tier)
    ensures var p := Payments(area, rate, pluri, tier);
      Abs(Scaled(p.basePayment, 2) - Scaled(area * rate, 2)) <= 0.5 &&
      (pluri ==> Abs(Scaled(p.withPluriannuality, 2) - Scaled(area * (rate + PluriannualityBonus), 2)) <= 0.5) &&
      (!pluri ==> p.withPluriannuality == p.basePayment) &&
      Abs(Scaled(p.appliedRate, 6) - Scaled(rate, 6)) <= 0.5
  {
    HalfUpError(area * rate, 2);
    HalfUpError(area * (rate + PluriannualityBonus), 2);
    HalfUpError(rate, 6);
  }

  /** With the bonus a group is never paid less than without it, and the
      difference is 25 euros per hectare up to a cent of rounding. */
  lemma {:induction false} BonusPayment(area: Hectares, rate: real, tier: Tier)
    ensures var p := Payments(area, rate, true, tier);
      p.withPluriannuality >= p.basePayment &&
      Abs(p.withPluriannuality - p.basePayment - area * PluriannualityBonus) <= 0.01
  {
    Distribute(area, rate, PluriannualityBonus);
    RoundedGap(area * rate, area * PluriannualityBonus);
  }

  lemma {:induction false} Distribute(a: real, x: real, y: real)
    requires a >= 0.0 && y >= 0.0
    ensures a * (x + y) == a * x + a * y && a * y >= 0.0
  {
  }

  /** Adding a non-negative amount before rounding to cents moves the
      result up by that amount, give or take a cent. */
  lemma {:induction false} RoundedGap(x: real, d: real)
    requires d >= 0.0
    ensures HalfUp(x + d, 2) >= HalfUp(x, 2)
    ensures Abs(HalfUp(x + d, 2) - HalfUp(x, 2) - d) <= 0.01
  {
    HalfUpMonotone(x, x + d, 2);
    HalfUpError(x, 2);
    HalfUpError(x + d, 2);
    CentError(HalfUp(x, 2), x);
    CentError(HalfUp(x + d, 2), x + d);
  }

  lemma {:induction false} CentError(r: real, x: real)
    requires Abs(Scaled(r, 2) - Scaled(x, 2)) <= 0.5
    ensures Abs(r - x) <= 0.005
  {
    assert Scale(2) == 100.0;
    assert Scaled(r, 2) - Scaled(x, 2) == (r - x) * 100.0;
  }

  /** A row of the estimate. The non-eligible row has no subtype and no
      payments ("N/A" in every payment field). */
  datatype Row = Row(id: string, name: string, subtype: Option<string>, landUseClass: string,
                     totalArea: real, peninsular: Option<RegionPayment>, insular: Option<RegionPayment>)

  /** The codes among `codes` that are parsed land uses, in order. */
  function InParsed(parsed: Assoc<string, Hectares>, codes: seq<string>): (r: seq<string>)
    ensures forall c :: c in r <==> c in codes && HasKey(parsed, c)
  {
    if codes == [] then []
    else InParsed(parsed, codes[..|codes| - 1]) + if HasKey(parsed, codes[|codes| - 1]) then [codes[|codes| - 1]] else []
  }

  /** Filtering out what is not parsed keeps codes that all are parsed. */
  lemma {:induction false} InParsedAll(parsed: Assoc<string, Hectares>, codes: seq<string>)
    requires forall c :: c in codes ==> HasKey(parsed, c)
    ensures InParsed(parsed, codes) == codes
  {
    if codes != [] {
      InParsedAll(parsed, codes[..|codes| - 1]);
      assert codes == codes[..|codes| - 1] + [codes[|codes| - 1]];
    }
  }

  /** The non-eligible row: its land uses in code order, and its area to 4
      places. */
  function NonEligibleRow(parsed: Assoc<string, Hectares>, g: Group): Row
  {
    Row("N/A", NonEligible, None, Join(InParsed(parsed, Sorting.Sort(g.codes)), ", "),
        HalfUp(g.area, 4), None, None)
  }

  /** "TA, VI (32.09 ha)": the land uses in code order and the area to
      cents. */
  function LandUseClass(g: Group): string
  {
    Join(Sorting.Sort(g.codes), ", ") + " (" + Fixed2(HalfUp(g.area, 2)) + " ha)"
  }

  /** Both regions' payments of a scheme group; a region without rates
      fails with `KeyError`, Peninsular first. */
  function SchemePayments(g: Group, s: Scheme): (r: Result<(RegionPayment, RegionPayment), Error>)
    ensures r.Err? <==>
      RateOf(s, Peninsular).None? || CalcPayments(g.area, RateOf(s, Peninsular).value, s.pluriannual).Err? ||
      RateOf(s, Insular).None? || CalcPayments(g.area, RateOf(s, Insular).value, s.pluriannual).Err?
  {
    match RateOf(s, Peninsular)
    case None => Err(KeyError)
    case Some(pen) =>
      match CalcPayments(g.area, pen, s.pluriannual)
      case Err(e) => Err(e)
      case Ok(p) =>
        match RateOf(s, Insular)
        case None => Err(KeyError)
        case Some(ins) =>
          match CalcPayments(g.area, ins, s.pluriannual)
          case Err(e) => Err(e)
          case Ok(i) => Ok((p, i))
  }

  /** What the loop keeps of one group: the group alone for
      "Non-Eligible", the scheme and both regions' payments otherwise. */
  datatype Line =
    | NonEligibleLine(group: Group)
    | SchemeLine(group: Group, scheme: Scheme, peninsular: RegionPayment, insular: RegionPayment)

  /** The row a line is listed as. */
  function RowOf(parsed: Assoc<string, Hectares>, line: Line): (r: Row)
    ensures r.peninsular.Some? <==> line.SchemeLine?
    ensures line.SchemeLine? ==> r.id == line.scheme.id && r.peninsular == Some(line.peninsular)
  {
    match line
    case NonEligibleLine(g) => NonEligibleRow(parsed, g)
    case SchemeLine(g, s, p, i) => Row(s.id, s.name, Some(s.subtype), LandUseClass(g), HalfUp(g.area, 4), Some(p), Some(i))
  }

  /** What the loop over the groups has gathered so far: the rows, the
      Peninsular totals without and with the bonus, the area of
      pluriannual groups and the scheme identifiers. */
  datatype Tally = Tally(lines: seq<Line>, without: real, with: real, pluriArea: real, ids: seq<string>)

  const NoTally := Tally([], 0.0, 0.0, 0.0, [])

  /** One group's contribution; the group is a scheme group unless its key
      is "Non-Eligible". */
  function TallyStep(parsed: Assoc<string, Hectares>, groups: Assoc<string, Group>, t: Tally, key: string): Result<Tally, Error>
  {
    match Get(groups, key)
    case None => Err(KeyError)
    case Some(g) =>
      if key == NonEligible then Ok(t.(lines := t.lines + [NonEligibleLine(g)]))
      else
        match g.head
        case NonEligibleHead => Err(KeyError)
        case SchemeHead(s) =>
          match SchemePayments(g, s)
          case Err(e) => Err(e)
          case Ok((p, i)) =>
            Ok(Tally(t.lines + [SchemeLine(g, s, p, i)],
                     t.without + p.basePayment,
                     t.with + p.withPluriannuality,
                     t.pluriArea + if s.pluriannual then g.area else 0.0,
                     t.ids + [s.id]))
  }

  /** The groups' contributions in key order; the first failure stops it. */
  function TallyAll(parsed: Assoc<string, Hectares>, groups: Assoc<string, Group>, keys: seq<string>): Result<Tally, Error>
  {
    if keys == [] then Ok(NoTally)
    else
      match TallyAll(parsed, groups, keys[..|keys| - 1])
      case Err(e) => Err(e)
      case Ok(t) => TallyStep(parsed, groups, t, keys[|keys| - 1])
  }

  /** The keys other than "Non-Eligible", in order. */
  function EligibleKeys(keys: seq<string>): (r: seq<string>)
    ensures NonEligible !in r
    ensures forall k :: k in r <==> k in keys && k != NonEligible
    ensures multiset(r) == multiset(keys)[NonEligible := 0]
  {
    if keys == [] then []
    else
      var init := keys[..|keys| - 1];
      var k := keys[|keys| - 1];
      assert keys == init + [k];
      EligibleKeys(init) + if k != NonEligible then [k] else []
  }

  /** The order the groups are reported in: the scheme keys sorted, then
      "Non-Eligible" when there is such a group. */
  function ReportKeys(groups: Assoc<string, Group>): seq<string>
  {
    Sorting.Sort(EligibleKeys(Keys(groups))) + if HasKey(groups, NonEligible) then [NonEligible] else []
  }

  /** Every group is reported once: the report order is a permutation of
      the keys, with the scheme keys sorted and "Non-Eligible" last. */
  lemma {:induction false} ReportKeysSpec(groups: Assoc<string, Group>)
    requires DistinctKeys(groups)
    ensures multiset(ReportKeys(groups)) == multiset(Keys(groups))
    ensures var keys := ReportKeys(groups);
      var n := if HasKey(groups, NonEligible) then |keys| - 1 else |keys|;
      0 <= n <= |keys| && Sorting.Sorted(keys[..n]) && NonEligible !in keys[..n] &&
      (n < |keys| ==> keys[n] == NonEligible)
  {
    var ks := Keys(groups);
    var sorted := Sorting.Sort(EligibleKeys(ks));
    var keys := ReportKeys(groups);
    assert NonEligible !in sorted by {
      assert NonEligible !in multiset(EligibleKeys(ks));
    }
    NonEligibleCount(groups);
    if HasKey(groups, NonEligible) {
      assert keys[..|keys| - 1] == sorted;
      assert multiset(keys) == multiset(sorted) + multiset{NonEligible};
    } else {
      assert keys[..|keys|] == sorted;
    }
  }

  /** "Non-Eligible" occurs among distinct keys once when it is a key, and
      not at all otherwise. */
  lemma {:induction false} NonEligibleCount(groups: Assoc<string, Group>)
    requires DistinctKeys(groups)
    ensures multiset(Keys(groups))[NonEligible] == if HasKey(groups, NonEligible) then 1 else 0
  {
    var ks := Keys(groups);
    if HasKey(groups, NonEligible) {
      var i := Find(groups, NonEligible).value;
      assert ks[i] == NonEligible;
      KeyCount(groups, NonEligible, i);
    } else {
      assert NonEligible !in ks by {
        forall j | 0 <= j < |ks| ensures ks[j] != NonEligible {
          assert ks[j] == groups[j].0;
        }
      }
    }
  }

  /** A key that stands at position `i` of distinct keys occurs once. */
  lemma {:induction false} KeyCount(groups: Assoc<string, Group>, k: string, i: nat)
    requires DistinctKeys(groups) && i < |groups| && groups[i].0 == k
    ensures multiset(Keys(groups))[k] == 1
    decreases |groups|
  {
    var n := |groups|;
    var init := groups[..n - 1];
    assert Keys(groups) == Keys(init) + [groups[n - 1].0];
    if i == n - 1 {
      assert k !in Keys(init) by {
        forall j | 0 <= j < |init| ensures Keys(init)[j] != k { assert init[j] == groups[j]; }
      }
    } else {
      KeyCount(init, k, i);
    }
  }

  /** The rows of the lines, in order. */
  function Rows(parsed: Assoc<string, Hectares>, lines: seq<Line>): (r: seq<Row>)
    ensures |r| == |lines| && forall i :: 0 <= i < |lines| ==> r[i] == RowOf(parsed, lines[i])
  {
    MapSeq(line => RowOf(parsed, line), lines)
  }

  /** The summary of the estimate, on Peninsular rates. */
  datatype Summary = Summary(applicable: seq<string>, totalWithout: real, totalWith: real,
                             bonusTotal: real, pluriArea: real)

  datatype Report = Report(totalParcelArea: real, rows: seq<Row>, summary: Summary)

  /** The lines listed as rows, the totals rounded to cents, the parcel
      area to 4 places, the bonus total and the pluriannual area to cents,
      and the scheme identifiers sorted without repetition. */
  function Finish(parsed: Assoc<string, Hectares>, totalArea: real, t: Tally): Report
  {
    Report(HalfUp(totalArea, 4), Rows(parsed, t.lines), SummaryOf(t))
  }

  function SummaryOf(t: Tally): Summary
  {
    Summary(Sorting.SortedSet(t.ids), HalfUp(t.without, 2), HalfUp(t.with, 2),
            HalfUp(t.with - t.without, 2), HalfUp(t.pluriArea, 2))
  }

  function ReportOf(parsed: Assoc<string, Hectares>, groups: Assoc<string, Group>, totalArea: real): Result<Report, Error>
  {
    match TallyAll(parsed, groups, ReportKeys(groups))
    case Err(e) => Err(e)
    case Ok(t) => Ok(Finish(parsed, totalArea, t))
  }

  /** The report of the groups in report order. */
  method BuildReport(parsed: Assoc<string, Hectares>, groups: Assoc<string, Group>, totalArea: real)
    returns (r: Result<Report, Error>)
    ensures r == ReportOf(parsed, groups, totalArea)
  {
    var tally := TallyGroups(parsed, groups, ReportKeys(groups));
    if tally.Err? {
      return Err(tally.error);
    }
    r := Ok(Finish(parsed, totalArea, tally.value));
  }

  /** The loop over the groups in the order of `keys`. */
  method TallyGroups(parsed: Assoc<string, Hectares>, groups: Assoc<string, Group>, keys: seq<string>)
    returns (r: Result<Tally, Error>)
    ensures r == TallyAll(parsed, groups, keys)
  {
    var t := NoTally;
    for i := 0 to |keys|
      invariant TallyAll(parsed, groups, keys[..i]) == Ok(t)
    {
      assert keys[..i + 1][..i] == keys[..i];
      var next := TallyGroup(parsed, groups, t, keys[i]);
      if next.Err? {
        TallyAllFailsEarly(parsed, groups, keys, i + 1);
        return Err(next.error);
      }
      t := next.value;
    }
    assert keys[..|keys|] == keys;
    r := Ok(t);
  }

  /** One pass of the loop: the row of the group at `key` and what it
      adds to the totals. */
  method TallyGroup(parsed: Assoc<string, Hectares>, groups: Assoc<string, Group>, t: Tally, key: string)
    returns (r: Result<Tally, Error>)
    ensures r == TallyStep(parsed, groups, t, key)
  {
    var res := Get(groups, key);
    if res.None? {
      return Err(KeyError);
    }
    var g := res.value;
    if key == NonEligible {
      return Ok(t.(lines := t.lines + [NonEligibleLine(g)]));
    }
    if g.head.NonEligibleHead? {
      return Err(KeyError);
    }
    var s := g.head.scheme;
    var payments := SchemePayments(g, s);
    if payments.Err? {
      return Err(payments.error);
    }
    var (pen, ins) := payments.value;
    var pluriArea := t.pluriArea;
    if s.pluriannual {
      pluriArea := pluriArea + g.area;
    }
    r := Ok(Tally(t.lines + [SchemeLine(g, s, pen, ins)], t.without + pen.basePayment, t.with + pen.withPluriannuality,
                  pluriArea, t.ids + [s.id]));
  }

  /** A failure on a prefix of the keys is the failure of the whole. */
  lemma {:induction false} TallyAllFailsEarly(parsed: Assoc<string, Hectares>, groups: Assoc<string, Group>, keys: seq<string>, j: nat)
    requires j <= |keys| && TallyAll(parsed, groups, keys[..j]).Err?
    ensures TallyAll(parsed, groups, keys) == TallyAll(parsed, groups, keys[..j])
    decreases |keys| - j
  {
    if j < |keys| {
      assert keys[..|keys| - 1][..j] == keys[..j];
      TallyAllFailsEarly(parsed, groups, keys[..|keys| - 1], j);
    } else {
      assert keys[..j] == keys;
    }
  }

  /** What a tally keeps true from group to group: totals in whole cents,
      never less with the bonus than without it, and a non-negative
      pluriannual area. */
  predicate TallyOk(t: Tally)
  {
    IsQuantized(t.without, 2) && IsQuantized(t.with, 2) && t.without <= t.with && t.pluriArea >= 0.0
  }

  /** One group's contribution keeps the tally consistent. */
  lemma {:induction false} TallyStepOk(parsed: Assoc<string, Hectares>, groups: Assoc<string, Group>, t: Tally, key: string)
    requires TallyOk(t) && TallyStep(parsed, groups, t, key).Ok?
    ensures TallyOk(TallyStep(parsed, groups, t, key).value)
  {
    var g := Get(groups, key).value;
    if key != NonEligible {
      var s := g.head.scheme;
      var spec := RateOf(s, Peninsular).value;
      var rate := AppliedRate(spec, g.area).value;
      PeninsularPayments(g, s, spec, rate);
      TallyAdd(t, g.area, rate, s.pluriannual, TierFor(spec, g.area));
    }
  }

  /** What a scheme row adds keeps the tally consistent. */
  lemma {:induction false} PeninsularPayments(g: Group, s: Scheme, spec: RateSpec, rate: real)
    requires SchemePayments(g, s).Ok? && RateOf(s, Peninsular) == Some(spec) && AppliedRate(spec, g.area) == Ok(rate)
    ensures SchemePayments(g, s).value.0 == Payments(g.area, rate, s.pluriannual, TierFor(spec, g.area))
  {
  }

  /** Adding a scheme group's Peninsular payments keeps a tally consistent. */
  lemma {:induction false} TallyAdd(t: Tally, area: Hectares, rate: real, pluri: bool, tier: Tier)
    requires TallyOk(t)
    ensures var p := Payments(area, rate, pluri, tier);
      TallyOk(Tally(t.lines, t.without + p.basePayment, t.with + p.withPluriannuality,
                    t.pluriArea + (if pluri then area else 0.0), t.ids))
  {
    var p := Payments(area, rate, pluri, tier);
    QuantizedSum(t.without, p.basePayment, 2);
    QuantizedSum(t.with, p.withPluriannuality, 2);
    if pluri {
      BonusPayment(area, rate, tier);
    }
  }

  /** `t'` is `t` with the line of `key` added: a scheme line, whose
      scheme's identifier is gathered too, for a scheme key, a line
      without payments and no identifier for "Non-Eligible". */
  predicate LineAdded(t: Tally, t': Tally, key: string)
  {
    |t'.lines| == |t.lines| + 1 && t'.lines[..|t.lines|] == t.lines &&
    (t'.lines[|t.lines|].SchemeLine? <==> key != NonEligible) &&
    t'.ids == if key == NonEligible then t.ids else t.ids + [t'.lines[|t.lines|].scheme.id]
  }

  /** One group's contribution adds exactly the line of its key; the line
      of "Non-Eligible" is its group. */
  lemma {:induction false} TallyStepLine(parsed: Assoc<string, Hectares>, groups: Assoc<string, Group>, t: Tally, key: string)
    requires TallyStep(parsed, groups, t, key).Ok?
    ensures var t' := TallyStep(parsed, groups, t, key).value;
      HasKey(groups, key) && LineAdded(t, t', key) &&
      (key == NonEligible ==> t'.lines[|t.lines|] == NonEligibleLine(Get(groups, key).value)) &&
      (key != NonEligible ==> GroupLine(groups, key, t'.lines[|t.lines|]))
  {
  }

  /** The line of scheme key `key`: its group, headed by a scheme, with
      both regions' payments of that group under that scheme. */
  predicate GroupLine(groups: Assoc<string, Group>, key: string, line: Line)
  {
    HasKey(groups, key) &&
    var g := Get(groups, key).value;
    g.head.SchemeHead? && SchemePayments(g, g.head.scheme).Ok? &&
    line == SchemeLine(g, g.head.scheme, SchemePayments(g, g.head.scheme).value.0, SchemePayments(g, g.head.scheme).value.1)
  }

  /** The lines of a tally match its keys: one line per key, in order, a
      scheme line exactly when the key is not "Non-Eligible", and the
      identifiers are the schemes of the scheme lines. */
  ghost predicate LinesMatch(t: Tally, keys: seq<string>)
  {
    |t.lines| == |keys| &&
    (forall i :: 0 <= i < |keys| ==> (t.lines[i].SchemeLine? <==> keys[i] != NonEligible)) &&
    forall x :: x in t.ids <==> exists i :: 0 <= i < |keys| && t.lines[i].SchemeLine? && t.lines[i].scheme.id == x
  }

  lemma {:induction false} LinesMatchStep(t0: Tally, t: Tally, init: seq<string>, key: string, groups: Assoc<string, Group>)
    requires LinesMatch(t0, init) && LineAdded(t0, t, key)
    requires (forall i :: 0 <= i < |init| ==> HasKey(groups, init[i])) && HasKey(groups, key)
    ensures LinesMatch(t, init + [key])
    ensures forall i :: 0 <= i < |init + [key]| ==> HasKey(groups, (init + [key])[i])
  {
    var keys := init + [key];
    var last := |init|;
    assert forall i :: 0 <= i < |init| ==> t.lines[i] == t0.lines[i] by {
      forall i | 0 <= i < |init| ensures t.lines[i] == t0.lines[i] {
        assert t.lines[..last][i] == t.lines[i];
      }
    }
    forall x ensures x in t.ids <==> exists i :: 0 <= i < |keys| && t.lines[i].SchemeLine? && t.lines[i].scheme.id == x {
      if x in t.ids {
        if x in t0.ids {
          var i :| 0 <= i < |init| && t0.lines[i].SchemeLine? && t0.lines[i].scheme.id == x;
          assert t.lines[i].SchemeLine? && t.lines[i].scheme.id == x;
        } else {
          assert t.lines[last].SchemeLine? && t.lines[last].scheme.id == x;
        }
      } else {
        forall i | 0 <= i < |keys| && t.lines[i].SchemeLine? ensures t.lines[i].scheme.id != x {
          if i < last {
            assert t0.lines[i].scheme.id != x;
          }
        }
      }
    }
  }

  /** The tally stays consistent over all the keys. */
  lemma {:induction false} TallyAllOk(parsed: Assoc<string, Hectares>, groups: Assoc<string, Group>, keys: seq<string>)
    requires TallyAll(parsed, groups, keys).Ok?
    ensures TallyOk(TallyAll(parsed, groups, keys).value)
  {
    if keys == [] {
      ZeroQuantized(2);
    } else {
      TallyAllOk(parsed, groups, keys[..|keys| - 1]);
      TallyStepOk(parsed, groups, TallyAll(parsed, groups, keys[..|keys| - 1]).value, keys[|keys| - 1]);
    }
  }

  /** The last key adds its line to the tally of the keys before it. */
  lemma {:induction false} TallyAllLast(parsed: Assoc<string, Hectares>, groups: Assoc<string, Group>, keys: seq<string>)
    requires keys != [] && TallyAll(parsed, groups, keys).Ok?
    ensures TallyAll(parsed, groups, keys[..|keys| - 1]).Ok? && HasKey(groups, keys[|keys| - 1])
    ensures LineAdded(TallyAll(parsed, groups, keys[..|keys| - 1]).value, TallyAll(parsed, groups, keys).value, keys[|keys| - 1])
    ensures var ls := TallyAll(parsed, groups, keys).value.lines;
      |ls| > 0 && (keys[|keys| - 1] == NonEligible ==> ls[|ls| - 1] == NonEligibleLine(Get(groups, NonEligible).value)) &&
      (keys[|keys| - 1] != NonEligible ==> GroupLine(groups, keys[|keys| - 1], ls[|ls| - 1]))
  {
    TallyStepLine(parsed, groups, TallyAll(parsed, groups, keys[..|keys| - 1]).value, keys[|keys| - 1]);
  }

  /** Each key gives one line, in order, and every key is a group's. */
  lemma {:induction false} TallyAllLines(parsed: Assoc<string, Hectares>, groups: Assoc<string, Group>, keys: seq<string>)
    requires TallyAll(parsed, groups, keys).Ok?
    ensures LinesMatch(TallyAll(parsed, groups, keys).value, keys)
    ensures forall i :: 0 <= i < |keys| ==> HasKey(groups, keys[i])
    ensures NonEligibleLines(TallyAll(parsed, groups, keys).value, keys, Get(groups, NonEligible))
    ensures SchemeLines(TallyAll(parsed, groups, keys).value, keys, groups)
    decreases |keys|
  {
    if keys != [] {
      var init := keys[..|keys| - 1];
      var key := keys[|keys| - 1];
      assert keys == init + [key];
      TallyAllLines(parsed, groups, init);
      TallyAllLast(parsed, groups, keys);
      var t0 := TallyAll(parsed, groups, init).value;
      var t := TallyAll(parsed, groups, keys).value;
      LinesMatchStep(t0, t, init, key, groups);
      NonEligibleStep(t0, t, init, key, Get(groups, NonEligible));
      SchemeLinesStep(t0, t, init, key, groups);
    }
  }

  /** The line of every scheme key is its group's, with that group's
      payments. */
  ghost predicate SchemeLines(t: Tally, keys: seq<string>, groups: Assoc<string, Group>)
  {
    |t.lines| == |keys| &&
    forall i :: 0 <= i < |keys| && keys[i] != NonEligible ==> GroupLine(groups, keys[i], t.lines[i])
  }

  lemma {:induction false} SchemeLinesStep(t0: Tally, t: Tally, init: seq<string>, key: string, groups: Assoc<string, Group>)
    requires SchemeLines(t0, init, groups) && LineAdded(t0, t, key)
    requires key != NonEligible ==> GroupLine(groups, key, t.lines[|t.lines| - 1])
    ensures SchemeLines(t, init + [key], groups)
  {
    var keys := init + [key];
    forall i | 0 <= i < |keys| && keys[i] != NonEligible ensures GroupLine(groups, keys[i], t.lines[i]) {
      if i < |init| {
        assert t.lines[..|init|][i] == t.lines[i];
      }
    }
  }

  /** The lines of the "Non-Eligible" keys are the non-eligible group's. */
  ghost predicate NonEligibleLines(t: Tally, keys: seq<string>, ne: Option<Group>)
  {
    |t.lines| == |keys| &&
    forall i :: 0 <= i < |keys| && keys[i] == NonEligible ==> ne.Some? && t.lines[i] == NonEligibleLine(ne.value)
  }

  lemma {:induction false} NonEligibleStep(t0: Tally, t: Tally, init: seq<string>, key: string, ne: Option<Group>)
    requires NonEligibleLines(t0, init, ne) && LineAdded(t0, t, key)
    requires key == NonEligible ==> ne.Some? && t.lines[|t.lines| - 1] == NonEligibleLine(ne.value)
    ensures NonEligibleLines(t, init + [key], ne)
  {
    var keys := init + [key];
    forall i | 0 <= i < |keys| && keys[i] == NonEligible ensures ne.Some? && t.lines[i] == NonEligibleLine(ne.value) {
      if i < |init| {
        assert t.lines[..|init|][i] == t.lines[i];
      }
    }
  }

  /** Rounding consistent totals to cents changes nothing, and the bonus
      total is their difference, never negative. */
  lemma {:induction false} FinishSummary(t: Tally)
    requires TallyOk(t)
    ensures var sum := SummaryOf(t);
      sum.totalWithout == t.without && sum.totalWith == t.with &&
      sum.bonusTotal == t.with - t.without && sum.bonusTotal >= 0.0 &&
      Sorting.Sorted(sum.applicable) &&
      (forall i, j :: 0 <= i < j < |sum.applicable| ==> sum.applicable[i] != sum.applicable[j]) &&
      (forall x :: x in sum.applicable <==> x in t.ids)
  {
    RoundedTotals(t.without, t.with);
  }

  lemma {:induction false} RoundedTotals(x: real, y: real)
    requires IsQuantized(x, 2) && IsQuantized(y, 2) && x <= y
    ensures HalfUp(x, 2) == x && HalfUp(y, 2) == y && HalfUp(y - x, 2) == y - x
  {
    HalfUpFixed(x, 2);
    HalfUpFixed(y, 2);
    QuantizedSum(y, x, 2);
    HalfUpFixed(y - x, 2);
  }

  /** The Peninsular payments without the bonus of the rows that have
      payments, added up; no Insular figure enters. */
  function PeninsularBaseTotal(rows: seq<Row>): real
  {
    if rows == [] then 0.0
    else
      PeninsularBaseTotal(rows[..|rows| - 1]) +
      match rows[|rows| - 1].peninsular
      case None => 0.0
      case Some(p) => p.basePayment
  }

  /** The Peninsular payments with the bonus of the rows that have
      payments, added up; no Insular figure enters. */
  function PeninsularWithTotal(rows: seq<Row>): real
  {
    if rows == [] then 0.0
    else
      PeninsularWithTotal(rows[..|rows| - 1]) +
      match rows[|rows| - 1].peninsular
      case None => 0.0
      case Some(p) => p.withPluriannuality
  }

  /** The tally's totals are the sums over the rows of its lines. */
  predicate TotalsOfRows(parsed: Assoc<string, Hectares>, t: Tally)
  {
    t.without == PeninsularBaseTotal(Rows(parsed, t.lines)) &&
    t.with == PeninsularWithTotal(Rows(parsed, t.lines))
  }

  /** One group's contribution adds one line, and adds to the totals
      exactly that line's Peninsular payments. */
  lemma {:induction false} TallyStepAmounts(parsed: Assoc<string, Hectares>, groups: Assoc<string, Group>, t: Tally, key: string)
    requires TallyStep(parsed, groups, t, key).Ok?
    ensures var t' := TallyStep(parsed, groups, t, key).value;
      |t'.lines| == |t.lines| + 1 && t'.lines == t.lines + [t'.lines[|t.lines|]] &&
      StepAdds(t, t', t'.lines[|t.lines|])
  {
  }

  /** `t'` totals `t`'s figures plus the Peninsular payments of `line`. */
  predicate StepAdds(t: Tally, t': Tally, line: Line)
  {
    t'.without == t.without + (if line.SchemeLine? then line.peninsular.basePayment else 0.0) &&
    t'.with == t.with + (if line.SchemeLine? then line.peninsular.withPluriannuality else 0.0)
  }

  /** Adding a line and its Peninsular payments keeps the totals those of
      the rows. */
  lemma {:induction false} RowsTotalsStep(parsed: Assoc<string, Hectares>, t: Tally, t': Tally, line: Line)
    requires TotalsOfRows(parsed, t) && t'.lines == t.lines + [line] && StepAdds(t, t', line)
    ensures TotalsOfRows(parsed, t')
  {
    var rows := Rows(parsed, t'.lines);
    assert rows[..|rows| - 1] == Rows(parsed, t.lines);
  }

  /** The tally's totals are the sums of its rows' Peninsular payments. */
  lemma {:induction false} TallyAllTotals(parsed: Assoc<string, Hectares>, groups: Assoc<string, Group>, keys: seq<string>)
    requires TallyAll(parsed, groups, keys).Ok?
    ensures TotalsOfRows(parsed, TallyAll(parsed, groups, keys).value)
  {
    if keys == [] {
      assert Rows(parsed, []) == [];
    } else {
      var t := TallyAll(parsed, groups, keys[..|keys| - 1]).value;
      TallyAllTotals(parsed, groups, keys[..|keys| - 1]);
      TallyStepAmounts(parsed, groups, t, keys[|keys| - 1]);
      var t' := TallyAll(parsed, groups, keys).value;
      RowsTotalsStep(parsed, t, t', t'.lines[|t.lines|]);
    }
  }

  /** The summary's totals are the exact sums of the scheme rows'
      Peninsular payments: rounding them to cents again changes nothing.
      The bonus total is never negative, and the applicable schemes are
      sorted and listed once each. */
  lemma {:induction false} ReportSummary(parsed: Assoc<string, Hectares>, groups: Assoc<string, Group>, totalArea: real)
    requires ReportOf(parsed, groups, totalArea).Ok?
    ensures var t := TallyAll(parsed, groups, ReportKeys(groups)).value;
      var sum := ReportOf(parsed, groups, totalArea).value.summary;
      sum.totalWithout == t.without && sum.totalWith == t.with &&
      sum.bonusTotal == t.with - t.without && sum.bonusTotal >= 0.0 &&
      Sorting.Sorted(sum.applicable) &&
      (forall i, j :: 0 <= i < j < |sum.applicable| ==> sum.applicable[i] != sum.applicable[j]) &&
      (forall x :: x in sum.applicable <==> x in t.ids)
    ensures var rep := ReportOf(parsed, groups, totalArea).value;
      rep.summary.totalWithout == PeninsularBaseTotal(rep.rows) &&
      rep.summary.totalWith == PeninsularWithTotal(rep.rows)
  {
    var keys := ReportKeys(groups);
    TallyAllOk(parsed, groups, keys);
    FinishSummary(TallyAll(parsed, groups, keys).value);
    TallyAllTotals(parsed, groups, keys);
  }

  /** The row of scheme key `key`: the identifier, name and subtype of the
      scheme heading its group, the group's land uses, its area to 4
      places and both regions' payments of that area under that scheme. */
  predicate SchemeRow(groups: Assoc<string, Group>, key: string, row: Row)
  {
    HasKey(groups, key) &&
    var g := Get(groups, key).value;
    g.head.SchemeHead? &&
    var s := g.head.scheme;
    SchemePayments(g, s).Ok? &&
    row.id == s.id && row.name == s.name && row.subtype == Some(s.subtype) &&
    row.landUseClass == LandUseClass(g) && row.totalArea == HalfUp(g.area, 4) &&
    row.peninsular == Some(SchemePayments(g, s).value.0) && row.insular == Some(SchemePayments(g, s).value.1)
  }

  /** The rows follow the report order, one per group: a scheme group's
      row is that group's scheme with its payments, and the non-eligible
      row has none and lists the non-eligible group's parsed land uses;
      the applicable schemes are the identifiers of the rows with
      payments. */
  lemma {:induction false} ReportRows(parsed: Assoc<string, Hectares>, groups: Assoc<string, Group>, totalArea: real)
    requires ReportOf(parsed, groups, totalArea).Ok?
    ensures var keys := ReportKeys(groups);
      var rep := ReportOf(parsed, groups, totalArea).value;
      |rep.rows| == |keys| &&
      (forall i :: 0 <= i < |keys| ==> HasKey(groups, keys[i])) &&
      (forall i :: 0 <= i < |keys| ==> (rep.rows[i].peninsular.Some? <==> keys[i] != NonEligible)) &&
      (forall i :: 0 <= i < |keys| && keys[i] == NonEligible ==> rep.rows[i] == NonEligibleRow(parsed, Get(groups, NonEligible).value)) &&
      (forall i :: 0 <= i < |keys| && keys[i] != NonEligible ==> SchemeRow(groups, keys[i], rep.rows[i])) &&
      forall x :: x in rep.summary.applicable <==> exists i :: 0 <= i < |keys| && rep.rows[i].peninsular.Some? && rep.rows[i].id == x
  {
    var keys := ReportKeys(groups);
    var t := TallyAll(parsed, groups, keys).value;
    var ne := Get(groups, NonEligible);
    TallyAllLines(parsed, groups, keys);
    var rep := Finish(parsed, totalArea, t);
    RowsMatch(parsed, t, keys, ne, rep.summary.applicable);
    SchemeRows(parsed, t, keys, groups);
  }

  /** The rows of scheme lines that are their keys' groups' are those
      groups' scheme rows. */
  lemma {:induction false} SchemeRows(parsed: Assoc<string, Hectares>, t: Tally, keys: seq<string>, groups: Assoc<string, Group>)
    requires SchemeLines(t, keys, groups)
    ensures var rows := Rows(parsed, t.lines);
      forall i :: 0 <= i < |keys| && keys[i] != NonEligible ==> SchemeRow(groups, keys[i], rows[i])
  {
    var rows := Rows(parsed, t.lines);
    forall i | 0 <= i < |keys| && keys[i] != NonEligible ensures SchemeRow(groups, keys[i], rows[i]) {
      assert GroupLine(groups, keys[i], t.lines[i]);
      assert rows[i] == RowOf(parsed, t.lines[i]);
    }
  }

  /** The rows of lines that match the keys. */
  lemma {:induction false} RowsMatch(parsed: Assoc<string, Hectares>, t: Tally, keys: seq<string>,
                                     ne: Option<Group>, applicable: seq<string>)
    requires LinesMatch(t, keys) && NonEligibleLines(t, keys, ne)
    requires forall x :: x in applicable <==> x in t.ids
    ensures var rows := Rows(parsed, t.lines);
      |rows| == |keys| &&
      (forall i :: 0 <= i < |keys| ==> (rows[i].peninsular.Some? <==> keys[i] != NonEligible)) &&
      (forall i :: 0 <= i < |keys| && keys[i] == NonEligible ==> rows[i] == NonEligibleRow(parsed, ne.value)) &&
      forall x :: x in applicable <==> exists i :: 0 <= i < |keys| && rows[i].peninsular.Some? && rows[i].id == x
  {
    var rows := Rows(parsed, t.lines);
    forall x ensures x in applicable <==> exists i :: 0 <= i < |keys| && rows[i].peninsular.Some? && rows[i].id == x {
      if x in t.ids {
        var i :| 0 <= i < |keys| && t.lines[i].SchemeLine? && t.lines[i].scheme.id == x;
        assert rows[i].peninsular.Some? && rows[i].id == x;
      }
    }
  }

  /** The whole estimate: compile the rules, parse the blocks, assign each
      land use, group the assignments and report. */
  function Estimate(rawRules: seq<RawRule>, blocks: seq<Block>): Result<Report, Error>
  {
    match CompileFrom(EmptyRules, rawRules)
    case Err(e) => Err(e)
    case Ok(rules) =>
      var parsed := ParsedData(blocks);
      match AssignAll(rules, parsed)
      case Err(e) => Err(e)
      case Ok(assigns) =>
        match GroupAll(parsed, assigns)
        case Err(e) => Err(e)
        case Ok(groups) => ReportOf(parsed, groups, TotalArea(blocks))
  }

  /** The estimate as the program runs it, step by step. */
  method CalculatePayment(rawRules: seq<RawRule>, blocks: seq<Block>) returns (r: Result<Report, Error>)
    ensures r == Estimate(rawRules, blocks)
  {
    var rules := CompileRules(rawRules);
    if rules.Err? {
      return Err(rules.error);
    }
    var parsed, total := ParseBlocks(blocks);
    var assigns := AssignLandUses(rules.value, parsed);
    if assigns.Err? {
      return Err(assigns.error);
    }
    var groups := GroupAssignments(parsed, assigns.value);
    if groups.Err? {
      return Err(groups.error);
    }
    r := BuildReport(parsed, groups.value, total);
  }

  /** Grouping never fails inside the estimate: every assigned land use
      is a parsed one. So the estimate fails exactly when compiling the
      rules, assigning a land use or building a row fails. */
  lemma {:induction false} EstimateGroupsAll(rawRules: seq<RawRule>, blocks: seq<Block>)
    requires CompileFrom(EmptyRules, rawRules).Ok?
    requires AssignAll(CompileFrom(EmptyRules, rawRules).value, ParsedData(blocks)).Ok?
    ensures GroupAll(ParsedData(blocks), AssignAll(CompileFrom(EmptyRules, rawRules).value, ParsedData(blocks)).value).Ok?
  {
    var parsed := ParsedData(blocks);
    var assigns := AssignAll(CompileFrom(EmptyRules, rawRules).value, parsed).value;
    ParsedDataSpec(blocks);
    AssignAllSpec(CompileFrom(EmptyRules, rawRules).value, parsed);
    GroupAllFails(parsed, assigns);
    forall i | 0 <= i < |assigns| ensures HasKey(parsed, assigns[i].0) {
      assert HasKey(assigns, assigns[i].0) by {
        assert Find(assigns, assigns[i].0).Some?;
      }
    }
  }
}
