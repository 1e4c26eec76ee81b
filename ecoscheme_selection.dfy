/** The exclusivity rule: each land use is paid by at most one scheme, the
    one whose payment per hectare is highest over every candidate scheme's
    Peninsular rates and then every candidate scheme's Insular rates. */
module EcoschemeSelection {
  import opened Wrappers
  import opened Text
  import opened Assoc
  import opened EcoschemeRules

  /** Which rate of a region applies. */
  datatype Tier = FlatRate | Tier1 | Tier2

  /** The tier an area falls in: tier 1 up to and including the threshold,
      tier 2 above it or when there is no numeric threshold. */
  function TierFor(spec: RateSpec, area: real): (t: Tier)
    ensures spec.Flat? <==> t == FlatRate
    ensures spec.Tiered? ==> (t == Tier1 <==> spec.threshold.Some? && area <= spec.threshold.value)
  {
    match spec
    case Flat(_) => FlatRate
    case Tiered(_, _, threshold) => if threshold.Some? && area <= threshold.value then Tier1 else Tier2
  }

  /** The base rate for an area: the flat value, or the rate of its tier. */
  function BaseRate(spec: RateSpec, area: real): (r: RateValue)
    ensures spec.Tiered? ==> r.Amount? && (r.value == spec.tier1 || r.value == spec.tier2)
    ensures spec.Tiered? ==> (TierFor(spec, area) == Tier1 ==> r.value == spec.tier1) &&
                              (TierFor(spec, area) == Tier2 ==> r.value == spec.tier2)
  {
    match spec
    case Flat(v) => v
    case Tiered(t1, t2, _) => Amount(if TierFor(spec, area) == Tier1 then t1 else t2)
  }

  /** The payment per hectare the selection compares: the base rate plus
      the bonus when the scheme is pluriannual. A textual rate cannot take
      the bonus (`TypeError`); without it, a text holding '/' counts as 0
      and any other text cannot be compared (`TypeError`). */
  function PaymentPerHa(s: Scheme, spec: RateSpec, area: real): (r: Result<real, Error>)
    ensures BaseRate(spec, area).Amount? ==> r.Ok?
    ensures BaseRate(spec, area).Wording? ==>
      (r.Ok? <==> !s.pluriannual && Contains(BaseRate(spec, area).text, "/")) &&
      (r.Ok? ==> r.value == 0.0)
  {
    match BaseRate(spec, area)
    case Amount(v) => Ok(if s.pluriannual then v + PluriannualityBonus else v)
    case Wording(t) =>
      if s.pluriannual then Err(TypeError)
      else if Contains(t, "/") then Ok(0.0)
      else Err(TypeError)
  }

  /** The bonus adds exactly 25 euros per hectare to a numeric rate. */
  lemma {:induction false} BonusDifference(s: Scheme, spec: RateSpec, area: real)
    requires s.pluriannual && BaseRate(spec, area).Amount?
    ensures PaymentPerHa(s, spec, area).Ok?
    ensures PaymentPerHa(s, spec, area).value - PaymentPerHa(s.(pluriannual := false), spec, area).value == PluriannualityBonus
  {
  }

  /** A scheme offered under one region's rates. */
  datatype Offer = Offer(region: Region, scheme: Scheme)

  /** The winner: a scheme, the region whose rates won, and its payment
      per hectare. */
  datatype Choice = Choice(scheme: Scheme, region: Region, perHa: real)

  function RegionOffers(region: Region, cands: seq<Scheme>): (r: seq<Offer>)
    ensures |r| == |cands| && forall k :: 0 <= k < |cands| ==> r[k] == Offer(region, cands[k])
  {
    if cands == [] then [] else [Offer(region, cands[0])] + RegionOffers(region, cands[1..])
  }

  /** Every candidate under its Peninsular rates, then every candidate
      under its Insular rates. */
  function Offers(cands: seq<Scheme>): seq<Offer>
  {
    RegionOffers(Peninsular, cands) + RegionOffers(Insular, cands)
  }

  /** The offer's payment per hectare, or `None` when the scheme has no
      rate for that region. */
  function OfferScore(o: Offer, area: real): Option<Result<real, Error>>
  {
    match RateOf(o.scheme, o.region)
    case None => None
    case Some(spec) => Some(PaymentPerHa(o.scheme, spec, area))
  }

  predicate Scored(o: Offer, area: real)
  {
    OfferScore(o, area).Some? && OfferScore(o, area).value.Ok?
  }

  function ScoreOf(o: Offer, area: real): real
    requires Scored(o, area)
  {
    OfferScore(o, area).value.value
  }

  /** The running maximum over the offers: strictly greater replaces, so
      the first of equal payments stays. */
  function SelectFrom(best: real, choice: Option<Choice>, offers: seq<Offer>, area: real): Result<Option<Choice>, Error>
    decreases |offers|
  {
    if offers == [] then Ok(choice)
    else
      match OfferScore(offers[0], area)
      case None => SelectFrom(best, choice, offers[1..], area)
      case Some(Err(e)) => Err(e)
      case Some(Ok(v)) =>
        if v > best then SelectFrom(v, Some(Choice(offers[0].scheme, offers[0].region, v)), offers[1..], area)
        else SelectFrom(best, choice, offers[1..], area)
  }

  /** The selection for one land use, starting from a best of -1. */
  function Select(cands: seq<Scheme>, area: real): Result<Option<Choice>, Error>
  {
    SelectFrom(-1.0, None, Offers(cands), area)
  }

  /** The offers still to visit once region `ri` of the two is reached. */
  function OffersFrom(ri: nat, cands: seq<Scheme>): seq<Offer>
  {
    if ri == 0 then Offers(cands) else if ri == 1 then RegionOffers(Insular, cands) else []
  }

  /** The double loop over regions and candidates. */
  method SelectBest(cands: seq<Scheme>, area: real) returns (r: Result<Option<Choice>, Error>)
    ensures r == Select(cands, area)
  {
    var best := -1.0;
    var choice: Option<Choice> := None;
    var regions := [Peninsular, Insular];
    for ri := 0 to 2
      invariant SelectFrom(best, choice, OffersFrom(ri, cands), area) == Select(cands, area)
    {
      var region := regions[ri];
      assert OffersFrom(ri, cands) == RegionOffers(region, cands) + OffersFrom(ri + 1, cands);
      assert cands[0..] == cands;
      for j := 0 to |cands|
        invariant SelectFrom(best, choice, RegionOffers(region, cands[j..]) + OffersFrom(ri + 1, cands), area)
                  == Select(cands, area)
      {
        var s := cands[j];
        SelectFromAt(best, choice, region, cands, j, OffersFrom(ri + 1, cands), area);
        var spec := RateOf(s, region);
        if spec.None? {
          continue;
        }
        var payment := PaymentPerHa(s, spec.value, area);
        if payment.Err? {
          return Err(payment.error);
        }
        if payment.value > best {
          best := payment.value;
          choice := Some(Choice(s, region, payment.value));
        }
      }
      assert RegionOffers(region, cands[|cands|..]) == [];
      assert RegionOffers(region, cands[|cands|..]) + OffersFrom(ri + 1, cands) == OffersFrom(ri + 1, cands);
    }
    r := Ok(choice);
  }

  /** One step of the running maximum, at candidate `j` of a region. */
  lemma {:induction false} SelectFromAt(best: real, choice: Option<Choice>, region: Region, cands: seq<Scheme>, j: nat, after: seq<Offer>, area: real)
    requires j < |cands|
    ensures SelectFrom(best, choice, RegionOffers(region, cands[j..]) + after, area) ==
      match OfferScore(Offer(region, cands[j]), area)
      case None => SelectFrom(best, choice, RegionOffers(region, cands[j + 1..]) + after, area)
      case Some(Err(e)) => Err(e)
      case Some(Ok(v)) =>
        if v > best then SelectFrom(v, Some(Choice(cands[j], region, v)), RegionOffers(region, cands[j + 1..]) + after, area)
        else SelectFrom(best, choice, RegionOffers(region, cands[j + 1..]) + after, area)
  {
    var rest := RegionOffers(region, cands[j..]) + after;
    assert rest[0] == Offer(region, cands[j]);
    assert rest[1..] == RegionOffers(region, cands[j + 1..]) + after;
  }

  /** Offer `k` pays more than `floor`, no offer pays more, and every
      earlier offer pays strictly less. */
  predicate IsFirstMax(offers: seq<Offer>, k: nat, area: real, floor: real)
  {
    k < |offers| && Scored(offers[k], area) && ScoreOf(offers[k], area) > floor &&
    (forall m :: 0 <= m < |offers| && Scored(offers[m], area) ==> ScoreOf(offers[m], area) <= ScoreOf(offers[k], area)) &&
    (forall m :: 0 <= m < k && Scored(offers[m], area) ==> ScoreOf(offers[m], area) < ScoreOf(offers[k], area))
  }

  /** No offer fails to produce a payment. */
  predicate AllComparable(offers: seq<Offer>, area: real)
  {
    forall k :: 0 <= k < |offers| ==> OfferScore(offers[k], area).None? || Scored(offers[k], area)
  }

  /** The running maximum keeps `choice` when nothing beats `best`, and
      otherwise ends on the first offer that pays the most. */
  lemma {:induction false} SelectFromSpec(best: real, choice: Option<Choice>, offers: seq<Offer>, area: real)
    requires AllComparable(offers, area)
    ensures SelectFrom(best, choice, offers, area).Ok?
    ensures var res := SelectFrom(best, choice, offers, area).value;
      (res == choice && forall m :: 0 <= m < |offers| && Scored(offers[m], area) ==> ScoreOf(offers[m], area) <= best) ||
      (exists k: nat :: IsFirstMax(offers, k, area, best) &&
                        res == Some(Choice(offers[k].scheme, offers[k].region, ScoreOf(offers[k], area))))
    decreases |offers|
  {
    if offers != [] {
      var tail := offers[1..];
      assert AllComparable(tail, area) by {
        forall k | 0 <= k < |tail| ensures OfferScore(tail[k], area).None? || Scored(tail[k], area) {
          assert tail[k] == offers[k + 1];
        }
      }
      var o := offers[0];
      if Scored(o, area) && ScoreOf(o, area) > best {
        var v := ScoreOf(o, area);
        var c0 := Some(Choice(o.scheme, o.region, v));
        SelectFromSpec(v, c0, tail, area);
        var res := SelectFrom(v, c0, tail, area).value;
        if res == c0 && forall m :: 0 <= m < |tail| && Scored(tail[m], area) ==> ScoreOf(tail[m], area) <= v {
          forall m | 0 <= m < |offers| && Scored(offers[m], area) ensures ScoreOf(offers[m], area) <= v {
            if m > 0 { assert offers[m] == tail[m - 1]; }
          }
          assert IsFirstMax(offers, 0, area, best);
        } else {
          var k: nat :| IsFirstMax(tail, k, area, v) && res == Some(Choice(tail[k].scheme, tail[k].region, ScoreOf(tail[k], area)));
          FirstMaxShift(offers, k, area, best, v);
        }
      } else {
        SelectFromSpec(best, choice, tail, area);
        var res := SelectFrom(best, choice, tail, area).value;
        if res == choice && forall m :: 0 <= m < |tail| && Scored(tail[m], area) ==> ScoreOf(tail[m], area) <= best {
          forall m | 0 <= m < |offers| && Scored(offers[m], area) ensures ScoreOf(offers[m], area) <= best {
            if m > 0 { assert offers[m] == tail[m - 1]; }
          }
        } else {
          var k: nat :| IsFirstMax(tail, k, area, best) && res == Some(Choice(tail[k].scheme, tail[k].region, ScoreOf(tail[k], area)));
          FirstMaxShift(offers, k, area, best, best);
        }
      }
    }
  }

  /** A first maximum of the tail above `floor` is a first maximum of the
      whole when the head pays at most `floor`. */
  lemma {:induction false} FirstMaxShift(offers: seq<Offer>, k: nat, area: real, best: real, floor: real)
    requires offers != [] && IsFirstMax(offers[1..], k, area, floor) && best <= floor
    requires Scored(offers[0], area) ==> ScoreOf(offers[0], area) <= floor
    ensures IsFirstMax(offers, k + 1, area, best)
  {
    var tail := offers[1..];
    assert offers[k + 1] == tail[k];
    forall m | 0 <= m < |offers| && Scored(offers[m], area) ensures ScoreOf(offers[m], area) <= ScoreOf(offers[k + 1], area) {
      if m > 0 { assert offers[m] == tail[m - 1]; }
    }
    forall m | 0 <= m < k + 1 && Scored(offers[m], area) ensures ScoreOf(offers[m], area) < ScoreOf(offers[k + 1], area) {
      if m > 0 { assert offers[m] == tail[m - 1]; }
    }
  }

  /** The running maximum fails exactly when some offer's payment cannot
      be computed. */
  lemma {:induction false} SelectFromFails(best: real, choice: Option<Choice>, offers: seq<Offer>, area: real)
    ensures SelectFrom(best, choice, offers, area).Err? <==> !AllComparable(offers, area)
    decreases |offers|
  {
    if offers != [] {
      var tail := offers[1..];
      var o := offers[0];
      var nextBest := if Scored(o, area) && ScoreOf(o, area) > best then ScoreOf(o, area) else best;
      var nextChoice := if Scored(o, area) && ScoreOf(o, area) > best then Some(Choice(o.scheme, o.region, ScoreOf(o, area))) else choice;
      SelectFromFails(nextBest, nextChoice, tail, area);
      if AllComparable(tail, area) && (OfferScore(o, area).None? || Scored(o, area)) {
        forall k | 0 <= k < |offers| ensures OfferScore(offers[k], area).None? || Scored(offers[k], area) {
          if k > 0 { assert offers[k] == tail[k - 1]; }
        }
      }
      if AllComparable(offers, area) {
        forall k | 0 <= k < |tail| ensures OfferScore(tail[k], area).None? || Scored(tail[k], area) {
          assert tail[k] == offers[k + 1];
        }
      }
    }
  }

  /** The selection for one land use: it fails exactly when some offer's
      payment cannot be computed; it picks nobody exactly when no offer
      pays more than -1; otherwise it picks the first offer, Peninsular
      offers before Insular ones, whose payment is the highest. */
  lemma {:induction false} SelectSpec(cands: seq<Scheme>, area: real)
    ensures Select(cands, area).Err? <==> !AllComparable(Offers(cands), area)
    ensures Select(cands, area) == Ok(None) <==>
      AllComparable(Offers(cands), area) &&
      forall m :: 0 <= m < |Offers(cands)| && Scored(Offers(cands)[m], area) ==> ScoreOf(Offers(cands)[m], area) <= -1.0
    ensures Select(cands, area).Ok? && Select(cands, area).value.Some? ==>
      exists k: nat :: IsFirstMax(Offers(cands), k, area, -1.0) &&
        Select(cands, area).value.value == Choice(Offers(cands)[k].scheme, Offers(cands)[k].region, ScoreOf(Offers(cands)[k], area))
  {
    var offers := Offers(cands);
    SelectFromFails(-1.0, None, offers, area);
    if AllComparable(offers, area) {
      SelectFromSpec(-1.0, None, offers, area);
    }
  }
}
