/** The eco-scheme rules table and its compilation into, for every land-use
    code, the ordered list of schemes that may pay for it, plus the set of
    codes declared non-eligible. A rules record carries a label such as
    "P6 - Cover crops (Woody crops)", a ", "-separated list of land-use
    codes, a Peninsular and an Insular rate, a threshold text and a
    pluriannuality flag. */
module EcoschemeRules {
  import opened Wrappers
  import opened Text
  import opened Assoc
  import DecimalRounding

  /** The label of the record that lists non-eligible codes. */
  const NonEligible: string := "Non-Eligible"

  /** The fixed pluriannuality bonus, in euros per hectare. */
  const PluriannualityBonus: real := 25.0

  /** The Python exceptions the modelled code can raise on a malformed
      table: a label without " - " (`IndexError`), a textual rate used in
      arithmetic or in a comparison (`TypeError`), a rate type a group
      lacks (`KeyError`). */
  datatype Error = IndexError | TypeError | KeyError

  datatype Region = Peninsular | Insular

  /** An eligible surface in hectares; the input format only admits digits
      and dots, so it is never negative. */
  type Hectares = x: real | x >= 0.0

  /** A rate as the table writes it: a number, a text, or two tiers. */
  datatype RawRate = RawNumber(amount: real) | RawText(text: string) | RawTiers(tier1: real, tier2: real)

  /** One record of the rules table. A missing or null rate is `None`.
      `thresholdText` is `str()` of the record's threshold value. */
  datatype RawRule = RawRule(ecoscheme: string, landUses: string,
                             peninsular: Option<RawRate>, insular: Option<RawRate>,
                             thresholdText: string, pluriannuality: string)

  /** A flat rate is a number or, when the table gives text, that text. */
  datatype RateValue = Amount(value: real) | Wording(text: string)

  /** The rate details of one region: flat, or two tiers split at the
      record's threshold (absent when the threshold is not numeric). */
  datatype RateSpec = Flat(flat: RateValue) | Tiered(tier1: real, tier2: real, threshold: Option<real>)

  datatype Scheme = Scheme(id: string, name: string, subtype: string,
                           peninsular: Option<RateSpec>, insular: Option<RateSpec>,
                           pluriannual: bool)

  /** The compiled table: candidate schemes per land-use code, in table
      order, and the codes listed as non-eligible. */
  datatype Rules = Rules(candidates: Assoc<string, seq<Scheme>>, nonEligible: set<string>)

  function RateOf(s: Scheme, region: Region): Option<RateSpec>
  {
    match region
    case Peninsular => s.peninsular
    case Insular => s.insular
  }

  function RawRateOf(rule: RawRule, region: Region): Option<RawRate>
  {
    match region
    case Peninsular => rule.peninsular
    case Insular => rule.insular
  }

  // ---------------------------------------------------------------------------
  // Threshold

  /** What the threshold text must look like to be read as a number: with
      its first '.' removed, a non-empty run of decimal digits. */
  predicate IsThresholdText(t: string)
  {
    var u := DecimalRounding.RemoveFirst(t, '.');
    u != [] && AllDigits(u)
  }

  /** The threshold in hectares, or `None` when the text is not a plain
      non-negative decimal number (for instance "N/A"). */
  function ParseThreshold(t: string): (r: Option<real>)
    ensures r.Some? ==> r.value >= 0.0
  {
    if IsThresholdText(t) then Some(DecimalRounding.DecimalTextValue(t)) else None
  }

  /** Digits and dots only, at most one dot, at least one digit. */
  predicate DecimalShape(t: string)
  {
    (forall k :: 0 <= k < |t| ==> IsDigit(t[k]) || t[k] == '.') &&
    (forall j, k :: 0 <= j < k < |t| && t[j] == '.' ==> t[k] != '.') &&
    (exists k :: 0 <= k < |t| && IsDigit(t[k]))
  }

  /** A threshold is numeric exactly when its text has the decimal shape. */
  lemma {:induction false} ThresholdIff(t: string)
    ensures ParseThreshold(t).Some? <==> DecimalShape(t)
  {
    match IndexOf(t, ".")
    case None =>
      assert DecimalRounding.RemoveFirst(t, '.') == t;
      forall k | 0 <= k < |t| ensures t[k] != '.' {
        assert !OccursAt(t, ".", k);
        assert t[k..k + 1] == [t[k]];
      }
    case Some(i) =>
      if DecimalShape(t) {
        ShapeIsThreshold(t, i);
      }
      if IsThresholdText(t) {
        ThresholdIsShape(t, i);
      }
  }

  /** Removing the first '.', at `i`, shifts the text after it left by one. */
  lemma {:induction false} FirstDot(t: string, i: nat)
    requires IndexOf(t, ".") == Some(i)
    ensures i < |t| && t[i] == '.' && forall k :: 0 <= k < i ==> t[k] != '.'
    ensures var u := DecimalRounding.RemoveFirst(t, '.');
      |u| == |t| - 1 && forall k :: 0 <= k < |u| ==> u[k] == if k < i then t[k] else t[k + 1]
  {
    assert t[i..i + 1] == "." && t[i] == '.';
    DecimalRounding.RemoveFirstAt(t, i);
    forall k | 0 <= k < i ensures t[k] != '.' {
      assert !OccursAt(t, ".", k);
      assert t[k..k + 1] == [t[k]];
    }
  }

  lemma {:induction false} ShapeIsThreshold(t: string, i: nat)
    requires IndexOf(t, ".") == Some(i) && DecimalShape(t)
    ensures IsThresholdText(t)
  {
    var u := DecimalRounding.RemoveFirst(t, '.');
    FirstDot(t, i);
    forall k | 0 <= k < |u| ensures IsDigit(u[k]) {
      if k >= i {
        assert t[k + 1] != '.';
      }
    }
    var d :| 0 <= d < |t| && IsDigit(t[d]);
    assert |u| > 0;
  }

  lemma {:induction false} ThresholdIsShape(t: string, i: nat)
    requires IndexOf(t, ".") == Some(i) && IsThresholdText(t)
    ensures DecimalShape(t)
  {
    var u := DecimalRounding.RemoveFirst(t, '.');
    FirstDot(t, i);
    forall k | 0 <= k < |t| && k != i ensures IsDigit(t[k]) {
      if k < i { assert t[k] == u[k]; } else { assert t[k] == u[k - 1]; }
    }
    assert IsDigit(t[if i == 0 then 1 else 0]) by {
      assert u[0] == t[if i == 0 then 1 else 0];
    }
  }

  /** `str()` of a whole number of hectares is read back as that number. */
  lemma {:induction false} ThresholdOfNat(n: nat)
    ensures ParseThreshold(NatToString(n)) == Some(n as real)
  {
    var t := NatToString(n);
    forall k: nat | k < |t| ensures !OccursAt(t, ".", k) {
      assert t[k..k + 1][0] == t[k];
    }
    assert DecimalRounding.RemoveFirst(t, '.') == t;
    NatToStringValue(n);
  }

  /** A threshold printed with two decimals, such as "10.50", is read back
      as the same number. */
  lemma {:induction false} ThresholdOfFixed2(x: real)
    requires x >= 0.0 && DecimalRounding.IsQuantized(x, 2)
    ensures ParseThreshold(DecimalRounding.Fixed2(x)) == Some(x)
  {
    DecimalRounding.Fixed2RoundTrip(x);
    var t := DecimalRounding.Fixed2(x);
    assert |t| >= 4;
  }

  /** A signed text such as "-5" is never a threshold. */
  lemma {:induction false} ThresholdRejectsSign(t: string)
    requires t != [] && (t[0] == '-' || t[0] == '+')
    ensures ParseThreshold(t) == None
  {
    ThresholdIff(t);
  }

  // ---------------------------------------------------------------------------
  // Labels

  /** The identifier, name and subtype of a label: the text before the
      first " - "; the text after it up to the next " - " cut at its first
      '(' and stripped of whitespace; the text after the last '(' with
      ')' stripped from both ends. A label without " - " raises
      `IndexError`. */
  function ParseLabel(heading: string): (r: Result<(string, string, string), Error>)
    ensures r.Err? <==> !Contains(heading, " - ")
    ensures r.Ok? ==> IsPrefix(r.value.0, heading) && !Contains(r.value.0, " - ")
    ensures r.Ok? ==> r.value.1 == [] || (!IsSpace(r.value.1[0]) && !IsSpace(r.value.1[|r.value.1| - 1]))
    ensures r.Ok? ==> r.value.2 == [] || (r.value.2[0] != ')' && r.value.2[|r.value.2| - 1] != ')')
    ensures r.Ok? ==> r.value.0 == BeforeFirst(heading, " - ")
    ensures Contains(heading, " - ") ==>
              r.Ok? && r.value.1 == Strip(BeforeFirst(BeforeFirst(AfterFirst(heading, " - "), " - "), "("))
    ensures r.Ok? ==> r.value.2 == StripChar(AfterLast(heading, "("), ')')
  {
    var parts := Split(heading, " - ");
    if |parts| < 2 then Err(IndexError)
    else Ok((parts[0], LabelName(heading), LabelSubtype(heading)))
  }

  /** The name of a label: its second " - " piece, cut at '(' and
      stripped. */
  function LabelName(heading: string): (r: string)
    requires |Split(heading, " - ")| >= 2
    ensures Contains(heading, " - ")
    ensures r == Strip(BeforeFirst(BeforeFirst(AfterFirst(heading, " - "), " - "), "("))
  {
    assert Contains(heading, " - ");
    SplitSecond(heading, " - ");
    var parts := Split(heading, " - ");
    Strip(Split(parts[1], "(")[0])
  }

  /** The subtype of a label: its last '(' piece with ')' stripped. */
  function LabelSubtype(heading: string): (r: string)
    ensures r == StripChar(AfterLast(heading, "("), ')')
  {
    SplitLastIsAfterLast(heading, '(');
    var pieces := Split(heading, "(");
    StripChar(pieces[|pieces| - 1], ')')
  }

  /** The label a scheme is written under. */
  function RenderLabel(id: string, name: string, subtype: string): string
  {
    id + " - " + name + " (" + subtype + ")"
  }

  /** " - " cannot start inside a text free of '-', given what follows it. */
  lemma {:induction false} DashSepAfter(a: string, rest: string)
    requires '-' !in a
    requires (a != [] && a[|a| - 1] != ' ') || (rest != [] && rest[0] != '-')
    ensures forall k: nat :: k < |a| ==> !OccursAt(a + rest, " - ", k)
  {
    var s := a + rest;
    forall k: nat | k < |a| ensures !OccursAt(s, " - ", k) {
      if k + 3 <= |s| {
        assert s[k..k + 3][0] == s[k] && s[k..k + 3][1] == s[k + 1];
        if k + 1 < |a| {
          assert s[k + 1] == a[k + 1];
        } else if a != [] && a[|a| - 1] != ' ' {
          assert s[k] == a[|a| - 1];
        } else {
          assert s[k + 1] == rest[0];
        }
      }
    }
  }

  /** Parsing a rendered label gives back the identifier, name and subtype
      it was rendered from, provided the identifier and name hold no '-',
      the name holds no '(' and no outer whitespace, and the subtype holds
      no '(' and does not start or end with ')'. */
  lemma {:induction false} ParseRenderedLabel(id: string, name: string, subtype: string)
    requires '-' !in id && '-' !in name && '(' !in name && '(' !in subtype
    requires name == [] || (!IsSpace(name[0]) && !IsSpace(name[|name| - 1]))
    requires subtype == [] || (subtype[0] != ')' && subtype[|subtype| - 1] != ')')
    ensures ParseLabel(RenderLabel(id, name, subtype)) == Ok((id, name, subtype))
  {
    var heading := RenderLabel(id, name, subtype);
    IdAndNamePieces(id, name, subtype);
    SubtypePiece(id, name, subtype);
    assert LabelName(heading) == name;
  }

  /** A rendered label splits at " - " into the identifier and a piece
      whose text before '(' is the name. */
  lemma {:induction false} IdAndNamePieces(id: string, name: string, subtype: string)
    requires '-' !in id && '-' !in name && '(' !in name
    requires name == [] || (!IsSpace(name[0]) && !IsSpace(name[|name| - 1]))
    ensures var parts := Split(RenderLabel(id, name, subtype), " - ");
      |parts| >= 2 && parts[0] == id && Strip(Split(parts[1], "(")[0]) == name
  {
    var heading := RenderLabel(id, name, subtype);
    var rest := name + " (" + subtype + ")";
    assert heading == id + " - " + rest;
    LabelPieces(id, rest);
    var parts := Split(heading, " - ");
    assert |parts| >= 2 && parts[0] == id && parts[1] == BeforeFirst(rest, " - ");
    NamePiece(name, subtype);
    StripTrailingSpace(name);
  }

  /** The text after the last '(' of a rendered label, with ')' stripped,
      is the subtype. */
  lemma {:induction false} SubtypePiece(id: string, name: string, subtype: string)
    requires '(' !in subtype
    requires subtype == [] || (subtype[0] != ')' && subtype[|subtype| - 1] != ')')
    ensures LabelSubtype(RenderLabel(id, name, subtype)) == subtype
  {
    var heading := RenderLabel(id, name, subtype);
    assert heading == (id + " - " + name + " ") + ['('] + (subtype + ")");
    SplitLastPiece(id + " - " + name + " ", '(', subtype + ")");
    SplitLastIsAfterLast(heading, '(');
    assert AfterLast(heading, "(") == subtype + ")";
    StripCloseParen(subtype);
  }

  /** The label splits at " - " into the identifier and what follows. */
  lemma {:induction false} LabelPieces(id: string, rest: string)
    requires '-' !in id
    ensures Split(id + " - " + rest, " - ") == [id] + Split(rest, " - ")
  {
    var heading := id + " - " + rest;
    DashSepAfter(id, " - " + rest);
    assert heading == id + (" - " + rest);
    assert OccursAt(heading, " - ", |id|) by { assert heading[|id|..|id| + 3] == " - "; }
    FirstOccurrence(heading, " - ", |id|);
    SplitAt(id, " - ", rest);
  }

  /** The text after the identifier, cut at its first " - " and then at its
      first '(', is the name followed by one space. */
  lemma {:induction false} NamePiece(name: string, subtype: string)
    requires '-' !in name && '(' !in name
    ensures Split(BeforeFirst(name + " (" + subtype + ")", " - "), "(")[0] == name + " "
  {
    var rest := name + " (" + subtype + ")";
    var p1 := BeforeFirst(rest, " - ");
    assert IsPrefix(name + " (", p1) by {
      DashSepAfter(name + " (", subtype + ")");
      assert rest == (name + " (") + (subtype + ")");
      if Contains(rest, " - ") {
        assert OccursAt(rest, " - ", |p1|);
      } else {
        assert p1 == rest;
      }
    }
    var tail := p1[|name| + 2..];
    assert p1 == name + " " + "(" + tail;
    SplitOneChar(name + " ", '(', tail);
  }

  /** The first piece of `(x + [c] + y).split(c)` is `x` when `c` is not in `x`. */
  lemma {:induction false} SplitOneChar(x: string, c: char, y: string)
    requires c !in x
    ensures Split(x + [c] + y, [c])[0] == x
  {
    var s := x + [c] + y;
    assert OccursAt(s, [c], |x|) by { assert s[|x|..|x| + 1] == [c]; }
    forall k: nat | k < |x| ensures !OccursAt(s, [c], k) {
      assert s[k..k + 1][0] == x[k];
    }
    FirstOccurrence(s, [c], |x|);
    assert s[..|x|] == x;
  }

  lemma {:induction false} StripTrailingSpace(name: string)
    requires name == [] || (!IsSpace(name[0]) && !IsSpace(name[|name| - 1]))
    ensures Strip(name + " ") == name
  {
    var s := name + " ";
    if name == [] {
      assert StripLeft(s) == StripLeft(s[1..]);
    } else {
      assert StripLeft(s) == s;
      assert StripRight(s) == StripRight(s[..|s| - 1]);
      assert s[..|s| - 1] == name;
    }
  }

  lemma {:induction false} StripCloseParen(subtype: string)
    requires subtype == [] || (subtype[0] != ')' && subtype[|subtype| - 1] != ')')
    ensures StripChar(subtype + ")", ')') == subtype
  {
    var s := subtype + ")";
    if subtype == [] {
      assert s[1..] == [];
    } else {
      assert s[..|s| - 1] == subtype;
    }
  }

  // ---------------------------------------------------------------------------
  // Compiling records

  /** The rate details a raw rate yields under the record's threshold. */
  function RateSpecOf(raw: RawRate, threshold: Option<real>): (r: RateSpec)
    ensures r.Tiered? <==> raw.RawTiers?
    ensures r.Tiered? ==> r.tier1 == raw.tier1 && r.tier2 == raw.tier2 && r.threshold == threshold
    ensures raw.RawNumber? ==> r == Flat(Amount(raw.amount))
    ensures raw.RawText? ==> r == Flat(Wording(raw.text))
  {
    match raw
    case RawNumber(a) => Flat(Amount(a))
    case RawText(t) => Flat(Wording(t))
    case RawTiers(t1, t2) => Tiered(t1, t2, threshold)
  }

  /** The rate details of both regions, a missing rate staying missing. */
  function RatesOf(rule: RawRule, threshold: Option<real>): (r: (Option<RateSpec>, Option<RateSpec>))
  {
    (if rule.peninsular.Some? then Some(RateSpecOf(rule.peninsular.value, threshold)) else None,
     if rule.insular.Some? then Some(RateSpecOf(rule.insular.value, threshold)) else None)
  }

  /** The loop over the two region keys that builds the rate details. */
  method BaseRateDetails(rule: RawRule, threshold: Option<real>) returns (details: (Option<RateSpec>, Option<RateSpec>))
    ensures details == RatesOf(rule, threshold)
    ensures details.0.Some? <==> rule.peninsular.Some?
    ensures details.1.Some? <==> rule.insular.Some?
  {
    var regions := [Peninsular, Insular];
    details := (None, None);
    for i := 0 to 2
      invariant details.0 == (if i > 0 then RatesOf(rule, threshold).0 else None)
      invariant details.1 == (if i > 1 then RatesOf(rule, threshold).1 else None)
    {
      var raw := RawRateOf(rule, regions[i]);
      if raw.None? {
        continue;
      }
      var spec := RateSpecOf(raw.value, threshold);
      if regions[i] == Peninsular {
        details := (Some(spec), details.1);
      } else {
        details := (details.0, Some(spec));
      }
    }
  }

  /** The scheme a record describes. */
  function SchemeOf(rule: RawRule): (r: Result<Scheme, Error>)
    ensures r.Err? <==> !Contains(rule.ecoscheme, " - ")
    ensures r.Ok? ==> r.value.pluriannual == (rule.pluriannuality == "Applicable")
    ensures r.Ok? ==> (r.value.peninsular.Some? <==> rule.peninsular.Some?) && (r.value.insular.Some? <==> rule.insular.Some?)
  {
    match ParseLabel(rule.ecoscheme)
    case Err(e) => Err(e)
    case Ok((id, name, subtype)) =>
      var rates := RatesOf(rule, ParseThreshold(rule.thresholdText));
      Ok(Scheme(id, name, subtype, rates.0, rates.1, rule.pluriannuality == "Applicable"))
  }

  /** The land-use codes of a record. */
  function CodesOf(rule: RawRule): seq<string>
  {
    Split(rule.landUses, ", ")
  }

  /** Appends `s` to the candidate list of each code in turn, creating the
      list the first time a code is seen. */
  function AddCandidates(index: Assoc<string, seq<Scheme>>, codes: seq<string>, s: Scheme): Assoc<string, seq<Scheme>>
    decreases |codes|
  {
    if codes == [] then index
    else AddCandidates(Put(index, codes[0], GetOr(index, codes[0], []) + [s]), codes[1..], s)
  }

  /** One record folded into the compiled table. */
  function CompileStep(acc: Rules, rule: RawRule): Result<Rules, Error>
  {
    if rule.ecoscheme == NonEligible then
      Ok(Rules(acc.candidates, acc.nonEligible + (set c | c in CodesOf(rule))))
    else
      match SchemeOf(rule)
      case Err(e) => Err(e)
      case Ok(s) => Ok(Rules(AddCandidates(acc.candidates, CodesOf(rule), s), acc.nonEligible))
  }

  /** The records folded in order; the first failing record stops it. */
  function CompileFrom(acc: Rules, rules: seq<RawRule>): Result<Rules, Error>
    decreases |rules|
  {
    if rules == [] then Ok(acc)
    else
      match CompileStep(acc, rules[0])
      case Err(e) => Err(e)
      case Ok(next) => CompileFrom(next, rules[1..])
  }

  const EmptyRules := Rules([], {})

  /** Compiles the rules table record by record. */
  method CompileRules(rules: seq<RawRule>) returns (r: Result<Rules, Error>)
    ensures r == CompileFrom(EmptyRules, rules)
  {
    var candidates: Assoc<string, seq<Scheme>> := [];
    var nonEligible: set<string> := {};
    for i := 0 to |rules|
      invariant CompileFrom(Rules(candidates, nonEligible), rules[i..]) == CompileFrom(EmptyRules, rules)
    {
      var rule := rules[i];
      CompileFromAt(Rules(candidates, nonEligible), rules, i);
      if rule.ecoscheme == NonEligible {
        nonEligible := nonEligible + (set c | c in CodesOf(rule));
        continue;
      }
      var parts := Split(rule.ecoscheme, " - ");
      if |parts| < 2 {
        return Err(IndexError);
      }
      var parsed := ParseLabel(rule.ecoscheme);
      var details := BaseRateDetails(rule, ParseThreshold(rule.thresholdText));
      var scheme := Scheme(parsed.value.0, parsed.value.1, parsed.value.2, details.0, details.1,
                           rule.pluriannuality == "Applicable");
      assert scheme == SchemeOf(rule).value;
      candidates := AppendCandidates(candidates, CodesOf(rule), scheme);
    }
    assert rules[|rules|..] == [];
    r := Ok(Rules(candidates, nonEligible));
  }

  lemma {:induction false} CompileFromAt(acc: Rules, rules: seq<RawRule>, i: nat)
    requires i < |rules|
    ensures CompileFrom(acc, rules[i..]) ==
      match CompileStep(acc, rules[i])
      case Err(e) => Err(e)
      case Ok(next) => CompileFrom(next, rules[i + 1..])
  {
    assert rules[i..][0] == rules[i];
    assert rules[i..][1..] == rules[i + 1..];
  }

  /** The inner loop: the scheme appended to each code's list in turn. */
  method AppendCandidates(candidates: Assoc<string, seq<Scheme>>, codes: seq<string>, scheme: Scheme)
    returns (out: Assoc<string, seq<Scheme>>)
    ensures out == AddCandidates(candidates, codes, scheme)
  {
    out := candidates;
    for j := 0 to |codes|
      invariant AddCandidates(out, codes[j..], scheme) == AddCandidates(candidates, codes, scheme)
    {
      assert codes[j..][0] == codes[j] && codes[j..][1..] == codes[j + 1..];
      var code := codes[j];
      ghost var before := out;
      if !HasKey(out, code) {
        out := Put(out, code, []);
        GetPut(before, code, [], code);
        PutPut(before, code, [], [scheme]);
      }
      out := Put(out, code, GetOr(out, code, []) + [scheme]);
      assert out == Put(before, code, GetOr(before, code, []) + [scheme]);
    }
  }

  // ---------------------------------------------------------------------------
  // What the compiled table holds

  /** How many times `c` is listed in `codes`. */
  function Occurrences(c: string, codes: seq<string>): nat
  {
    if codes == [] then 0 else (if codes[0] == c then 1 else 0) + Occurrences(c, codes[1..])
  }

  function Repeat(s: Scheme, n: nat): (r: seq<Scheme>)
    ensures |r| == n && forall k :: 0 <= k < n ==> r[k] == s
  {
    if n == 0 then [] else [s] + Repeat(s, n - 1)
  }

  /** What one record adds to the list of code `c`: its scheme, once for
      every time it lists `c`, when it is an eligible record. */
  function Contribution(rule: RawRule, c: string): seq<Scheme>
  {
    if rule.ecoscheme != NonEligible && SchemeOf(rule).Ok?
    then Repeat(SchemeOf(rule).value, Occurrences(c, CodesOf(rule))) else []
  }

  /** The codes a record declares non-eligible. */
  function DeclaredNonEligible(rule: RawRule): set<string>
  {
    if rule.ecoscheme == NonEligible then set c | c in CodesOf(rule) else {}
  }

  /** The schemes that may pay for code `c`, in table order. */
  function SchemesFor(rules: seq<RawRule>, c: string): seq<Scheme>
  {
    if rules == [] then [] else Contribution(rules[0], c) + SchemesFor(rules[1..], c)
  }

  /** The codes that non-eligible records list. */
  function NonEligibleCodes(rules: seq<RawRule>): set<string>
  {
    if rules == [] then {} else DeclaredNonEligible(rules[0]) + NonEligibleCodes(rules[1..])
  }

  /** Every candidate list is non-empty. */
  predicate ListsNonEmpty(index: Assoc<string, seq<Scheme>>)
  {
    forall i :: 0 <= i < |index| ==> index[i].1 != []
  }

  lemma {:induction false} AddCandidatesContents(index: Assoc<string, seq<Scheme>>, codes: seq<string>, s: Scheme, c: string)
    ensures GetOr(AddCandidates(index, codes, s), c, []) == GetOr(index, c, []) + Repeat(s, Occurrences(c, codes))
    decreases |codes|
  {
    if codes != [] {
      var next := Put(index, codes[0], GetOr(index, codes[0], []) + [s]);
      AddCandidatesContents(next, codes[1..], s, c);
      GetPut(index, codes[0], GetOr(index, codes[0], []) + [s], c);
      if codes[0] == c {
        assert Repeat(s, Occurrences(c, codes)) == [s] + Repeat(s, Occurrences(c, codes[1..]));
      }
    }
  }

  lemma {:induction false} AddCandidatesShape(index: Assoc<string, seq<Scheme>>, codes: seq<string>, s: Scheme)
    requires DistinctKeys(index) && ListsNonEmpty(index)
    ensures DistinctKeys(AddCandidates(index, codes, s)) && ListsNonEmpty(AddCandidates(index, codes, s))
    decreases |codes|
  {
    if codes != [] {
      var next := Put(index, codes[0], GetOr(index, codes[0], []) + [s]);
      PutKeepsDistinct(index, codes[0], GetOr(index, codes[0], []) + [s]);
      assert ListsNonEmpty(next) by {
        forall i | 0 <= i < |next| ensures next[i].1 != [] {
          if i < |index| && index[i].0 != codes[0] {
            assert next[i] == index[i];
          } else {
            assert next[i].0 == codes[0];
            assert next[i] == (codes[0], GetOr(index, codes[0], []) + [s]) by {
              if i >= |index| {
              } else {
                assert Find(index, codes[0]) == Some(i) by {
                  assert forall j :: 0 <= j < i ==> index[j].0 != codes[0];
                }
              }
            }
          }
        }
      }
      AddCandidatesShape(next, codes[1..], s);
    }
  }

  /** In a table whose lists are non-empty, a code has an entry exactly
      when its list is non-empty. */
  lemma {:induction false} HasKeyNonEmpty(index: Assoc<string, seq<Scheme>>, c: string)
    requires ListsNonEmpty(index)
    ensures HasKey(index, c) <==> GetOr(index, c, []) != []
  {
  }

  /** One record: it fails exactly when it is eligible and its label lacks
      " - "; otherwise it adds its contribution to every code's list and its
      declared codes to the non-eligible set. */
  lemma {:induction false} CompileStepSpec(acc: Rules, rule: RawRule)
    requires DistinctKeys(acc.candidates) && ListsNonEmpty(acc.candidates)
    ensures CompileStep(acc, rule).Err? <==> rule.ecoscheme != NonEligible && !Contains(rule.ecoscheme, " - ")
    ensures CompileStep(acc, rule).Ok? ==>
      var next := CompileStep(acc, rule).value;
      DistinctKeys(next.candidates) && ListsNonEmpty(next.candidates) &&
      next.nonEligible == acc.nonEligible + DeclaredNonEligible(rule) &&
      forall c :: GetOr(next.candidates, c, []) == GetOr(acc.candidates, c, []) + Contribution(rule, c)
  {
    if rule.ecoscheme != NonEligible && SchemeOf(rule).Ok? {
      var s := SchemeOf(rule).value;
      AddCandidatesShape(acc.candidates, CodesOf(rule), s);
      forall c ensures GetOr(AddCandidates(acc.candidates, CodesOf(rule), s), c, []) == GetOr(acc.candidates, c, []) + Contribution(rule, c) {
        AddCandidatesContents(acc.candidates, CodesOf(rule), s, c);
      }
    }
  }

  /** Compilation fails exactly when some eligible record's label lacks
      " - ". */
  lemma {:induction false} CompileFromFails(acc: Rules, rules: seq<RawRule>)
    requires DistinctKeys(acc.candidates) && ListsNonEmpty(acc.candidates)
    ensures CompileFrom(acc, rules).Err? <==>
      exists i :: 0 <= i < |rules| && rules[i].ecoscheme != NonEligible && !Contains(rules[i].ecoscheme, " - ")
    decreases |rules|
  {
    if rules != [] {
      var rule := rules[0];
      CompileStepSpec(acc, rule);
      if CompileStep(acc, rule).Ok? {
        var next := CompileStep(acc, rule).value;
        CompileFromFails(next, rules[1..]);
        if CompileFrom(acc, rules).Err? {
          var i :| 0 <= i < |rules[1..]| && rules[1..][i].ecoscheme != NonEligible && !Contains(rules[1..][i].ecoscheme, " - ");
          assert rules[i + 1] == rules[1..][i];
        } else {
          forall i | 1 <= i < |rules| ensures rules[i].ecoscheme == NonEligible || Contains(rules[i].ecoscheme, " - ") {
            assert rules[i] == rules[1..][i - 1];
          }
        }
      }
    }
  }

  /** When compilation succeeds, every code's candidate list is what
      `SchemesFor` lists, and the non-eligible set is the union of the
      non-eligible records' codes. */
  lemma {:induction false} CompileFromSpec(acc: Rules, rules: seq<RawRule>)
    requires DistinctKeys(acc.candidates) && ListsNonEmpty(acc.candidates)
    requires CompileFrom(acc, rules).Ok?
    ensures var out := CompileFrom(acc, rules).value;
      DistinctKeys(out.candidates) && ListsNonEmpty(out.candidates) &&
      out.nonEligible == acc.nonEligible + NonEligibleCodes(rules) &&
      forall c :: GetOr(out.candidates, c, []) == GetOr(acc.candidates, c, []) + SchemesFor(rules, c)
    decreases |rules|
  {
    if rules != [] {
      var rule := rules[0];
      CompileStepSpec(acc, rule);
      var next := CompileStep(acc, rule).value;
      CompileFromSpec(next, rules[1..]);
      assert CompileFrom(acc, rules) == CompileFrom(next, rules[1..]);
      CompileCombine(acc, next, CompileFrom(next, rules[1..]).value, rules);
    }
  }

  /** The first record's contribution followed by the rest's is the
      contribution of all the records. */
  lemma {:induction false} CompileCombine(acc: Rules, next: Rules, out: Rules, rules: seq<RawRule>)
    requires rules != []
    requires next.nonEligible == acc.nonEligible + DeclaredNonEligible(rules[0])
    requires forall c :: GetOr(next.candidates, c, []) == GetOr(acc.candidates, c, []) + Contribution(rules[0], c)
    requires out.nonEligible == next.nonEligible + NonEligibleCodes(rules[1..])
    requires forall c :: GetOr(out.candidates, c, []) == GetOr(next.candidates, c, []) + SchemesFor(rules[1..], c)
    ensures out.nonEligible == acc.nonEligible + NonEligibleCodes(rules)
    ensures forall c :: GetOr(out.candidates, c, []) == GetOr(acc.candidates, c, []) + SchemesFor(rules, c)
  {
    forall c ensures GetOr(out.candidates, c, []) == GetOr(acc.candidates, c, []) + SchemesFor(rules, c) {
      CombineAt(GetOr(acc.candidates, c, []), GetOr(next.candidates, c, []), GetOr(out.candidates, c, []),
                Contribution(rules[0], c), SchemesFor(rules[1..], c));
    }
  }

  lemma {:induction false} CombineAt(a: seq<Scheme>, n: seq<Scheme>, o: seq<Scheme>, x: seq<Scheme>, y: seq<Scheme>)
    requires n == a + x && o == n + y
    ensures o == a + (x + y)
  {
  }

  /** The compiled table from an empty start: a code has candidates exactly
      when some eligible record lists it, and then they are that code's
      schemes in table order. */
  lemma {:induction false} CompiledCandidates(rules: seq<RawRule>, c: string)
    requires CompileFrom(EmptyRules, rules).Ok?
    ensures var out := CompileFrom(EmptyRules, rules).value;
      GetOr(out.candidates, c, []) == SchemesFor(rules, c) &&
      (HasKey(out.candidates, c) <==> SchemesFor(rules, c) != []) &&
      out.nonEligible == NonEligibleCodes(rules)
  {
    CompileFromSpec(EmptyRules, rules);
    var out := CompileFrom(EmptyRules, rules).value;
    assert GetOr(EmptyRules.candidates, c, []) == [];
    assert GetOr(out.candidates, c, []) == [] + SchemesFor(rules, c);
    assert out.nonEligible == {} + NonEligibleCodes(rules);
    HasKeyNonEmpty(out.candidates, c);
  }
}
