/** The land-use blocks of a parcel and the scheme each land use is assigned
    to. A block is a land-use code with its eligible surface; the text
    pattern that extracts blocks from the parcel description is not part
    of this model. */
module EcoschemeAssignment {
  import opened Wrappers
  import opened Assoc
  import Sorting
  import opened EcoschemeRules
  import opened EcoschemeSelection

  type Block = (string, Hectares)

  /** The parsed data: each block's code mapped to its area; a repeated
      code keeps its first position and takes the last block's area. */
  function ParsedData(blocks: seq<Block>): Assoc<string, Hectares>
  {
    if blocks == [] then []
    else Put(ParsedData(blocks[..|blocks| - 1]), blocks[|blocks| - 1].0, blocks[|blocks| - 1].1)
  }

  /** The parcel's total area: every block's area, repeated codes included. */
  function TotalArea(blocks: seq<Block>): Hectares
  {
    if blocks == [] then 0.0 else TotalArea(blocks[..|blocks| - 1]) + blocks[|blocks| - 1].1
  }

  /** The loop over the blocks that fills the parsed data and adds up the
      total area. */
  method ParseBlocks(blocks: seq<Block>) returns (parsed: Assoc<string, Hectares>, total: Hectares)
    ensures parsed == ParsedData(blocks) && total == TotalArea(blocks)
  {
    parsed := [];
    total := 0.0;
    for i := 0 to |blocks|
      invariant parsed == ParsedData(blocks[..i]) && total == TotalArea(blocks[..i])
    {
      assert blocks[..i + 1][..i] == blocks[..i];
      var (code, area) := blocks[i];
      total := total + area;
      parsed := Put(parsed, code, area);
    }
    assert blocks[..|blocks|] == blocks;
  }

  function Codes(blocks: seq<Block>): (r: seq<string>)
    ensures |r| == |blocks| && forall k :: 0 <= k < |blocks| ==> r[k] == blocks[k].0
  {
    if blocks == [] then [] else Codes(blocks[..|blocks| - 1]) + [blocks[|blocks| - 1].0]
  }

  /** The area of the last block with code `c`. */
  function LastArea(blocks: seq<Block>, c: string): Option<Hectares>
  {
    if blocks == [] then None
    else if blocks[|blocks| - 1].0 == c then Some(blocks[|blocks| - 1].1)
    else LastArea(blocks[..|blocks| - 1], c)
  }

  /** The parsed data lists each code once, in order of first appearance,
      with the area of its last block. */
  lemma {:induction false} ParsedDataSpec(blocks: seq<Block>)
    ensures DistinctKeys(ParsedData(blocks))
    ensures Keys(ParsedData(blocks)) == Sorting.Dedup(Codes(blocks))
    ensures forall c :: Get(ParsedData(blocks), c) == LastArea(blocks, c)
  {
    if blocks != [] {
      var init := blocks[..|blocks| - 1];
      var (code, area) := blocks[|blocks| - 1];
      var before := ParsedData(init);
      ParsedDataSpec(init);
      PutKeepsDistinct(before, code, area);
      forall c ensures Get(ParsedData(blocks), c) == LastArea(blocks, c) {
        GetPut(before, code, area, c);
      }
      assert Codes(blocks) == Codes(init) + [code];
      assert Codes(blocks)[..|blocks| - 1] == Codes(init);
      KeysPut(before, code, area);
      assert HasKey(before, code) <==> code in Keys(before);
    }
  }

  /** What the exclusivity rule assigns to a land use. */
  datatype Assignment = NotEligible | Assigned(choice: Choice)

  /** The decision for one land use: not eligible when a non-eligible
      record lists it or no record offers a scheme for it; otherwise the
      selection's winner, or nothing at all when no offer pays more than
      -1. */
  function Decide(rules: Rules, code: string, area: real): (r: Result<Option<Assignment>, Error>)
    ensures code in rules.nonEligible || !HasKey(rules.candidates, code) ==> r == Ok(Some(NotEligible))
    ensures r.Ok? && r.value.Some? && r.value.value.Assigned? ==>
      code !in rules.nonEligible && Select(GetOr(rules.candidates, code, []), area) == Ok(Some(r.value.value.choice))
    ensures code !in rules.nonEligible && HasKey(rules.candidates, code) ==>
      var sel := Select(GetOr(rules.candidates, code, []), area);
      (r.Err? <==> sel.Err?) &&
      (sel.Ok? && sel.value.None? ==> r == Ok(None)) &&
      (sel.Ok? && sel.value.Some? ==> r == Ok(Some(Assigned(sel.value.value))))
  {
    if code in rules.nonEligible || !HasKey(rules.candidates, code) then Ok(Some(NotEligible))
    else
      match Select(GetOr(rules.candidates, code, []), area)
      case Err(e) => Err(e)
      case Ok(None) => Ok(None)
      case Ok(Some(c)) => Ok(Some(Assigned(c)))
  }

  /** The assignments of the parsed land uses, in order; the first failing
      decision stops it. */
  function AssignAll(rules: Rules, parsed: Assoc<string, Hectares>): Result<Assoc<string, Assignment>, Error>
  {
    if parsed == [] then Ok([])
    else
      var (code, area) := parsed[|parsed| - 1];
      match AssignAll(rules, parsed[..|parsed| - 1])
      case Err(e) => Err(e)
      case Ok(acc) =>
        match Decide(rules, code, area)
        case Err(e) => Err(e)
        case Ok(None) => Ok(acc)
        case Ok(Some(a)) => Ok(Put(acc, code, a))
  }

  /** The loop over the parsed land uses. */
  method AssignLandUses(rules: Rules, parsed: Assoc<string, Hectares>) returns (r: Result<Assoc<string, Assignment>, Error>)
    ensures r == AssignAll(rules, parsed)
  {
    var assignments: Assoc<string, Assignment> := [];
    for i := 0 to |parsed|
      invariant AssignAll(rules, parsed[..i]) == Ok(assignments)
    {
      assert parsed[..i + 1][..i] == parsed[..i];
      var (code, area) := parsed[i];
      if code in rules.nonEligible || !HasKey(rules.candidates, code) {
        assignments := Put(assignments, code, NotEligible);
        continue;
      }
      var best := SelectBest(GetOr(rules.candidates, code, []), area);
      if best.Err? {
        assert AssignAll(rules, parsed[..i + 1]) == Err(best.error);
        AssignAllFailsEarly(rules, parsed, i + 1);
        return Err(best.error);
      }
      if best.value.Some? {
        assignments := Put(assignments, code, Assigned(best.value.value));
      }
    }
    assert parsed[..|parsed|] == parsed;
    r := Ok(assignments);
  }

  /** A failure on a prefix is the failure of the whole. */
  lemma {:induction false} AssignAllFailsEarly(rules: Rules, parsed: Assoc<string, Hectares>, j: nat)
    requires j <= |parsed| && AssignAll(rules, parsed[..j]).Err?
    ensures AssignAll(rules, parsed) == AssignAll(rules, parsed[..j])
    decreases |parsed| - j
  {
    if j < |parsed| {
      assert parsed[..|parsed| - 1][..j] == parsed[..j];
      AssignAllFailsEarly(rules, parsed[..|parsed| - 1], j);
    } else {
      assert parsed[..j] == parsed;
    }
  }

  /** Assigning fails exactly when the decision for some land use fails. */
  lemma {:induction false} AssignAllFails(rules: Rules, parsed: Assoc<string, Hectares>)
    ensures AssignAll(rules, parsed).Err? <==> exists i :: 0 <= i < |parsed| && Decide(rules, parsed[i].0, parsed[i].1).Err?
  {
    if parsed != [] {
      var init := parsed[..|parsed| - 1];
      AssignAllFails(rules, init);
      assert forall i :: 0 <= i < |init| ==> init[i] == parsed[i];
    }
  }

  /** When assigning succeeds, each land use gets its own decision, and
      nothing else is assigned. */
  lemma {:induction false} AssignAllSpec(rules: Rules, parsed: Assoc<string, Hectares>)
    requires DistinctKeys(parsed) && AssignAll(rules, parsed).Ok?
    ensures forall i :: 0 <= i < |parsed| ==> Decide(rules, parsed[i].0, parsed[i].1).Ok?
    ensures var out := AssignAll(rules, parsed).value;
      DistinctKeys(out) &&
      (forall c :: HasKey(out, c) ==> HasKey(parsed, c)) &&
      forall i :: 0 <= i < |parsed| ==> Get(out, parsed[i].0) == Decide(rules, parsed[i].0, parsed[i].1).value
  {
    if parsed != [] {
      var init := parsed[..|parsed| - 1];
      assert DistinctKeys(init);
      AssignAllLast(rules, parsed);
      AssignAllSpec(rules, init);
      var ds := MapSeq((p: (string, Hectares)) => Decide(rules, p.0, p.1), parsed);
      assert forall i :: 0 <= i < |init| ==> init[i] == parsed[i];
      AssignStep(AssignAll(rules, init).value, parsed, ds);
    }
  }

  /** Every parsed land use ends up with what the exclusivity rule gives
      it: not eligible when a non-eligible record lists it or no record
      offers a scheme for it; otherwise the selection's winner, or no
      entry at all when the selection has none. */
  lemma {:induction false} AssignedWinner(rules: Rules, parsed: Assoc<string, Hectares>, i: nat)
    requires DistinctKeys(parsed) && AssignAll(rules, parsed).Ok? && i < |parsed|
    ensures var out := AssignAll(rules, parsed).value;
      var (code, area) := parsed[i];
      var sel := Select(GetOr(rules.candidates, code, []), area);
      (code in rules.nonEligible || !HasKey(rules.candidates, code) ==> Get(out, code) == Some(NotEligible)) &&
      (code !in rules.nonEligible && HasKey(rules.candidates, code) ==>
         sel.Ok? &&
         (sel.value.Some? ==> Get(out, code) == Some(Assigned(sel.value.value))) &&
         (sel.value.None? ==> !HasKey(out, code)))
  {
    AssignAllSpec(rules, parsed);
    var out := AssignAll(rules, parsed).value;
    var (code, area) := parsed[i];
    assert Get(out, code) == Decide(rules, code, area).value;
  }

  /** The last land use's decision, on top of the ones before it. */
  lemma AssignAllLast(rules: Rules, parsed: Assoc<string, Hectares>)
    requires parsed != [] && AssignAll(rules, parsed).Ok?
    ensures var (code, area) := parsed[|parsed| - 1];
      var init := AssignAll(rules, parsed[..|parsed| - 1]);
      var d := Decide(rules, code, area);
      init.Ok? && d.Ok? &&
      AssignAll(rules, parsed).value == if d.value.Some? then Put(init.value, code, d.value.value) else init.value
  {
  }

  /** Blocks with distinct codes are their own parsed data. */
  lemma {:induction false} ParsedDataDistinct(blocks: seq<Block>)
    requires forall i, j :: 0 <= i < j < |blocks| ==> blocks[i].0 != blocks[j].0
    ensures ParsedData(blocks) == blocks
  {
    if blocks != [] {
      var init := blocks[..|blocks| - 1];
      var (code, area) := blocks[|blocks| - 1];
      ParsedDataDistinct(init);
      assert !HasKey(init, code);
      assert Put(init, code, area) == init + [(code, area)];
    }
  }

  /** When every parsed land use is assigned, the assignments list the
      land uses in the parsed order. */
  lemma {:induction false} AssignAllKeys(rules: Rules, parsed: Assoc<string, Hectares>)
    requires DistinctKeys(parsed) && AssignAll(rules, parsed).Ok?
    requires forall i :: 0 <= i < |parsed| ==> HasKey(AssignAll(rules, parsed).value, parsed[i].0)
    ensures var out := AssignAll(rules, parsed).value;
      |out| == |parsed| && forall i :: 0 <= i < |parsed| ==> out[i].0 == parsed[i].0
  {
    if parsed != [] {
      var init := parsed[..|parsed| - 1];
      var (code, area) := parsed[|parsed| - 1];
      AssignAllLast(rules, parsed);
      var before := AssignAll(rules, init).value;
      var out := AssignAll(rules, parsed).value;
      var d := Decide(rules, code, area).value;
      assert DistinctKeys(init);
      AssignAllSpec(rules, init);
      assert !HasKey(before, code) by {
        assert !HasKey(init, code);
      }
      assert d.Some? by {
        assert HasKey(out, parsed[|parsed| - 1].0);
      }
      forall i | 0 <= i < |init| ensures HasKey(before, init[i].0) {
        assert HasKey(out, parsed[i].0);
        GetPut(before, code, d.value, init[i].0);
      }
      AssignAllKeys(rules, init);
    }
  }

  /** Adding the last land use's decision to the assignments of the ones
      before it. */
  lemma {:induction false} AssignStep(acc: Assoc<string, Assignment>, parsed: Assoc<string, Hectares>,
                                      ds: seq<Result<Option<Assignment>, Error>>)
    requires parsed != [] && DistinctKeys(parsed) && |ds| == |parsed| && ds[|parsed| - 1].Ok?
    requires DistinctKeys(acc) && forall c :: HasKey(acc, c) ==> HasKey(parsed[..|parsed| - 1], c)
    requires forall i :: 0 <= i < |parsed| - 1 ==> ds[i].Ok? && Get(acc, parsed[i].0) == ds[i].value
    ensures var d := ds[|parsed| - 1].value;
      var out := if d.Some? then Put(acc, parsed[|parsed| - 1].0, d.value) else acc;
      DistinctKeys(out) &&
      (forall c :: HasKey(out, c) ==> HasKey(parsed, c)) &&
      forall i :: 0 <= i < |parsed| ==> ds[i].Ok? && Get(out, parsed[i].0) == ds[i].value
  {
    var init := parsed[..|parsed| - 1];
    var code := parsed[|parsed| - 1].0;
    var d := ds[|parsed| - 1].value;
    var out := if d.Some? then Put(acc, code, d.value) else acc;
    assert forall i :: 0 <= i < |init| ==> init[i] == parsed[i];
    forall c | HasKey(acc, c) ensures HasKey(parsed, c) && c != code {
      var i :| 0 <= i < |init| && init[i].0 == c;
      assert parsed[i].0 == c;
    }
    assert !HasKey(acc, code);
    if d.Some? {
      PutKeepsDistinct(acc, code, d.value);
    }
    forall c ensures Get(out, c) == if c == code then d else Get(acc, c) {
      if d.Some? { GetPut(acc, code, d.value, c); }
    }
    forall c | HasKey(out, c) ensures HasKey(parsed, c) {
      if c == code { assert parsed[|parsed| - 1].0 == c; }
    }
  }
}
