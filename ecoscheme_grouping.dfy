/** The grouping of assigned land uses into report groups: one group per
    scheme identifier and subtype, and one group for every non-eligible
    land use. A group adds up the areas of its land uses and lists their
    codes in assignment order. */
module EcoschemeGrouping {
  import opened Wrappers
  import opened Assoc
  import Sorting
  import opened EcoschemeRules
  import opened EcoschemeSelection
  import opened EcoschemeAssignment

  /** The identifier an assignment carries: "N/A" for a non-eligible use. */
  function IdOf(a: Assignment): string
  {
    match a
    case NotEligible => "N/A"
    case Assigned(c) => c.scheme.id
  }

  /** The group key: identifier and subtype joined by '_', or
      "Non-Eligible" when the identifier is "N/A". */
  function GroupKey(a: Assignment): string
  {
    if IdOf(a) != "N/A" then IdOf(a) + "_" + a.choice.scheme.subtype else NonEligible
  }

  /** "Non-Eligible" holds no '_', so only the identifier "N/A" leads to the
      non-eligible group; a scheme whose identifier is "N/A" lands there too. */
  lemma {:induction false} GroupKeyNonEligible(a: Assignment)
    ensures GroupKey(a) == NonEligible <==> IdOf(a) == "N/A"
  {
    if IdOf(a) != "N/A" {
      var k := GroupKey(a);
      assert k[|IdOf(a)|] == '_';
      assert forall i :: 0 <= i < |NonEligible| ==> NonEligible[i] != '_';
    }
  }

  /** What a group reports about its scheme: nothing for the non-eligible
      group, the scheme of its first land use otherwise. */
  datatype Head = NonEligibleHead | SchemeHead(scheme: Scheme)

  datatype Group = Group(head: Head, area: Hectares, codes: seq<string>)

  /** The head a group gets when `a` is the first assignment with its key. */
  function HeadFor(a: Assignment): (h: Head)
    ensures h.NonEligibleHead? <==> IdOf(a) == "N/A"
  {
    GroupKeyNonEligible(a);
    if GroupKey(a) == NonEligible then NonEligibleHead else SchemeHead(a.choice.scheme)
  }

  /** The empty group opened for `a`'s key. */
  function NewGroup(a: Assignment): (g: Group)
    ensures g.area == 0.0 && g.codes == [] && g.head == HeadFor(a)
  {
    Group(HeadFor(a), 0.0, [])
  }

  /** `g` with one more land use. */
  function Grown(g: Group, code: string, area: Hectares): (r: Group)
    ensures r.head == g.head && r.area == g.area + area && r.codes == g.codes + [code]
  {
    g.(area := g.area + area, codes := g.codes + [code])
  }

  /** The groups of the assignments, in order of first appearance of their
      keys; a land use missing from the parsed data fails with `KeyError`. */
  function GroupAll(parsed: Assoc<string, Hectares>, assigns: Assoc<string, Assignment>): Result<Assoc<string, Group>, Error>
  {
    if assigns == [] then Ok([])
    else
      var (code, a) := assigns[|assigns| - 1];
      match GroupAll(parsed, assigns[..|assigns| - 1])
      case Err(e) => Err(e)
      case Ok(groups) =>
        match Get(parsed, code)
        case None => Err(KeyError)
        case Some(area) =>
          Ok(Put(groups, GroupKey(a), Grown(GetOr(groups, GroupKey(a), NewGroup(a)), code, area)))
  }

  /** The loop over the assignments. */
  method GroupAssignments(parsed: Assoc<string, Hectares>, assigns: Assoc<string, Assignment>)
    returns (r: Result<Assoc<string, Group>, Error>)
    ensures r == GroupAll(parsed, assigns)
  {
    var groups: Assoc<string, Group> := [];
    for i := 0 to |assigns|
      invariant GroupAll(parsed, assigns[..i]) == Ok(groups)
    {
      assert assigns[..i + 1][..i] == assigns[..i];
      var (code, a) := assigns[i];
      var area := Get(parsed, code);
      if area.None? {
        GroupAllFailsEarly(parsed, assigns, i + 1);
        return Err(KeyError);
      }
      var key := GroupKey(a);
      ghost var before := groups;
      if !HasKey(groups, key) {
        groups := Put(groups, key, NewGroup(a));
        GetPut(before, key, NewGroup(a), key);
      }
      var g := GetOr(groups, key, NewGroup(a));
      if !HasKey(before, key) {
        PutPut(before, key, NewGroup(a), Grown(g, code, area.value));
      }
      groups := Put(groups, key, Grown(g, code, area.value));
    }
    assert assigns[..|assigns|] == assigns;
    r := Ok(groups);
  }

  /** A failure on a prefix is the failure of the whole. */
  lemma {:induction false} GroupAllFailsEarly(parsed: Assoc<string, Hectares>, assigns: Assoc<string, Assignment>, j: nat)
    requires j <= |assigns| && GroupAll(parsed, assigns[..j]).Err?
    ensures GroupAll(parsed, assigns) == GroupAll(parsed, assigns[..j])
    decreases |assigns| - j
  {
    if j < |assigns| {
      assert assigns[..|assigns| - 1][..j] == assigns[..j];
      GroupAllFailsEarly(parsed, assigns[..|assigns| - 1], j);
    } else {
      assert assigns[..j] == assigns;
    }
  }

  /** The key of every assignment, in order. */
  function KeysOf(assigns: Assoc<string, Assignment>): (r: seq<string>)
    ensures |r| == |assigns| && forall i :: 0 <= i < |assigns| ==> r[i] == GroupKey(assigns[i].1)
  {
    MapSeq((p: (string, Assignment)) => GroupKey(p.1), assigns)
  }

  /** The codes of the assignments with key `key`, in order. */
  function Members(assigns: Assoc<string, Assignment>, key: string): seq<string>
  {
    if assigns == [] then []
    else
      var (code, a) := assigns[|assigns| - 1];
      Members(assigns[..|assigns| - 1], key) + if GroupKey(a) == key then [code] else []
  }

  /** The parsed areas of the assignments with key `key`, added up. */
  function MembersArea(parsed: Assoc<string, Hectares>, assigns: Assoc<string, Assignment>, key: string): Hectares
  {
    if assigns == [] then 0.0
    else
      var (code, a) := assigns[|assigns| - 1];
      MembersArea(parsed, assigns[..|assigns| - 1], key) + if GroupKey(a) == key then GetOr(parsed, code, 0.0) else 0.0
  }

  /** The first assignment with key `key`. */
  function FirstWith(assigns: Assoc<string, Assignment>, key: string): Option<Assignment>
  {
    if assigns == [] then None
    else
      match FirstWith(assigns[..|assigns| - 1], key)
      case Some(a) => Some(a)
      case None => if GroupKey(assigns[|assigns| - 1].1) == key then Some(assigns[|assigns| - 1].1) else None
  }

  /** Grouping fails exactly when some assigned land use is not in the
      parsed data. */
  lemma {:induction false} GroupAllFails(parsed: Assoc<string, Hectares>, assigns: Assoc<string, Assignment>)
    ensures GroupAll(parsed, assigns).Err? <==> exists i :: 0 <= i < |assigns| && !HasKey(parsed, assigns[i].0)
    ensures GroupAll(parsed, assigns).Err? ==> GroupAll(parsed, assigns) == Err(KeyError)
  {
    if assigns != [] {
      var init := assigns[..|assigns| - 1];
      GroupAllFails(parsed, init);
      assert forall i :: 0 <= i < |init| ==> init[i] == assigns[i];
    }
  }

  /** `g` is what the grouping holds for key `key`: a group exactly when
      some assignment has that key, headed by the first of them, with the
      codes and the summed parsed areas of all of them. */
  predicate IsGroupOf(parsed: Assoc<string, Hectares>, assigns: Assoc<string, Assignment>, key: string, g: Option<Group>)
  {
    (g.Some? <==> FirstWith(assigns, key).Some?) &&
    (g.Some? ==>
      g.value.head == HeadFor(FirstWith(assigns, key).value) &&
      g.value.area == MembersArea(parsed, assigns, key) &&
      g.value.codes == Members(assigns, key))
  }

  /** One step of the grouping: the last assignment's area and code are
      added to the group of its key, opened if need be. */
  lemma {:induction false} GroupAllLast(parsed: Assoc<string, Hectares>, assigns: Assoc<string, Assignment>)
    requires assigns != [] && GroupAll(parsed, assigns).Ok?
    ensures GroupAll(parsed, assigns[..|assigns| - 1]).Ok? && HasKey(parsed, assigns[|assigns| - 1].0)
    ensures var (code, a) := assigns[|assigns| - 1];
      var before := GroupAll(parsed, assigns[..|assigns| - 1]).value;
      GroupAll(parsed, assigns).value ==
        Put(before, GroupKey(a), Grown(GetOr(before, GroupKey(a), NewGroup(a)), code, GetOr(parsed, code, 0.0)))
  {
  }

  /** Every key reads as the group the assignments give it. */
  lemma {:induction false} GroupAllAt(parsed: Assoc<string, Hectares>, assigns: Assoc<string, Assignment>, key: string)
    requires GroupAll(parsed, assigns).Ok?
    ensures IsGroupOf(parsed, assigns, key, Get(GroupAll(parsed, assigns).value, key))
  {
    if assigns != [] {
      var init := assigns[..|assigns| - 1];
      var (code, a) := assigns[|assigns| - 1];
      GroupAllLast(parsed, assigns);
      GroupAllAt(parsed, init, key);
      var before := GroupAll(parsed, init).value;
      var g := GetOr(before, GroupKey(a), NewGroup(a));
      GetPut(before, GroupKey(a), Grown(g, code, GetOr(parsed, code, 0.0)), key);
      GroupOfStep(parsed, assigns, key, Get(before, key), Get(GroupAll(parsed, assigns).value, key));
    }
  }

  /** The group of a key grows by the last assignment exactly when that
      assignment has the key. */
  lemma {:induction false} GroupOfStep(parsed: Assoc<string, Hectares>, assigns: Assoc<string, Assignment>, key: string,
                                       before: Option<Group>, after: Option<Group>)
    requires assigns != [] && IsGroupOf(parsed, assigns[..|assigns| - 1], key, before)
    requires var (code, a) := assigns[|assigns| - 1];
      after == if key != GroupKey(a) then before
               else Some(Grown(if before.Some? then before.value else NewGroup(a), code, GetOr(parsed, code, 0.0)))
    ensures IsGroupOf(parsed, assigns, key, after)
  {
    var init := assigns[..|assigns| - 1];
    if key != GroupKey(assigns[|assigns| - 1].1) {
      assert Members(assigns, key) == Members(init, key);
      assert MembersArea(parsed, assigns, key) == MembersArea(parsed, init, key);
      assert FirstWith(assigns, key) == FirstWith(init, key);
    } else if before.None? {
      NoMembers(parsed, init, key);
    } else {
      assert FirstWith(assigns, key) == FirstWith(init, key);
    }
  }

  /** A key no assignment has collects no codes and no area. */
  lemma {:induction false} NoMembers(parsed: Assoc<string, Hectares>, assigns: Assoc<string, Assignment>, key: string)
    requires FirstWith(assigns, key).None?
    ensures Members(assigns, key) == [] && MembersArea(parsed, assigns, key) == 0.0
  {
    if assigns != [] {
      NoMembers(parsed, assigns[..|assigns| - 1], key);
    }
  }

  /** Each key gets one group, in order of first appearance of the keys,
      and a key has a group exactly when some assignment has that key. */
  lemma {:induction false} GroupAllSpec(parsed: Assoc<string, Hectares>, assigns: Assoc<string, Assignment>)
    requires GroupAll(parsed, assigns).Ok?
    ensures DistinctKeys(GroupAll(parsed, assigns).value)
    ensures Keys(GroupAll(parsed, assigns).value) == Sorting.Dedup(KeysOf(assigns))
    ensures forall key :: HasKey(GroupAll(parsed, assigns).value, key) <==> key in KeysOf(assigns)
  {
    if assigns != [] {
      var init := assigns[..|assigns| - 1];
      var (code, a) := assigns[|assigns| - 1];
      var key := GroupKey(a);
      GroupAllLast(parsed, assigns);
      GroupAllSpec(parsed, init);
      var before := GroupAll(parsed, init).value;
      var g' := Grown(GetOr(before, key, NewGroup(a)), code, GetOr(parsed, code, 0.0));
      var after := GroupAll(parsed, assigns).value;
      assert after == Put(before, key, g');
      PutKeepsDistinct(before, key, g');
      var keys := KeysOf(assigns);
      assert keys[..|assigns| - 1] == KeysOf(init) && keys[|assigns| - 1] == key;
      assert Sorting.Dedup(keys) ==
        if key in Sorting.Dedup(KeysOf(init)) then Sorting.Dedup(KeysOf(init)) else Sorting.Dedup(KeysOf(init)) + [key];
      KeysPut(before, key, g');
      forall k ensures HasKey(after, k) <==> k in keys {
        GetPut(before, key, g', k);
        assert keys == KeysOf(init) + [key];
      }
    }
  }

  /** The area of all groups together. */
  function GroupsArea(groups: Assoc<string, Group>): real
  {
    if groups == [] then 0.0 else GroupsArea(groups[..|groups| - 1]) + groups[|groups| - 1].1.area
  }

  /** The parsed area of every assigned land use. */
  function AssignedArea(parsed: Assoc<string, Hectares>, assigns: Assoc<string, Assignment>): real
  {
    if assigns == [] then 0.0
    else AssignedArea(parsed, assigns[..|assigns| - 1]) + GetOr(parsed, assigns[|assigns| - 1].0, 0.0)
  }

  /** Grouping neither loses nor duplicates area: the groups together hold
      the area of every assigned land use. */
  lemma {:induction false} GroupAllConservesArea(parsed: Assoc<string, Hectares>, assigns: Assoc<string, Assignment>)
    requires GroupAll(parsed, assigns).Ok?
    ensures GroupsArea(GroupAll(parsed, assigns).value) == AssignedArea(parsed, assigns)
  {
    if assigns != [] {
      var init := assigns[..|assigns| - 1];
      var (code, a) := assigns[|assigns| - 1];
      var key := GroupKey(a);
      GroupAllLast(parsed, assigns);
      GroupAllConservesArea(parsed, init);
      var before := GroupAll(parsed, init).value;
      var g := GetOr(before, key, NewGroup(a));
      var g' := Grown(g, code, GetOr(parsed, code, 0.0));
      match Find(before, key)
      case None =>
        assert Put(before, key, g') == before + [(key, g')];
        assert (before + [(key, g')])[..|before|] == before;
      case Some(i) =>
        assert g == before[i].1;
        AreaUpdate(before, i, (key, g'));
    }
  }

  lemma {:induction false} AreaUpdate(groups: Assoc<string, Group>, i: nat, entry: (string, Group))
    requires i < |groups|
    ensures GroupsArea(groups[i := entry]) == GroupsArea(groups) - groups[i].1.area + entry.1.area
  {
    var n := |groups|;
    if i == n - 1 {
      assert groups[i := entry][..n - 1] == groups[..n - 1];
    } else {
      AreaUpdate(groups[..n - 1], i, entry);
      assert groups[i := entry][..n - 1] == groups[..n - 1][i := entry];
    }
  }

  /** Assignments that list the parsed land uses in the parsed order hold
      their whole area. */
  lemma {:induction false} AssignedAreaOfAll(parsed: Assoc<string, Hectares>, assigns: Assoc<string, Assignment>, n: nat)
    requires DistinctKeys(parsed) && n <= |parsed| && |assigns| == |parsed|
    requires forall i :: 0 <= i < |parsed| ==> assigns[i].0 == parsed[i].0
    ensures AssignedArea(parsed, assigns[..n]) == TotalArea(parsed[..n])
  {
    if n > 0 {
      AssignedAreaOfAll(parsed, assigns, n - 1);
      assert assigns[..n][..n - 1] == assigns[..n - 1];
      assert parsed[..n][..n - 1] == parsed[..n - 1];
      assert Find(parsed, parsed[n - 1].0) == Some(n - 1);
    }
  }

  /** With distinct codes, all of them assigned, the groups together hold
      the parcel's total area. */
  lemma {:induction false} ParcelAreaIsGroupsArea(rules: Rules, blocks: seq<Block>)
    requires forall i, j :: 0 <= i < j < |blocks| ==> blocks[i].0 != blocks[j].0
    requires AssignAll(rules, ParsedData(blocks)).Ok?
    requires forall i :: 0 <= i < |blocks| ==> HasKey(AssignAll(rules, ParsedData(blocks)).value, blocks[i].0)
    ensures GroupAll(ParsedData(blocks), AssignAll(rules, ParsedData(blocks)).value).Ok?
    ensures GroupsArea(GroupAll(ParsedData(blocks), AssignAll(rules, ParsedData(blocks)).value).value) == TotalArea(blocks)
  {
    ParsedDataDistinct(blocks);
    var parsed := ParsedData(blocks);
    var assigns := AssignAll(rules, parsed).value;
    AssignAllKeys(rules, parsed);
    GroupAllFails(parsed, assigns);
    forall i | 0 <= i < |assigns| ensures HasKey(parsed, assigns[i].0) {
      assert FindFrom(parsed, parsed[i].0, 0).Some?;
    }
    GroupAllConservesArea(parsed, assigns);
    AssignedAreaOfAll(parsed, assigns, |parsed|);
    assert assigns[..|parsed|] == assigns && parsed[..|parsed|] == parsed;
  }
}
