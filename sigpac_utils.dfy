/** The SIGPAC helpers: the rural cadastral reference (normalisation, its two
    control letters, the fixed-width fields), the province-to-community lookup
    and the grouping of a parcel's enclosures by land use. */
module SigpacUtils {
  import opened Wrappers
  import opened Text
  import opened Assoc
  import opened DecimalRounding
  import Sorting

  // ---------------------------------------------------------------------------
  // Normalisation

  /** `reference.upper().replace(" ", "")`. */
  function Normalize(reference: string): string
  {
    RemoveChar(Upper(reference), ' ')
  }

  /** What normalisation leaves has no spaces and no lower-case letters. */
  lemma {:induction false} NormalizeIsNormal(s: string)
    ensures IsNormal(Normalize(s))
  {
    var u := Upper(s);
    var r := Normalize(s);
    RemoveCharIn(u, ' ');
    forall k | 0 <= k < |r| ensures r[k] != ' ' && UpperChar(r[k]) == r[k] {
      assert r[k] in u;
    }
  }

  /** No spaces and no lower-case letters: what normalisation leaves. */
  predicate IsNormal(s: string)
  {
    forall k :: 0 <= k < |s| ==> s[k] != ' ' && UpperChar(s[k]) == s[k]
  }

  /** Normalisation leaves a normal reference as it is. */
  lemma {:induction false} NormalizeNormal(s: string)
    requires IsNormal(s)
    ensures Normalize(s) == s
  {
    assert Upper(s) == s;
    RemoveAbsent(s, ' ');
  }

  lemma {:induction false} RemoveAbsent(s: string, c: char)
    requires forall k :: 0 <= k < |s| ==> s[k] != c
    ensures RemoveChar(s, c) == s
  {
    if s != [] {
      RemoveAbsent(s[1..], c);
    }
  }

  /** Normalising twice is normalising once, so the validator, which
      normalises again what the reader already normalised, sees the same
      reference. */
  lemma {:induction false} NormalizeIdempotent(s: string)
    ensures Normalize(Normalize(s)) == Normalize(s)
  {
    NormalizeIsNormal(s);
    NormalizeNormal(Normalize(s));
  }

  // ---------------------------------------------------------------------------
  // Control letters

  /** The weights of positions 0..6 (and 7..13), then of positions 14..17. */
  const Pos: seq<int> := [13, 15, 12, 5, 4, 17, 9, 21, 3, 7, 1]

  /** The control alphabet, indexed by a sum modulo 23. */
  const Res: string := "MQWERTYUIOPASDFGHJKLBZX"

  /** The value of a character of positions 0..13: a digit counts its
      value, a letter after 'N' its code minus 63, anything else its code
      minus 64 (so 'A' is 1 and 'O' is 16). */
  function Weight(c: char): int
  {
    if IsDigit(c) then c as int - 48
    else if c as int > 78 then c as int - 63
    else c as int - 64
  }

  /** The weighted sum of the `n` characters from `start`, with the weights
      of positions 0..n-1. */
  function BlockSum(ref: string, start: nat, n: nat): int
    requires n <= 7 && start + n <= |ref|
  {
    if n == 0 then 0 else BlockSum(ref, start, n - 1) + Pos[n - 1] * Weight(ref[start + n - 1])
  }

  /** The weighted sum of characters 14..14+n-1, each counted as its code
      minus 48 whatever it is. */
  function MixSum(ref: string, n: nat): int
    requires n <= 4 && 14 + n <= |ref|
  {
    if n == 0 then 0 else MixSum(ref, n - 1) + Pos[n + 6] * (ref[13 + n] as int - 48)
  }

  /** The control letter of a weighted sum. */
  function Letter(sum: int): char
  {
    Res[sum % 23]
  }

  /** Control letters are upper-case letters. */
  lemma {:induction false} LetterIsUpper(sum: int)
    ensures 'A' <= Letter(sum) <= 'Z'
  {
    assert forall k :: 0 <= k < |Res| ==> 'A' <= Res[k] <= 'Z';
  }

  /** The two control letters of the first 18 characters. */
  function Control(ref: string): (r: string)
    requires |ref| >= 18
    ensures |r| == 2
  {
    var mixt := MixSum(ref, 4);
    [Letter(BlockSum(ref, 0, 7) + mixt), Letter(BlockSum(ref, 7, 7) + mixt)]
  }

  datatype CadastralError =
    | BadLength
    | UrbanReference
    | BadControl(expected: string, got: string)
    | NotAnInteger(field: string)
    | UnknownProvince(province: int)

  /** `validate_cadastral_registry`: a normalised reference of 20
      characters, rural (character 5 is not a digit) and ending in its own
      control letters. The urban test comes before the control test. */
  function Validate(reference: string): Result<(), CadastralError>
  {
    ValidateNormal(Normalize(reference))
  }

  /** The checks of the validator on the normalised reference. */
  function ValidateNormal(ref: string): (r: Result<(), CadastralError>)
    ensures r == Err(BadLength) <==> |ref| != 20
  {
    if |ref| != 20 then Err(BadLength)
    else if IsDigit(ref[5]) then Err(UrbanReference)
    else if ref[18..] == Control(ref) then Ok(())
    else Err(BadControl(Control(ref), ref[18..]))
  }

  /** The three accumulation loops of the validator. */
  method ValidateCadastralRegistry(reference: string) returns (r: Result<(), CadastralError>)
    ensures r == Validate(reference)
  {
    var sumPd1 := 0;
    var sumSd2 := 0;
    var mixt1 := 0;
    var ref := Normalize(reference);
    if |ref| != 20 {
      return Err(BadLength);
    }
    for i := 0 to 7
      invariant sumPd1 == BlockSum(ref, 0, i)
    {
      if IsDigit(ref[i]) {
        sumPd1 := sumPd1 + Pos[i] * (ref[i] as int - 48);
      } else if ref[i] as int > 78 {
        sumPd1 := sumPd1 + Pos[i] * (ref[i] as int - 63);
      } else {
        sumPd1 := sumPd1 + Pos[i] * (ref[i] as int - 64);
      }
    }
    for i := 0 to 7
      invariant sumSd2 == BlockSum(ref, 7, i)
    {
      if IsDigit(ref[i + 7]) {
        sumSd2 := sumSd2 + Pos[i] * (ref[i + 7] as int - 48);
      } else if ref[i + 7] as int > 78 {
        sumSd2 := sumSd2 + Pos[i] * (ref[i + 7] as int - 63);
      } else {
        sumSd2 := sumSd2 + Pos[i] * (ref[i + 7] as int - 64);
      }
    }
    for i := 0 to 4
      invariant mixt1 == MixSum(ref, i)
    {
      mixt1 := mixt1 + Pos[i + 7] * (ref[i + 14] as int - 48);
    }
    var code1 := Letter(sumPd1 + mixt1);
    var code2 := Letter(sumSd2 + mixt1);
    assert Control(ref) == [code1, code2];
    if IsDigit(ref[5]) {
      return Err(UrbanReference);
    }
    if code1 == ref[18] && code2 == ref[19] {
      return Ok(());
    }
    return Err(BadControl([code1, code2], ref[18..]));
  }

  /** The control letters depend on the first 18 characters only. */
  lemma {:induction false} ControlPrefix(a: string, b: string)
    requires |a| >= 18 && |b| >= 18 && a[..18] == b[..18]
    ensures Control(a) == Control(b)
  {
    forall k | 0 <= k < 18 ensures a[k] == b[k] {
      assert a[..18][k] == b[..18][k];
    }
    BlockSumPrefix(a, b, 0, 7);
    BlockSumPrefix(a, b, 7, 7);
    MixSumPrefix(a, b, 4);
  }

  lemma {:induction false} BlockSumPrefix(a: string, b: string, start: nat, n: nat)
    requires n <= 7 && start + n <= |a| && start + n <= |b|
    requires forall k :: start <= k < start + n ==> a[k] == b[k]
    ensures BlockSum(a, start, n) == BlockSum(b, start, n)
  {
    if n > 0 {
      BlockSumPrefix(a, b, start, n - 1);
    }
  }

  lemma {:induction false} MixSumPrefix(a: string, b: string, n: nat)
    requires n <= 4 && 14 + n <= |a| && 14 + n <= |b|
    requires forall k :: 14 <= k < 14 + n ==> a[k] == b[k]
    ensures MixSum(a, n) == MixSum(b, n)
  {
    if n > 0 {
      MixSumPrefix(a, b, n - 1);
    }
  }

  /** A reference passes exactly when, normalised, it is a rural body of 18
      characters followed by that body's control letters. */
  lemma {:induction false} ValidateIff(s: string)
    ensures Validate(s).Ok? <==>
      var ref := Normalize(s);
      |ref| == 20 && !IsDigit(ref[5]) && ref == ref[..18] + Control(ref[..18])
  {
    var ref := Normalize(s);
    if |ref| == 20 {
      ControlPrefix(ref, ref[..18]);
      assert ref == ref[..18] + ref[18..];
    }
  }

  /** Completing a normal rural body with its control letters gives a
      reference the validator accepts. */
  lemma {:induction false} CompletedIsValid(body: string)
    requires |body| == 18 && IsNormal(body) && !IsDigit(body[5])
    ensures Validate(body + Control(body)) == Ok(())
  {
    var ref := body + Control(body);
    CompletedNormal(body);
    ControlPrefix(ref, body);
    assert ref[18..] == Control(body);
  }

  /** An urban body (a digit at position 5) is refused even when its control
      letters are right. */
  lemma {:induction false} UrbanRefused(body: string)
    requires |body| == 18 && IsNormal(body) && IsDigit(body[5])
    ensures Validate(body + Control(body)) == Err(UrbanReference)
  {
    CompletedNormal(body);
  }

  lemma {:induction false} CompletedNormal(body: string)
    requires |body| == 18 && IsNormal(body)
    ensures Normalize(body + Control(body)) == body + Control(body)
  {
    var cc := Control(body);
    var mixt := MixSum(body, 4);
    LetterIsUpper(BlockSum(body, 0, 7) + mixt);
    LetterIsUpper(BlockSum(body, 7, 7) + mixt);
    assert IsNormal(cc);
    NormalConcat(body, cc);
    NormalizeNormal(body + cc);
  }

  lemma {:induction false} NormalConcat(a: string, b: string)
    requires IsNormal(a) && IsNormal(b)
    ensures IsNormal(a + b)
  {
    forall k | 0 <= k < |a + b| ensures (a + b)[k] != ' ' && UpperChar((a + b)[k]) == (a + b)[k] {
      if k >= |a| {
        assert (a + b)[k] == b[k - |a|];
      }
    }
  }

  // ---------------------------------------------------------------------------
  // Community lookup and fields

  /** `find_community`: the first community, in table order, whose provinces
      include `province`. */
  function FindCommunity(communities: Assoc<int, seq<int>>, province: int): (r: Option<int>)
    ensures r.None? <==> forall i :: 0 <= i < |communities| ==> province !in communities[i].1
    ensures r.Some? ==> exists i :: (0 <= i < |communities| && communities[i].0 == r.value &&
      province in communities[i].1 && forall j :: 0 <= j < i ==> province !in communities[j].1)
  {
    if communities == [] then None
    else if province in communities[0].1 then Some(communities[0].0)
    else
      var r := FindCommunity(communities[1..], province);
      assert forall i :: 0 < i < |communities| ==> communities[i] == communities[1..][i - 1];
      r
  }

  /** The seven fixed-width fields (2, 3, 1, 3, 5, 4 and 2 characters) are
      contiguous and cover the whole 20-character reference. */
  lemma {:induction false} FieldsCover(ref: string)
    requires |ref| == 20
    ensures ref[..2] + ref[2..5] + ref[5..6] + ref[6..9] + ref[9..14] + ref[14..18] + ref[18..] == ref
  {
    assert ref[..5] == ref[..2] + ref[2..5];
    assert ref[..6] == ref[..5] + ref[5..6];
    assert ref[..9] == ref[..6] + ref[6..9];
    assert ref[..14] == ref[..9] + ref[9..14];
    assert ref[..18] == ref[..14] + ref[14..18];
    assert ref == ref[..18] + ref[18..];
  }

  datatype Registry = Registry(province: int, municipality: int, section: char, polygon: int,
                               parcel: int, idInm: int, control: string)

  /** `read_cadastral_registry`: length, then the validator, then the
      fields. */
  function Read(communities: Assoc<int, seq<int>>, registry: string): Result<Registry, CadastralError>
  {
    var ref := Normalize(registry);
    if |ref| != 20 then Err(BadLength)
    else
      match Validate(ref)
      case Err(e) => Err(e)
      case Ok(_) => ReadFields(communities, ref)
  }

  /** The fields of a reference that passed the validator: the province's
      community first (a missing community or community 0 is refused), then
      `int()` of each numeric field in the order the dictionary lists them. */
  function ReadFields(communities: Assoc<int, seq<int>>, ref: string): (r: Result<Registry, CadastralError>)
    requires |ref| == 20
    ensures r.Ok? ==>
      ParseInt(ref[..2]) == Some(r.value.province) && ParseInt(ref[2..5]) == Some(r.value.municipality) &&
      r.value.section == ref[5] && ParseInt(ref[6..9]) == Some(r.value.polygon) &&
      ParseInt(ref[9..14]) == Some(r.value.parcel) && ParseInt(ref[14..18]) == Some(r.value.idInm) &&
      r.value.control == ref[18..] &&
      FindCommunity(communities, r.value.province).Some? && FindCommunity(communities, r.value.province) != Some(0)
    ensures r.Err? ==> r.error.NotAnInteger? || r.error.UnknownProvince?
  {
    match ParseInt(ref[..2])
    case None => Err(NotAnInteger(ref[..2]))
    case Some(province) =>
      var community := FindCommunity(communities, province);
      if community.None? || community.value == 0 then Err(UnknownProvince(province))
      else if ParseInt(ref[2..5]).None? then Err(NotAnInteger(ref[2..5]))
      else if ParseInt(ref[6..9]).None? then Err(NotAnInteger(ref[6..9]))
      else if ParseInt(ref[9..14]).None? then Err(NotAnInteger(ref[9..14]))
      else if ParseInt(ref[14..18]).None? then Err(NotAnInteger(ref[14..18]))
      else Ok(Registry(province, ParseInt(ref[2..5]).value, ref[5], ParseInt(ref[6..9]).value,
                       ParseInt(ref[9..14]).value, ParseInt(ref[14..18]).value, ref[18..]))
  }

  /** What a successful read promises: the reference passes the validator,
      its province belongs to a community other than 0, and every field is
      the number or text found at its fixed place in the normalised
      reference. */
  lemma {:induction false} ReadOk(communities: Assoc<int, seq<int>>, registry: string)
    requires Read(communities, registry).Ok?
    ensures var ref := Normalize(registry);
      var r := Read(communities, registry).value;
      Validate(registry).Ok? && |ref| == 20 && ReadFields(communities, ref).Ok? &&
      r == ReadFields(communities, ref).value
  {
    var ref := Normalize(registry);
    NormalizeIdempotent(registry);
    assert Validate(ref) == Validate(registry);
    assert Read(communities, registry) == ReadFields(communities, ref);
  }

  /** The reader fails on length exactly when the normalised reference is
      not 20 characters long, and otherwise refuses everything the validator
      refuses, with the validator's error. */
  lemma {:induction false} ReadErrors(communities: Assoc<int, seq<int>>, registry: string)
    ensures Read(communities, registry) == Err(BadLength) <==> |Normalize(registry)| != 20
    ensures Validate(registry).Err? ==> Read(communities, registry) == Err(Validate(registry).error)
  {
    var ref := Normalize(registry);
    NormalizeIdempotent(registry);
    assert Validate(ref) == Validate(registry);
    if |ref| == 20 && Validate(ref).Ok? {
      assert Read(communities, registry) == ReadFields(communities, ref);
    }
  }

  /** Reading an already normalised reference gives the same result. */
  lemma {:induction false} ReadNormalized(communities: Assoc<int, seq<int>>, registry: string)
    ensures Read(communities, Normalize(registry)) == Read(communities, registry)
  {
    NormalizeIdempotent(registry);
  }

  // ---------------------------------------------------------------------------
  // Land-use grouping of the parcel metadata

  /** The properties of an enclosure the grouping reads: `uso_sigpac` and
      `superficie`, either of which may be missing. */
  datatype Feature = Feature(uso: Option<string>, superficie: Option<real>)

  datatype MetadataError =
    | NoSurface(index: nat)   // `total_surface += None`: a TypeError
    | NoFeatures              // `properties` read after a loop that never ran

  /** One grouped land use; `dn_superficie` and `superficie_admisible` both
      hold `area`. */
  datatype LandUse = LandUse(uso: string, area: real)

  datatype Metadata = Metadata(totalSurface: real, usos: seq<LandUse>)

  /** `if uso:` — a land use that is present and non-empty. */
  predicate Counted(f: Feature)
  {
    f.uso.Some? && f.uso.value != ""
  }

  /** The running `total_surface`, failing at the first enclosure without a
      surface. */
  function TotalSurface(fs: seq<Feature>): (r: Result<real, MetadataError>)
    ensures r.Ok? <==> forall i :: 0 <= i < |fs| ==> fs[i].superficie.Some?
    ensures r.Err? ==> (r.error.NoSurface? && r.error.index < |fs| && fs[r.error.index].superficie.None? &&
      forall i :: 0 <= i < r.error.index ==> fs[i].superficie.Some?)
  {
    if fs == [] then Ok(0.0)
    else
      var init := fs[..|fs| - 1];
      assert forall i :: 0 <= i < |init| ==> init[i] == fs[i];
      match TotalSurface(init)
      case Err(e) => Err(e)
      case Ok(total) =>
        if fs[|fs| - 1].superficie.None? then Err(NoSurface(|fs| - 1))
        else Ok(total + fs[|fs| - 1].superficie.value)
  }

  /** `land_use_summary`: the counted land uses in first-seen order, each
      with the surfaces of its enclosures added up. */
  function UseSummary(fs: seq<Feature>): Assoc<string, real>
    requires forall i :: 0 <= i < |fs| ==> fs[i].superficie.Some?
  {
    if fs == [] then []
    else
      var acc := UseSummary(fs[..|fs| - 1]);
      var f := fs[|fs| - 1];
      if Counted(f) then Put(acc, f.uso.value, GetOr(acc, f.uso.value, 0.0) + f.superficie.value)
      else acc
  }

  /** The output list: each grouped area rounded to 4 places by `round`. */
  function Rounded(summary: Assoc<string, real>): (r: seq<LandUse>)
    ensures |r| == |summary|
    ensures forall i :: 0 <= i < |summary| ==> r[i].uso == summary[i].0 && r[i].area == HalfEven(summary[i].1, 4)
  {
    MapSeq((p: (string, real)) => LandUse(p.0, HalfEven(p.1, 4)), summary)
  }

  /** The land-use part of `get_metadata`. */
  function MetadataOf(fs: seq<Feature>): Result<Metadata, MetadataError>
  {
    match TotalSurface(fs)
    case Err(e) => Err(e)
    case Ok(total) =>
      if fs == [] then Err(NoFeatures) else Ok(Metadata(total, Rounded(UseSummary(fs))))
  }

  /** The loops of `get_metadata`: the running total, then the grouping. */
  method GetMetadata(features: seq<Feature>) returns (r: Result<Metadata, MetadataError>)
    ensures r == MetadataOf(features)
  {
    var totalSurface := 0.0;
    for i := 0 to |features|
      invariant TotalSurface(features[..i]) == Ok(totalSurface)
    {
      assert features[..i + 1][..i] == features[..i];
      if features[i].superficie.None? {
        TotalSurfaceFailsEarly(features, i + 1);
        return Err(NoSurface(i));
      }
      totalSurface := totalSurface + features[i].superficie.value;
    }
    assert features[..|features|] == features;
    if |features| == 0 {
      return Err(NoFeatures);
    }
    var summary: Assoc<string, real> := [];
    for i := 0 to |features|
      invariant summary == UseSummary(features[..i])
    {
      assert features[..i + 1][..i] == features[..i];
      var uso := features[i].uso;
      if uso.Some? && uso.value != "" {
        summary := Put(summary, uso.value, GetOr(summary, uso.value, 0.0) + features[i].superficie.value);
      }
    }
    r := Ok(Metadata(totalSurface, Rounded(summary)));
  }

  lemma {:induction false} TotalSurfaceFailsEarly(fs: seq<Feature>, n: nat)
    requires n <= |fs| && TotalSurface(fs[..n]).Err?
    ensures TotalSurface(fs) == TotalSurface(fs[..n])
    decreases |fs| - n
  {
    if n < |fs| {
      assert fs[..n + 1][..n] == fs[..n];
      TotalSurfaceFailsEarly(fs, n + 1);
    } else {
      assert fs[..n] == fs;
    }
  }

  /** The counted land uses, in enclosure order, repetitions included. */
  function CountedUses(fs: seq<Feature>): seq<string>
  {
    if fs == [] then []
    else
      var f := fs[|fs| - 1];
      CountedUses(fs[..|fs| - 1]) + if Counted(f) then [f.uso.value] else []
  }

  /** The surface of the enclosures with land use `u`. */
  function UseArea(fs: seq<Feature>, u: string): real
    requires forall i :: 0 <= i < |fs| ==> fs[i].superficie.Some?
  {
    if fs == [] then 0.0
    else
      var f := fs[|fs| - 1];
      UseArea(fs[..|fs| - 1], u) + if f.uso == Some(u) then f.superficie.value else 0.0
  }

  /** The surface of every counted enclosure. */
  function CountedArea(fs: seq<Feature>): real
    requires forall i :: 0 <= i < |fs| ==> fs[i].superficie.Some?
  {
    if fs == [] then 0.0
    else
      var f := fs[|fs| - 1];
      CountedArea(fs[..|fs| - 1]) + if Counted(f) then f.superficie.value else 0.0
  }

  /** The areas of a summary added up. */
  function SummaryArea(summary: Assoc<string, real>): real
  {
    if summary == [] then 0.0 else SummaryArea(summary[..|summary| - 1]) + summary[|summary| - 1].1
  }

  /** One entry per distinct counted land use, in first-seen order. */
  lemma {:induction false} UseSummaryKeys(fs: seq<Feature>)
    requires forall i :: 0 <= i < |fs| ==> fs[i].superficie.Some?
    ensures DistinctKeys(UseSummary(fs))
    ensures Keys(UseSummary(fs)) == Sorting.Dedup(CountedUses(fs))
  {
    if fs != [] {
      var init := fs[..|fs| - 1];
      var f := fs[|fs| - 1];
      assert forall i :: 0 <= i < |init| ==> init[i] == fs[i];
      UseSummaryKeys(init);
      var acc := UseSummary(init);
      if Counted(f) {
        var u := f.uso.value;
        var v := GetOr(acc, u, 0.0) + f.superficie.value;
        assert UseSummary(fs) == Put(acc, u, v);
        assert CountedUses(fs) == CountedUses(init) + [u];
        KeysStep(acc, u, v, CountedUses(init));
      } else {
        assert CountedUses(fs) == CountedUses(init);
      }
    }
  }

  lemma {:induction false} KeysStep(acc: Assoc<string, real>, u: string, v: real, uses: seq<string>)
    requires DistinctKeys(acc) && Keys(acc) == Sorting.Dedup(uses)
    ensures DistinctKeys(Put(acc, u, v)) && Keys(Put(acc, u, v)) == Sorting.Dedup(uses + [u])
  {
    PutKeepsDistinct(acc, u, v);
    KeysPut(acc, u, v);
    assert (uses + [u])[..|uses|] == uses;
  }

  /** Each entry holds the surface of exactly the enclosures with its land
      use; a land use that is empty or never seen has no entry. */
  lemma {:induction false} UseSummaryGet(fs: seq<Feature>, u: string)
    requires forall i :: 0 <= i < |fs| ==> fs[i].superficie.Some?
    ensures Get(UseSummary(fs), u) == if u in CountedUses(fs) then Some(UseArea(fs, u)) else None
  {
    if fs != [] {
      var init := fs[..|fs| - 1];
      var f := fs[|fs| - 1];
      assert forall i :: 0 <= i < |init| ==> init[i] == fs[i];
      UseSummaryGet(init, u);
      var acc := UseSummary(init);
      if Counted(f) {
        var w := f.uso.value;
        GetPut(acc, w, GetOr(acc, w, 0.0) + f.superficie.value, u);
        assert CountedUses(fs) == CountedUses(init) + [w];
        if u == w && u !in CountedUses(init) {
          UseAreaUnseen(init, u);
        }
      } else {
        assert CountedUses(fs) == CountedUses(init);
        assert u in CountedUses(fs) ==> u != "" by {
          CountedNonEmpty(fs);
        }
      }
    }
  }

  lemma {:induction false} UseAreaUnseen(fs: seq<Feature>, u: string)
    requires forall i :: 0 <= i < |fs| ==> fs[i].superficie.Some?
    requires u != "" && u !in CountedUses(fs)
    ensures UseArea(fs, u) == 0.0
  {
    if fs != [] {
      UseAreaUnseen(fs[..|fs| - 1], u);
    }
  }

  lemma {:induction false} CountedNonEmpty(fs: seq<Feature>)
    ensures "" !in CountedUses(fs)
  {
    if fs != [] {
      CountedNonEmpty(fs[..|fs| - 1]);
    }
  }

  /** Grouping keeps all counted surface: the entries together hold the
      surface of every enclosure with a land use. */
  lemma {:induction false} UseSummaryConservesArea(fs: seq<Feature>)
    requires forall i :: 0 <= i < |fs| ==> fs[i].superficie.Some?
    ensures SummaryArea(UseSummary(fs)) == CountedArea(fs)
  {
    if fs != [] {
      var init := fs[..|fs| - 1];
      var f := fs[|fs| - 1];
      assert forall i :: 0 <= i < |init| ==> init[i] == fs[i];
      UseSummaryConservesArea(init);
      if Counted(f) {
        SummaryAdd(UseSummary(init), f.uso.value, f.superficie.value);
      }
    }
  }

  /** `summary[u] += x` adds `x` to the total area. */
  lemma {:induction false} SummaryAdd(summary: Assoc<string, real>, u: string, x: real)
    ensures SummaryArea(Put(summary, u, GetOr(summary, u, 0.0) + x)) == SummaryArea(summary) + x
  {
    var v := GetOr(summary, u, 0.0) + x;
    match Find(summary, u)
    case None =>
      assert Put(summary, u, v) == summary + [(u, v)];
      assert (summary + [(u, v)])[..|summary|] == summary;
    case Some(i) =>
      assert GetOr(summary, u, 0.0) == summary[i].1;
      SummaryAreaUpdate(summary, i, (u, v));
  }

  lemma {:induction false} SummaryAreaUpdate(summary: Assoc<string, real>, i: nat, entry: (string, real))
    requires i < |summary|
    ensures SummaryArea(summary[i := entry]) == SummaryArea(summary) - summary[i].1 + entry.1
  {
    var n := |summary|;
    if i == n - 1 {
      assert summary[i := entry][..n - 1] == summary[..n - 1];
    } else {
      SummaryAreaUpdate(summary[..n - 1], i, entry);
      assert summary[i := entry][..n - 1] == summary[..n - 1][i := entry];
    }
  }

  /** `total_surface` is the surface of every enclosure: the counted ones,
      which the grouping holds, and the ones without a land use. */
  lemma {:induction false} TotalSurfaceSplit(fs: seq<Feature>)
    requires TotalSurface(fs).Ok?
    ensures TotalSurface(fs).value == CountedArea(fs) + UseArea(fs, "") + NoUseArea(fs)
  {
    if fs != [] {
      var init := fs[..|fs| - 1];
      assert forall i :: 0 <= i < |init| ==> init[i] == fs[i];
      TotalSurfaceSplit(init);
    }
  }

  /** The surface of the enclosures without `uso_sigpac`. */
  function NoUseArea(fs: seq<Feature>): real
    requires forall i :: 0 <= i < |fs| ==> fs[i].superficie.Some?
  {
    if fs == [] then 0.0
    else
      var f := fs[|fs| - 1];
      NoUseArea(fs[..|fs| - 1]) + if f.uso.None? then f.superficie.value else 0.0
  }
}
