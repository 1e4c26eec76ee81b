/** How the two super-resolution pipelines gather the band files of a
    directory into images: each file is put under its image's group by the
    SR band its name carries, and only groups holding all four SR bands are
    super-resolved. The pipelines differ only in how a group is named. */
module SrBandGroups {
  import opened Wrappers
  import opened Text
  import opened Assoc

  /** `SR_BANDS`, in order. */
  const SrBands: seq<string> := ["B02", "B03", "B04", "B08"]

  /** The pipeline of the SR4S service names a group "SR_<p0>_<p1>" after
      the first two "_"-separated parts of the name before "-<band>"; the
      plain pipeline names it after the name up to the band's last
      occurrence. */
  datatype Naming = Sr4s | Sr

  /** A file name whose part before "-<band>" holds no "_" raises
      IndexError. */
  datatype GroupError = IndexError(file: string)

  /** The first candidate, in order, that occurs in `base`. */
  function FirstContained(cands: seq<string>, base: string): (r: Option<nat>)
    ensures r.Some? ==> r.value < |cands| && Contains(base, cands[r.value]) &&
                        forall k :: 0 <= k < r.value ==> !Contains(base, cands[k])
    ensures r.None? ==> forall k :: 0 <= k < |cands| ==> !Contains(base, cands[k])
  {
    if cands == [] then None
    else if Contains(base, cands[0]) then Some(0)
    else match FirstContained(cands[1..], base)
      case None => None
      case Some(i) => Some(i + 1)
  }

  /** `next((el for el in SR_BANDS if el in base), None)`. */
  function BandOf(base: string): (r: Option<string>)
    ensures r.None? <==> forall b :: b in SrBands ==> !Contains(base, b)
    ensures r.Some? ==> |r.value| == 3 && r.value in SrBands && Contains(base, r.value)
  {
    match FirstContained(SrBands, base)
    case None => None
    case Some(k) => Some(SrBands[k])
  }

  /** The name of the group of a file named `filename` (without extension)
      holding `band`; `None` where the source raises IndexError. */
  function GroupName(naming: Naming, filename: string, band: string): Option<string>
    requires band != []
  {
    match naming
    case Sr => Some(BeforeLast(filename, band))
    case Sr4s =>
      var parts := Split(BeforeFirst(filename, "-" + band), "_");
      if |parts| < 2 then None else Some("SR_" + parts[0] + "_" + parts[1])
  }

  type Key = Result<Option<(string, string)>, GroupError>

  /** A file's group and band: `Ok(None)` for a file whose base name
      holds no SR band, which is skipped. */
  function FileKey(naming: Naming, f: string): Key
  {
    var base := Basename(f);
    match BandOf(base)
    case None => Ok(None)
    case Some(band) =>
      match GroupName(naming, StripExt(base), band)
      case None => Err(IndexError(f))
      case Some(prefix) => Ok(Some((prefix, band)))
  }

  function FileKeys(naming: Naming, files: seq<string>): (r: seq<Key>)
    ensures |r| == |files| && forall k :: 0 <= k < |files| ==> r[k] == FileKey(naming, files[k])
  {
    seq(|files|, k requires 0 <= k < |files| => FileKey(naming, files[k]))
  }

  /** The groups: per group name, in first-seen order, the file of each
      band. */
  type Grouped = Assoc<string, Assoc<string, string>>

  /** The grouping of `files` whose keys are `keys`: `groups[prefix][band]
      = f` for each file in turn, the first failing key stopping it. */
  function Group(files: seq<string>, keys: seq<Key>): Result<Grouped, GroupError>
    requires |keys| == |files|
  {
    if files == [] then Ok([])
    else
      var n := |files| - 1;
      match Group(files[..n], keys[..n])
      case Err(e) => Err(e)
      case Ok(groups) =>
        match keys[n]
        case Err(e) => Err(e)
        case Ok(None) => Ok(groups)
        case Ok(Some((prefix, band))) => Ok(PutIn(groups, prefix, band, files[n]))
  }

  function GroupFiles(naming: Naming, files: seq<string>): Result<Grouped, GroupError>
  {
    Group(files, FileKeys(naming, files))
  }

  /** The grouping loop of `process_directory`. */
  method GroupBandFiles(naming: Naming, allFiles: seq<string>) returns (r: Result<Grouped, GroupError>)
    ensures r == GroupFiles(naming, allFiles)
  {
    ghost var keys := FileKeys(naming, allFiles);
    var groups: Grouped := [];
    for i := 0 to |allFiles|
      invariant Group(allFiles[..i], keys[..i]) == Ok(groups)
    {
      GroupStep(allFiles, keys, i);
      var f := allFiles[i];
      var base := Basename(f);
      var band := BandOf(base);
      if band.None? {
        assert keys[i] == Ok(None);
        continue;
      }
      var prefix := GroupName(naming, StripExt(base), band.value);
      if prefix.None? {
        assert keys[i] == Err(IndexError(f));
        GroupFailsEarly(allFiles, keys, i + 1);
        return Err(IndexError(f));
      }
      assert keys[i] == Ok(Some((prefix.value, band.value)));
      ghost var before := groups;
      if !HasKey(groups, prefix.value) {
        groups := Put(groups, prefix.value, []);
      }
      groups := Put(groups, prefix.value, Put(GetOr(groups, prefix.value, []), band.value, f));
      CreateThenPutIn(before, prefix.value, band.value, f);
    }
    assert allFiles[..|allFiles|] == allFiles && keys[..|keys|] == keys;
    r := Ok(groups);
  }

  /** One more file in terms of the grouping so far. */
  lemma {:induction false} GroupStep(files: seq<string>, keys: seq<Key>, i: nat)
    requires |keys| == |files| && i < |files|
    ensures Group(files[..i + 1], keys[..i + 1]) ==
      match Group(files[..i], keys[..i])
      case Err(e) => Err(e)
      case Ok(groups) =>
        match keys[i]
        case Err(e) => Err(e)
        case Ok(None) => Ok(groups)
        case Ok(Some((prefix, band))) => Ok(PutIn(groups, prefix, band, files[i]))
  {
    assert files[..i + 1][..i] == files[..i];
    assert keys[..i + 1][..i] == keys[..i];
  }

  lemma {:induction false} GroupFailsEarly(files: seq<string>, keys: seq<Key>, n: nat)
    requires |keys| == |files| && n <= |files| && Group(files[..n], keys[..n]).Err?
    ensures Group(files, keys) == Group(files[..n], keys[..n])
    decreases |files| - n
  {
    if n < |files| {
      GroupStep(files, keys, n);
      GroupFailsEarly(files, keys, n + 1);
    } else {
      assert files[..n] == files && keys[..n] == keys;
    }
  }

  /** The key names group `prefix`. */
  predicate Names(key: Key, prefix: string)
  {
    key.Ok? && key.value.Some? && key.value.value.0 == prefix
  }

  /** The grouping fails exactly when some file's key does, and then with
      the first such file's error. */
  lemma {:induction false} GroupErr(files: seq<string>, keys: seq<Key>)
    requires |keys| == |files|
    ensures Group(files, keys).Err? <==> exists k :: 0 <= k < |keys| && keys[k].Err?
    ensures Group(files, keys).Err? ==>
      exists k :: 0 <= k < |keys| && keys[k] == Err(Group(files, keys).error) &&
                  forall j :: 0 <= j < k ==> keys[j].Ok?
  {
    if files != [] {
      var n := |files| - 1;
      var init, initKeys := files[..n], keys[..n];
      GroupErr(init, initKeys);
      assert forall k :: 0 <= k < n ==> initKeys[k] == keys[k];
      if Group(init, initKeys).Err? {
        var k :| 0 <= k < n && initKeys[k] == Err(Group(init, initKeys).error) &&
                 forall j :: 0 <= j < k ==> initKeys[j].Ok?;
        assert keys[k] == Err(Group(files, keys).error);
      }
    }
  }

  /** A group exists exactly for the names some file's key gives. */
  lemma {:induction false} GroupHas(files: seq<string>, keys: seq<Key>, prefix: string)
    requires |keys| == |files| && Group(files, keys).Ok?
    ensures HasKey(Group(files, keys).value, prefix) <==> exists k :: 0 <= k < |keys| && Names(keys[k], prefix)
  {
    if files != [] {
      var n := |files| - 1;
      var init, initKeys := files[..n], keys[..n];
      GroupHas(init, initKeys, prefix);
      assert forall k :: 0 <= k < n ==> initKeys[k] == keys[k];
      if keys[n].value.Some? {
        var (p, band) := keys[n].value.value;
        PutInHas(Group(init, initKeys).value, p, band, files[n], prefix);
      }
    }
  }

  /** The index of the last file whose key is `(prefix, band)`. */
  function LastIndex(keys: seq<Key>, prefix: string, band: string): (r: Option<nat>)
    ensures r.Some? ==> r.value < |keys| && keys[r.value] == Ok(Some((prefix, band))) &&
                        forall j :: r.value < j < |keys| ==> keys[j] != Ok(Some((prefix, band)))
    ensures r.None? ==> forall j :: 0 <= j < |keys| ==> keys[j] != Ok(Some((prefix, band)))
  {
    if keys == [] then None
    else if keys[|keys| - 1] == Ok(Some((prefix, band))) then Some(|keys| - 1)
    else LastIndex(keys[..|keys| - 1], prefix, band)
  }

  /** Each band of a group holds the last file with that group and band. */
  lemma {:induction false} GroupLast(files: seq<string>, keys: seq<Key>, prefix: string, band: string)
    requires |keys| == |files| && Group(files, keys).Ok?
    ensures Get(GetOr(Group(files, keys).value, prefix, []), band) ==
      match LastIndex(keys, prefix, band)
      case None => None
      case Some(k) => Some(files[k])
  {
    if files != [] {
      var n := |files| - 1;
      var init, initKeys := files[..n], keys[..n];
      GroupLast(init, initKeys, prefix, band);
      assert forall k :: 0 <= k < n ==> init[k] == files[k];
      if keys[n].value.Some? {
        var (p, b) := keys[n].value.value;
        GetPutIn(Group(init, initKeys).value, p, b, files[n], prefix, band);
      }
    }
  }

  // ---------------------------------------------------------------------------
  // File names the pipelines read back

  /** A candidate that occurs, with none before it occurring, is the first. */
  lemma {:induction false} FirstContainedIs(cands: seq<string>, base: string, i: nat)
    requires i < |cands| && Contains(base, cands[i])
    requires forall k :: 0 <= k < i ==> !Contains(base, cands[k])
    ensures FirstContained(cands, base) == Some(i)
  {
  }

  /** In "<stem><band>.tif" with no 'B' in `stem`, only the band's 'B'
      stands at `|stem|`. */
  lemma {:induction false} SoleB(stem: string, bi: nat)
    requires bi < |SrBands| && 'B' !in stem
    ensures var name := stem + SrBands[bi] + ".tif";
      forall k :: 0 <= k < |name| && name[k] == 'B' ==> k == |stem|
  {
  }

  /** The band of "<stem><band>.tif" is `band` when `stem` has no 'B'. */
  lemma {:induction false} BandOfName(stem: string, bi: nat)
    requires bi < |SrBands| && 'B' !in stem
    ensures BandOf(stem + SrBands[bi] + ".tif") == Some(SrBands[bi])
  {
    var band := SrBands[bi];
    var name := stem + band + ".tif";
    var p := |stem|;
    SoleB(stem, bi);
    assert OccursAt(name, band, p) by { assert name[p..p + 3] == band; }
    forall k | 0 <= k < bi ensures !Contains(name, SrBands[k]) {
      if Contains(name, SrBands[k]) {
        var i := IndexOf(name, SrBands[k]).value;
        OccursOnlyAt(name, SrBands[k], i, p);
      }
    }
    FirstContainedIs(SrBands, name, bi);
  }

  /** What a band file "<dir>/<stem><band>.tif" is read as: its base name,
      that name without extension, and its band. */
  lemma {:induction false} BandFile(dir: string, stem: string, bi: nat)
    requires bi < |SrBands| && 'B' !in stem && '/' !in stem
    ensures var name := stem + SrBands[bi] + ".tif";
      Basename(dir + "/" + name) == name && StripExt(name) == stem + SrBands[bi] &&
      BandOf(name) == Some(SrBands[bi])
  {
    var name := stem + SrBands[bi] + ".tif";
    assert name == (stem + SrBands[bi]) + "." + "tif";
    BasenameAfterSlash(dir, name);
    StripExtOf(stem + SrBands[bi], "tif");
    BandOfName(stem, bi);
  }

  /** The group the plain pipeline gives "<stem><band>" is `stem`. */
  lemma {:induction false} SrNameOf(stem: string, bi: nat)
    requires bi < |SrBands| && 'B' !in stem
    ensures GroupName(Sr, stem + SrBands[bi], SrBands[bi]) == Some(stem)
  {
    var band := SrBands[bi];
    var filename := stem + band;
    var p := |stem|;
    assert OccursAt(filename, band, p) by { assert filename[p..p + 3] == band; }
    var r := BeforeLast(filename, band);
    assert forall k :: 0 <= k < |filename| && filename[k] == 'B' ==> k == p;
    OccursOnlyAt(filename, band, |r|, p);
    assert r == filename[..p] == stem;
  }

  /** The plain pipeline reads the group of "<stem><band>.tif" as `stem`. */
  lemma {:induction false} SrKeyOf(dir: string, stem: string, bi: nat)
    requires bi < |SrBands| && 'B' !in stem && '/' !in stem
    ensures FileKey(Sr, dir + "/" + stem + SrBands[bi] + ".tif") == Ok(Some((stem, SrBands[bi])))
  {
    assert dir + "/" + stem + SrBands[bi] + ".tif" == dir + "/" + (stem + SrBands[bi] + ".tif");
    BandFile(dir, stem, bi);
    SrNameOf(stem, bi);
  }

  /** The group the SR4S pipeline gives "<a>_<b>-<band>" is "SR_<a>_<b>". */
  lemma {:induction false} Sr4sNameOf(a: string, b: string, bi: nat)
    requires bi < |SrBands|
    requires '_' !in a && '-' !in a && '_' !in b && '-' !in b
    ensures GroupName(Sr4s, a + "_" + b + "-" + SrBands[bi], SrBands[bi]) == Some("SR_" + a + "_" + b)
  {
    var sep := "-" + SrBands[bi];
    var filename := a + "_" + b + "-" + SrBands[bi];
    var p := |a| + 1 + |b|;
    assert OccursAt(filename, sep, p) by { assert filename[p..p + 4] == sep; }
    var r := BeforeFirst(filename, sep);
    assert forall k :: 0 <= k < |filename| && filename[k] == '-' ==> k == p;
    OccursOnlyAt(filename, sep, |r|, p);
    assert r == filename[..p] == a + "_" + b;
    SplitPair(a, '_', b);
  }

  /** The SR4S pipeline reads the group of "<a>_<b>-<band>.tif" as
      "SR_<a>_<b>". */
  lemma {:induction false} Sr4sKeyOf(dir: string, a: string, b: string, bi: nat)
    requires bi < |SrBands|
    requires 'B' !in a && '/' !in a && '_' !in a && '-' !in a
    requires 'B' !in b && '/' !in b && '_' !in b && '-' !in b
    ensures FileKey(Sr4s, dir + "/" + a + "_" + b + "-" + SrBands[bi] + ".tif") == Ok(Some(("SR_" + a + "_" + b, SrBands[bi])))
  {
    var stem := a + "_" + b + "-";
    assert dir + "/" + a + "_" + b + "-" + SrBands[bi] + ".tif" == dir + "/" + (stem + SrBands[bi] + ".tif");
    assert 'B' !in stem && '/' !in stem;
    BandFile(dir, stem, bi);
    assert stem + SrBands[bi] == a + "_" + b + "-" + SrBands[bi];
    Sr4sNameOf(a, b, bi);
  }

  /** The SR4S pipeline fails on a band file exactly when the name before
      "-<band>" has no "_". */
  lemma {:induction false} Sr4sIndexError(f: string)
    ensures FileKey(Sr4s, f).Err? <==>
      var base := Basename(f);
      BandOf(base).Some? && '_' !in BeforeFirst(StripExt(base), "-" + BandOf(base).value)
  {
    var base := Basename(f);
    if BandOf(base).Some? {
      SplitInTwo(BeforeFirst(StripExt(base), "-" + BandOf(base).value), '_');
    }
  }

  // ---------------------------------------------------------------------------
  // Complete groups

  /** `set(SR_BANDS) - set(band_files.keys())` is empty. */
  predicate Complete(bands: Assoc<string, string>)
  {
    forall b :: b in SrBands ==> HasKey(bands, b)
  }

  /** Where the super-resolved PNG of a group is written. */
  function PngPath(naming: Naming, outputDir: string, prefix: string): string
  {
    match naming
    case Sr4s => PathJoin(outputDir, prefix + ".png")
    case Sr => PathJoin(PathJoin(outputDir, "out"), prefix + ".png")
  }

  /** The PNGs written, one per complete group, in group order. */
  function Pngs(naming: Naming, outputDir: string, groups: Grouped): seq<string>
  {
    if groups == [] then []
    else
      var last := groups[|groups| - 1];
      Pngs(naming, outputDir, groups[..|groups| - 1]) + if Complete(last.1) then [PngPath(naming, outputDir, last.0)] else []
  }

  /** Every PNG comes from a complete group, and every complete group gives
      its PNG. */
  lemma {:induction false} PngsSpec(naming: Naming, outputDir: string, groups: Grouped)
    ensures forall p :: p in Pngs(naming, outputDir, groups) ==>
      exists i :: 0 <= i < |groups| && Complete(groups[i].1) && p == PngPath(naming, outputDir, groups[i].0)
    ensures forall i :: 0 <= i < |groups| && Complete(groups[i].1) ==> PngPath(naming, outputDir, groups[i].0) in Pngs(naming, outputDir, groups)
  {
    if groups != [] {
      var init := groups[..|groups| - 1];
      PngsSpec(naming, outputDir, init);
      assert forall i :: 0 <= i < |init| ==> init[i] == groups[i];
    }
  }

  function LastOf(s: seq<string>): Option<string>
  {
    if s == [] then None else Some(s[|s| - 1])
  }

  /** The loop over the groups: an incomplete group is skipped, a complete
      one is super-resolved and its PNG written (the rasters themselves are
      not modelled); `srImagePath` follows the last PNG written. */
  method ProcessGroups(naming: Naming, outputDir: string, groups: Grouped) returns (written: seq<string>, srImagePath: Option<string>)
    ensures written == Pngs(naming, outputDir, groups)
    ensures srImagePath == LastOf(written)
  {
    written, srImagePath := [], None;
    for i := 0 to |groups|
      invariant written == Pngs(naming, outputDir, groups[..i])
      invariant srImagePath == LastOf(written)
    {
      assert groups[..i + 1][..i] == groups[..i];
      var (prefix, bandFiles) := groups[i];
      if !Complete(bandFiles) {
        continue;
      }
      var outPng := PngPath(naming, outputDir, prefix);
      srImagePath := Some(outPng);
      written := written + [outPng];
    }
    assert groups[..|groups|] == groups;
  }

  /** The index of the last complete group. */
  function LastComplete(groups: Grouped): (r: Option<nat>)
    ensures r.Some? ==> r.value < |groups| && Complete(groups[r.value].1) &&
                        forall j :: r.value < j < |groups| ==> !Complete(groups[j].1)
    ensures r.None? ==> forall j :: 0 <= j < |groups| ==> !Complete(groups[j].1)
  {
    if groups == [] then None
    else if Complete(groups[|groups| - 1].1) then Some(|groups| - 1)
    else LastComplete(groups[..|groups| - 1])
  }

  /** The SR4S pipeline's result is the PNG of the last complete group,
      and `None` when no group is complete. */
  lemma {:induction false} LastPng(naming: Naming, outputDir: string, groups: Grouped)
    ensures LastOf(Pngs(naming, outputDir, groups)) ==
      match LastComplete(groups)
      case None => None
      case Some(i) => Some(PngPath(naming, outputDir, groups[i].0))
  {
    if groups != [] {
      var n := |groups| - 1;
      var init := groups[..n];
      LastPng(naming, outputDir, init);
      if Complete(groups[n].1) {
        assert Pngs(naming, outputDir, groups) == Pngs(naming, outputDir, init) + [PngPath(naming, outputDir, groups[n].0)];
      } else {
        assert Pngs(naming, outputDir, groups) == Pngs(naming, outputDir, init);
        assert LastComplete(groups) == LastComplete(init);
      }
    }
  }

  /** `process_directory`: the grouping, then the groups; the SR4S
      pipeline returns the last PNG written. */
  method ProcessDirectory(naming: Naming, outputDir: string, allFiles: seq<string>) returns (r: Result<Option<string>, GroupError>)
    ensures GroupFiles(naming, allFiles).Err? ==> r == Err(GroupFiles(naming, allFiles).error)
    ensures GroupFiles(naming, allFiles).Ok? ==>
      r == Ok(LastOf(Pngs(naming, outputDir, GroupFiles(naming, allFiles).value)))
  {
    var grouped := GroupBandFiles(naming, allFiles);
    if grouped.Err? {
      return Err(grouped.error);
    }
    var written, srImagePath := ProcessGroups(naming, outputDir, grouped.value);
    return Ok(srImagePath);
  }
}
