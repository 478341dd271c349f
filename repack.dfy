/** The helpers of `src/main.rs` around the patches: the heading flip, the
    output file name of a preset, the weather step of a preset (the check of
    the profile names, the wind-flip toggle and the weather application) and
    the name deduplication of the archive writer. */
module Repack {
  import opened Wrappers
  import opened Text
  import opened Config
  import opened WeatherPipeline

  // ----- flip_heading -----

  /** `(heading + 180) % 360` on `i32`, with Rust's remainder, which keeps the
      sign of the dividend. */
  function FlipHeading(h: int): (r: int)
    requires IsI32(h) && IsI32(h + 180)
    ensures -360 < r < 360
    ensures h + 180 >= 0 ==> 0 <= r < 360
    ensures h + 180 < 0 ==> r <= 0
    ensures (h + 180 - r) % 360 == 0
  {
    TRem(h + 180, 360)
  }

  /** A heading of the compass turns to the opposite one. */
  lemma FlipOpposite(h: int)
    requires 0 <= h < 360
    ensures 0 <= FlipHeading(h) < 360
    ensures FlipHeading(h) == if h < 180 then h + 180 else h - 180
  {
    assert TDiv(h + 180, 360) == if h < 180 then 0 else 1;
  }

  /** Flipping a heading of the compass twice gives it back. */
  lemma FlipTwice(h: int)
    requires 0 <= h < 360
    ensures FlipHeading(FlipHeading(h)) == h
  {
    FlipOpposite(h);
    FlipOpposite(FlipHeading(h));
  }

  lemma FlipExamples()
    ensures FlipHeading(90) == 270 && FlipHeading(350) == 170 && FlipHeading(180) == 0
  {
    FlipOpposite(90);
    FlipOpposite(350);
    FlipOpposite(180);
  }

  /** Below -180 the remainder stays negative: -200 flips to -20, not to 340. */
  lemma FlipNegative()
    ensures FlipHeading(-200) == -20
  {
    assert TDiv(-20, 360) == 0;
  }

  // ----- splice_filename -----

  const ExtensionMissing: string := "File extension missing"

  /** `^(.+)\.(.+)$` can split the path at k: no newline in the path (`.`
      does not take one), a dot at k and at least one character on each
      side of it. */
  ghost predicate SplitsAt(path: string, k: int) {
    AllIn(path, NotNewline) && 1 <= k && k + 2 <= |path| && path[k] == '.'
  }

  /** The greedy first group makes the split the last one the pattern allows. */
  ghost predicate GreedySplit(path: string, k: int) {
    SplitsAt(path, k) && forall j {:trigger SplitsAt(path, j)} :: SplitsAt(path, j) ==> j <= k
  }

  /** The last dot among the positions 1 to k of the path. */
  function LastDot(path: string, k: nat): (r: Option<nat>)
    requires k < |path|
    ensures r.Some? ==> 1 <= r.value <= k && path[r.value] == '.'
    ensures forall j :: (if r.Some? then r.value else 0) < j <= k ==> path[j] != '.'
  {
    if k == 0 then None
    else if path[k] == '.' then Some(k)
    else LastDot(path, k - 1)
  }

  /** `splice_filename`: in dry run the path itself; otherwise `_suffix` goes
      in before the dot the pattern splits at, or the path has no extension. */
  function SpliceFilename(path: string, suffix: string, dryRun: bool): (r: Result<string>)
    ensures dryRun ==> r == Success(path)
    ensures !dryRun ==> (r.Success? <==> exists k :: SplitsAt(path, k))
    ensures !dryRun && r.Failure? ==> r.error == ExtensionMissing
    ensures !dryRun ==> forall k {:trigger GreedySplit(path, k)} :: GreedySplit(path, k) ==>
      r == Success(path[..k] + "_" + suffix + path[k..])
  {
    if dryRun then Success(path)
    else if |path| < 3 || !AllIn(path, NotNewline) then
      assert forall k :: !SplitsAt(path, k);
      Failure(ExtensionMissing)
    else
      match LastDot(path, |path| - 2)
      case None =>
        assert forall k :: !SplitsAt(path, k);
        Failure(ExtensionMissing)
      case Some(k) =>
        LastDotGreedy(path, k);
        assert path[k..] == "." + path[k + 1..];
        assert path[..k] + "_" + suffix + path[k..] == path[..k] + "_" + suffix + "." + path[k + 1..];
        Success(path[..k] + "_" + suffix + "." + path[k + 1..])
  }

  /** The last dot before the final character is the split the pattern takes. */
  lemma LastDotGreedy(path: string, k: nat)
    requires 3 <= |path| && AllIn(path, NotNewline) && LastDot(path, |path| - 2) == Some(k)
    ensures GreedySplit(path, k)
    ensures forall j {:trigger GreedySplit(path, j)} :: GreedySplit(path, j) ==> j == k
  {
    assert SplitsAt(path, k);
    forall j | SplitsAt(path, j) ensures j <= k { }
  }

  /** Taking the inserted `_suffix` out of the new name gives the path back. */
  lemma SpliceRoundTrip(path: string, suffix: string, k: int)
    requires GreedySplit(path, k)
    ensures var r := SpliceFilename(path, suffix, false);
      r.Success? && r.value[k..k + 1 + |suffix|] == "_" + suffix
      && r.value[..k] + r.value[k + 1 + |suffix|..] == path
  {
    var r := path[..k] + "_" + suffix + path[k..];
    assert SpliceFilename(path, suffix, false) == Success(r);
    assert r[..k] == path[..k];
    assert r[k + 1 + |suffix|..] == path[k..];
    assert path[..k] + path[k..] == path;
  }

  lemma SpliceExamples()
    ensures SpliceFilename("a.b.miz", "x", false) == Success("a.b_x.miz")
    ensures SpliceFilename(".miz", "x", false) == Failure(ExtensionMissing)
    ensures SpliceFilename("file.", "x", false) == Failure(ExtensionMissing)
    ensures SpliceFilename("a.b.", "x", false) == Success("a_x.b.")
  {
    assert LastDot("a.b.miz", 5) == Some(3);
    assert "a.b.miz"[..3] == "a.b" && "a.b.miz"[4..] == "miz";
    assert "a.b" + "_" + "x" + "." + "miz" == "a.b_x.miz";
    assert LastDot(".miz", 2) == None;
    assert LastDot("file.", 3) == None;
    assert LastDot("a.b.", 2) == Some(1);
    assert "a.b."[..1] == "a" && "a.b."[2..] == "b.";
    assert "a" + "_" + "x" + "." + "b." == "a_x.b.";
  }

  // ----- The weather step of repack_miz -----

  function NotFoundMessage(name: string): string {
    "Weather preset not found: " + name
  }

  /** The index of the first name that is not a profile of the configuration. */
  function FirstMissing(names: seq<string>, known: set<string>): (r: Option<nat>)
    ensures r.None? <==> forall i :: 0 <= i < |names| ==> names[i] in known
    ensures r.Some? ==>
      r.value < |names| && names[r.value] !in known && forall i :: 0 <= i < r.value ==> names[i] in known
  {
    if names == [] then None
    else if names[0] !in known then Some(0)
    else
      match FirstMissing(names[1..], known)
      case None => None
      case Some(i) => Some(i + 1)
  }

  /** The loop over the names of a preset, before any is chosen. */
  method CheckWeatherNames(names: seq<string>, weather: map<string, Weather>) returns (r: Result<()>)
    ensures r == match FirstMissing(names, weather.Keys)
      case None => Success(())
      case Some(i) => Failure(NotFoundMessage(names[i]))
  {
    for i := 0 to |names|
      invariant forall j :: 0 <= j < i ==> names[j] in weather
    {
      if names[i] !in weather {
        return Failure(NotFoundMessage(names[i]));
      }
    }
    return Success(());
  }

  /** The profile after `randomize_wind_flip` drew `drawn` and the preset's
      `flip_wind` was applied: nothing but the flag changes, and the flag
      differs from the draw exactly when the preset flips the wind. */
  function Toggled(w: Weather, drawn: bool, flipWind: bool): (r: Weather)
    ensures r.isWindFlipped != drawn <==> flipWind
    ensures r.(isWindFlipped := w.isWindFlipped) == w
  {
    w.(isWindFlipped := if flipWind then !drawn else drawn)
  }

  /** The random draws fit the profile the weighted choice picks. */
  predicate DrawsFit(weather: map<string, Weather>, preset: Preset, choice: Result<nat>, draws: Draws) {
    preset.weather.Some? && choice.Success? && choice.value < |preset.weather.value|
    && preset.weather.value[choice.value] in weather
    ==> Admitted(weather[preset.weather.value[choice.value]], draws)
  }

  /** The weather profiles of the configuration, which the weather step of each
      preset updates in place. */
  class Profiles {
    var weather: map<string, Weather>

    constructor (weather: map<string, Weather>)
      ensures this.weather == weather
    {
      this.weather := weather;
    }

    /** The weather step of one preset. Without a weather list the mission is
        left alone. Otherwise every listed name must be a profile; then the
        weighted choice (an input here, with its error) picks a name, the wind
        flag of that profile is drawn and toggled, and the profile is applied. */
    method PresetWeather(mission: string, preset: Preset, choice: Result<nat>, drawnFlip: bool,
                         draws: Draws, dryRun: bool) returns (r: Result<string>)
      requires preset.weather.Some? && choice.Success? ==> choice.value < |preset.weather.value|
      requires DrawsFit(weather, preset, choice, draws)
      modifies this
      ensures preset.weather.None? ==> r == Success(mission) && weather == old(weather)
      ensures preset.weather.Some? && FirstMissing(preset.weather.value, old(weather).Keys).Some? ==>
        r == Failure(NotFoundMessage(preset.weather.value[FirstMissing(preset.weather.value, old(weather).Keys).value]))
        && weather == old(weather)
      ensures preset.weather.Some? && FirstMissing(preset.weather.value, old(weather).Keys).None? && choice.Failure? ==>
        r == Failure(choice.error) && weather == old(weather)
      ensures preset.weather.Some? && FirstMissing(preset.weather.value, old(weather).Keys).None? && choice.Success? ==>
        var name := preset.weather.value[choice.value];
        var w := Toggled(old(weather)[name], drawnFlip, preset.flipWind);
        weather == old(weather)[name := w]
        && r == WeatherPatch(mission, name, w, draws, dryRun)
    {
      if preset.weather.None? {
        return Success(mission);
      }
      var names := preset.weather.value;
      var checked := CheckWeatherNames(names, weather);
      if checked.Failure? {
        return Failure(checked.error);
      }
      if choice.Failure? {
        return Failure(choice.error);
      }
      var name := names[choice.value];
      var profile := weather[name].(isWindFlipped := drawnFlip);
      if preset.flipWind {
        profile := profile.(isWindFlipped := !profile.isWindFlipped);
      }
      weather := weather[name := profile];
      r := ModifyWeather(mission, name, profile, draws, dryRun);
    }
  }

  // ----- add_file -----

  datatype Entry = Entry(name: string, data: seq<bv8>)

  /** `path.replace('\\', "/")`. */
  function Normalized(path: string): (r: string)
    ensures |r| == |path|
    ensures forall i :: 0 <= i < |path| ==> r[i] == if path[i] == '\\' then '/' else path[i]
  {
    if path == [] then []
    else [if path[0] == '\\' then '/' else path[0]] + Normalized(path[1..])
  }

  /** A normalised name has no backslash left and normalises to itself. */
  lemma NormalizedStable(path: string)
    ensures '\\' !in Normalized(path)
    ensures Normalized(Normalized(path)) == Normalized(path)
  {
    var n := Normalized(path);
    assert forall i :: 0 <= i < |n| ==> n[i] != '\\';
  }

  /** The normalised names of a list of files. */
  function NamesOf(files: seq<Entry>): set<string> {
    if files == [] then {} else {Normalized(files[0].name)} + NamesOf(files[1..])
  }

  /** What the writer holds after adding the files in order, given the names
      already written: each file under its normalised name, unless that name
      was written before, in which case the earlier file stays. */
  function Dedup(seen: set<string>, files: seq<Entry>): (r: seq<Entry>)
    ensures forall i :: 0 <= i < |r| ==> r[i].name !in seen
    decreases |files|
  {
    if files == [] then []
    else
      var p := Normalized(files[0].name);
      if p in seen then Dedup(seen, files[1..])
      else [Entry(p, files[0].data)] + Dedup(seen + {p}, files[1..])
  }

  /** No name is written twice. */
  predicate DistinctNames(r: seq<Entry>) {
    forall i, j :: 0 <= i < j < |r| ==> r[i].name != r[j].name
  }

  /** No name is written twice. */
  lemma {:induction false} DedupDistinct(seen: set<string>, files: seq<Entry>)
    ensures DistinctNames(Dedup(seen, files))
    decreases |files|
  {
    if files != [] {
      var p := Normalized(files[0].name);
      if p in seen {
        assert Dedup(seen, files) == Dedup(seen, files[1..]);
        DedupDistinct(seen, files[1..]);
      } else {
        var tail := Dedup(seen + {p}, files[1..]);
        var r := [Entry(p, files[0].data)] + tail;
        assert Dedup(seen, files) == r;
        DedupDistinct(seen + {p}, files[1..]);
        forall i, j | 0 <= i < j < |r| ensures r[i].name != r[j].name {
          assert r[j] == tail[j - 1];
          if i > 0 {
            assert r[i] == tail[i - 1];
          }
        }
      }
    }
  }

  /** Some entry of r is written under the name n. */
  predicate Written(r: seq<Entry>, n: string) {
    exists j :: 0 <= j < |r| && r[j].name == n
  }

  /** Every name of the files that was not written before is written. */
  lemma {:induction false} DedupCovers(seen: set<string>, files: seq<Entry>)
    ensures forall i :: 0 <= i < |files| && Normalized(files[i].name) !in seen ==>
      Written(Dedup(seen, files), Normalized(files[i].name))
    decreases |files|
  {
    if files != [] {
      var p := Normalized(files[0].name);
      var seen' := if p in seen then seen else seen + {p};
      DedupCovers(seen', files[1..]);
      var r := Dedup(seen, files);
      var tail := Dedup(seen', files[1..]);
      assert r == if p in seen then tail else [Entry(p, files[0].data)] + tail;
      forall i | 0 <= i < |files| && Normalized(files[i].name) !in seen
        ensures Written(r, Normalized(files[i].name))
      {
        var n := Normalized(files[i].name);
        if n == p {
          assert r[0].name == p;
        } else {
          assert files[1..][i - 1] == files[i];
          assert Written(tail, n);
          var j :| 0 <= j < |tail| && tail[j].name == n;
          if p in seen {
            assert r[j] == tail[j];
          } else {
            assert r[j + 1] == tail[j];
          }
        }
      }
    }
  }

  /** Adding a + b is adding a and then adding b with a's names written. */
  lemma {:induction false} DedupAppend(seen: set<string>, a: seq<Entry>, b: seq<Entry>)
    ensures Dedup(seen, a + b) == Dedup(seen, a) + Dedup(seen + NamesOf(a), b)
    decreases |a|
  {
    if a == [] {
      assert a + b == b;
      assert Dedup(seen, a) == [] && seen + NamesOf(a) == seen;
    } else {
      var p := Normalized(a[0].name);
      assert (a + b)[0] == a[0] && (a + b)[1..] == a[1..] + b;
      assert NamesOf(a) == {p} + NamesOf(a[1..]);
      if p in seen {
        DedupAppend(seen, a[1..], b);
        assert seen + NamesOf(a) == seen + NamesOf(a[1..]);
      } else {
        DedupAppend(seen + {p}, a[1..], b);
        assert seen + NamesOf(a) == seen + {p} + NamesOf(a[1..]);
      }
    }
  }

  function EntryNames(entries: seq<Entry>): set<string> {
    set e | e in entries :: e.name
  }

  /** The zip writer of one preset and its `added_files` set. */
  class MizWriter {
    var entries: seq<Entry>
    var added: set<string>

    ghost predicate Valid()
      reads this
    {
      added == EntryNames(entries)
    }

    constructor ()
      ensures Valid() && entries == [] && added == {}
    {
      entries := [];
      added := {};
    }

    /** `add_file`: the name is normalised, and a file is written only under a
        name not written before. */
    method AddFile(path: string, data: seq<bv8>)
      requires Valid()
      modifies this
      ensures Valid()
      ensures var p := Normalized(path);
        if p in old(added) then entries == old(entries) && added == old(added)
        else entries == old(entries) + [Entry(p, data)] && added == old(added) + {p}
    {
      var p := Normalized(path);
      if p !in added {
        entries := entries + [Entry(p, data)];
        added := added + {p};
        assert EntryNames(entries) == EntryNames(old(entries)) + {p};
      }
    }
  }

  /** `add_file` called for each file in order. */
  method AddFiles(w: MizWriter, files: seq<Entry>)
    requires w.Valid()
    modifies w
    ensures w.Valid()
    ensures w.entries == old(w.entries) + Dedup(old(w.added), files)
    ensures w.added == old(w.added) + NamesOf(files)
  {
    for i := 0 to |files|
      invariant w.Valid()
      invariant w.entries + Dedup(w.added, files[i..]) == old(w.entries) + Dedup(old(w.added), files)
      invariant w.added == old(w.added) + NamesOf(files[..i])
    {
      ghost var e0, a0 := w.entries, w.added;
      w.AddFile(files[i].name, files[i].data);
      AddStep(e0, a0, w.entries, w.added, files, i);
      NamesStep(files, i);
    }
    assert files[..|files|] == files;
  }

  /** One call of `add_file` in the loop of AddFiles: what is written plus what
      the remaining files will add stays the same. */
  lemma AddStep(e0: seq<Entry>, a0: set<string>, e1: seq<Entry>, a1: set<string>, files: seq<Entry>, i: nat)
    requires i < |files|
    requires var p := Normalized(files[i].name);
      if p in a0 then e1 == e0 && a1 == a0
      else e1 == e0 + [Entry(p, files[i].data)] && a1 == a0 + {p}
    ensures e1 + Dedup(a1, files[i + 1..]) == e0 + Dedup(a0, files[i..])
    ensures a1 == a0 + {Normalized(files[i].name)}
  {
    var p := Normalized(files[i].name);
    DedupStep(a0, files, i);
    if p in a0 {
      assert a0 + {p} == a0;
    } else {
      var d := Dedup(a0 + {p}, files[i + 1..]);
      assert e0 + [Entry(p, files[i].data)] + d == e0 + ([Entry(p, files[i].data)] + d);
    }
  }

  /** One step of Dedup over the files from i on. */
  lemma DedupStep(seen: set<string>, files: seq<Entry>, i: nat)
    requires i < |files|
    ensures var p := Normalized(files[i].name);
      Dedup(seen, files[i..]) ==
        if p in seen then Dedup(seen, files[i + 1..])
        else [Entry(p, files[i].data)] + Dedup(seen + {p}, files[i + 1..])
  {
    assert files[i..][0] == files[i] && files[i..][1..] == files[i + 1..];
  }

  lemma NamesStep(files: seq<Entry>, i: nat)
    requires i < |files|
    ensures NamesOf(files[..i + 1]) == NamesOf(files[..i]) + {Normalized(files[i].name)}
  {
    assert files[..i + 1] == files[..i] + [files[i]];
    NamesOfAppend(files[..i], [files[i]]);
  }

  lemma {:induction false} NamesOfAppend(a: seq<Entry>, b: seq<Entry>)
    ensures NamesOf(a + b) == NamesOf(a) + NamesOf(b)
    decreases |a|
  {
    if a == [] {
      assert a + b == b;
    } else {
      assert (a + b)[0] == a[0] && (a + b)[1..] == a[1..] + b;
      NamesOfAppend(a[1..], b);
    }
  }

  lemma MissionName()
    ensures Normalized("mission") == "mission"
  {
  }

  /** The entry written first takes its name for good. */
  lemma FirstEntry(e: Entry, rest: seq<Entry>)
    requires Normalized(e.name) == e.name
    ensures Dedup({}, [e] + rest) == [e] + Dedup({e.name}, rest)
  {
    var f := [e] + rest;
    assert f[0] == e && f[1..] == rest;
    assert {} + {e.name} == {e.name};
  }

  /** The three phases of the writing, put together. */
  lemma WriteOrder(e: Entry, repack: seq<Entry>, archive: seq<Entry>)
    requires Normalized(e.name) == e.name
    ensures Dedup({}, [e] + repack + archive)
      == [e] + Dedup({e.name}, repack) + Dedup({e.name} + NamesOf(repack), archive)
  {
    var d1 := Dedup({e.name}, repack);
    var d2 := Dedup({e.name} + NamesOf(repack), archive);
    assert Dedup({}, [e] + repack + archive) == [e] + Dedup({e.name}, repack + archive) by {
      assert [e] + repack + archive == [e] + (repack + archive);
      FirstEntry(e, repack + archive);
    }
    assert Dedup({e.name}, repack + archive) == d1 + d2 by {
      DedupAppend({e.name}, repack, archive);
    }
    assert [e] + (d1 + d2) == [e] + d1 + d2;
  }

  /** The writing of a new archive: the patched mission, then the files of the
      repack directory, then the files of the original archive. */
  method WriteMiz(mission: seq<bv8>, repack: seq<Entry>, archive: seq<Entry>) returns (written: seq<Entry>)
    ensures written == Dedup({}, [Entry("mission", mission)] + repack + archive)
  {
    var w := new MizWriter();
    MissionName();
    w.AddFile("mission", mission);
    assert w.entries == [Entry("mission", mission)] && w.added == {"mission"};
    ghost var d1 := Dedup({"mission"}, repack);
    AddFiles(w, repack);
    assert w.entries == [Entry("mission", mission)] + d1 && w.added == {"mission"} + NamesOf(repack);
    ghost var d2 := Dedup({"mission"} + NamesOf(repack), archive);
    AddFiles(w, archive);
    assert w.entries == [Entry("mission", mission)] + d1 + d2;
    written := w.entries;
    WriteOrder(Entry("mission", mission), repack, archive);
  }

  /** The first writer wins: the patched mission is written first, and the
      archive's own `mission` file, or a repack file of that name, is not
      written at all. */
  lemma FirstShadows(mission: seq<bv8>, repack: seq<Entry>, archive: seq<Entry>)
    ensures var r := Dedup({}, [Entry("mission", mission)] + repack + archive);
      0 < |r| && r[0] == Entry("mission", mission)
      && forall i :: 0 < i < |r| ==> r[i].name != "mission"
  {
    var e := Entry("mission", mission);
    MissionName();
    assert [e] + repack + archive == [e] + (repack + archive);
    FirstEntry(e, repack + archive);
    var tail := Dedup({e.name}, repack + archive);
    var r := [e] + tail;
    forall i | 0 < i < |r| ensures r[i].name != "mission" {
      assert r[i] == tail[i - 1];
    }
  }
}
