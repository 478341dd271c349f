/** The two cloud patches of a weather profile: the cloud preset name and the
    cloud base altitude. */
module Clouds {
  import opened Wrappers
  import opened Text
  import opened Anchors
  import opened Config

  /** The value text of a preset: the name between double quotes. */
  function Quoted(name: string): (t: string)
    ensures |t| == |name| + 2 && t[0] == '"' && t[|t| - 1] == '"' && t[1..|t| - 1] == name
  {
    "\"" + name + "\""
  }

  function MissingPresetMessage(presetName: string): string {
    "Cloud preset not defined in weather key: " + presetName
  }

  /** `modify_cloud_preset`. Outside dry run the anchor is looked for first; only
      then must the profile name a cloud preset, in dry run too. The name is
      written between quotes in place of the first preset value. presetName is
      the key of the weather profile in the configuration. */
  function ModifyCloudPreset(mission: string, presetName: string, weather: Weather, dryRun: bool): (r: Result<string>)
    ensures !dryRun && !Present(CloudPreset, mission) ==> r == Failure(MissingMessage(CloudPreset))
    ensures (dryRun || Present(CloudPreset, mission)) && weather.cloudPreset.None? ==>
      r == Failure(MissingPresetMessage(presetName))
    ensures weather.cloudPreset.Some? && dryRun && !Present(CloudPreset, mission) ==> r == Success(mission)
    ensures weather.cloudPreset.Some? && Present(CloudPreset, mission) ==>
      r == Success(Replace(CloudPreset, mission, Quoted(weather.cloudPreset.value)))
  {
    FirstMatchSpec(CloudPreset, mission);
    if !dryRun && FirstMatch(CloudPreset, mission).None? then Failure(MissingMessage(CloudPreset))
    else
      match weather.cloudPreset
      case None => Failure(MissingPresetMessage(presetName))
      case Some(name) =>
        Success(Replace(CloudPreset, mission, Quoted(name)))
  }

  /** The written preset (what ModifyCloudPreset returns when the anchor is
      present) is again a preset field at the same place, holds the configured
      name between its quotes, and the text around it is unchanged. */
  lemma CloudPresetWritten(mission: string, name: string, m: Match)
    requires |name| > 0 && AllIn(name, NotNewline)
    requires IsFirst(CloudPreset, mission, m)
    ensures var u := Replace(CloudPreset, mission, Quoted(name));
      Shape(CloudPreset, u, Match(m.start, m.keyEnd, m.keyEnd + 6 + |name|))
      && u[m.keyEnd + 4..m.keyEnd + 4 + |name|] == name
      && u[..m.keyEnd] == mission[..m.keyEnd]
      && u[m.keyEnd + 6 + |name|..] == mission[m.end..]
  {
    var text := Quoted(name);
    assert AllIn(text, NotNewline) by {
      forall j | 0 <= j < |text| ensures NotNewline.Has(text[j]) {
        if 0 < j < |text| - 1 {
          assert text[j] == name[j - 1];
        }
      }
    }
    var u := mission[..m.keyEnd] + " = " + text + "," + mission[m.end..];
    assert Replace(CloudPreset, mission, text) == u by {
      ReplaceFirst(CloudPreset, mission, text, m);
    }
    assert Shape(CloudPreset, u, Match(m.start, m.keyEnd, m.keyEnd + 6 + |name|))
      && u[m.keyEnd + 4..m.keyEnd + 4 + |name|] == name by {
      PresetRewritten(mission, m, text);
    }
    assert u[..m.keyEnd] == mission[..m.keyEnd] && u[m.keyEnd + 6 + |name|..] == mission[m.end..] by {
      RewrittenPieces(mission, m, text);
      assert u[m.keyEnd + 4 + |text|..] == mission[m.end..];
    }
  }

  /** `modify_cloud_base`, with pick the value `gen_range` draws. An unset range
      leaves the text alone without looking for the anchor; otherwise the drawn
      altitude replaces the first base value. */
  function ModifyCloudBase(mission: string, weather: Weather, pick: int, dryRun: bool): (r: Result<string>)
    requires weather.cloudBase.Admits(pick)
    ensures weather.cloudBase.Unset() ==> r == Success(mission)
    ensures !weather.cloudBase.Unset() && !Present(CloudBase, mission) ==>
      r == if dryRun then Success(mission) else Failure(MissingMessage(CloudBase))
    ensures !weather.cloudBase.Unset() && Present(CloudBase, mission) ==>
      r == Success(Replace(CloudBase, mission, IntToString(weather.cloudBase.Select(pick).value)))
  {
    Patch(CloudBase, mission, IntText(weather.cloudBase.Select(pick)), dryRun)
  }

  /** A drawn altitude that is not negative is found again as the first base
      value, and reads back as the altitude drawn. */
  lemma CloudBaseReadsBack(mission: string, weather: Weather, pick: int, dryRun: bool, m: Match)
    requires weather.cloudBase.Admits(pick) && !weather.cloudBase.Unset()
    requires 0 <= weather.cloudBase.Select(pick).value && IsI32(weather.cloudBase.Select(pick).value)
    requires IsFirst(CloudBase, mission, m)
    ensures var v := weather.cloudBase.Select(pick).value;
      var t := IntToString(v);
      var r := ModifyCloudBase(mission, weather, pick, dryRun);
      r == Success(Replace(CloudBase, mission, t))
      && r.value[m.keyEnd + 3..m.keyEnd + 3 + |t|] == t && ParseI32(t) == Some(v)
  {
    var v := weather.cloudBase.Select(pick).value;
    var t := IntToString(v);
    var u := Replace(CloudBase, mission, t);
    DigitsAreNumChars(t);
    assert ModifyCloudBase(mission, weather, pick, dryRun) == Success(u) by {
      assert IntText(weather.cloudBase.Select(pick)) == Some(t);
      NumericPatched(CloudBase, mission, t, dryRun, m);
    }
    assert u[m.keyEnd + 3..m.keyEnd + 3 + |t|] == t by {
      NumericPatched(CloudBase, mission, t, dryRun, m);
    }
    ParseRendered(v);
  }
}
