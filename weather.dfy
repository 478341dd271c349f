/** `modify_weather`: the seven field patches of a weather profile in their
    fixed order, each working on the text the one before returned. The ground
    and 2000 m wind speeds are local variables that start at zero and that the
    wind patches update. */
module WeatherPipeline {
  import opened Wrappers
  import opened Anchors
  import opened Config
  import opened Clouds
  import opened Wind
  import opened WeatherMisc

  function CloudMessages(presetName: string): set<string> {
    {MissingMessage(CloudPreset), MissingPresetMessage(presetName), MissingMessage(CloudBase)}
  }

  function WindMessages(): set<string> {
    {MissingMessage(Wind(AtGround, Speed)), MissingMessage(Wind(AtGround, Dir)),
     MissingMessage(Wind(At2000m, Speed)), MissingMessage(Wind(At2000m, Dir)),
     MissingMessage(Wind(At8000m, Speed)), MissingMessage(Wind(At8000m, Dir))}
  }

  function AirMessages(): set<string> {
    {MissingMessage(Temperature), MissingMessage(Qnh)}
  }

  /** Every message a weather application can fail with. */
  function StageMessages(presetName: string): set<string> {
    CloudMessages(presetName) + WindMessages() + AirMessages()
  }

  /** The picks of the random generator are values the ranges admit. */
  predicate Admitted(weather: Weather, draws: Draws) {
    weather.cloudBase.Admits(draws.cloudBase) && weather.temp.Admits(draws.temp)
    && weather.qnh.Admits(draws.qnh)
  }

  /** The cloud preset and cloud base stages. A profile without a cloud preset
      name fails here, in dry run too; nothing else fails a dry run. */
  function CloudStages(mission: string, presetName: string, weather: Weather, pick: int, dryRun: bool): (r: Result<string>)
    requires weather.cloudBase.Admits(pick)
    ensures r.Success? ==> weather.cloudPreset.Some?
    ensures dryRun ==> (r.Success? <==> weather.cloudPreset.Some?)
    ensures r.Failure? ==> r.error in CloudMessages(presetName)
  {
    var clouds :- ModifyCloudPreset(mission, presetName, weather, dryRun);
    ModifyCloudBase(clouds, weather, pick, dryRun)
  }

  /** The three wind stages. The 2000 m speed draw is given the ground speed,
      or 0 when none was drawn; the 8000 m speed draw is given the 2000 m
      speed, or 0 when none was drawn, and not the ground speed. */
  function WindStages(mission: string, w: WindDraws, dryRun: bool): (r: Result<string>)
    ensures dryRun ==> r.Success?
    ensures r.Failure? ==> r.error in WindMessages()
  {
    var ground :- BandPatch(mission, AtGround, w.groundSpeed, w.groundHeading, dryRun);
    var groundSpeed := w.groundSpeed.GetOr(0);
    var low :- BandPatch(ground, At2000m, w.speed2000m(groundSpeed), w.heading2000m, dryRun);
    var lowSpeed := w.speed2000m(groundSpeed).GetOr(0);
    BandPatch(low, At8000m, w.speed8000m(lowSpeed), w.heading8000m, dryRun)
  }

  /** The temperature and QNH stages. */
  function AirStages(mission: string, weather: Weather, tempPick: int, qnhPick: int, dryRun: bool): (r: Result<string>)
    requires weather.temp.Admits(tempPick) && weather.qnh.Admits(qnhPick)
    ensures dryRun ==> r.Success?
    ensures r.Failure? ==> r.error in AirMessages()
  {
    var temp :- ModifyTemp(mission, weather, tempPick, dryRun);
    ModifyQnh(temp, weather, qnhPick, dryRun)
  }

  /** The composition of the stages, in the order cloud preset, cloud base,
      ground, 2000 m and 8000 m wind, temperature, QNH. The first error ends the
      application. Only a missing cloud preset name can fail a dry run. */
  function WeatherPatch(mission: string, presetName: string, weather: Weather, draws: Draws, dryRun: bool): (r: Result<string>)
    requires Admitted(weather, draws)
    ensures r.Success? ==> weather.cloudPreset.Some?
    ensures dryRun ==> (r.Success? <==> weather.cloudPreset.Some?)
    ensures r.Failure? ==> r.error in StageMessages(presetName)
  {
    var clouds :- CloudStages(mission, presetName, weather, draws.cloudBase, dryRun);
    var wind :- WindStages(clouds, draws.wind, dryRun);
    AirStages(wind, weather, draws.temp, draws.qnh, dryRun)
  }

  /** `modify_weather`, with the `?` after each stage and the two speed
      variables that the wind stages update. */
  method ModifyWeather(mission: string, presetName: string, weather: Weather, draws: Draws, dryRun: bool)
    returns (r: Result<string>)
    requires Admitted(weather, draws)
    ensures r == WeatherPatch(mission, presetName, weather, draws, dryRun)
  {
    var windGroundSpeed := 0;
    var wind2000mSpeed := 0;
    var text := ModifyCloudPreset(mission, presetName, weather, dryRun);
    if text.Failure? {
      return Failure(text.error);
    }
    text := ModifyCloudBase(text.value, weather, draws.cloudBase, dryRun);
    if text.Failure? {
      return Failure(text.error);
    }
    var base := text.value;
    text, windGroundSpeed := ModifyGroundWind(base, draws.wind, windGroundSpeed, dryRun);
    if text.Failure? {
      return Failure(text.error);
    }
    assert windGroundSpeed == draws.wind.groundSpeed.GetOr(0);
    var ground := text.value;
    text, wind2000mSpeed := ModifyWind2000m(ground, draws.wind, windGroundSpeed, wind2000mSpeed, dryRun);
    if text.Failure? {
      return Failure(text.error);
    }
    assert wind2000mSpeed == draws.wind.speed2000m(windGroundSpeed).GetOr(0);
    text := ModifyWind8000m(text.value, draws.wind, wind2000mSpeed, dryRun);
    if text.Failure? {
      return Failure(text.error);
    }
    text := ModifyTemp(text.value, weather, draws.temp, dryRun);
    if text.Failure? {
      return Failure(text.error);
    }
    r := ModifyQnh(text.value, weather, draws.qnh, dryRun);
  }

  /** Nothing is drawn for any field. */
  predicate NothingDrawn(weather: Weather, w: WindDraws) {
    weather.cloudBase.Unset() && weather.temp.Unset() && weather.qnh.Unset()
    && w.groundSpeed.None? && w.groundHeading.None? && w.speed2000m(0).None?
    && w.heading2000m.None? && w.speed8000m(0).None? && w.heading8000m.None?
  }

  /** With nothing drawn, the application is the cloud preset patch alone. */
  lemma OnlyPresetChanges(mission: string, presetName: string, weather: Weather, draws: Draws, dryRun: bool)
    requires Admitted(weather, draws) && NothingDrawn(weather, draws.wind)
    ensures WeatherPatch(mission, presetName, weather, draws, dryRun)
      == ModifyCloudPreset(mission, presetName, weather, dryRun)
  {
    var clouds := ModifyCloudPreset(mission, presetName, weather, dryRun);
    if clouds.Success? {
      var s := clouds.value;
      assert CloudStages(mission, presetName, weather, draws.cloudBase, dryRun) == Success(s);
      assert WindStages(s, draws.wind, dryRun) == Success(s) by {
        assert BandPatch(s, AtGround, None, None, dryRun) == Success(s);
        assert BandPatch(s, At2000m, None, None, dryRun) == Success(s);
        assert BandPatch(s, At8000m, None, None, dryRun) == Success(s);
      }
      assert AirStages(s, weather, draws.temp, draws.qnh, dryRun) == Success(s);
    }
  }

  /** When no 2000 m speed is drawn, the 8000 m draw is given 0 and not the
      ground speed: any other answer of the 8000 m draw for other speeds
      changes nothing. */
  lemma HighBandGetsZero(mission: string, w: WindDraws, dryRun: bool, other: int -> Option<int>)
    requires w.speed2000m(w.groundSpeed.GetOr(0)).None?
    requires other(0) == w.speed8000m(0)
    ensures WindStages(mission, w, dryRun) == WindStages(mission, w.(speed8000m := other), dryRun)
  {
  }

  /** When a ground speed is drawn, the 2000 m draw is given that speed: any
      other answer of the 2000 m draw for other speeds changes nothing. */
  lemma LowBandGetsGroundSpeed(mission: string, w: WindDraws, dryRun: bool, other: int -> Option<int>)
    requires w.groundSpeed.Some?
    requires other(w.groundSpeed.value) == w.speed2000m(w.groundSpeed.value)
    ensures WindStages(mission, w, dryRun) == WindStages(mission, w.(speed2000m := other), dryRun)
  {
  }

  /** When no ground speed is drawn, the 2000 m draw is given 0: any other
      answer of the 2000 m draw for other speeds changes nothing. */
  lemma LowBandGetsZero(mission: string, w: WindDraws, dryRun: bool, other: int -> Option<int>)
    requires w.groundSpeed.None?
    requires other(0) == w.speed2000m(0)
    ensures WindStages(mission, w, dryRun) == WindStages(mission, w.(speed2000m := other), dryRun)
  {
  }
}
