/** The temperature and QNH patches of a weather profile. Both values are held
    in hundredths and written with two decimals. */
module WeatherMisc {
  import opened Wrappers
  import opened Text
  import opened Anchors
  import opened Config

  /** The value of a draw, rendered with `{:.2}`. */
  function Fixed2Text(v: Option<int>): (t: Option<string>)
    ensures t.None? <==> v.None?
  {
    match v
    case None => None
    case Some(n) => Some(Fixed2(n))
  }

  /** `modify_temp`, with pick the value `gen_range` draws. An unset range leaves
      the text alone without looking for the anchor; otherwise the temperature
      replaces the first temperature value. */
  function ModifyTemp(mission: string, weather: Weather, pick: int, dryRun: bool): (r: Result<string>)
    requires weather.temp.Admits(pick)
    ensures weather.temp.Unset() ==> r == Success(mission)
    ensures !weather.temp.Unset() && !Present(Temperature, mission) ==>
      r == if dryRun then Success(mission) else Failure(MissingMessage(Temperature))
    ensures !weather.temp.Unset() && Present(Temperature, mission) ==>
      r == Success(Replace(Temperature, mission, Fixed2(weather.temp.Select(pick).value)))
  {
    Patch(Temperature, mission, Fixed2Text(weather.temp.Select(pick)), dryRun)
  }

  /** `modify_qnh`, in the same way as ModifyTemp. */
  function ModifyQnh(mission: string, weather: Weather, pick: int, dryRun: bool): (r: Result<string>)
    requires weather.qnh.Admits(pick)
    ensures weather.qnh.Unset() ==> r == Success(mission)
    ensures !weather.qnh.Unset() && !Present(Qnh, mission) ==>
      r == if dryRun then Success(mission) else Failure(MissingMessage(Qnh))
    ensures !weather.qnh.Unset() && Present(Qnh, mission) ==>
      r == Success(Replace(Qnh, mission, Fixed2(weather.qnh.Select(pick).value)))
  {
    Patch(Qnh, mission, Fixed2Text(weather.qnh.Select(pick)), dryRun)
  }

  /** A temperature that is not negative is found again as the first
      temperature value and reads back as the temperature drawn. */
  lemma TempReadsBack(mission: string, weather: Weather, pick: int, dryRun: bool, m: Match)
    requires weather.temp.Admits(pick) && !weather.temp.Unset()
    requires 0 <= weather.temp.Select(pick).value
    requires IsFirst(Temperature, mission, m)
    ensures var t := Fixed2(weather.temp.Select(pick).value);
      var u := Replace(Temperature, mission, t);
      ModifyTemp(mission, weather, pick, dryRun) == Success(u)
      && u[m.keyEnd + 3..m.keyEnd + 3 + |t|] == t && ParseHundredths(t) == Some(weather.temp.Select(pick).value)
  {
    var v := weather.temp.Select(pick).value;
    var t := Fixed2(v);
    var u := Replace(Temperature, mission, t);
    assert ModifyTemp(mission, weather, pick, dryRun) == Success(u) by {
      assert Fixed2Text(weather.temp.Select(pick)) == Some(t);
      NumericPatched(Temperature, mission, t, dryRun, m);
    }
    assert u[m.keyEnd + 3..m.keyEnd + 3 + |t|] == t by {
      NumericPatched(Temperature, mission, t, dryRun, m);
    }
    assert ParseHundredths(t) == Some(v) by {
      ParseFixed2(v);
    }
  }

  /** A QNH is found again as the first QNH value and reads back as the QNH drawn. */
  lemma QnhReadsBack(mission: string, weather: Weather, pick: int, dryRun: bool, m: Match)
    requires weather.qnh.Admits(pick) && !weather.qnh.Unset()
    requires 0 <= weather.qnh.Select(pick).value
    requires IsFirst(Qnh, mission, m)
    ensures var t := Fixed2(weather.qnh.Select(pick).value);
      var u := Replace(Qnh, mission, t);
      ModifyQnh(mission, weather, pick, dryRun) == Success(u)
      && u[m.keyEnd + 3..m.keyEnd + 3 + |t|] == t && ParseHundredths(t) == Some(weather.qnh.Select(pick).value)
  {
    var v := weather.qnh.Select(pick).value;
    var t := Fixed2(v);
    var u := Replace(Qnh, mission, t);
    assert ModifyQnh(mission, weather, pick, dryRun) == Success(u) by {
      assert Fixed2Text(weather.qnh.Select(pick)) == Some(t);
      NumericPatched(Qnh, mission, t, dryRun, m);
    }
    assert u[m.keyEnd + 3..m.keyEnd + 3 + |t|] == t by {
      NumericPatched(Qnh, mission, t, dryRun, m);
    }
    assert ParseHundredths(t) == Some(v) by {
      ParseFixed2(v);
    }
  }

  /** The anchor's value takes only digits and dots: in any match of the
      temperature anchor the character after ` = ` is one of them. */
  lemma TempValueStart(mission: string, m: Match)
    requires Shape(Temperature, mission, m)
    ensures m.start + 18 < |mission| && StartsAt(mission, m.start, "[\"temperature\"] = ")
    ensures NumChar.Has(mission[m.start + 18])
  {
    var key := "[\"temperature\"] = ";
    assert key == NumericKey(Temperature) + " = ";
    forall k | 0 <= k < |key| ensures mission[m.start + k] == key[k] {
      if k < 15 {
        assert key[k] == NumericKey(Temperature)[k];
      } else {
        assert key[k] == " = "[k - 15];
        assert mission[m.start + k] == mission[m.keyEnd + (k - 15)];
      }
    }
  }

  /** A mission whose every temperature is written with a minus sign, such as
      `["temperature"] = -5,`, has no temperature field, so a requested
      temperature fails outside dry run. */
  lemma NegativeTempNotFound(mission: string, weather: Weather, pick: int)
    requires forall i: nat :: i + 18 < |mission| && StartsAt(mission, i, "[\"temperature\"] = ") ==> mission[i + 18] == '-'
    requires weather.temp.Admits(pick) && !weather.temp.Unset()
    ensures !Present(Temperature, mission)
    ensures ModifyTemp(mission, weather, pick, false) == Failure("Could not find temperature key in mission file")
  {
    forall m | Shape(Temperature, mission, m) ensures NumChar.Has(mission[m.start + 18]) && mission[m.start + 18] == '-' {
      TempValueStart(mission, m);
    }
    assert !NumChar.Has('-');
  }
}
