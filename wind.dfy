/** The wind patches of a weather profile: for each altitude band, the drawn
    speed and then the drawn heading, each written into the first field of its
    band's anchor. The ground and 2000 m speeds are handed back to the caller,
    which passes them to the draw of the band above. */
module Wind {
  import opened Wrappers
  import opened Text
  import opened Anchors
  import opened Config

  /** A drawn speed in hundredths of m/s, rendered as `{}` writes an `f64`. */
  function SpeedText(v: Option<int>): (t: Option<string>)
    ensures t.None? <==> v.None?
  {
    match v
    case None => None
    case Some(n) => Some(Shortest(n))
  }

  /** What happens to one band: the speed patch, and on success the heading
      patch of the text the speed patch gave. An error of the speed patch is
      returned without trying the heading. */
  function BandPatch(mission: string, b: Band, speed: Option<int>, heading: Option<int>, dryRun: bool): (r: Result<string>)
    ensures speed.None? ==> r == Patch(Wind(b, Dir), mission, IntText(heading), dryRun)
    ensures speed.Some? && !dryRun && !Present(Wind(b, Speed), mission) ==>
      r == Failure(MissingMessage(Wind(b, Speed)))
    ensures speed.Some? && (dryRun || Present(Wind(b, Speed), mission)) ==>
      r == Patch(Wind(b, Dir), Replace(Wind(b, Speed), mission, Shortest(speed.value)), IntText(heading), dryRun)
    ensures speed.None? && heading.None? ==> r == Success(mission)
    ensures dryRun ==> r.Success?
    ensures r.Failure? ==> r.error == MissingMessage(Wind(b, Speed)) || r.error == MissingMessage(Wind(b, Dir))
  {
    ReplaceSpec(Wind(b, Speed), mission, if speed.Some? then Shortest(speed.value) else "");
    var s :- Patch(Wind(b, Speed), mission, SpeedText(speed), dryRun);
    Patch(Wind(b, Dir), s, IntText(heading), dryRun)
  }

  /** The body shared by the three band functions of `src/weather/wind.rs`:
      mission is reassigned after each patch. speedWritten tells whether the
      drawn speed was written, which is when the caller stores it. */
  method ModifyBand(mission: string, b: Band, speed: Option<int>, heading: Option<int>, dryRun: bool)
    returns (r: Result<string>, speedWritten: bool)
    ensures r == BandPatch(mission, b, speed, heading, dryRun)
    ensures speedWritten <==> speed.Some? && (dryRun || Present(Wind(b, Speed), mission))
  {
    var text := mission;
    speedWritten := false;
    if speed.Some? {
      FirstMatchSpec(Wind(b, Speed), text);
      if !dryRun && FirstMatch(Wind(b, Speed), text).None? {
        return Failure(MissingMessage(Wind(b, Speed))), false;
      }
      text := Replace(Wind(b, Speed), text, Shortest(speed.value));
      speedWritten := true;
    }
    if heading.Some? {
      FirstMatchSpec(Wind(b, Dir), text);
      if !dryRun && FirstMatch(Wind(b, Dir), text).None? {
        return Failure(MissingMessage(Wind(b, Dir))), speedWritten;
      }
      text := Replace(Wind(b, Dir), text, IntToString(heading.value));
    }
    r := Success(text);
  }

  /** `modify_ground_wind`. windGroundSpeed is the caller's variable before the
      call and groundSpeed after it: the drawn speed once it is written, and
      the old value otherwise. */
  method ModifyGroundWind(mission: string, wind: WindDraws, windGroundSpeed: int, dryRun: bool)
    returns (r: Result<string>, groundSpeed: int)
    ensures r == BandPatch(mission, AtGround, wind.groundSpeed, wind.groundHeading, dryRun)
    ensures groundSpeed ==
      if wind.groundSpeed.Some? && (dryRun || Present(Wind(AtGround, Speed), mission))
      then wind.groundSpeed.value else windGroundSpeed
  {
    var written;
    r, written := ModifyBand(mission, AtGround, wind.groundSpeed, wind.groundHeading, dryRun);
    groundSpeed := if written then wind.groundSpeed.value else windGroundSpeed;
  }

  /** `modify_2000m_wind`: the speed drawn for 2000 m is given the ground speed. */
  method ModifyWind2000m(mission: string, wind: WindDraws, groundSpeed: int, wind2000mSpeed: int, dryRun: bool)
    returns (r: Result<string>, speed2000m: int)
    ensures r == BandPatch(mission, At2000m, wind.speed2000m(groundSpeed), wind.heading2000m, dryRun)
    ensures speed2000m ==
      if wind.speed2000m(groundSpeed).Some? && (dryRun || Present(Wind(At2000m, Speed), mission))
      then wind.speed2000m(groundSpeed).value else wind2000mSpeed
  {
    var drawn := wind.speed2000m(groundSpeed);
    var written;
    r, written := ModifyBand(mission, At2000m, drawn, wind.heading2000m, dryRun);
    speed2000m := if written then drawn.value else wind2000mSpeed;
  }

  /** `modify_8000m_wind`: the speed drawn for 8000 m is given the 2000 m speed,
      and nothing is handed back. */
  method ModifyWind8000m(mission: string, wind: WindDraws, wind2000mSpeed: int, dryRun: bool)
    returns (r: Result<string>)
    ensures r == BandPatch(mission, At8000m, wind.speed8000m(wind2000mSpeed), wind.heading8000m, dryRun)
  {
    var written;
    r, written := ModifyBand(mission, At8000m, wind.speed8000m(wind2000mSpeed), wind.heading8000m, dryRun);
  }

  /** The field a band's patch rewrites follows that band's header: 12
      whitespace characters and the header start the match, the attribute key
      ends its kept part, and only the value after that key is replaced. */
  lemma BandFieldFollowsHeader(s: string, b: Band, at: Attr, text: string, m: Match)
    requires IsFirst(Wind(b, at), s, m)
    ensures var k := m.keyEnd - |AttrKey(at)|;
      StartsAt(s, m.start + 12, BandHeader(b)) && m.start + 12 + |BandHeader(b)| < k - 16
      && StartsAt(s, k, AttrKey(at))
      && Replace(Wind(b, at), s, text) == s[..m.keyEnd] + " = " + text + "," + s[m.end..]
  {
    ReplaceFirst(Wind(b, at), s, text, m);
  }

  /** A text in which the band's header does not occur has neither of the
      band's wind fields. */
  lemma NoHeaderNoWind(s: string, b: Band, at: Attr)
    requires forall i: nat :: !StartsAt(s, i, BandHeader(b))
    ensures !Present(Wind(b, at), s)
  {
    forall m | Shape(Wind(b, at), s, m) ensures StartsAt(s, m.start + 12, BandHeader(b)) { }
  }

  /** A band whose header does not occur is left alone in dry run, and outside
      dry run a drawn speed fails on the speed and a drawn heading alone on the
      heading. */
  lemma HeaderlessBand(mission: string, b: Band, speed: Option<int>, heading: Option<int>, dryRun: bool)
    requires forall i: nat :: !StartsAt(mission, i, BandHeader(b))
    ensures var r := BandPatch(mission, b, speed, heading, dryRun);
      (dryRun ==> r == Success(mission))
      && (!dryRun && speed.Some? ==> r == Failure(MissingMessage(Wind(b, Speed))))
      && (!dryRun && speed.None? && heading.Some? ==> r == Failure(MissingMessage(Wind(b, Dir))))
      && (speed.None? && heading.None? ==> r == Success(mission))
  {
    NoHeaderNoWind(mission, b, Speed);
    NoHeaderNoWind(mission, b, Dir);
    ReplaceSpec(Wind(b, Speed), mission, if speed.Some? then Shortest(speed.value) else "");
    ReplaceSpec(Wind(b, Dir), mission, if heading.Some? then IntToString(heading.value) else "");
  }

  /** The band's header starts with `[` followed by its unquoted name. */
  lemma HeaderChars(s: string, i: nat, b: Band)
    requires StartsAt(s, i, BandHeader(b))
    ensures i + 1 < |s| && s[i] == '[' && s[i + 1] != '"'
  {
    assert s[i + 0] == BandHeader(b)[0];
    assert s[i + 1] == BandHeader(b)[1];
  }

  /** A mission whose keys are all quoted, every `[` followed by `"` as in
      `["atGround"] =`, holds no band header, so HeaderlessBand applies to it:
      the wind fields are left alone in dry run and a drawn wind fails outside
      it. */
  lemma QuotedKeysNoWind(mission: string, b: Band, speed: Option<int>, heading: Option<int>, dryRun: bool)
    requires forall i :: 0 <= i < |mission| - 1 && mission[i] == '[' ==> mission[i + 1] == '"'
    ensures var r := BandPatch(mission, b, speed, heading, dryRun);
      (dryRun ==> r == Success(mission))
      && (!dryRun && speed.Some? ==> r == Failure(MissingMessage(Wind(b, Speed))))
      && (!dryRun && speed.None? && heading.Some? ==> r == Failure(MissingMessage(Wind(b, Dir))))
  {
    forall i: nat ensures !StartsAt(mission, i, BandHeader(b)) {
      if StartsAt(mission, i, BandHeader(b)) {
        HeaderChars(mission, i, b);
      }
    }
    HeaderlessBand(mission, b, speed, heading, dryRun);
  }
}
