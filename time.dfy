/** The start-time patch: read `H[:M[:S]]`, normalise it with carries, and write
    the seconds of the day into the `start_time` line indented by exactly four
    spaces. */
module Time {
  import opened Wrappers
  import opened Text
  import opened Anchors
  import opened Config

  /** `splitn(n, ':')`: at most n pieces, the last one holding the rest. */
  function SplitN(t: string, n: nat): (r: seq<string>)
    requires n >= 1
    ensures 1 <= |r| <= n
    ensures forall j :: 0 <= j < |r| - 1 ==> ':' !in r[j]
    ensures |r| < n ==> ':' !in r[|r| - 1]
    decreases n
  {
    var k := RunEnd(t, 0, NotColon);
    RunEndIsRun(t, 0, NotColon);
    if n == 1 || k == |t| then [t] else [t[..k]] + SplitN(t[k + 1..], n - 1)
  }

  function JoinColons(r: seq<string>): string
    requires |r| >= 1
  {
    if |r| == 1 then r[0] else r[0] + ":" + JoinColons(r[1..])
  }

  /** Splitting loses nothing: the pieces joined with colons give the time back. */
  lemma {:induction false} SplitJoin(t: string, n: nat)
    requires n >= 1
    ensures JoinColons(SplitN(t, n)) == t
    decreases n
  {
    var k := RunEnd(t, 0, NotColon);
    if n > 1 && k < |t| {
      SplitJoin(t[k + 1..], n - 1);
      CutAt(t, k, ":");
    }
  }

  datatype Hms = Hms(hours: int, minutes: int, seconds: int)

  /** The components of a preset time; a missing minutes or seconds piece is 0,
      and a piece that does not parse as `i32` is an error naming it. */
  function ParseTime(t: string): (r: Result<Hms>)
  {
    var pieces := SplitN(t, 3);
    match ParseI32(pieces[0])
    case None => Failure("cannot read hours from time " + t)
    case Some(h) =>
      match (if |pieces| > 1 then ParseI32(pieces[1]) else Some(0))
      case None => Failure("cannot read minutes from time " + t)
      case Some(m) =>
        match (if |pieces| > 2 then ParseI32(pieces[2]) else Some(0))
        case None => Failure("cannot read seconds from time " + t)
        case Some(s) => Success(Hms(h, m, s))
  }

  const AddOverflow: string := "attempt to add with overflow"

  /** One of the two `i32` additions of the carry leaves the `i32` range. */
  predicate CarryOverflows(c: Hms) {
    var minutes := c.minutes + TDiv(c.seconds, 60);
    !IsI32(minutes) || !IsI32(c.hours + TDiv(minutes, 60))
  }

  function RawSeconds(c: Hms): int {
    c.hours * 3600 + c.minutes * 60 + c.seconds
  }

  /** The carries: seconds into minutes, minutes into hours, then hours modulo
      24 with the day dropped; each unit ends up below its base in magnitude. */
  function Normalize(c: Hms): (n: Hms)
    ensures -60 < n.seconds < 60 && -60 < n.minutes < 60 && -24 < n.hours < 24
    ensures c.hours >= 0 && c.minutes >= 0 && c.seconds >= 0 ==>
      n.hours >= 0 && n.minutes >= 0 && n.seconds >= 0
  {
    var minutes := c.minutes + TDiv(c.seconds, 60);
    var hours := c.hours + TDiv(minutes, 60);
    Hms(TRem(hours, 24), TRem(minutes, 60), TRem(c.seconds, 60))
  }

  /** The whole days the carry into the hours drops. */
  function DroppedDays(c: Hms): int {
    var minutes := c.minutes + TDiv(c.seconds, 60);
    TDiv(c.hours + TDiv(minutes, 60), 24)
  }

  /** The carries change the total only by the dropped days. */
  lemma CarryKeepsTotal(c: Hms)
    ensures RawSeconds(Normalize(c)) == RawSeconds(c) - 86400 * DroppedDays(c)
  {
    var minutes := c.minutes + TDiv(c.seconds, 60);
    var hours := c.hours + TDiv(minutes, 60);
    var n := Normalize(c);
    assert c.seconds == 60 * TDiv(c.seconds, 60) + n.seconds;
    assert minutes == 60 * TDiv(minutes, 60) + n.minutes;
    assert hours == 24 * DroppedDays(c) + n.hours;
  }

  /** The day total stays within one day either side of zero. */
  lemma DayTotalBound(c: Hms)
    ensures -86400 < RawSeconds(Normalize(c)) < 86400
  {
  }

  /** The day total differs from the raw total by whole days. */
  lemma DayTotalWholeDays(c: Hms)
    ensures (RawSeconds(Normalize(c)) - RawSeconds(c)) % 86400 == 0
  {
    CarryKeepsTotal(c);
    WholeDays(RawSeconds(Normalize(c)) - RawSeconds(c), -DroppedDays(c));
  }

  lemma WholeDays(x: int, k: int)
    requires x == 86400 * k
    ensures x % 86400 == 0
  {
    assert x / 86400 == k;
  }

  /** For a non-negative time the day total is the raw total modulo one day. */
  lemma DayTotalRemainder(c: Hms)
    requires c.hours >= 0 && c.minutes >= 0 && c.seconds >= 0
    ensures RawSeconds(Normalize(c)) == RawSeconds(c) % 86400
  {
    CarryKeepsTotal(c);
    var t := RawSeconds(Normalize(c));
    assert 0 <= t < 86400;
    DayRemainder(RawSeconds(c), t, DroppedDays(c));
  }

  lemma DayRemainder(x: int, t: int, k: int)
    requires x == t + 86400 * k && 0 <= t < 86400
    ensures x % 86400 == t
  {
  }

  /** The seconds of the day written into the mission: the carries keep the
      total modulo one day. */
  function DayTotal(c: Hms): (t: int)
    ensures -86400 < t < 86400
    ensures (t - RawSeconds(c)) % 86400 == 0
    ensures c.hours >= 0 && c.minutes >= 0 && c.seconds >= 0 ==> 0 <= t < 86400 && t == RawSeconds(c) % 86400
  {
    DayTotalBound(c);
    DayTotalWholeDays(c);
    if c.hours >= 0 && c.minutes >= 0 && c.seconds >= 0 then
      DayTotalRemainder(c);
      RawSeconds(Normalize(c))
    else
      RawSeconds(Normalize(c))
  }

  /** The patch of the start-time line with the day total of c. */
  function StartTimePatch(mission: string, c: Hms, dryRun: bool): Result<string> {
    Patch(StartTime, mission, Some(IntToString(DayTotal(c))), dryRun)
  }

  /** Lines 16-32 of `src/time.rs`: take the pieces of `splitn(3, ':')` one after
      the other and parse each as `i32`, stopping at the first that fails. */
  method ReadComponents(t: string) returns (r: Result<Hms>)
    ensures r == ParseTime(t)
  {
    var time := SplitN(t, 3);
    var parsed := ParseI32(time[0]);
    if parsed.None? {
      return Failure("cannot read hours from time " + t);
    }
    var hours := parsed.value;
    var minutes := 0;
    if |time| > 1 {
      parsed := ParseI32(time[1]);
      if parsed.None? {
        return Failure("cannot read minutes from time " + t);
      }
      minutes := parsed.value;
    }
    var seconds := 0;
    if |time| > 2 {
      parsed := ParseI32(time[2]);
      if parsed.None? {
        return Failure("cannot read seconds from time " + t);
      }
      seconds := parsed.value;
    }
    r := Success(Hms(hours, minutes, seconds));
  }

  /** Lines 35-39 of `src/time.rs`: the carry statements on the three `i32`
      variables, failing where an addition leaves the `i32` range. */
  method Carry(c: Hms) returns (r: Result<Hms>)
    ensures r == if CarryOverflows(c) then Failure(AddOverflow) else Success(Normalize(c))
  {
    var hours, minutes, seconds := c.hours, c.minutes, c.seconds;
    if !IsI32(minutes + TDiv(seconds, 60)) {
      return Failure(AddOverflow);
    }
    minutes := minutes + TDiv(seconds, 60);
    seconds := TRem(seconds, 60);
    if !IsI32(hours + TDiv(minutes, 60)) {
      return Failure(AddOverflow);
    }
    hours := hours + TDiv(minutes, 60);
    minutes := TRem(minutes, 60);
    hours := TRem(hours, 24);
    r := Success(Hms(hours, minutes, seconds));
  }

  method ModifyTime(mission: string, preset: Preset, dryRun: bool) returns (r: Result<string>)
    ensures ParseTime(preset.time).Failure? ==> r == Failure(ParseTime(preset.time).error)
    ensures ParseTime(preset.time).Success? && CarryOverflows(ParseTime(preset.time).value) ==>
      r == Failure(AddOverflow)
    ensures ParseTime(preset.time).Success? && !CarryOverflows(ParseTime(preset.time).value) ==>
      r == StartTimePatch(mission, ParseTime(preset.time).value, dryRun)
  {
    var time := ReadComponents(preset.time);
    if time.Failure? {
      return Failure(time.error);
    }
    // Carry seconds into minutes and minutes into hours, then wrap the hours.
    var normal := Carry(time.value);
    if normal.Failure? {
      return Failure(normal.error);
    }
    var n := normal.value;
    TimePatchIs(mission, time.value, n, dryRun);
    if !dryRun && FirstMatch(StartTime, mission).None? {
      return Failure(MissingMessage(StartTime));
    }
    // Write the carried time as seconds since midnight.
    r := Success(Replace(StartTime, mission, IntToString(n.hours * 3600 + n.minutes * 60 + n.seconds)));
  }

  /** The start-time patch writes the seconds of the carried time n. */
  lemma TimePatchIs(mission: string, c: Hms, n: Hms, dryRun: bool)
    requires n == Normalize(c)
    ensures StartTimePatch(mission, c, dryRun)
      == if !dryRun && FirstMatch(StartTime, mission).None? then Failure(MissingMessage(StartTime))
         else Success(Replace(StartTime, mission, IntToString(n.hours * 3600 + n.minutes * 60 + n.seconds)))
  {
    assert DayTotal(c) == n.hours * 3600 + n.minutes * 60 + n.seconds;
    PatchSome(StartTime, mission, IntToString(DayTotal(c)), dryRun);
  }

  /** A colon-free first piece is cut off at the first colon. */
  lemma SplitFirst(a: string, rest: string, n: nat)
    requires n >= 2 && ':' !in a
    ensures SplitN(a + ":" + rest, n) == [a] + SplitN(rest, n - 1)
  {
    var t := a + ":" + rest;
    assert Run(t, 0, |a|, NotColon);
    RunEndExact(t, 0, |a|, NotColon);
    assert t[..|a|] == a && t[|a| + 1..] == rest;
  }

  lemma SplitLast(a: string, n: nat)
    requires n >= 1 && ':' !in a
    ensures SplitN(a, n) == [a]
  {
    assert Run(a, 0, |a|, NotColon);
    RunEndExact(a, 0, |a|, NotColon);
  }

  /** A time whose components are already in range is left as it is. */
  lemma NormalizeInRange(c: Hms)
    requires 0 <= c.hours < 24 && 0 <= c.minutes < 60 && 0 <= c.seconds < 60
    ensures Normalize(c) == c
  {
    assert TDiv(c.seconds, 60) == 0;
    assert TDiv(c.minutes, 60) == 0;
    assert TDiv(c.hours, 24) == 0;
  }

  lemma SplitThree(t: string, a: string, b: string, c: string)
    requires t == a + ":" + b + ":" + c && ':' !in a && ':' !in b
    ensures SplitN(t, 3) == [a, b, c]
  {
    assert t == a + ":" + (b + ":" + c);
    SplitFirst(a, b + ":" + c, 3);
    SplitFirst(b, c, 2);
  }

  /** A two-digit piece parses to its value. */
  lemma ParseTwoDigits(s: string)
    requires |s| == 2 && IsDigit(s[0]) && IsDigit(s[1])
    ensures ParseI32(s) == Some((s[0] as int - '0' as int) * 10 + (s[1] as int - '0' as int))
  {
    assert AllIn(s, Digit);
    assert s[..1][..0] == [];
    assert DigitsValue(s[..1]) == s[0] as int - '0' as int;
    assert DigitsValue(s) == DigitsValue(s[..1]) * 10 + (s[1] as int - '0' as int);
  }

  /** A one-digit piece parses to its value. */
  lemma ParseOneDigit(s: string)
    requires |s| == 1 && IsDigit(s[0])
    ensures ParseI32(s) == Some(s[0] as int - '0' as int)
  {
    assert AllIn(s, Digit);
    assert s[..0] == [];
    assert DigitsValue(s) == DigitsValue(s[..0]) * 10 + (s[0] as int - '0' as int);
  }

  /** A piece with a non-digit past its first character does not parse. */
  lemma ParseStopsAtNonDigit(s: string, j: nat)
    requires 1 <= j < |s| && !IsDigit(s[j])
    ensures ParseI32(s).None?
  {
    var digits := if s[0] == '-' || s[0] == '+' then s[1..] else s;
    var k := if s[0] == '-' || s[0] == '+' then j - 1 else j;
    assert digits[k] == s[j] && !Digit.Has(digits[k]);
  }

  /** `"25:75:90"`: 90 s carry one minute, 76 min carry one hour, 26 h wrap to 2,
      and 8190 seconds are written. */
  lemma CarryExample(t: string)
    requires t == "25:75:90"
    ensures ParseTime(t) == Success(Hms(25, 75, 90))
    ensures Normalize(ParseTime(t).value) == Hms(2, 16, 30)
    ensures DayTotal(ParseTime(t).value) == 8190
  {
    assert ParseTime(t) == Success(Hms(25, 75, 90)) by {
      SplitThree(t, "25", "75", "90");
      ParseTwoDigits("25");
      ParseTwoDigits("75");
      ParseTwoDigits("90");
    }
    CarryArithmetic();
  }

  /** The carries of 25:75:90. */
  lemma CarryArithmetic()
    ensures Normalize(Hms(25, 75, 90)) == Hms(2, 16, 30)
    ensures DayTotal(Hms(25, 75, 90)) == 8190
  {
  }

  /** Whole hours of one day carry nothing and are written as that many
      hours of 3600 seconds; with MissingPiecesAreZero, `"7"` is written as
      25200. */
  lemma {:induction false} HoursWithinDay(h: int)
    requires 0 <= h < 24
    ensures Normalize(Hms(h, 0, 0)) == Hms(h, 0, 0)
    ensures DayTotal(Hms(h, 0, 0)) == h * 3600
  {
    NormalizeInRange(Hms(h, 0, 0));
  }

  /** A first piece that is not an `i32` fails on the hours, whatever follows:
      t starts with the piece a, and a colon follows a unless t ends there. */
  lemma HoursFail(t: string, a: string)
    requires a <= t && ':' !in a && (|a| < |t| ==> t[|a|] == ':')
    requires ParseI32(a).None?
    ensures ParseTime(t) == Failure("cannot read hours from time " + t)
  {
    if |a| == |t| {
      assert t == a;
      SplitLast(a, 3);
    } else {
      assert t == a + ":" + t[|a| + 1..];
      SplitFirst(a, t[|a| + 1..], 3);
    }
  }

  /** With good hours and a second piece that is not an `i32`, the parse fails
      on the minutes, whatever follows: t starts with `a:b`, and a colon
      follows b unless t ends there. */
  lemma MinutesFail(t: string, a: string, b: string)
    requires a + ":" + b <= t && ':' !in a && ':' !in b
    requires |a| + 1 + |b| < |t| ==> t[|a| + 1 + |b|] == ':'
    requires ParseI32(a).Some? && ParseI32(b).None?
    ensures ParseTime(t) == Failure("cannot read minutes from time " + t)
  {
    var k := |a| + 1 + |b|;
    if k == |t| {
      assert t == a + ":" + b;
      SplitFirst(a, b, 3);
      SplitLast(b, 2);
    } else {
      assert t == a + ":" + b + ":" + t[k + 1..];
      SplitThree(t, a, b, t[k + 1..]);
    }
  }

  /** `"H:M"` has seconds 0. */
  lemma TwoPieces(t: string, a: string, b: string)
    requires t == a + ":" + b && ':' !in a && ':' !in b
    requires ParseI32(a).Some? && ParseI32(b).Some?
    ensures ParseTime(t) == Success(Hms(ParseI32(a).value, ParseI32(b).value, 0))
  {
    SplitFirst(a, b, 3);
    SplitLast(b, 2);
  }

  /** Three good pieces are the hours, minutes and seconds. */
  lemma ThreePieces(t: string, a: string, b: string, c: string)
    requires t == a + ":" + b + ":" + c && ':' !in a && ':' !in b
    requires ParseI32(a).Some? && ParseI32(b).Some? && ParseI32(c).Some?
    ensures ParseTime(t) == Success(Hms(ParseI32(a).value, ParseI32(b).value, ParseI32(c).value))
  {
    SplitThree(t, a, b, c);
  }

  /** With two good pieces and a bad third, the parse fails on the seconds. */
  lemma SecondsFail(t: string, a: string, b: string, c: string)
    requires t == a + ":" + b + ":" + c && ':' !in a && ':' !in b
    requires ParseI32(a).Some? && ParseI32(b).Some? && ParseI32(c).None?
    ensures ParseTime(t) == Failure("cannot read seconds from time " + t)
  {
    SplitThree(t, a, b, c);
  }

  /** Past the second colon everything goes into the seconds piece, so
      `"1:2:3:4"` fails on its seconds `"3:4"`. */
  lemma ExtraColonExample(t: string)
    requires t == "1:2:3:4"
    ensures ParseTime(t) == Failure("cannot read seconds from time " + t)
  {
    ParseOneDigit("1");
    ParseOneDigit("2");
    ParseStopsAtNonDigit("3:4", 1);
    SecondsFail(t, "1", "2", "3:4");
  }

  /** Minutes and seconds default to zero. */
  lemma {:induction false} MissingPiecesAreZero(t: string)
    requires ':' !in t && ParseI32(t).Some?
    ensures ParseTime(t) == Success(Hms(ParseI32(t).value, 0, 0))
  {
    SplitLast(t, 3);
  }
}
