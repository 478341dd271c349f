/** The anchored patterns the patchers look for in the mission text, one
    hand-written matcher per pattern, and the first-match replacement that all
    the field patchers share.

    A match of an anchor is described by three positions: where it starts, where
    its first capture group (the key that the replacement keeps) ends, and where
    the whole match ends. The replacement writes `s[..keyEnd] + " = " + text + ","
    + s[end..]`, as `format!("{} = {},", &cap[1], value)` does after Rust's
    `Regex::replace` has found the leftmost-first match. */
module Anchors {
  import opened Wrappers
  import opened Text

  /** The three altitude bands of the wind profile. */
  datatype Band = AtGround | At2000m | At8000m {
    /** The band's name in error messages. */
    function Label(): string {
      match this
      case AtGround => "ground"
      case At2000m => "2000m"
      case At8000m => "8000m"
    }
  }

  /** The two wind fields of a band. */
  datatype Attr = Speed | Dir {
    function Label(): string {
      match this
      case Speed => "speed"
      case Dir => "direction"
    }
  }

  datatype Anchor =
    | StartTime    // ^(    \["start_time"\]) = \d+,$   (multi-line)
    | CloudPreset  // (\["preset"\]) = ".+",
    | CloudBase    // (\["base"\]) = [\d\.]+,
    | Temperature  // (\["temperature"\]) = [\d\.]+,
    | Qnh          // (\["qnh"\]) = [\d\.]+,
    | Wind(band: Band, attr: Attr)  // (\s{12}\[<band>\] =.+\s{16}\[<attr>]) = \d+,

  datatype Match = Match(start: nat, keyEnd: nat, end: nat)

  const StartTimeKey: string := "    [\"start_time\"]"
  const PresetKey: string := "[\"preset\"]"

  function NumericKey(a: Anchor): string
    requires a == CloudBase || a == Temperature || a == Qnh
  {
    match a
    case CloudBase => "[\"base\"]"
    case Temperature => "[\"temperature\"]"
    case Qnh => "[\"qnh\"]"
  }

  /** `[<band>] =`, the header the wind anchor starts from. The wind pattern
      is put together with `concat!` from the band's string literal, which
      adds the literal's text without its quotes, so unlike the other anchors
      the band's name is not quoted. */
  function BandHeader(b: Band): string {
    match b
    case AtGround => "[atGround] ="
    case At2000m => "[at2000m] ="
    case At8000m => "[at8000m] ="
  }

  /** `[<attr>]`, the key the wind anchor keeps, unquoted for the same reason. */
  function AttrKey(at: Attr): string {
    match at
    case Speed => "[speed]"
    case Dir => "[dir]"
  }

  /** The message of the error raised when a requested field has no anchor. */
  function MissingMessage(a: Anchor): string {
    match a
    case StartTime => "Could not find start_time key in mission file"
    case CloudPreset => "Could not find cloud preset in mission file"
    case CloudBase => "Could not find cloud base key in mission file"
    case Temperature => "Could not find temperature key in mission file"
    case Qnh => "Could not find QNH key in mission file"
    case Wind(b, at) => "Could not find " + b.Label() + " wind " + at.Label() + " key in mission file"
  }

  // ----- What a match of each anchor looks like -----

  /** s[keyEnd..end] is " = ", then one or more characters of class k, then ",". */
  predicate ValueAfter(s: string, keyEnd: nat, end: nat, k: Class) {
    keyEnd + 5 <= end <= |s| && StartsAt(s, keyEnd, " = ")
    && Run(s, keyEnd + 3, end - 1, k) && s[end - 1] == ','
  }

  /** A line that is exactly four spaces, `["start_time"] = `, digits and a comma. */
  predicate StartTimeShape(s: string, m: Match) {
    LineShape(s, m, StartTimeKey)
  }

  /** A whole line made of the key, " = ", digits and a comma. */
  predicate LineShape(s: string, m: Match, key: string) {
    StartsAt(s, m.start, key) && (m.start == 0 || s[m.start - 1] == '\n')
    && m.keyEnd == m.start + |key| && ValueAfter(s, m.keyEnd, m.end, Digit)
    && (m.end == |s| || s[m.end] == '\n')
  }

  /** `["preset"] = "`, at least one character other than a newline, then `",`. */
  predicate PresetShape(s: string, m: Match) {
    StartsAt(s, m.start, PresetKey) && m.keyEnd == m.start + |PresetKey|
    && StartsAt(s, m.keyEnd, " = \"") && m.keyEnd + 7 <= m.end <= |s|
    && Run(s, m.keyEnd + 4, m.end - 2, NotNewline) && s[m.end - 2] == '"' && s[m.end - 1] == ','
  }

  predicate NumericShape(s: string, m: Match, key: string) {
    StartsAt(s, m.start, key) && m.keyEnd == m.start + |key| && ValueAfter(s, m.keyEnd, m.end, NumChar)
  }

  /** Where the 16 whitespace characters before the key start. */
  function WindGap(m: Match, key: string): int {
    m.keyEnd - |key| - 16
  }

  /** The part of a wind match from the gap q on: 16 whitespace characters, the
      attribute key, " = ", digits and a comma. */
  predicate WindTail(s: string, q: nat, keyEnd: nat, end: nat, key: string) {
    keyEnd == q + 16 + |key| && keyEnd <= |s| && Run(s, q, q + 16, Space)
    && StartsAt(s, q + 16, key) && ValueAfter(s, keyEnd, end, Digit)
  }

  /** 12 whitespace characters and the band header at i. */
  predicate WindHead(s: string, i: nat, header: string) {
    i + 12 <= |s| && Run(s, i, i + 12, Space) && StartsAt(s, i + 12, header)
  }

  /** The band head, at least one character other than a newline, then the
      wind tail of the attribute key. */
  predicate WindShape(s: string, m: Match, header: string, key: string) {
    var p := m.start + 12 + |header|;
    var q := WindGap(m, key);
    WindHead(s, m.start, header) && p < q && m.keyEnd <= |s|
    && Run(s, p, q, NotNewline) && WindTail(s, q, m.keyEnd, m.end, key)
  }

  predicate Shape(a: Anchor, s: string, m: Match) {
    match a
    case StartTime => StartTimeShape(s, m)
    case CloudPreset => PresetShape(s, m)
    case Wind(b, at) => WindShape(s, m, BandHeader(b), AttrKey(at))
    case _ => NumericShape(s, m, NumericKey(a))
  }

  lemma ShapeBounds(a: Anchor, s: string, m: Match)
    requires Shape(a, s, m)
    ensures m.start <= m.keyEnd < m.end <= |s|
  {
  }

  /** Among the matches at one start, the regex engine prefers the one whose
      greedy part is longest: the largest key end, then the largest end. */
  predicate Preferred(m: Match, r: Match) {
    m.keyEnd < r.keyEnd || (m.keyEnd == r.keyEnd && m.end <= r.end)
  }

  // ----- The matchers -----

  function MatchStartTime(s: string, i: nat): (r: Option<Match>)
    requires i <= |s|
    ensures r.Some? ==> r.value.start == i && StartTimeShape(s, r.value)
    ensures forall m {:trigger StartTimeShape(s, m)} :: StartTimeShape(s, m) && m.start == i ==> r == Some(m)
  {
    MatchLine(s, i, StartTimeKey)
  }

  function MatchLine(s: string, i: nat, key: string): (r: Option<Match>)
    requires i <= |s|
    ensures r.Some? ==> r.value.start == i && LineShape(s, r.value, key)
    ensures forall m {:trigger LineShape(s, m, key)} :: LineShape(s, m, key) && m.start == i ==> r == Some(m)
  {
    if !(StartsAt(s, i, key) && (i == 0 || s[i - 1] == '\n')
         && StartsAt(s, i + |key|, " = ")) then None
    else
      var p := i + |key| + 3;
      var q := RunEnd(s, p, Digit);
      if p < q < |s| && s[q] == ',' && (q + 1 == |s| || s[q + 1] == '\n')
      then
        LineFound(s, i, key, q);
        Some(Match(i, i + |key|, q + 1))
      else
        assert forall m {:trigger LineShape(s, m, key)} :: LineShape(s, m, key) && m.start == i ==> false by {
          forall m {:trigger LineShape(s, m, key)} | LineShape(s, m, key) && m.start == i ensures false {
            RunEndExact(s, p, m.end - 1, Digit);
          }
        }
        None
  }

  /** When the digit run after the key ends in a comma at the end of its
      line, that is the only line match at i. */
  lemma LineFound(s: string, i: nat, key: string, q: nat)
    requires StartsAt(s, i, key) && (i == 0 || s[i - 1] == '\n') && StartsAt(s, i + |key|, " = ")
    requires i + |key| + 3 < q < |s| && q == RunEnd(s, i + |key| + 3, Digit)
    requires s[q] == ',' && (q + 1 == |s| || s[q + 1] == '\n')
    ensures LineShape(s, Match(i, i + |key|, q + 1), key)
    ensures forall m {:trigger LineShape(s, m, key)} :: LineShape(s, m, key) && m.start == i ==> m == Match(i, i + |key|, q + 1)
  {
    forall m {:trigger LineShape(s, m, key)} | LineShape(s, m, key) && m.start == i ensures m == Match(i, i + |key|, q + 1) {
      RunEndExact(s, i + |key| + 3, m.end - 1, Digit);
    }
  }

  function MatchNumeric(s: string, i: nat, key: string): (r: Option<Match>)
    requires i <= |s|
    ensures r.Some? ==> r.value.start == i && NumericShape(s, r.value, key)
    ensures forall m {:trigger NumericShape(s, m, key)} :: NumericShape(s, m, key) && m.start == i ==> r == Some(m)
  {
    if !(StartsAt(s, i, key) && StartsAt(s, i + |key|, " = ")) then None
    else
      var p := i + |key| + 3;
      var q := RunEnd(s, p, NumChar);
      if p < q < |s| && s[q] == ',' then Some(Match(i, i + |key|, q + 1))
      else
        assert forall m {:trigger NumericShape(s, m, key)} :: NumericShape(s, m, key) && m.start == i ==> false by {
          forall m {:trigger NumericShape(s, m, key)} | NumericShape(s, m, key) && m.start == i ensures false {
            RunEndExact(s, p, m.end - 1, NumChar);
          }
        }
        None
  }

  /** A double quote followed by a comma at q. */
  predicate QuoteComma(s: string, q: nat) {
    q + 1 < |s| && s[q] == '"' && s[q + 1] == ','
  }

  /** The largest q with lo <= q and q + 2 <= hi where s[q..q + 2] is `",`. */
  function LastQuoteComma(s: string, lo: nat, hi: nat): (r: Option<nat>)
    requires hi <= |s|
    ensures r.Some? ==> lo <= r.value && r.value + 2 <= hi && QuoteComma(s, r.value)
    ensures forall q: nat :: lo <= q && q + 2 <= hi && QuoteComma(s, q) ==> r.Some? && q <= r.value
    decreases hi
  {
    if hi < lo + 2 then None
    else if s[hi - 2] == '"' && s[hi - 1] == ',' then Some(hi - 2)
    else LastQuoteComma(s, lo, hi - 1)
  }

  function MatchPreset(s: string, i: nat): (r: Option<Match>)
    requires i <= |s|
    ensures r.Some? ==> r.value.start == i && PresetShape(s, r.value)
    ensures forall m {:trigger PresetShape(s, m)} :: PresetShape(s, m) && m.start == i ==> r.Some? && Preferred(m, r.value)
  {
    if !(StartsAt(s, i, PresetKey) && StartsAt(s, i + |PresetKey|, " = \"")) then None
    else
      var p := i + |PresetKey| + 4;
      var e := RunEnd(s, p, NotNewline);
      var found := LastQuoteComma(s, p + 1, e);
      PresetLineShape(s, i, p, e);
      PresetLineBest(s, i, p, e);
      match found
      case None => None
      case Some(q) => Some(Match(i, i + |PresetKey|, q + 2))
  }

  /** The preset match the last `",` on the line gives, after the key and
      ` = "` at i. */
  lemma PresetLineShape(s: string, i: nat, p: nat, e: nat)
    requires StartsAt(s, i, PresetKey) && StartsAt(s, i + |PresetKey|, " = \"")
    requires p == i + |PresetKey| + 4 && p <= |s| && e == RunEnd(s, p, NotNewline)
    ensures var found := LastQuoteComma(s, p + 1, e);
      found.Some? ==> PresetShape(s, Match(i, i + |PresetKey|, found.value + 2))
  {
    var found := LastQuoteComma(s, p + 1, e);
    if found.Some? {
      RunEndIsRun(s, p, NotNewline);
      assert Run(s, p, found.value, NotNewline);
    }
  }

  /** Every preset match at i ends at or before the last `",` on the line. */
  lemma PresetLineBest(s: string, i: nat, p: nat, e: nat)
    requires p == i + |PresetKey| + 4 && p <= |s| && e == RunEnd(s, p, NotNewline)
    ensures var found := LastQuoteComma(s, p + 1, e);
      forall m {:trigger PresetShape(s, m)} :: PresetShape(s, m) && m.start == i ==>
        found.Some? && m.end <= found.value + 2
  {
    forall m {:trigger PresetShape(s, m)} | PresetShape(s, m) && m.start == i
      ensures LastQuoteComma(s, p + 1, e).Some? && m.end <= LastQuoteComma(s, p + 1, e).value + 2
    {
      RunEndBeyond(s, p, m.end, NotNewline);
      assert QuoteComma(s, m.end - 2);
    }
  }

  /** The end of the wind tail of the key when its gap starts at q. */
  function MatchWindTail(s: string, q: nat, key: string): (r: Option<nat>)
    requires q <= |s|
    ensures r.Some? ==> WindTail(s, q, q + 16 + |key|, r.value, key)
    ensures forall end: nat {:trigger WindTail(s, q, q + 16 + |key|, end, key)} :: WindTail(s, q, q + 16 + |key|, end, key) ==> r == Some(end)
  {
    var k := q + 16 + |key|;
    if !(q + 16 <= |s| && Run(s, q, q + 16, Space) && StartsAt(s, q + 16, key)
         && StartsAt(s, k, " = ")) then None
    else
      var d := RunEnd(s, k + 3, Digit);
      RunEndIsRun(s, k + 3, Digit);
      if k + 3 < d < |s| && s[d] == ',' then Some(d + 1)
      else None
  }

  /** The wind match at start i whose gap is the largest one in [lo, hi) at
      which the wind tail matches. */
  function LastWind(s: string, i: nat, lo: nat, hi: nat, key: string): Option<Match>
    requires hi <= |s| + 1
    decreases hi
  {
    if hi <= lo then None
    else if hi - 1 <= |s| && MatchWindTail(s, hi - 1, key).Some? then
      Some(Match(i, hi - 1 + 16 + |key|, MatchWindTail(s, hi - 1, key).value))
    else LastWind(s, i, lo, hi - 1, key)
  }

  /** What LastWind finds is a wind tail with its gap in [lo, hi). */
  lemma {:induction false} LastWindFound(s: string, i: nat, lo: nat, hi: nat, key: string)
    requires hi <= |s| + 1
    ensures var r := LastWind(s, i, lo, hi, key);
      r.Some? ==>
        r.value.start == i && lo <= WindGap(r.value, key) < hi
        && WindTail(s, WindGap(r.value, key), r.value.keyEnd, r.value.end, key)
    decreases hi
  {
    if lo < hi && !(hi - 1 <= |s| && MatchWindTail(s, hi - 1, key).Some?) {
      LastWindFound(s, i, lo, hi - 1, key);
    }
  }

  /** Every wind tail with its gap in [lo, hi) loses to the one LastWind finds. */
  lemma {:induction false} LastWindBest(s: string, i: nat, lo: nat, hi: nat, key: string, m: Match)
    requires hi <= |s| + 1
    requires m.start == i && lo <= WindGap(m, key) < hi
    requires WindTail(s, WindGap(m, key), m.keyEnd, m.end, key)
    ensures var r := LastWind(s, i, lo, hi, key);
      r.Some? && Preferred(m, r.value)
    decreases hi
  {
    TailFound(s, WindGap(m, key), m.keyEnd, m.end, key);
    if !(hi - 1 <= |s| && MatchWindTail(s, hi - 1, key).Some?) {
      LastWindBest(s, i, lo, hi - 1, key, m);
    }
  }

  /** The tail matcher finds every wind tail. */
  lemma TailFound(s: string, q: nat, keyEnd: nat, end: nat, key: string)
    requires WindTail(s, q, keyEnd, end, key)
    ensures q <= |s| && MatchWindTail(s, q, key) == Some(end)
  {
  }

  /** Every wind match has its gap on the header's line, after the header. */
  lemma WindCandidate(s: string, m: Match, header: string, key: string)
    requires WindShape(s, m, header, key)
    ensures var p := m.start + 12 + |header|;
      p + 1 <= WindGap(m, key) <= RunEnd(s, p, NotNewline)
  {
    RunEndBeyond(s, m.start + 12 + |header|, WindGap(m, key), NotNewline);
  }

  /** What LastWindBest needs of a wind match: its gap on the header's line,
      from p to q, and its wind tail. */
  lemma TailFromShape(s: string, m: Match, header: string, key: string, p: nat, q: nat)
    requires WindShape(s, m, header, key)
    requires p == m.start + 12 + |header| && p <= |s| && q == RunEnd(s, p, NotNewline)
    ensures p + 1 <= WindGap(m, key) < q + 1 && q + 1 <= |s| + 1
    ensures WindTail(s, WindGap(m, key), m.keyEnd, m.end, key)
  {
    WindCandidate(s, m, header, key);
  }

  /** A wind tail whose gap is on the header's line completes a wind match. */
  lemma WindFromTail(s: string, m: Match, header: string, key: string)
    requires WindHead(s, m.start, header)
    requires m.start + 12 + |header| < WindGap(m, key) <= RunEnd(s, m.start + 12 + |header|, NotNewline)
    requires WindTail(s, WindGap(m, key), m.keyEnd, m.end, key)
    ensures WindShape(s, m, header, key)
  {
    assert Run(s, m.start + 12 + |header|, WindGap(m, key), NotNewline);
  }

  /** What LastWind finds across the header's line (from p, just after the
      header, to q, the end of that line) is a wind match at i. */
  lemma LineWindShape(s: string, i: nat, header: string, key: string, p: nat, q: nat)
    requires WindHead(s, i, header) && p == i + 12 + |header|
    requires p <= |s| && q == RunEnd(s, p, NotNewline)
    ensures var r := LastWind(s, i, p + 1, q + 1, key);
      r.Some? ==> r.value.start == i && WindShape(s, r.value, header, key)
  {
    var r := LastWind(s, i, p + 1, q + 1, key);
    LastWindFound(s, i, p + 1, q + 1, key);
    if r.Some? {
      var m := r.value;
      assert p + 1 <= WindGap(m, key) < q + 1;
      WindFromTail(s, m, header, key);
    }
  }

  /** Every wind match at i loses to the one LastWind finds across the
      header's line. */
  lemma LineWindAllBest(s: string, i: nat, header: string, key: string, p: nat, q: nat)
    requires p == i + 12 + |header| && p <= |s| && q == RunEnd(s, p, NotNewline)
    ensures var r := LastWind(s, i, p + 1, q + 1, key);
      forall m :: WindShape(s, m, header, key) && m.start == i ==> r.Some? && Preferred(m, r.value)
  {
    forall m | WindShape(s, m, header, key) && m.start == i
      ensures LastWind(s, i, p + 1, q + 1, key).Some? && Preferred(m, LastWind(s, i, p + 1, q + 1, key).value)
    {
      TailFromShape(s, m, header, key, p, q);
      LastWindBest(s, i, p + 1, q + 1, key, m);
    }
  }

  function MatchWind(s: string, i: nat, header: string, key: string): (r: Option<Match>)
    requires i <= |s|
    ensures r.Some? ==> r.value.start == i && WindShape(s, r.value, header, key)
    ensures forall m {:trigger WindShape(s, m, header, key)} :: WindShape(s, m, header, key) && m.start == i ==> r.Some? && Preferred(m, r.value)
  {
    if WindHead(s, i, header) then
      var p := i + 12 + |header|;
      var q := RunEnd(s, p, NotNewline);
      LineWindShape(s, i, header, key, p, q);
      LineWindAllBest(s, i, header, key, p, q);
      LastWind(s, i, p + 1, q + 1, key)
    else None
  }

  /** The match of anchor a that the regex engine reports at start i, if any. */
  function MatchAt(a: Anchor, s: string, i: nat): (r: Option<Match>)
    requires i <= |s|
    ensures r.Some? ==> r.value.start == i && Shape(a, s, r.value)
    ensures forall m {:trigger Shape(a, s, m)} :: Shape(a, s, m) && m.start == i ==> r.Some? && Preferred(m, r.value)
  {
    match a
    case StartTime => MatchStartTime(s, i)
    case CloudPreset => MatchPreset(s, i)
    case Wind(b, at) => MatchWind(s, i, BandHeader(b), AttrKey(at))
    case _ => MatchNumeric(s, i, NumericKey(a))
  }

  // ----- Leftmost-first search and replacement -----

  /** The leftmost match of a that starts at or after from. */
  function FindFrom(a: Anchor, s: string, from: nat): (r: Option<Match>)
    requires from <= |s|
    ensures r.Some? ==> from <= r.value.start && Shape(a, s, r.value)
    ensures r.Some? ==> forall m {:trigger Shape(a, s, m)} :: Shape(a, s, m) && m.start == r.value.start ==> Preferred(m, r.value)
    ensures forall m {:trigger Shape(a, s, m)} :: Shape(a, s, m) && from <= m.start ==> r.Some? && r.value.start <= m.start
    decreases |s| - from
  {
    match MatchAt(a, s, from)
    case Some(m) => Some(m)
    case None =>
      if from == |s| then
        assert forall m {:trigger Shape(a, s, m)} :: Shape(a, s, m) && from <= m.start ==> false by {
          forall m {:trigger Shape(a, s, m)} | Shape(a, s, m) && from <= m.start ensures false {
            ShapeBounds(a, s, m);
          }
        }
        None
      else FindFrom(a, s, from + 1)
  }

  /** The match `Regex::replace` rewrites: the leftmost one. */
  function FirstMatch(a: Anchor, s: string): Option<Match> {
    FindFrom(a, s, 0)
  }

  /** Whether anything in s has the anchor's shape (what `is_match` answers). */
  ghost predicate Present(a: Anchor, s: string) {
    exists m :: Shape(a, s, m)
  }

  /** m is the match the regex engine reports: leftmost, then preferred. */
  ghost predicate IsFirst(a: Anchor, s: string, m: Match) {
    Shape(a, s, m)
    && (forall n {:trigger Shape(a, s, n)} :: Shape(a, s, n) ==> m.start <= n.start)
    && (forall n {:trigger Shape(a, s, n)} :: Shape(a, s, n) && n.start == m.start ==> Preferred(n, m))
  }

  lemma FirstMatchSpec(a: Anchor, s: string)
    ensures FirstMatch(a, s).Some? <==> Present(a, s)
    ensures FirstMatch(a, s).Some? ==> IsFirst(a, s, FirstMatch(a, s).value)
  {
  }

  /** The match the regex engine reports is unique. */
  lemma FirstUnique(a: Anchor, s: string, m: Match, n: Match)
    requires IsFirst(a, s, m) && IsFirst(a, s, n)
    ensures m == n
  {
  }

  /** `Regex::replace` with `format!("{} = {},", &cap[1], text)`. */
  function Replace(a: Anchor, s: string, text: string): string {
    match FirstMatch(a, s)
    case None => s
    case Some(m) => s[..m.keyEnd] + " = " + text + "," + s[m.end..]
  }

  /** The replacement rewrites exactly the value of the first match and nothing
      else; with no match the text is unchanged. */
  lemma ReplaceFirst(a: Anchor, s: string, text: string, m: Match)
    requires IsFirst(a, s, m)
    ensures Replace(a, s, text) == s[..m.keyEnd] + " = " + text + "," + s[m.end..]
    ensures Replace(a, s, text)[..m.keyEnd] == s[..m.keyEnd]
  {
    FirstMatchSpec(a, s);
    FirstUnique(a, s, m, FirstMatch(a, s).value);
    ShapeBounds(a, s, m);
    RewrittenPieces(s, m, text);
  }

  lemma ReplaceAbsent(a: Anchor, s: string, text: string)
    requires !Present(a, s)
    ensures Replace(a, s, text) == s
  {
    FirstMatchSpec(a, s);
  }

  /** What Replace does, for every text at once. */
  lemma ReplaceSpec(a: Anchor, s: string, text: string)
    ensures !Present(a, s) ==> Replace(a, s, text) == s
    ensures forall m {:trigger IsFirst(a, s, m)} :: IsFirst(a, s, m) ==> Replace(a, s, text) == s[..m.keyEnd] + " = " + text + "," + s[m.end..]
  {
    if !Present(a, s) {
      ReplaceAbsent(a, s, text);
    }
    forall m {:trigger IsFirst(a, s, m)} | IsFirst(a, s, m)
      ensures Replace(a, s, text) == s[..m.keyEnd] + " = " + text + "," + s[m.end..]
    {
      ReplaceFirst(a, s, text, m);
    }
  }

  /** The contract shared by every field patcher: no value leaves the text alone;
      outside dry run a missing anchor is an error naming the field; otherwise the
      first match's value is rewritten. */
  function Patch(a: Anchor, s: string, value: Option<string>, dryRun: bool): (r: Result<string>)
    ensures value.None? ==> r == Success(s)
    ensures value.Some? && !Present(a, s) ==>
      r == if dryRun then Success(s) else Failure(MissingMessage(a))
    ensures value.Some? && Present(a, s) ==> r == Success(Replace(a, s, value.value))
  {
    match value
    case None => Success(s)
    case Some(text) =>
      FirstMatchSpec(a, s);
      ReplaceSpec(a, s, text);
      if !dryRun && FirstMatch(a, s).None? then Failure(MissingMessage(a))
      else Success(Replace(a, s, text))
  }

  /** With a value and a match, the patch rewrites exactly the value of the
      first match: the text up to its key and after its end stays as it was. */
  lemma PatchFirst(a: Anchor, s: string, text: string, dryRun: bool, m: Match)
    requires IsFirst(a, s, m)
    ensures Patch(a, s, Some(text), dryRun) == Success(s[..m.keyEnd] + " = " + text + "," + s[m.end..])
  {
    ReplaceFirst(a, s, text, m);
  }

  /** Patch with a value is the `is_match` guard followed by Replace. */
  lemma PatchSome(a: Anchor, s: string, text: string, dryRun: bool)
    ensures Patch(a, s, Some(text), dryRun)
      == if !dryRun && FirstMatch(a, s).None? then Failure(MissingMessage(a)) else Success(Replace(a, s, text))
  {
  }

  // ----- What the rewritten text looks like -----

  /** The pieces of a rewritten match: the text up to the key, " = ", the new
      value and a comma. */
  lemma RewrittenPieces(s: string, m: Match, text: string)
    requires m.keyEnd <= m.end <= |s|
    ensures var r := s[..m.keyEnd] + " = " + text + "," + s[m.end..];
      |r| == |s| - (m.end - m.keyEnd) + 4 + |text|
      && r[..m.keyEnd] == s[..m.keyEnd]
      && r[m.keyEnd..m.keyEnd + 3] == " = "
      && r[m.keyEnd + 3..m.keyEnd + 3 + |text|] == text
      && r[m.keyEnd + 3 + |text|] == ','
  {
    var r := s[..m.keyEnd] + " = " + text + "," + s[m.end..];
    assert r[m.keyEnd..m.keyEnd + 3] == " = " by {
      forall j | 0 <= j < 3 ensures r[m.keyEnd + j] == " = "[j] { }
    }
    assert r[m.keyEnd + 3..m.keyEnd + 3 + |text|] == text by {
      forall j | 0 <= j < |text| ensures r[m.keyEnd + 3 + j] == text[j] { }
    }
  }

  /** A numeric field rewritten with digits and dots keeps its shape, at the
      same place, now holding the new value. */
  lemma NumericRewritten(s: string, m: Match, key: string, text: string)
    requires NumericShape(s, m, key) && |text| > 0 && AllIn(text, NumChar)
    ensures NumericShape(s[..m.keyEnd] + " = " + text + "," + s[m.end..],
      Match(m.start, m.keyEnd, m.keyEnd + 4 + |text|), key)
  {
    var r := s[..m.keyEnd] + " = " + text + "," + s[m.end..];
    RewrittenPieces(s, m, text);
    assert r[m.start..m.keyEnd] == s[m.start..m.keyEnd] by {
      assert r[m.start..m.keyEnd] == r[..m.keyEnd][m.start..];
      assert s[m.start..m.keyEnd] == s[..m.keyEnd][m.start..];
    }
    assert Run(r, m.keyEnd + 3, m.keyEnd + 3 + |text|, NumChar) by {
      forall j | m.keyEnd + 3 <= j < m.keyEnd + 3 + |text|
        ensures NumChar.Has(r[j])
      {
        assert r[j] == text[j - m.keyEnd - 3];
      }
    }
  }

  /** A preset rewritten with a quoted text that has no newline keeps its
      shape, at the same place, now holding the new text. */
  lemma PresetRewritten(s: string, m: Match, text: string)
    requires PresetShape(s, m) && |text| >= 3 && text[0] == '"' && text[|text| - 1] == '"'
    requires AllIn(text, NotNewline)
    ensures var r := s[..m.keyEnd] + " = " + text + "," + s[m.end..];
      PresetShape(r, Match(m.start, m.keyEnd, m.keyEnd + 4 + |text|))
      && r[m.keyEnd + 4..m.keyEnd + 2 + |text|] == text[1..|text| - 1]
  {
    var r := s[..m.keyEnd] + " = " + text + "," + s[m.end..];
    RewrittenPieces(s, m, text);
    assert r[m.start..m.keyEnd] == s[m.start..m.keyEnd] by {
      assert r[m.start..m.keyEnd] == r[..m.keyEnd][m.start..];
      assert s[m.start..m.keyEnd] == s[..m.keyEnd][m.start..];
    }
    assert r[m.keyEnd + 3] == text[0];
    assert r[m.keyEnd..m.keyEnd + 4] == " = \"";
    assert Run(r, m.keyEnd + 4, m.keyEnd + 2 + |text|, NotNewline) by {
      forall j | m.keyEnd + 4 <= j < m.keyEnd + 2 + |text|
        ensures NotNewline.Has(r[j])
      {
        assert r[j] == text[j - m.keyEnd - 3];
      }
    }
    assert r[m.keyEnd + 2 + |text|] == text[|text| - 1];
    assert r[m.keyEnd + 4..m.keyEnd + 2 + |text|] == text[1..|text| - 1] by {
      forall j | m.keyEnd + 4 <= j < m.keyEnd + 2 + |text| ensures r[j] == text[j - m.keyEnd - 3] { }
    }
  }

  /** The decimal text of a number put in place of a value reads back as that
      number. */
  lemma IntReadsBack(s: string, m: Match, n: int)
    requires m.keyEnd <= m.end <= |s| && IsI32(n)
    ensures var r := s[..m.keyEnd] + " = " + IntToString(n) + "," + s[m.end..];
      m.keyEnd + 3 + |IntToString(n)| < |r|
      && ParseI32(r[m.keyEnd + 3..m.keyEnd + 3 + |IntToString(n)|]) == Some(n)
  {
    RewrittenPieces(s, m, IntToString(n));
    ParseRendered(n);
  }

  /** The greedy `.+` of the preset anchor runs to the last `",` of its line:
      no `",` lies after the first match on the same line. */
  lemma PresetGreedy(s: string, m: Match, j: nat)
    requires IsFirst(CloudPreset, s, m)
    requires m.end - 2 <= j && j + 1 < |s| && Run(s, m.end - 2, j, NotNewline)
    requires s[j] == '"' && s[j + 1] == ','
    ensures j == m.end - 2
  {
    var n := Match(m.start, m.keyEnd, j + 2);
    assert Run(s, m.keyEnd + 4, j, NotNewline) by {
      forall k | m.keyEnd + 4 <= k < j ensures NotNewline.Has(s[k]) {
        if k < m.end - 2 { assert Run(s, m.keyEnd + 4, m.end - 2, NotNewline); }
      }
    }
    assert Shape(CloudPreset, s, n);
    assert Preferred(n, m);
  }

  // ----- A rewritten numeric field is found again -----

  /** A numeric key starts with its only `[`. */
  lemma NumericKeyBracket(a: Anchor)
    requires a == CloudBase || a == Temperature || a == Qnh
    ensures |NumericKey(a)| > 0 && NumericKey(a)[0] == '['
    ensures forall j :: 0 < j < |NumericKey(a)| ==> NumericKey(a)[j] != '['
  {
  }

  /** A numeric match that starts before a `[` at p ends at or before p. */
  lemma NumericBeforeBracket(s: string, n: Match, key: string, p: nat)
    requires NumericShape(s, n, key) && n.start < p < |s| && s[p] == '['
    requires forall j :: 0 < j < |key| ==> key[j] != '['
    ensures n.end <= p
  {
    forall j | n.start < j < n.end ensures s[j] != '[' {
      if j < n.keyEnd {
        assert s[j] == key[j - n.start];
      } else if j < n.keyEnd + 3 {
        assert s[j] == " = "[j - n.keyEnd];
      }
    }
  }

  /** A numeric match of r inside a prefix that r shares with s is a match of s. */
  lemma NumericInPrefix(s: string, r: string, n: Match, key: string, k: nat)
    requires k <= |s| && k <= |r| && r[..k] == s[..k]
    requires NumericShape(r, n, key) && n.end <= k
    ensures NumericShape(s, n, key)
  {
    assert forall j :: 0 <= j < k ==> r[j] == s[..k][j];
  }

  /** After a numeric field is rewritten with digits and dots, the first match
      of its anchor is the rewritten field: nothing before it has become a match. */
  lemma NumericFirstAgain(a: Anchor, s: string, text: string, m: Match)
    requires a == CloudBase || a == Temperature || a == Qnh
    requires IsFirst(a, s, m) && |text| > 0 && AllIn(text, NumChar)
    ensures FirstMatch(a, Replace(a, s, text)) == Some(Match(m.start, m.keyEnd, m.keyEnd + 4 + |text|))
  {
    var key := NumericKey(a);
    var r := Replace(a, s, text);
    var m' := Match(m.start, m.keyEnd, m.keyEnd + 4 + |text|);
    ReplaceFirst(a, s, text, m);
    NumericRewritten(s, m, key, text);
    assert Shape(a, r, m');
    FirstMatchSpec(a, r);
    var f := FirstMatch(a, r).value;
    NumericKeyBracket(a);
    assert r[m.start] == '[' by {
      assert r[..m.keyEnd][m.start] == s[..m.keyEnd][m.start];
    }
    if f.start < m.start {
      NumericBeforeBracket(r, f, key, m.start);
      NumericInPrefix(s, r, f, key, m.keyEnd);
      assert Shape(a, s, f);
      assert false;
    }
    var u := MatchNumeric(r, m.start, key);
    assert u == Some(m') && u == Some(f);
  }

  /** A numeric patch with a value in digits and dots, where the anchor is
      present, rewrites the first field so that it is found again holding the
      value. */
  lemma NumericPatched(a: Anchor, s: string, text: string, dryRun: bool, m: Match)
    requires a == CloudBase || a == Temperature || a == Qnh
    requires IsFirst(a, s, m) && |text| > 0 && AllIn(text, NumChar)
    ensures Patch(a, s, Some(text), dryRun) == Success(Replace(a, s, text))
    ensures FirstMatch(a, Replace(a, s, text)) == Some(Match(m.start, m.keyEnd, m.keyEnd + 4 + |text|))
    ensures Replace(a, s, text)[m.keyEnd + 3..m.keyEnd + 3 + |text|] == text
  {
    PatchSome(a, s, text, dryRun);
    FirstMatchSpec(a, s);
    ReplaceFirst(a, s, text, m);
    ShapeBounds(a, s, m);
    RewrittenPieces(s, m, text);
    NumericFirstAgain(a, s, text, m);
  }
}
