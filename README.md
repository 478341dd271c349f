# dcs-miz-repacker, modelled in Dafny

The repacker takes a DCS World mission archive (`.miz`) and writes one new archive per
configured preset. It carries out the following steps:

- when the configuration's `remove_required_modules` flag is set, it strips the entries of the mission's `["requiredModules"]` table;
- it rewrites the mission's start time;
- it applies one weather profile drawn from the preset's list, in this order: cloud preset,
  cloud base, the wind of the three altitude bands, temperature and QNH;
- it writes the new archive. The patched `mission` file goes first, then the files of the
  `repack` directory, then the files of the original archive. The first file written under a
  name wins.

Every patch follows the same pattern. A regular expression anchors the field. Outside dry run,
a field that is requested but missing is an error. Otherwise the first match is rewritten as
`<key> = <value>,`.

This project models that core as Dafny functions, methods and lemmas:

- `Wrappers` holds `Option` and a `Result` whose failure carries the error message.
- `Text` holds:
  - the character classes of the regex crate;
  - `i32` parsing and decimal rendering;
  - `{:.2}` rendering and the shortest `Display` form of the values held in hundredths;
  - Rust's truncating `/` and `%`.
- `Anchors` has one hand-written matcher per regular expression. Each matcher gives the
  leftmost-first match that Rust's `Regex::replace` rewrites: greedy parts take the largest
  extent. It also holds the shared `Patch`, which is the `is_match` guard followed by the
  replacement, with the lemmas about what the rewritten text looks like.
- `Config` holds the profile ranges with their `(None, None)` / `(None, max)` / `(min, None)` /
  `(min, max)` rule, and the values the random generator draws.
- `Time` covers `modify_time`:
  - `splitn(3, ':')` and the `i32` parse of each piece;
  - the carries, done with Rust's truncating arithmetic;
  - the seconds of the day written into the start-time line.
- `Clouds`, `Wind` and `WeatherMisc` hold the seven field patchers. `WeatherPipeline` chains
  them as `modify_weather` does, handing the ground and 2000 m wind speeds up to the band above.
  The wind anchors are built with `concat!` from the band's and the field's string literals,
  which splices in their text without the quotes. So they look for `[atGround] =` and
  `[speed]`, unquoted, while the other anchors spell out quoted keys such as `["base"]`.
- `Misc` holds `remove_required_modules` with its own block matcher. The matcher handles the
  header, the whitespace runs (which may span lines), the one or more lines that get dropped,
  and the footer.
- `Repack` holds:
  - `flip_heading` and `splice_filename`;
  - the weather-name check and the wind-flip toggle of `repack_miz`;
  - the `add_file` deduplication. `add_file` runs on a `MizWriter` class whose fields are the
    written entries and the `added_files` set.

The weather profile type in `src/config.rs` (lines 20-31) differs from how its callers use it.
It declares `cloud_preset` as a `String` and has no `is_wind_flipped` field and no wind-draw
helpers. `src/weather/clouds.rs:19-22` treats the preset as optional, and
`src/weather/wind.rs` and `src/main.rs:134-137` call the helpers. The model follows the
callers: the cloud preset is an `Option`, and the wind flag and wind draws are part of the
profile and of the draws.

A negative temperature or QNH is written with its minus sign. The anchor's `[\d\.]+` does not
accept that sign, so the round-trip lemmas re-find the rewritten field only for values that are
not negative.

## Model

| member | source | states |
|---|---|---|
| Config.Range.Select | src/config.rs:34-57 | no value exactly when neither bound is set; the single bound when only one is set; a value within both bounds (the bound itself when they are equal) when both are set |
| Config.Draw | src/config.rs:34-41 | a draw leaves the field unchanged exactly when the range is unset, gives the one bound set, or gives a value of the inclusive range |
| Time.SplitN | src/time.rs:16 | `splitn(n, ':')` gives between one and n pieces, none before the last holds a colon, and the last holds one only when n pieces were made |
| Time.SplitJoin | src/time.rs:16 | joining the pieces with colons gives the time text back |
| Time.ReadComponents | src/time.rs:16-32 | the three reads of the pieces equal `ParseTime`, the parse of hours, minutes and seconds that the piece lemmas below pin down for every shape of input, failing with the message naming the first piece that is not an `i32` |
| Time.MissingPiecesAreZero | src/time.rs:23-32 | a time without colons is all hours, with minutes and seconds 0 |
| Time.HoursWithinDay | src/time.rs:34-48 | whole hours of one day carry nothing and are written as hours × 3600 seconds |
| Time.HoursFail | src/time.rs:16-22 | when the text up to the first colon is not an `i32`, the parse fails with the hours message naming the whole time |
| Time.MinutesFail | src/time.rs:16-27 | with good hours and a second piece that is not an `i32` the parse fails with the minutes message |
| Time.TwoPieces | src/time.rs:16-32 | `h:m` with both pieces `i32` reads as those hours and minutes, with 0 seconds |
| Time.ThreePieces | src/time.rs:16-32 | `h:m:s` with the three pieces `i32` reads as exactly those three numbers |
| Time.SecondsFail | src/time.rs:28-32 | with good hours and minutes and a bad third piece the error names the seconds |
| Time.ExtraColonExample | src/time.rs:16-32 | past the second colon everything goes into the seconds piece, so `"1:2:3:4"` fails on the seconds |
| Time.Carry | src/time.rs:34-39 | the carry statements fail exactly when one of the two `i32` additions overflows, and otherwise give the normalised time |
| Time.Normalize | src/time.rs:35-39 | each unit ends below its base in magnitude, and a non-negative time stays non-negative |
| Time.NormalizeInRange | src/time.rs:35-39 | a time already in range is left unchanged |
| Time.CarryKeepsTotal | src/time.rs:35-39 | the carries change the total number of seconds only by the whole days dropped from the hours |
| Time.DayTotal | src/time.rs:48 | the seconds written lie strictly within one day of zero, differ from the raw total by whole days, and equal the raw total modulo one day for a non-negative time |
| Time.DayTotalRemainder | src/time.rs:35-48 | for a non-negative time the seconds written are the raw total modulo 86400 |
| Time.CarryExample | src/time.rs:16-48 | `"25:75:90"` carries to 2:16:30 and writes 8190 seconds |
| Time.ModifyTime | src/time.rs:6-54 | a parse error or a carry overflow is returned as the error; otherwise the result is the start-time patch with the seconds of the day of the normalised time |
| Time.TimePatchIs | src/time.rs:40-50 | outside dry run a mission without the four-space start-time line is an error; otherwise the first such line gets `h * 3600 + m * 60 + s` of the normalised time |
| Text.ParseI32 | src/time.rs:20 | a parsed value is inside the `i32` range and comes from a non-empty text |
| Text.ParseRendered | src/weather/clouds.rs:43 | every `i32` written in decimal parses back to itself |
| Text.NoDigitsNoParse | src/time.rs:20 | a text without a digit never parses |
| Text.Fixed2 | src/weather/misc.rs:17 | `{:.2}` gives a text with a dot before two final digits, made of digits and that dot when not negative, starting with a minus sign when negative |
| Text.ParseFixed2 | src/weather/misc.rs:17 | a number of hundredths written with `{:.2}` reads back as itself |
| Text.ShortestTrimsFixed2 | src/weather/wind.rs:42 | for every value, the shortest text is the `{:.2}` text without its trailing zeros (a fraction of 00 goes with its dot), so padded back it reads as the same hundredths; it holds a dot exactly when the value is not whole, and a written fraction never ends in 0 |
| Text.ShortestExamples | src/weather/wind.rs:42 | three examples: 5.00 is written `5`, 5.50 `5.5` and -0.25 `-0.25` |
| Text.TRem | src/time.rs:36 | Rust's `%` takes the sign of the dividend and satisfies `a == b * (a / b) + a % b` with truncating `/` |
| Anchors.MatchAt | src/weather/clouds.rs:13 | the match reported at a position has the anchor's shape, and every match of that shape at the position is one the greedy parts prefer less |
| Anchors.MatchStartTime | src/time.rs:9-14 | the start-time line at a position is exactly four spaces, the key, digits and a comma on a line of its own, and is unique |
| Anchors.MatchPreset | src/weather/clouds.rs:13 | the preset match runs to the last `",` of its line, beyond every other preset match at that position |
| Anchors.MatchNumeric | src/weather/clouds.rs:35 | the base, temperature and QNH match at a position is the key, ` = `, digits and dots, and a comma, and is unique |
| Anchors.MatchWind | src/weather/wind.rs:7-21 | the wind match is 12 whitespace characters, the band header (`[atGround] =`, `[at2000m] =` or `[at8000m] =`, unquoted as `concat!` builds it), the rest of the line, 16 whitespace characters, the attribute key (`[speed]` or `[dir]`) and a digit value, with the gap taken as late on the header's line as possible |
| Anchors.FindFrom | src/time.rs:45-46 | the match found is the leftmost one at or after the start position, and the preferred one at its start |
| Anchors.FirstMatchSpec | src/time.rs:40 | a first match exists exactly when the anchor occurs anywhere (`is_match`), and it is the leftmost preferred one |
| Anchors.FirstUnique | src/time.rs:45-46 | the match the regex engine reports is unique |
| Anchors.ReplaceFirst | src/time.rs:45-50 | `Replace`, the model of `Regex::replace` with the `{cap[1]} = {value},` template, keeps everything up to the key, writes ` = value,` and keeps everything after the match |
| Anchors.ReplaceSpec | src/weather/clouds.rs:42-44 | what `Replace` does for every text: without a match the text is unchanged; with one, only the first match's value is rewritten |
| Anchors.Patch | src/weather/clouds.rs:37-47 | no value leaves the text alone; with a value and no match, outside dry run it fails with the field's message and in dry run leaves the text alone; with a value and a match the first match's value is rewritten |
| Anchors.PatchSome | src/weather/misc.rs:11-18 | a patch with a value is the `is_match` guard followed by the replacement |
| Anchors.PresetGreedy | src/weather/clouds.rs:13 | no `",` lies between the end of the first preset match and the end of its line |
| Anchors.NumericRewritten | src/weather/clouds.rs:42-44 | a numeric field rewritten with digits and dots keeps its shape at the same place |
| Anchors.PatchFirst | src/weather/clouds.rs:42-44 | with a value and a first match, the patch keeps the text up to the key, writes ` = value,` and keeps everything after the match |
| Anchors.PresetRewritten | src/weather/clouds.rs:25-27 | a preset field rewritten with a quoted text without newlines is again a preset field at the same place, holding the text between its quotes |
| Anchors.IntReadsBack | src/weather/clouds.rs:43 | the decimal text of an `i32` written in place of a value stands after ` = ` and parses back to the number |
| Anchors.NumericFirstAgain | src/weather/clouds.rs:35-44 | after a base, temperature or QNH value is rewritten with digits and dots, the first match of the anchor is the rewritten field, at the same start |
| Anchors.NumericPatched | src/weather/clouds.rs:37-44 | a numeric patch over a present anchor succeeds, in dry run or not, and the new value stands after ` = ` of the first match, which is found again |
| Clouds.Quoted | src/weather/clouds.rs:26 | the preset value is the name between two double quotes |
| Clouds.ModifyCloudPreset | src/weather/clouds.rs:7-28 | outside dry run a missing anchor fails first; then a profile without a preset fails, in dry run too; in dry run without an anchor the text is left alone; otherwise the first preset value becomes the quoted name |
| Clouds.CloudPresetWritten | src/weather/clouds.rs:25-27 | the written preset is a preset field at the same place holding the configured name, and the text before the key and after the old field is unchanged |
| Clouds.ModifyCloudBase | src/weather/clouds.rs:30-48 | an unset range leaves the text alone; a set range with no anchor fails outside dry run and leaves the text alone in dry run; otherwise the first base value becomes the drawn altitude in decimal |
| Clouds.CloudBaseReadsBack | src/weather/clouds.rs:35-44 | a non-negative altitude drawn is written after ` = ` of the first base field and parses back to itself |
| WeatherMisc.Fixed2Text | src/weather/misc.rs:17 | a value is rendered exactly when one is drawn |
| WeatherMisc.ModifyTemp | src/weather/misc.rs:7-22 | an unset range leaves the text alone; a set range with no anchor fails outside dry run and leaves the text alone in dry run; otherwise the first temperature value becomes the drawn value with two decimals |
| WeatherMisc.ModifyQnh | src/weather/misc.rs:24-38 | the same three cases for the QNH field and its message |
| WeatherMisc.TempReadsBack | src/weather/misc.rs:9-18 | a non-negative temperature is written after ` = ` of the first temperature field and reads back as the value drawn |
| WeatherMisc.QnhReadsBack | src/weather/misc.rs:25-34 | a non-negative QNH is written after ` = ` of the first QNH field and reads back as the value drawn |
| WeatherMisc.TempValueStart | src/weather/misc.rs:9 | in every match of the temperature anchor the character after ` = ` is a digit or a dot |
| WeatherMisc.NegativeTempNotFound | src/weather/misc.rs:9-14 | a mission whose every temperature is written with a minus sign, such as `-5`, has no temperature field, so a requested temperature fails outside dry run |
| Wind.SpeedText | src/weather/wind.rs:42 | a speed is rendered exactly when one is drawn |
| Wind.BandPatch | src/weather/wind.rs:32-63 | no speed: only the heading patch; a speed and no speed field outside dry run: the speed error, before the heading is tried; otherwise the heading patch of the text with the speed written; a dry run never fails; the only errors are the band's two messages |
| Wind.ModifyBand | src/weather/wind.rs:32-63 | the statements reassigning `mission` compute BandPatch, and the speed counts as written exactly when one is drawn and its field is present or the run is dry |
| Wind.ModifyGroundWind | src/weather/wind.rs:23-64 | the ground band's patch, and the caller's speed variable holds the drawn speed once it is written and its old value otherwise |
| Wind.ModifyWind2000m | src/weather/wind.rs:66-108 | the 2000 m band's patch with the speed drawn from the ground speed passed in, and the caller's 2000 m speed variable updated in the same way |
| Wind.ModifyWind8000m | src/weather/wind.rs:110-150 | the 8000 m band's patch with the speed drawn from the 2000 m speed passed in |
| Wind.BandFieldFollowsHeader | src/weather/wind.rs:7-21 | the field a band's patch rewrites follows that band's unquoted `[<band>] =` header after 12 whitespace characters, its kept part ends with the attribute key, and only the value after the key changes |
| Wind.NoHeaderNoWind | src/weather/wind.rs:7-21 | a text without the band's `[<band>] =` header has neither of its wind fields |
| Wind.HeaderlessBand | src/weather/wind.rs:34-54 | without the band's `[<band>] =` header a dry run leaves the text alone, and outside dry run a drawn speed fails on the speed and a drawn heading alone on the heading |
| Wind.QuotedKeysNoWind | src/weather/wind.rs:7-21 | a mission whose every `[` is followed by `"`, as in `["atGround"] =`, has no band header, so a drawn wind fails outside dry run and a dry run leaves it alone |
| WeatherPipeline.CloudStages | src/weather.rs:16-17 | the cloud stages succeed only for a profile with a preset name, in dry run exactly then, and fail only with the cloud messages |
| WeatherPipeline.WindStages | src/weather.rs:18-26 | the wind stages never fail a dry run and fail only with the six wind messages |
| WeatherPipeline.AirStages | src/weather.rs:27-28 | the temperature and QNH stages never fail a dry run and fail only with their two messages |
| WeatherPipeline.WeatherPatch | src/weather.rs:8-30 | the seven stages in order succeed only for a profile with a preset name, and in dry run exactly then; every error is one of the stages' messages |
| WeatherPipeline.ModifyWeather | src/weather.rs:8-30 | the statements with the two mutable speed variables compute WeatherPatch |
| WeatherPipeline.OnlyPresetChanges | src/weather.rs:16-29 | with nothing drawn the application is the cloud preset patch alone |
| WeatherPipeline.HighBandGetsZero | src/weather.rs:19-26 | without a 2000 m speed the 8000 m draw is given 0 whatever the ground speed: its answers for other speeds change nothing |
| WeatherPipeline.LowBandGetsZero | src/weather.rs:14-25 | without a ground speed the 2000 m draw is given 0: its answers for other speeds change nothing |
| WeatherPipeline.LowBandGetsGroundSpeed | src/weather.rs:18-25 | with a ground speed the 2000 m draw is given that speed: its answers for other speeds change nothing |
| Misc.FooterEndShape | src/misc.rs:11 | the end the footer reader finds closes a `\s+}, -- end of ["requiredModules"]\n` line |
| Misc.FooterEndFound | src/misc.rs:11 | a closing line starting at a position has one end, the one the reader finds |
| Misc.OpenEndShape | src/misc.rs:9 | the end the brace reader finds closes a `\s+{\n` run after the header |
| Misc.OpenEndFound | src/misc.rs:9 | a brace run after the header has one end, the one the reader finds |
| Misc.OpenUnique | src/misc.rs:9 | two brace runs after the same header end at the same place |
| Misc.LastClose | src/misc.rs:10 | a close position found lies after the start and inside the text |
| Misc.LastCloseFound | src/misc.rs:10-11 | the close position found ends one or more non-empty lines from the start and starts a closing line |
| Misc.LastCloseBest | src/misc.rs:10-11 | the greedy `(?:.+\n)+` ends no earlier than any line end at which a closing line starts |
| Misc.LinesInside | src/misc.rs:10 | the dropped lines take at least two characters and end inside the text |
| Misc.BlockAtShape | src/misc.rs:7-12 | a block the matcher reports at a position has the pattern's shape there |
| Misc.BlockAtBest | src/misc.rs:7-12 | every block of that shape at the position closes no later than the reported one |
| Misc.FindBlock | src/misc.rs:7-12 | the block found is the leftmost at or after the start, and of those at its start the one closing last |
| Misc.BlockLength | src/misc.rs:7-12 | a block spans at least 62 characters and ends inside the text |
| Misc.FirstBlockUnique | src/misc.rs:29-33 | the block the regex engine reports is unique |
| Misc.FindBlockSpec | src/misc.rs:22 | a block is found exactly when the pattern occurs (`is_match`), and it is the one the engine reports |
| Misc.RemoveRequiredModules | src/misc.rs:14-34 | a mission without the block is returned as it is, in dry run too; otherwise the lines between the brace line and the closing line of the reported block are dropped and everything else is kept |
| Misc.RemovalKeeps | src/misc.rs:29-33 | the result keeps the text up to the end of the brace line, header included, and continues with the closing line and what follows it |
| Misc.DryRunSame | src/misc.rs:22-33 | a dry run gives the same text as a real one |
| Misc.EmptiedText | src/misc.rs:10 | a header, whitespace, `{` and a newline, whitespace, and the closing line, put between any two texts, form an emptied table |
| Misc.TableHeaderOnly | src/misc.rs:10 | no header starts inside an emptied table other than its own |
| Misc.BlocksAfterTable | src/misc.rs:10 | every block the pattern can match closes after the emptied table when no header starts before it |
| Misc.EmptiedBlockStays | src/misc.rs:10 | a table whose entries are already gone does not match, because the pattern needs one line between the brace line and the closing line: with no header before it and no closing line after it, the text is left as it is |
| Misc.EmptiedTableStays | src/misc.rs:10-11 | a table written as header, whitespace, `{` and a newline, whitespace and the closing line, with no header in the text before it and no closing line in the text after it, is not matched and the mission is left unchanged |
| Repack.FlipHeading | src/main.rs:31-33 | the flip lies strictly within one turn of zero, is a heading of the compass for `heading + 180 >= 0`, keeps the sign of `heading + 180`, and differs from it by whole turns |
| Repack.FlipOpposite | src/main.rs:31-33 | a heading of the compass turns to the opposite heading of the compass |
| Repack.FlipTwice | src/main.rs:31-33 | flipping a heading of the compass twice gives it back |
| Repack.FlipExamples | src/main.rs:31-33 | 90 flips to 270, 350 to 170 and 180 to 0 |
| Repack.FlipNegative | src/main.rs:32 | the truncating `%` flips -200 to -20, not to 340 |
| Repack.LastDot | src/main.rs:40 | the dot found is the last one among the positions searched |
| Repack.LastDotGreedy | src/main.rs:40 | the last dot before the final character is the split the greedy `^(.+)\.(.+)$` takes, and the only one |
| Repack.SpliceFilename | src/main.rs:35-50 | a dry run gives the path; otherwise the name has an extension exactly when some dot has text on both sides on a one-line path, a path without one fails with "File extension missing", and `_suffix` goes in before the dot the greedy pattern splits at |
| Repack.SpliceRoundTrip | src/main.rs:40-46 | the new name holds `_suffix` at the split, and cutting it out gives the path back |
| Repack.SpliceExamples | src/main.rs:40-49 | `a.b.miz` becomes `a.b_x.miz`; `.miz` and `file.` fail; `a.b.` splits at its first dot and becomes `a_x.b.` |
| Repack.FirstMissing | src/main.rs:122-126 | no name is found exactly when every listed name is a profile; otherwise the index found is of a missing name and every name before it is a profile |
| Repack.CheckWeatherNames | src/main.rs:122-126 | the loop over the names succeeds when every name is a profile and otherwise fails with "Weather preset not found: " and the first missing name |
| Repack.Toggled | src/main.rs:134-137 | only the wind flag changes, and it differs from the drawn flag exactly when the preset's `flip_wind` is set |
| Repack.Profiles.PresetWeather | src/main.rs:121-140 | no weather list leaves the mission and the profiles alone; a missing name fails before the choice, and a failed choice fails, both changing nothing; otherwise the chosen profile's wind flag is toggled in place and that profile is applied to the mission |
| Repack.Normalized | src/main.rs:58 | every backslash becomes a slash and every other character stays |
| Repack.NormalizedStable | src/main.rs:58 | a normalised name has no backslash and normalises to itself |
| Repack.Dedup | src/main.rs:58-63 | no entry is written under a name already written |
| Repack.DedupDistinct | src/main.rs:59-61 | no name is written twice |
| Repack.DedupCovers | src/main.rs:59-61 | every normalised name not written before gets written |
| Repack.DedupAppend | src/main.rs:149-163 | writing two lists of files is writing the first and then the second with the first's names already taken |
| Repack.MizWriter.AddFile | src/main.rs:52-65 | a file is appended under its normalised name and the name recorded, unless the name was written before, in which case nothing changes |
| Repack.AddFiles | src/main.rs:160-164 | the calls of `add_file` in order append what Dedup gives for the names already written |
| Repack.WriteOrder | src/main.rs:148-163 | the mission, the repack files and the archive files written in that order give the mission, then the new repack names, then the archive names not yet written |
| Repack.WriteMiz | src/main.rs:142-166 | the archive written is Dedup of the patched mission, the repack files and the archive's files, in that order |
| Repack.FirstShadows | src/main.rs:148-163 | the patched mission is written first, and no later file named `mission` is written |

## Left out

- Archive and file input/output is not modelled: opening and reading the `.miz` (src/main.rs:99-108), creating the zip, compression options, `io::copy` and `zip.finish`. The model keeps only the order and deduplication of the entries written. Zip errors and `File::create` errors are not modelled.
- `add_repack_files` (src/main.rs:67-91) walks the file system; the model takes its files as a list of entries, without its `strip_prefix` and non-UTF-8 path errors.
- The command line, the pause on exit, the recent-file record (src/main.rs:171-175) and reading the TOML configuration (src/config.rs:60-64) are I/O and are not modelled.
- The preset loop of `repack_miz` (src/main.rs:114-169) is not modelled as one operation. Its steps are modelled one by one: `SpliceFilename`, `ModifyTime`, `PresetWeather`, `ModifyWeather` and `WriteMiz`.
- Randomness: `gen_range` values, the `choose_weighted` choice and its error, and the `randomize_wind_flip` draw are inputs. No weight distribution is modelled.
- The wind-draw helpers (`random_wind_speed_ground` and the rest) and `randomize_wind_flip` are not part of the configuration source. Their results are inputs, so the model does not say how the wind flag changes the headings drawn.
- Floating point: temperatures, QNH and wind speeds are held as whole numbers of hundredths. Rounding of values with more digits is not modelled, nor `-0.0`, nor the general `Display` of an `f64`.
- `\d` is read as ASCII digits; the regex crate's Unicode digits are not modelled. Only the anchors the core uses are matched, by hand, rather than a general regex engine.
- The `println!` progress output is not modelled.
- The `else` branch at src/time.rs:51-53 is not modelled, because `if true` never takes it. Neither is the `Time is empty` error at src/time.rs:21, because `splitn` always gives a first piece.
- The `remove_required_modules` flag of the configuration (src/main.rs:110-112) is not modelled: `RemoveRequiredModules` is the step the flag turns on, and the model does not say when it runs.
- The `INDENT` constant at src/misc.rs:5 is not modelled, because nothing uses it.
- Time.Carry: an `i32` overflow in the carries is modelled as a failure with the text of a debug build's panic. A release build's wrap-around is not modelled.
- Repack.FlipHeading: requires that `heading + 180` does not overflow `i32`, which the source leaves to a panic or a wrap-around.
- Misc.RemoveRequiredModules: returns the text itself, because the `Result` of the source never fails.
- Repack.WriteMiz: takes the mission's bytes as input, because the UTF-8 decoding of `read_to_string` and the encoding of `as_bytes` are not modelled.
- Wind.BandPatch: a speed with hundredths is written as a fraction such as `5.5`, which the band's `\d+,` anchor does not match, so the written speed is not re-found; the model proves no read-back for the wind fields.
- Repack.Profiles.PresetWeather: the weighted choice is an input (its index, or the error `choose_weighted` returns), and so is the flag `randomize_wind_flip` draws.
- Repack.FlipHeading: nothing in the modelled files calls `flip_heading`, so the model does not connect it to the wind headings.
- Repack.MizWriter.AddFile: the zip entry and the copy of the data are the append to `entries`; compression and write errors are not modelled.
