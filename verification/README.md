# Abora: verified models

Abora is a small server operating system with an update daemon (`aborad`), a root helper that installs packages
(`abora-apply`), and a boot screen (`abora-boot`). This project states in Dafny what the hardest parts of it do, and
proves what their documentation and callers rely on.

- **The update protocol.** `ApplyRules`, `UpdatesState`, `Helper` and `Store` model the daemon's object, the root
  helper's decision code, the two files between them, and the store with its atomic rename. `Protocol` puts them
  together as a state machine over single steps: the helper may crash between any two of its steps, saves may fail or
  be cut short, and either process may be restarted at any time. `Justified`, `RecordedOnce` and `Reported` prove what
  holds over every run; `DaemonSteps` proves that the daemon's methods take the protocol's steps, and `Protocol` that the helper's
  uninterrupted steps are the helper's program.
- **Time.** `Calendar` and `Timestamp`: the era / day-of-era algorithm against a calendar that steps day by day, and
  timestamps that sort as text (sections 5.1 and 5.6 of RFC 3339).
- **The logo.** `PngRows` and `LogoScript`: in-place unfiltering (sections 9.2 to 9.4 of the PNG specification) and the
  raw format; `Logo`: loading and fixed-point sampling; `Canvas` and `Screen`: the framebuffer, text, and the boot log.
- **Polling loops.** `Reload`: the file watcher, with files that change at any moment. `Scheduler`: checks and
  automatic applies. `Schedule`: clock times, durations, windows and permissions.
- **Texts.** `AptSimulation` and `Version`: parsers against printers. `Text`, `NameSets`, `Products`, `Prelude` and
  `UpdateTypes` are shared vocabulary.

`dafny verify dfyconfig.toml` checks the whole project.

## Where the code does not do what its text says

For each, a proof gives the exact condition under which the code does what it says, and another a case in which it does
not.

- `boot/abora-boot/src/logo.rs:59` weights the lower pair of pixels by the vertical fraction where bilinear filtering
  (the word of its comment) would use the horizontal one: `Logo.WhenMixIsBilinear`, `Logo.LowerRowLeaks`,
  `Logo.LowerRowIsDrawn`.
- `boot/abora-boot/src/logo.rs:21` computes the expected size with 64-bit wrap-around, so a 12-byte file may claim
  2^31 by 2^31 pixels: `Logo.LoadedLogoIsConsistent`, `Logo.WrappedHeaderIsAccepted`.
- `crates/abora-config/src/lib.rs:500-503` multiplies without a check, so a long duration wraps around, even to zero:
  `Schedule.DurationMeansWhatItSays`, `Schedule.HugeIntervalWrapsToZero`. With an interval of zero, automatic applies
  have no bound: `Scheduler.AppliesAreBounded`, `Scheduler.NoBoundWithoutInterval`.
- A prerelease that contains `+` does not survive printing and parsing: `Version.VersionRoundTrip`,
  `Version.PlusMovesToBuild`.
- Boot log text stays left of the logo only while the text area is at least 64 pixels wide:
  `Screen.TextStaysLeftOfLogo`, `Screen.NarrowTextReachesLogo`.
- The watcher loses an edit when the load fails although the file's fingerprint was taken, or when the edit falls between
  startup and seeding, until a file is edited again (`services/aborad/src/main.rs:431-432` says that a failure settles
  back naturally): `Reload.StepKeepsConfig`, `Reload.FailedReadLosesEdit`, `Reload.EditsCanBeLost`,
  `Reload.LostUntilNextEdit`.
- An edit of the token file is lost while the configuration does not load, and when reading the token file fails:
  `Reload.TokenEditNeedsLoads`, which also gives the cases.
- A request for more than 2000 packages is written by the daemon and refused by the helper:
  `UpdatesState.RequestPassesValidation`, `UpdatesState.TooManyAreRefused`.
- A result whose id is "invalid" is recorded only if none is among the last 500 recorded, so later refusals of that
  kind leave no entry (`services/aborad/src/state.rs:312` says once per request id): `RecordedOnce.IngestIsExact`,
  `RecordedOnce.LaterRefusalsLeaveNoEntry`.
- `scripts/logo-to-raw.py:43-58` accepts a last row that lacks no more bytes than a pixel has, when its filter type is 0.
  With three or four channels the script then writes a file that does not load; with one or two it fails with an
  IndexError and writes nothing: `PngRows.Unfilter`, `PngRows.CutStreamExists`, `LogoScript.Convert`,
  `LogoScript.CutStreamIsWritten`.

`services/aborad/src/scheduler.rs:8-10` says that installing is not implemented; the loop below it does ask for automatic
applies, exactly as `Scheduler.AppliesArePermitted` says.

## Model

| member | source | states |
|---|---|---|
| Calendar.CivilIsReferenceCalendar | crates/abora-log/src/lib.rs:481-493 | For every day number, before or after the epoch, the algorithm gives the date that a calendar stepping one day at a time reaches |
| Calendar.CivilIsBijection | crates/abora-log/src/lib.rs:481-493 | Day numbers and valid Gregorian dates correspond one to one; counting whole years and months is the inverse |
| Calendar.CivilIsMonotone | crates/abora-log/src/lib.rs:481-493 | A day is earlier exactly when its date is earlier |
| Calendar.IntermediatesStayInRange | crates/abora-log/src/lib.rs:481-493 | No signed step overflows, no unsigned subtraction goes below zero, and casts to 32 bits lose nothing |
| Timestamp.TimestampsSortAsInstants | crates/abora-log/src/lib.rs:470-479 | Up to the end of year 9999 timestamps compare as strings as the instants do, and no two milliseconds print alike |
| Timestamp.TimestampLength | crates/abora-log/src/lib.rs:470-479 | For every duration: a timestamp has 24 characters if and only if its day lies in the years -999 to 9999; while the cast to `i64` keeps the seconds, if and only if it is before year 10000 |
| Timestamp.TimestampFields | crates/abora-log/src/lib.rs:470-479 | Up to the end of year 9999 a timestamp shows the date of its day, and its hour, minute, second and millisecond, each in its place with leading zeros |
| Timestamp.FieldsDenote | crates/abora-log/src/lib.rs:470-479 | The digits of each field denote its number |
| Timestamp.OrderEndsWithYear9999 | crates/abora-log/src/lib.rs:470-479 | The first instant of year 10000 sorts before the last of 9999, so the range of the ordering is exact |
| Text.ParseU64Exact | crates/abora-core/src/lib.rs:75-84 | Overflow-checked decimal parsing gives the number the digits denote if it fits in 64 bits, and fails otherwise |
| Text.DecimalDenotes | crates/abora-core/src/lib.rs:105-108 | Printed decimal digits denote the number printed |
| Text.TrimKeepsMiddle | crates/abora-config/src/lib.rs:482-484 | Trimming removes white space on both sides and keeps everything in between |
| Text.AsciiWhitespace | crates/abora-config/src/lib.rs:482-484 | Which ASCII characters are white space |
| Text.LineEndings | crates/abora-update/src/host.rs:147-149 | Both kinds of line ending end a line and are not part of it |
| Version.Parse | crates/abora-core/src/lib.rs:59-92 | The splitting and the loop over three numbers compute the specified version or the specified first error |
| Version.VersionRoundTrip | crates/abora-core/src/lib.rs:59-116 | Parsing a printed version gives it back if and only if its prerelease contains no `+`, whatever the build metadata |
| Version.PlusMovesToBuild | crates/abora-core/src/lib.rs:59-116 | A concrete version with `+` in its prerelease, and what it is read as |
| Version.DisplayRestoresInput | crates/abora-core/src/lib.rs:59-116 | Printing a parsed version gives the input back if and only if no number had a leading zero |
| PngRows.UnfilterLine | scripts/logo-to-raw.py:43-58 | The loop turns a line in place into the row whose filtering it was, for every filter type, with zero borders and the Paeth tie order; and exactly when it fails |
| PngRows.PaethIsNearest | scripts/logo-to-raw.py:43-58 | The Paeth prediction is the left, upper or upper left byte nearest to left + up - upper left, ties in that order |
| PngRows.FilterTypes | scripts/logo-to-raw.py:43-58 | What each of the five filter types predicts |
| PngRows.Unfilter | scripts/logo-to-raw.py:38-60 | The rows returned are those whose filtering the data stream starts with; a stream is accepted if and only if it is whole or its last row, of filter type 0, lacks at most one pixel |
| PngRows.CutStreamExists | scripts/logo-to-raw.py:40-60 | A concrete stream that is accepted although it is cut short |
| PngRows.EncodeRowsInjective | scripts/logo-to-raw.py:38-60 | A data stream is the filtering of one image only, so what is recovered is the original |
| LogoScript.Convert | scripts/logo-to-raw.py:36-81 | For every image and every choice of filters the file written holds exactly that image; a file is written if and only if the stream is whole, or cut short with three or four channels; it loads if and only if the stream was whole |
| LogoScript.CutStreamIsWritten | scripts/logo-to-raw.py:61-81 | For a concrete stream that is cut short, what is written, and that it does not load |
| LogoScript.ExpandChannels | scripts/logo-to-raw.py:61-73 | Grey, grey with alpha, colour and colour with alpha expand to four bytes a pixel, row by row |
| LogoScript.WrittenImageLoads | scripts/logo-to-raw.py:80-81 | A written, nonempty image is accepted by the boot program with the same size and bytes |
| LogoScript.WrittenPixelsSurvive | boot/abora-boot/src/logo.rs:14-69 | Every pixel of the image is the loaded logo's pixel, and drawing at native size reproduces the visible ones |
| Logo.LoadedLogoIsConsistent | boot/abora-boot/src/logo.rs:14-29 | A loaded logo has the pixels its header promises if and only if the size computation did not wrap |
| Logo.LoadsExactly | boot/abora-boot/src/logo.rs:14-29 | Exactly which files load: the magic bytes, two nonzero little-endian sizes, and a length that matches them modulo 2^64; and what is loaded |
| Logo.WrappedHeaderIsAccepted | boot/abora-boot/src/logo.rs:14-29 | A concrete file with a wrapped size is accepted |
| Logo.Sample | boot/abora-boot/src/logo.rs:44-69 | The channel loop computes the specified sample |
| Logo.EdgeIsRepeated | boot/abora-boot/src/logo.rs:31-41 | Beyond the last column or row the last one is repeated |
| Logo.SourcePositionIsCentre | boot/abora-boot/src/logo.rs:44-49 | The source position is the exact position of the pixel centre in units of 1/256 rounded down, or zero before the first centre |
| Logo.SampleIsFloor | boot/abora-boot/src/logo.rs:56-68 | A colour is the weighted colour times alpha divided by alpha, each rounded down and cut at 255 |
| Logo.SampleBounds | boot/abora-boot/src/logo.rs:44-69 | Alpha is the floor of the weighted mean; a colour is at least the smallest m and at most M + (M - 1) / alpha over the visible neighbours that count, and zero where they all are |
| Logo.BoundIsReached | boot/abora-boot/src/logo.rs:44-69 | The allowance (M - 1) / alpha is reached by a concrete logo, so the bound is exact |
| Logo.OpaqueSamplesInterpolate | boot/abora-boot/src/logo.rs:44-69 | Where all neighbours that count are opaque, the sample is opaque and its colours lie within theirs |
| Logo.NativeSizeIsIdentity | boot/abora-boot/src/logo.rs:44-69 | At its own size a logo is reproduced, invisible pixels becoming zero |
| Logo.WhenMixIsBilinear | boot/abora-boot/src/logo.rs:52-61 | The mixture is bilinear if and only if the vertical fraction is zero, the fractions agree, or the lower pair is uniform; and by how much it is off |
| Logo.LowerRowLeaks | boot/abora-boot/src/logo.rs:52-61 | A concrete logo where it shows |
| Logo.LowerRowIsDrawn | boot/abora-boot/src/logo.rs:44-61 | Where that happens: a pixel of a box twice as high as the logo |
| Logo.SamplingFits | boot/abora-boot/src/logo.rs:44-69 | In boxes of up to 2^22 pixels a side both source positions and the mixture fit in 64 and 32 bits |
| Canvas.BlendBounds | boot/abora-boot/src/canvas.rs:110-132 | The blending formula lies between its two inputs, so nothing is truncated |
| Canvas.BlendIsMix | boot/abora-boot/src/canvas.rs:122-124 | A blended channel is the sample in the proportion alpha and the background in the proportion 255 - alpha, rounded down; full alpha gives the sample and zero the background |
| Canvas.OverMixesChannels | boot/abora-boot/src/canvas.rs:110-132 | Red is mixed with red, green with green, blue with blue; an opaque sample replaces the pixel, an invisible one leaves it |
| Canvas.BitsMakeByte | boot/abora-boot/src/canvas.rs:97-104 | The leftmost pixel of a glyph row is its highest bit: the bits, read as a number, give the row |
| Canvas.Canvas.Open | boot/abora-boot/src/canvas.rs:26-57 | Exactly which geometries are accepted, and that they make pixel addresses sound |
| Canvas.Canvas.Put | boot/abora-boot/src/canvas.rs:67-75 | One pixel on the canvas becomes the colour; every other byte, padding included, stays; off the canvas nothing happens |
| Canvas.Canvas.FillRect | boot/abora-boot/src/canvas.rs:82-88 | Every byte afterwards: the colour inside the clipped rectangle, unchanged elsewhere; also for sizes that are wrapped differences |
| Canvas.EndIsWrapped | boot/abora-boot/src/canvas.rs:82-84 | A wrapped difference of 64 bits as width or height ends where adding machine words says |
| Canvas.Canvas.Text | boot/abora-boot/src/canvas.rs:90-107 | Every byte afterwards: the colour exactly on the ink of the glyphs that fit, unchanged elsewhere |
| Canvas.Canvas.BlitScaled | boot/abora-boot/src/canvas.rs:110-132 | Every pixel afterwards: the sample over the old pixel inside the clipped box, so the sample itself where it is opaque; unchanged elsewhere, padding included |
| Canvas.Canvas.FlushRows | boot/abora-boot/src/canvas.rs:139-151 | The device shows the canvas in the given rows and is unchanged in all others |
| Screen.Screen.constructor | boot/abora-boot/src/main.rs:141-161 | For every canvas: geometry, and the whole first picture, background with the logo over it at its place |
| Screen.LogoSizeMeans | boot/abora-boot/src/main.rs:144-150 | The logo is a third of the height, at least 96 and at most 320, but never more than a third of the width |
| Screen.TextAreaMeans | boot/abora-boot/src/main.rs:144-160 | Text area, logo and margins of 16 pixels make up the width, with and without a logo |
| Screen.ColumnsFill | boot/abora-boot/src/main.rs:163-164 | There are as many columns as fit in the text area, and at least eight |
| Screen.WrapKeepsText | boot/abora-boot/src/main.rs:163-180 | Joining wrapped lines without the indentation of continuations gives the text back, tabs turned into spaces |
| Screen.WrapFillsLines | boot/abora-boot/src/main.rs:172-176 | Every line of a wrapped text but its last holds exactly as many characters of the text as there are columns |
| Screen.Screen.Push | boot/abora-boot/src/main.rs:163-180 | The queue becomes the last 500 lines of the old ones and the wrapped text, none longer than a continuation may be |
| Screen.QueueIsLastLines | boot/abora-boot/src/main.rs:163-180 | Over any sequence of pushes the queue is the last 500 lines of all wrapped texts |
| Screen.Screen.Draw | boot/abora-boot/src/main.rs:183-195 | For every canvas: every byte afterwards, of the canvas and of the device. Where the margins fit, all changes lie in the flushed rows, so the device still shows the canvas, and left of the logo if the text area is at least 64 pixels wide |
| Screen.TextStaysLeftOfLogo | boot/abora-boot/src/main.rs:141-195 | No ink of a continuation line reaches the logo if the text area is at least 64 pixels wide |
| Screen.NarrowTextReachesLogo | boot/abora-boot/src/main.rs:141-195 | In any narrower text area it does, for glyphs that use their last column |
| Store.Disk.Save | crates/abora-update/src/store.rs:204-238 | The file changes if and only if the rename is reached, to exactly the new data; a reported failure leaves no temporary file once the directory exists |
| Store.UpdateStore.Open | crates/abora-update/src/store.rs:105-139 | Exactly when opening fails; what is loaded; damaged files are moved aside and newer ones left alone |
| Store.DefaultIsEmpty | crates/abora-update/src/store.rs:105-139 | A store that starts empty, or anew after damage, knows of no check, no pending reboot and no update |
| Store.UpdateStore.Change | crates/abora-update/src/store.rs:184-202 | Memory is what reopening the file would load; a failed change alters neither; a crash leaves the old or the new state |
| Store.UpdateStore.RecordUpdate | crates/abora-update/src/store.rs:174-177 | The entry is appended and history cut to the newest 500, or nothing changes |
| Store.UpdateStore.History | crates/abora-update/src/store.rs:153-157 | History is presented newest first |
| Store.StoreRefinesLog | crates/abora-update/src/store.rs:105-238 | Over every sequence of changes, failures, crashes and restarts the store is the log of committed edits, its history cut to 500, in memory and on disk |
| Store.HistoryIsLastEntries | crates/abora-update/src/store.rs:184-202 | History is the last 500 of the initial entries and the committed ones |
| AptSimulation.ParseInstLine | crates/abora-update/src/host.rs:151-177 | Every name read from apt's output is a valid package name |
| AptSimulation.NamesGrow | crates/abora-update/src/host.rs:131-138 | Which names are valid: which characters begin one, and which may go on it, up to 200 |
| AptSimulation.InstRoundTrip | crates/abora-update/src/host.rs:151-177 | A printed `Inst` line gives its upgrade back, whatever follows the closing parenthesis |
| AptSimulation.ParsedIsPrintable | crates/abora-update/src/host.rs:151-177 | Everything ever read is printable, so the conditions of the round trip are exact |
| AptSimulation.SimulationRoundTrip | crates/abora-update/src/host.rs:147-177 | A printed simulation with other lines in between gives exactly its upgrades back, in order |
| ApplyRules.ValidateRequest | crates/abora-update/src/apply.rs:57-80 | A request is accepted if and only if its id, its number of packages and every name are valid |
| ApplyRules.IdsGrow | crates/abora-update/src/apply.rs:57-60 | Ids of 8 characters are valid if all their characters are, and grow by valid characters up to 64 |
| ApplyRules.IdChars | crates/abora-update/src/apply.rs:57-60 | Those characters are the ASCII letters, digits and the dash |
| ApplyRules.ReadRegular | crates/abora-update/src/apply.rs:135-162 | A file is read if and only if it is regular, small, readable and, where asked, no older than allowed |
| ApplyRules.InstallNamesExactly | crates/abora-update/src/apply.rs:85-102 | The command line determines the packages, all after `--`, none of which can be taken for an option |
| NameSets.SortDedupSorts | services/aborad/src/state.rs:262-263 | Sorting and removing duplicates gives a strictly sorted list with the same names |
| NameSets.SortedListIsUnique | services/aborad/src/state.rs:262-263 | No other list is strictly sorted and has those names |
| NameSets.SelectAppends | services/abora-apply/src/main.rs:111-119 | Names are taken over or left out one by one, each where it stands |
| NameSets.SelectOne | services/abora-apply/src/main.rs:111-119 | A name goes to the one list or the other by whether apt listed it |
| UpdatesState.UpdatesState.Refresh | services/aborad/src/state.rs:175-180 | The available list is replaced, by what apt listed, if and only if apt answered and the check was recorded |
| UpdatesState.UpdatesState.RequestApply | services/aborad/src/state.rs:249-310 | The answer, and the request file: written for a permitted real call, untouched otherwise |
| UpdatesState.UpdatesState.IngestApplyResult | services/aborad/src/state.rs:314-362 | A readable result is recorded if and only if no entry mentions its id and the save succeeds; the newest entry then tells its time, success, channel, number of packages, note and reboot; only after a success are its packages removed from the list |
| UpdatesState.EntryDescribes | services/aborad/src/state.rs:332-354 | Field by field what is recorded of a result, failures as failures |
| UpdatesState.RemainingAppends | services/aborad/src/state.rs:355-361 | What stays listed keeps its order, every copy of it |
| UpdatesState.UpdatesState.RebootRequired | crates/abora-update/src/host.rs:306-334 | What is stored about a pending reboot, only when the marker is new or has gone, and what is answered |
| UpdatesState.NewsMatchMarker | crates/abora-update/src/host.rs:306-334 | Something is stored if and only if record and marker disagree; then the record says what the marker does, since when, and why |
| UpdatesState.ReasonNamesPackages | crates/abora-update/src/host.rs:319-329 | The reason names the listed packages, or says that none are listed |
| UpdatesState.DryRunAgrees | services/aborad/src/state.rs:249-310 | A dry run permits exactly when the real call is not refused with a conflict, for the same packages, with the same reason otherwise |
| UpdatesState.WritesExactlyWhenAllowed | services/aborad/src/state.rs:249-310 | A request is written if and only if none waits, something is available, an apply is permitted and the write succeeds; otherwise the first of these that fails is answered |
| UpdatesState.RequestPassesValidation | services/aborad/src/state.rs:249-310 | A request the daemon makes passes the helper's validation if and only if it names at most 2000 packages |
| UpdatesState.TooManyAreRefused | services/aborad/src/state.rs:249-310 | With 2001 concrete packages the daemon writes a request that the helper refuses |
| UpdatesState.GeneratedIdIsValid | services/aborad/src/state.rs:366-371 | Generated ids are valid request ids and differ from "invalid" |
| UpdatesState.IdsDiffer | services/aborad/src/state.rs:366-371 | Different hashes make different ids |
| UpdatesState.EntryMentionsItsId | services/aborad/src/state.rs:324-340 | Generated ids and "invalid" are prefix-free: an entry mentions exactly the id it was made for |
| Helper.Process | services/abora-apply/src/main.rs:66-160 | The early returns compute the specified result and run the specified commands |
| Helper.InstallIsJustified | services/abora-apply/src/main.rs:66-160 | For any request file: an install is run only for a fresh valid request under open policy, for exactly the requested names the simulation lists; the result lists those on success and none otherwise |
| Helper.ActsWhenItShould | services/abora-apply/src/main.rs:66-160 | The converse: a well-formed request read within ten minutes, in an open window, with an answer from apt, is acted on: what the simulation lists of it is installed, if anything, and the result is reported under its id |
| Helper.RefusesOtherwise | services/abora-apply/src/main.rs:81-110 | Every other request read in time is refused under its own id if that is valid; without an open window nothing is run, and without an answer from apt nothing installed |
| Helper.RefusesUnreadable | services/abora-apply/src/main.rs:66-80 | What is not read in time, or is no request, is refused under "invalid" and nothing is run |
| Helper.NotesTellWhatIsMissing | services/abora-apply/src/main.rs:135-147 | A success comes without a note if and only if nothing was skipped and no reboot has to wait |
| Helper.RebootIsJustified | services/abora-apply/src/main.rs:136-160 | A reboot is planned if and only if an install, which needs an open window, succeeded and left the marker, and the policy is not `never`; it is announced in the result; without an install nothing is listed |
| Helper.Run | services/abora-apply/src/main.rs:199-253 | The files a whole run leaves behind, and the command lines it runs |
| Helper.InstallLineNamesPackages | services/abora-apply/src/main.rs:129-133 | The install command line ends with exactly the planned packages, after `--`, none of which can be taken for an option |
| Helper.OtherLines | services/abora-apply/src/main.rs:104-106 | The command lines of the simulation and of the reboot |
| Helper.RebootFollowsResult | services/abora-apply/src/main.rs:242-251 | A run reboots last, once, and only with a result on disk that announces it |
| Protocol.StepsAreTheProgram | services/abora-apply/src/main.rs:66-253 | Uninterrupted, the helper's single steps leave exactly what its program leaves, and log exactly the installs it runs, with arguments and success, and a reboot if and only if it reboots |
| Protocol.UninterruptedRunActs | services/abora-apply/src/main.rs:66-253 | An uninterrupted run with a request to act on logs its plan, install and result, and leaves that result on disk |
| DaemonSteps.Check | services/aborad/src/state.rs:175-180 | The daemon's refresh is the protocol's step, also when the process ends inside the save |
| DaemonSteps.Ask | services/aborad/src/state.rs:249-310 | The daemon's apply request is the protocol's step |
| DaemonSteps.Ingest | services/aborad/src/state.rs:314-362 | The daemon's recording of a result is the protocol's step, also when the process ends inside the save |
| DaemonSteps.NoteReboot | crates/abora-update/src/host.rs:306-334 | The daemon's news about a pending reboot are the protocol's step, also when the process ends inside the save |
| DaemonSteps.Restart | services/aborad/src/main.rs:221-260 | A new process that opens the store is the protocol's restart |
| Justified.InstallsAreJustified | services/abora-apply/src/main.rs:66-160 | In every run, whatever is in the request file: each install follows its own run's acceptance of a well-formed request, an open window, and the simulation, names exactly the packages these give, and is the only one of its run |
| Justified.ResultsAreTruthful | services/abora-apply/src/main.rs:49-160 | In every run each result answers its run's request, lists the packages of its run's successful install and nothing otherwise |
| Justified.RebootsAreJustified | services/abora-apply/src/main.rs:136-251 | In every run a reboot is the last event, right after a result that reports a successful install and announces it, in an open window and never under the policy `never` |
| Justified.RebootsWithResultOnDisk | services/abora-apply/src/main.rs:242-251 | In every reachable state about to reboot the announcing result is on disk |
| Justified.InstallsNeedPublications | services/abora-apply/src/main.rs:104-139 | Over every run with crashes and restarts, and any request file: if apt lists only what is upgradable, the install commands that name a package and succeed, or upgrade it, are at most one per publication: restarts install nothing twice |
| RecordedOnce.RecordedAtMostOnce | services/aborad/src/state.rs:314-362 | Over every run each generated id is recorded at most once ever, though only 500 entries are looked at; each entry mentions its own id and no other; history is the newest 500 of all |
| RecordedOnce.NoTwoEntriesForOneId | services/aborad/src/state.rs:314-362 | No two entries ever recorded mention the same generated id |
| RecordedOnce.IngestIsExact | services/aborad/src/state.rs:314-362 | In every reachable state a result is up for recording if and only if its id was never recorded ("invalid": not among the last 500) and no older entry still in the history looks like one for it |
| RecordedOnce.LaterRefusalsLeaveNoEntry | services/aborad/src/state.rs:314-362 | In every reachable state, a refusal under "invalid" leaves no entry while another is among the last 500 |
| RecordedOnce.RequestsAreWellFormed | services/aborad/src/state.rs:249-310 | In every reachable state a written request is strictly sorted, names exactly the available components, and is valid if and only if it names at most 2000 |
| RecordedOnce.RequestsAreWrittenWhenAllowed | services/aborad/src/state.rs:249-310 | In the protocol the daemon writes a request if and only if none waits, something is available, a window is open, and the write succeeds, under a fresh id |
| Reported.EntriesTellResults | services/aborad/src/state.rs:314-362 | Over every run each recorded entry tells the time, success, number of packages, note and reboot of a result that a helper run wrote under its id |
| Reported.SuccessIsReal | services/aborad/src/state.rs:314-362 | So an entry says success or failure as the run behind it did, whose log has the install that it reports |
| Schedule.ClockBijection | crates/abora-config/src/lib.rs:460-480 | `HH:MM` texts and minutes of the day correspond one to one |
| Schedule.DurationMeansWhatItSays | crates/abora-config/src/lib.rs:482-503 | A printed duration means its number of seconds if and only if that fits in 64 bits |
| Schedule.UnitsMean | crates/abora-config/src/lib.rs:482-503 | The units are seconds, minutes, hours and days, while the number of seconds fits in 64 bits |
| Schedule.DurationReads | crates/abora-config/src/lib.rs:482-503 | Exactly which texts are read, as what: digits of a positive 64-bit number and a unit, white space around them |
| Schedule.CheckIntervalMeans | crates/abora-config/src/schedule.rs:112-116 | The check interval is the configured one, or six hours where the text cannot be read |
| Schedule.HugeIntervalWrapsToZero | crates/abora-config/src/lib.rs:482-503 | A concrete interval of many days that is read as zero |
| Schedule.ValidateWindows | crates/abora-config/src/lib.rs:242-281 | Exactly the problems of all windows are reported; none exactly when every window is valid |
| Schedule.ApplyNeedsAnOpenWindow | crates/abora-config/src/schedule.rs:84-108 | An apply is permitted if and only if the time is known, maintenance is enabled and some window, as written, is open; an automatic one needs `automatic` besides |
| Schedule.RebootFollowsPolicy | crates/abora-config/src/schedule.rs:94-108 | A reboot is permitted if and only if the policy is `always`, or `ask` with the time known, maintenance enabled and some window open; and what is reported about the window, maintenance enabled or not |
| Reload.Watcher.Tick | services/aborad/src/main.rs:422-435 | Fingerprints are compared, then files loaded, then the earlier fingerprints remembered |
| Reload.Watcher.Reload | services/aborad/src/reload.rs:47-105 | Nothing changes without a configuration that loads; otherwise it is installed and the tokens refreshed |
| Reload.Watcher.RefreshTokens | services/aborad/src/reload.rs:140-189 | Tokens are dropped when no file is named, replaced when the file loads, and kept otherwise |
| Reload.StepsAreTick | services/aborad/src/main.rs:422-435 | Without an edit in between, the separate steps are one tick |
| Reload.StepKeepsConfig | services/aborad/src/main.rs:422-435 | A step keeps the watcher in step if and only if it is not a failed load of the very file, valid and new, that was fingerprinted |
| Reload.EditsAreNotLost | services/aborad/src/main.rs:422-435 | Over every run with edits at any moment and without such a load: a remembered fingerprint of the current valid file means that its content is running, and an undisturbed tick puts any valid file into effect |
| Reload.RunningConfigWasValidated | services/aborad/src/reload.rs:47-105 | Whatever fails, the running configuration is one that passed validation |
| Reload.TokensAreNotDropped | services/aborad/src/reload.rs:140-189 | Tokens go from present to absent only when the running configuration names no token file |
| Reload.TokensFollowConfig | services/aborad/src/reload.rs:47-189 | After a tick that installs a configuration: no tokens if it names no file, those of the file it names if that loads, and the earlier ones otherwise |
| Reload.TokensStay | services/aborad/src/reload.rs:140-189 | Over every run tokens stay present as long as every configuration that ever passed validation names a token file |
| Reload.FailedReadLosesEdit | services/aborad/src/main.rs:422-435 | A tick that saw an edit leaves the watcher in step if and only if the load succeeded or nothing differed |
| Reload.EditsCanBeLost | services/aborad/src/main.rs:422-435 | From any initial state one edit and one failed read of it lead to a lost edit |
| Reload.LostUntilNextEdit | services/aborad/src/main.rs:376-435 | A lost edit stays lost through any number of ticks without a new edit |
| Reload.TokenEditNeedsLoads | services/aborad/src/reload.rs:47-189 | A seen edit of the token file takes effect if and only if the configuration and the token file both load in the same tick, or nothing differed |
| Reload.TokenEditsAreNotLost | services/aborad/src/reload.rs:140-189 | While every load finds a valid configuration, token edits are not lost, even when another token file is named |
| Scheduler.Scheduler.Tick | services/aborad/src/scheduler.rs:35-143 | One pass of the loop: the decisions taken and all four remembered variables |
| Scheduler.AppliesAreSpaced | services/aborad/src/scheduler.rs:111-122 | Two automatic attempts are at least an interval apart, whatever became of the first |
| Scheduler.AppliesAreBounded | services/aborad/src/scheduler.rs:26-145 | In a lifetime of length T with intervals of at least I > 0 there are at most T / I + 1 automatic attempts |
| Scheduler.NoBoundWithoutInterval | services/aborad/src/scheduler.rs:111-122 | With an interval of zero every permitted pass makes one |
| Scheduler.AppliesArePermitted | crates/abora-config/src/schedule.rs:124-134 | An automatic attempt is made if and only if the switch is on, maintenance enabled, a window open, something available, nothing pending and the interval over |
| Scheduler.ChecksAreSpaced | services/aborad/src/scheduler.rs:70-92 | Two checks closer than 15 minutes, or than a shorter interval, mean that an apply was recorded in the later pass |
| Scheduler.NextCheck | crates/abora-config/src/schedule.rs:143-154 | Over every run: after a check that succeeded the next comes when the interval is over, after one that failed when the interval or 15 minutes are, and at once when a result was recorded |
| Scheduler.PolicyChangesAreLogged | services/aborad/src/scheduler.rs:58-67 | A change of policy is logged if and only if permissions differ from the pass before |
| Scheduler.ChecksAreRegular | services/aborad/src/scheduler.rs:84-92 | The first pass checks, and a pass that does not comes less than its interval after an attempt |

## Left out

- Threads, locks and overlapping calls: each daemon method is one step, and one helper runs at a time; two overlapping
  apply requests are not modelled.
- Formats: JSON, TOML, SHA-256 and zlib are replaced by abstract contents; a file parses to a value or to nothing.
- Real processes, apt, systemd, device files and sysfs: commands answer anything; apt is the set of names it would
  upgrade, from which an install removes what it upgraded.
- Justified.InstallsNeedPublications: assumes that apt lists what is upgradable, and that an upgraded name is not until
  a new version is published; apt itself is not modelled.
- RecordedOnce.RecordedAtMostOnce: assumes that ids are fresh, that only the daemon writes the request file, and that a
  restarted daemon can open its store; where it cannot, it goes on with an empty store in memory, which this theorem does
  not speak of. The helper's own guarantees (`Justified`) assume none of this.
- That every result is recorded: a second apply may overwrite a result before it is read, so history has only some of
  the results.
- Store.UpdateStore.Change: power loss after the rename but before the directory is synced is not modelled.
- The daemon's status, health and HTTP responses, and the version and summary fields of available updates.
- PNG chunks and the header fields before the pixel data, and fonts: glyphs are arbitrary bitmaps, eight pixels wide.
- Writes to the framebuffer device that fail.
- Canvas.Canvas.Text: sums of coordinates do not wrap around at 64 bits here, nor do those in the other drawing methods
  except where a caller's subtraction may have.
- Builds with overflow checks, where the wrapping computations above stop the program instead.
- Reload.EditsAreNotLost: reload on SIGHUP, shutdown, and the settings applied or reported by a reload are not modelled;
  a fingerprint identifies one version of a file.
- Scheduler.Scheduler.Tick: the outcome of recording a result, of a check and of an apply request enter as values, and
  the log messages are reduced to whether the policy changed.
- The logger, token parsing, authorization, service filtering, command lines, shell scripts, Nix modules, the installer
  and the image build: they hold little logic of their own.
