# The calendar engine, modelled and proved

A Dafny model of the hard parts of a calendar connector: what a recurring
series means and what the writers make of it, the time-zone arithmetic under
it, the search for free time, the guest list of a meeting, the move of an event
between two CalDAV calendars, the worker pool objects are expanded in, and the
creation of a shared secret at first boot. `dafny verify dfyconfig.toml` checks
all of it.

- **Zones.** A zone is an offset function `int -> int` of milliseconds, with the
  spacing and size of its changes as hypotheses where a result needs them.
  `WallClock` has the conversion of section 3.3.5 of RFC 5545; `OffsetScan` the
  scan and bisection for offset changes; `OffsetCache` the cache over it;
  `ZoneTimes` times written and read back; `Vtimezone` the generated VTIMEZONE.
- **Free time.** `FreeSlots`: busy time merged, working hours cut into windows
  under a changing offset, gaps listed in order up to a limit.
- **Series.** `Series` is what a stored series means: which revision of an
  override counts, which RANGE=THISANDFUTURE override reaches an occurrence, and
  what each start of the walk is listed as (`EntryAt`). A rule is the increasing
  sequence of starts it gives. `Reader` is the listing and the lookup of one
  occurrence; `Listing` what it is made of, the starts and the overrides no start
  meets, which are listed on their own (`OnItsOwn`). `OccurrenceEdit` is the
  writes to one occurrence, `OccurrenceFrames` what they leave alone, and
  `AnchorFrames` that where a change to all following begins; `OccurrenceInputs`
  has inputs for which they do not. `SeriesShift` is the write that moves a whole
  series, `ShiftedListing` what it does to the listing, and `ResizedListing` what
  a new length alone does. For that write a rule is its dates, each at the clock
  time of DTSTART.
- **Guests.** `GuestList` and `GuestListMeaning`.
- **Protocols.** `DavEtags` and `Move` are the guards and the requests as they
  are sent; `MoveWorlds` is what they do to two calendars when an answer may be
  lost, a request may take effect late, and other clients act in between.
  `Secrets` is any number of processes on one path.
- **Scheduling.** `PoolState` is where each task is, `WorkerPool` the pool and its
  events, `PoolTurns` the fairness of its turns.

Where the code does something else than its own words say, the promise is
stated with the condition under which it holds, and a lemma gives an input for
which it does not:

- `offsetChanges` does not end for some spans that stop off the second, within
  the second of a change (`OffsetScan.ScanEndsIff`; half a second past a change,
  scanned from the midnight before: `OffsetScan.HalfASecondPastAChange`).
- A time in a zone whose offsets have seconds can be written in UTC though a wall
  time names it (`ZoneTimes.NamedThoughWrittenInUtcIff`, `ZoneTimes.NamedYetWrittenInUtc`).
- Where the clocks skip the closing hour of the day before, hours of that day
  that lie after the jump are not searched (`FreeSlots.MissedIff`,
  `FreeSlots.SkippedMidnightIsMissed`).
- The listing stops at the window's end by original start, so an occurrence a
  RANGE override moves earlier can be missed (`Reader.NothingMissedIff`,
  `Reader.MissedIsLeftOut`, `OccurrenceInputs.MovedEarlierIsMissed`).
- The lookup names a DATE override for every start of its day, the listing for
  the first alone (`Reader.AddressingAgreesIff`, `Reader.SecondOfTheDayDisagrees`),
  so a patch of a later one is made of the first, and its deletion undoes the
  first's (`OccurrenceFrames.PatchGoesToTheFirst`,
  `OccurrenceFrames.DeleteUndoesTheFirst`, `OccurrenceInputs.FirstOfTheDayIsPatched`,
  `OccurrenceInputs.FirstOfTheDayIsUndone`).
- Two overrides of an all-day series can have one recurrence_id, which finds one
  of them alone
  (`Reader.OnItsOwnAddressedIff`, `OccurrenceInputs.TwoDaysAreReportedAsOne`).
- A start stored in another zone is written by its clock time in the series' zone.
  On the second pass of an overlap its new override replaces another start, or is
  listed beside it as one occurrence more (`OccurrenceFrames.StartReplacedIff`,
  `OccurrenceFrames.PatchAddsOne`, `OccurrenceInputs.SecondPassIsNotReplaced`), and
  its EXDATE deletes another or none (`OccurrenceFrames.DeletedIff`,
  `OccurrenceInputs.SecondPassIsNotDeleted`); where a RANGE override reaches it, the
  override made for it starts off by the difference of the zones
  (`OccurrenceFrames.MadeIsListedIff`, `OccurrenceInputs.ReachedInUtcIsMovedOff`).
- The same of an override listed on its own: the EXDATE written for its deletion
  takes the start that is at the instant written (`OccurrenceFrames.DeleteOnItsOwnIff`,
  `OccurrenceInputs.AnotherIsDeleted`).
- A change to all following is moved on to the next start as that is written. From
  another zone it lists that start off by the difference of the zones
  (`AnchorFrames.PatchAnchor`, `OccurrenceInputs.NextInUtcIsMovedOff`). Written
  between the two, it leaves that start as it was and is listed as one occurrence
  more; written under the key it had, it is so after a deletion alone; and written
  before, it replaces or reaches starts it did not
  (`AnchorFrames.PatchAnchorOnTheirOwn`, `AnchorFrames.DeleteAnchorOnTheirOwn`,
  `AnchorFrames.PatchAnchorOthers`, `OccurrenceInputs.NextOnSecondPassIsListedTwice`,
  `OccurrenceInputs.NextUnderItsOwnKey`, `OccurrenceInputs.EarlierStartIsReplaced`).
- Moving a RANGE override on recomputes its DTEND from elapsed time, so its
  length changes where the next occurrence spans a change of offset
  (`AnchorFrames.PatchAnchorOthers`, `OccurrenceInputs.MovedOnIsCutShort`).
- A new override of an RDATE;VALUE=PERIOD takes the series' length
  (`OccurrenceFrames.MadeIsListedIff`, `OccurrenceInputs.PeriodIsCutShort`).
- A shift parts a UTC EXDATE from the occurrence it names where that is in a gap,
  and makes one meet an occurrence it did not name on the second pass of an
  overlap (`ShiftedListing.KeepsMeetingIff`, `ShiftedListing.StartsToMeetIff`,
  `ShiftedListing.SkippedExceptionIsOrphaned`,
  `ShiftedListing.SecondPassExceptionStartsToMeet`); shifting back does not undo it
  for an override rescheduled to the very time shifted to
  (`ShiftedListing.OverrideMovesBackIff`, `ShiftedListing.RescheduledOntoTheNewTime`);
  a new length alone can raise a stale revision over the one that counts
  (`ResizedListing.ResizedStaysCurrentIff`, `ResizedListing.StaleRevisionCounts`).
- A caller who gives `*` for an ETag writes over whatever version is there
  (`DavEtags.OnlyTheVersionNamedIff`, `DavEtags.StarIsAnyVersion`).
- Where the ORGANIZER is supplied without notifying, guests are named by their
  addresses read once more: one written with a blank after its `mailto:`, or with
  two of those, is named as somebody else (`GuestListMeaning.ExactIff`,
  `GuestListMeaning.ExactIffAllReadBack`, `GuestListMeaning.BlankDoesNotReadBack`,
  `GuestListMeaning.TwiceMailtoIsMisnamed`).
- Two processes can each keep a secret of their own: what looks like a blank file
  may be one linked since it was read (`Secrets.AgreeIffNoneIsClobbered`,
  `Secrets.TwoSecrets`).

## Model

| member | source | states |
|---|---|---|
| WallClock.EarliestShowing | src/ical-zones-intl.ts:267-278 | a wall time some instant shows is read as an instant showing it, and as the earliest |
| WallClock.ReadBeforeGap | src/ical-zones-intl.ts:267-278 | a wall time no instant shows lies in a gap, and is read with the offset from before it, as an instant inside the jump |
| WallClock.LeftInverseOfWallAt | src/ical-zones-intl.ts:267-278 | reading what an instant shows gives the instant back exactly if it is the first to show it |
| WallClock.ShownInOrder | src/ical-zones-intl.ts:267-278 | of two wall times the clocks show, the earlier names the earlier instant |
| WallClock.DaysInOrder | src/ical-zones-intl.ts:267-278 | wall times a day apart are read in order, skipped ones included |
| OffsetScan.ScanOffsets | src/ical-zones-intl.ts:114-138 | wherever the scan ends it records exactly the changes of the span with the offsets before and after each |
| OffsetScan.BisectionEndsIff | src/ical-zones-intl.ts:123-130 | the bisection of a bracket ends, at the first second of the new offset, exactly if that is not the broken second the bracket ends in |
| OffsetScan.ScanEndsIff | src/ical-zones-intl.ts:114-138 | the two loops, turn by turn, come to an end exactly unless the span stops within the second of a change and off it, and that change is no whole number of days from where the scan last took up its days |
| OffsetScan.HalfASecondPastAChange | src/ical-zones-intl.ts:114-138 | such a span, and two past the same change that end |
| OffsetScan.LookupIsExact | src/ical-zones-intl.ts:205-211 | the offset looked up in an exact record is the zone's, anywhere in the span |
| OffsetScan.ExactIsUnique | src/ical-zones-intl.ts:114-138 | a span has one exact record |
| OffsetScan.OffsetFrom | src/ical-zones-intl.ts:205-211 | the search of the recorded changes finds the last one at or before the instant |
| OffsetCache.OffsetCache.UtcOffset | src/ical-zones-intl.ts:186-212 | in any history of calls, clears and the switch to scanning included, the answer is the one asking directly gives; the counts go on as specified |
| OffsetCache.OffsetCache.Answer | src/ical-zones-intl.ts:201-211 | a year's entry stays exact whether it is asked directly, scanned now or scanned before |
| ZoneTimes.WrittenReadsBack | src/ical-zones.ts:580-609 | reading the time written for an instant gives its whole second, for every zone kind and any offsets at all |
| ZoneTimes.WrittenInUtcIff | src/ical-zones.ts:526-529 | UTC is written exactly where no wall time of the zone names the instant, which is where an earlier one shows the same |
| ZoneTimes.WrittenInUtcBySecond | src/ical-zones.ts:526-529 | with offsets of any seconds: exactly where the offset changed within the minute shown, or that minute was begun once before |
| ZoneTimes.NamedThoughWrittenInUtcIff | src/ical-zones.ts:510-529 | a wall time names an instant written in UTC exactly if, by the clock before some change, it lies in a minute begun before that or one that is skipped |
| ZoneTimes.NamedYetWrittenInUtc | src/ical-zones.ts:526-529 | a zone with a second offset, and an instant written in UTC that a wall time names |
| ZoneTimes.InstantInIsWallToInstant | src/ical-zones.ts:510-513 | reading to the minute and adding the seconds is reading the whole wall time by the rule |
| Vtimezone.OffsetReadsBack | src/ical-vtimezone.ts:30-36 | an offset formatted and parsed is itself, to the second and either sign |
| Vtimezone.ObservancesReadBack | src/ical-vtimezone.ts:63-88 | the observances written read back as the transitions they were made from |
| Vtimezone.VtimezoneOffset | src/ical-zones.ts:154-164 | the walk over a block's transitions is the lookup of the last one at or before the instant |
| Vtimezone.VtimezoneFromIntl | src/ical-vtimezone.ts:63-88 | the block read back is the zone's offset at every instant of the span, and DAYLIGHT is whatever stands above the lowest offset |
| Vtimezone.GeneratedVtimezone | src/ical-vtimezone.ts:98-103 | the block is exact for a margin around every instant given, and everywhere between |
| Vtimezone.CalendarObject.SeriesReach | src/ical-zones.ts:717-727 | each series in the zone is reached to its UNTIL, or for years past the latest time |
| Vtimezone.CalendarObject.CoverGenerated | src/ical-zones.ts:758-780 | the first generated block of the zone is replaced by one exact around every stored time with that TZID and every series' reach; nothing else changes |
| FreeSlots.MergeBusy | src/free-slots.ts:217-226 | ordered, disjoint and apart, and busy at exactly the instants that were |
| FreeSlots.SearchWindows | src/free-slots.ts:239-266 | ordered, disjoint and apart, and open at exactly the instants of the range in hours on some day from the first on |
| FreeSlots.Gaps | src/free-slots.ts:186-214 | the slots are the maximal free intervals of at least the duration, in order, or the first of them up to the limit |
| FreeSlots.Search | src/free-slots.ts:186-266 | the whole search, pointwise: exactly the maximal intervals of range and hours minus busy time that are long enough, or the first of them |
| FreeSlots.EarlierDaysAreOver | src/free-slots.ts:245-262 | from the range's start on an earlier day is open exactly if it is the day before, a jump skips its closing hour, and by the clock before the jump that is still to come |
| FreeSlots.MissedIff | src/free-slots.ts:239-266 | the windows miss an instant some earlier day's hours hold exactly if by the clock before such a jump it lies in those hours, and the first day is yet to open or the jump skips that hour too |
| FreeSlots.SkippedMidnightIsMissed | src/free-slots.ts:245-262 | a zone whose clocks skip midnight, and hours open in the range that the search does not open |
| Series.CurrentOverrides | src/ical-series.ts:109-118 | each key some override names is mapped to its highest SEQUENCE, the later on a tie |
| Series.CurrentIs | src/ical-series.ts:109-118 | the current override of a key is the only one that is current for it |
| Series.GoverningRange | src/ical-series.ts:143-155 | the loop finds the RANGE override with the latest RECURRENCE-ID not after the time, the later in the object on a tie |
| Series.GoverningIs | src/ical-series.ts:143-155 | the override that governs an instant is the only one that does |
| Reader.RecurrenceWalk.Next | src/ical-expand.ts:283-302 | one start is handed out, the first of what remains, and the rest remains |
| Reader.WalkIsRecurrenceSet | src/ical-expand.ts:265-303 | DTSTART put back among the RDATEs, unless an EXDATE names it, gives the recurrence set of section 3.8.5.2 of RFC 5545: DTSTART and the RDATEs less the EXDATEs, in order, none twice |
| Reader.FindMatch | src/ical-expand.ts:391-403 | the walk finds the override that replaces a start: its own key's, or the DATE one of its day for the first start there |
| Reader.MetOnce | src/ical-expand.ts:391-403 | an override replaces one start at most |
| Reader.PassedOver | src/ical-expand.ts:376-390 | a start the walk passes over is listed by nothing that overlaps the window |
| Reader.OccurrencesIn | src/ical-expand.ts:330-433 | earliest first; everything found is an item of the series in the window, none twice and no stale revision, and what is reported by its start is within the step bound; with neither bound hit, exactly the current overrides in the window and the other starts in it before its end |
| Reader.MissedIsLeftOut | src/ical-expand.ts:391 | what such a listing leaves out of the window is exactly what is missed there |
| Reader.NothingMissedIff | src/ical-expand.ts:391 | something is missed in some window exactly if a RANGE override moves an occurrence earlier |
| OccurrenceInputs.MovedEarlierIsMissed | src/ical-expand.ts:391 | a series and a window in which one is |
| Reader.LookUp | src/ical-expand.ts:561-728 | the lookup answers the start reported as asked within the step bound, else the override with that RECURRENCE-ID, else nothing |
| Reader.AddressingAgreesIff | src/ical-expand.ts:672-690 | lookup and listing name the same override of a start, unless it is a later start of a day whose DATE override an earlier one took |
| Reader.ReportedIsAddressed | src/ical-expand.ts:384-428 | every occurrence the listing reports is found by its recurrence_id under the override it was listed by, both within one step bound, where no other override that counts is reported alike |
| Reader.OnItsOwnAddressedIff | src/ical-expand.ts:690-705 | an override listed on its own is found by its recurrence_id exactly if no other that counts is reported alike |
| Reader.TimedIsUnambiguous | src/ical-expand.ts:505-520 | none is in a timed series |
| OccurrenceInputs.TwoDaysAreReportedAsOne | src/ical-expand.ts:690-705 | two of an all-day series that are |
| Listing.OnItsOwnIff | src/ical-expand.ts:422-428 | an override counts and is met by no start exactly if it is what is on its own under its key |
| Listing.TurnedElsewhere | src/ical-expand.ts:391-403 | when one more key has an override, every start is replaced as it was but the start of that key, and the one that comes into a DATE override that start had taken |
| Reader.ListedIsFound | src/ical-expand.ts:505-520 | two starts of a walk are never reported as one |
| Reader.SecondOfTheDayDisagrees | src/ical-expand.ts:680 | two times on a day named by a DATE override: the second is addressed as the override and not listed as it |
| OccurrenceEdit.SeriesObject.DetachRangeAnchor | src/ical-occurrence-edit.ts:191-222 | the object after the RANGE override moved on with a plain copy beside it, or a refusal that changed nothing |
| OccurrenceEdit.SeriesObject.ApplyOccurrencePatch | src/ical-occurrence-edit.ts:306-351 | the object after the patch, or a refusal that changed nothing |
| OccurrenceEdit.SeriesObject.ExcludeOccurrence | src/ical-occurrence-edit.ts:383-418 | the object after the deletion: one more EXDATE, every revision of the key gone; or a refusal that changed nothing |
| OccurrenceFrames.PatchInPlace | src/ical-occurrence-edit.ts:306-351 | an occurrence with an override becomes the patch of what was listed, and every other lists as it did, those on their own as well, with none added |
| OccurrenceFrames.PatchGoesToTheFirst | src/ical-occurrence-edit.ts:320-329 | the start patched is the one addressed exactly if that is not a second one of a day whose DATE override an earlier took; else it is that earlier one, and the one addressed lists as it did |
| OccurrenceInputs.FirstOfTheDayIsPatched | src/ical-occurrence-edit.ts:320-329 | such a day |
| OccurrenceFrames.PatchOnItsOwn | src/ical-occurrence-edit.ts:320-346 | an override on its own becomes the patch of what was listed, and every start and every other lists as it did |
| OccurrenceFrames.OnItsOwnRefusedIff | src/ical-occurrence-edit.ts:320-329 | a write at one is refused exactly if it has a RANGE |
| OccurrenceFrames.PatchByNewOverride | src/ical-occurrence-edit.ts:94-169 | one with none, written under its own key, becomes the patch of the override made for it, and every other lists as it did, those on their own as well, with none added |
| OccurrenceFrames.OwnZoneIsKept | src/ical-occurrence-edit.ts:53-62 | a start of the series' zone is written as it is; one of another under its own key exactly if its clock time names its instant |
| OccurrenceFrames.StartReplacedIff | src/ical-occurrence-edit.ts:94-169 | so the override made replaces the occurrence exactly if it is written under its key |
| OccurrenceFrames.PatchMissesItsStart | src/ical-occurrence-edit.ts:94-169 | else the occurrence and every other list as they did, but the one start that has the key written, and one that comes into a DATE override that start had taken |
| OccurrenceFrames.PatchGoesToAnother | src/ical-occurrence-edit.ts:94-169 | that one is listed by the override made, exactly unless one of its own has a higher SEQUENCE |
| OccurrenceFrames.PatchAddsOne | src/ical-occurrence-edit.ts:94-169 | what is on its own then: one more exactly where no start has the key written and no override had, or where a DATE override is left with no start |
| OccurrenceInputs.SecondPassIsNotReplaced | src/ical-occurrence-edit.ts:94-169 | an RDATE on the second pass of an overlap that stays as it was, and is listed once more |
| OccurrenceFrames.MadeIsListedIff | src/ical-occurrence-edit.ts:94-169 | the override made is what was listed: for one a RANGE override reaches exactly if it is written at its own clock time, for any other exactly if it is written with its instant and the end it is given |
| OccurrenceInputs.ReachedInUtcIsMovedOff | src/ical-occurrence-edit.ts:94-169 | an RDATE in UTC a RANGE override reaches, whose override starts an hour off |
| OccurrenceInputs.PeriodIsCutShort | src/ical-occurrence-edit.ts:94-169 | an RDATE;VALUE=PERIOD whose override takes the series' length |
| AnchorFrames.PatchAnchor | src/ical-occurrence-edit.ts:191-222 | where a change to all following begins, the occurrence becomes the patch of what was listed; the next, written under its key, is listed by the change moved on, as it was exactly if it is written at its own clock time |
| AnchorFrames.NearlyReachedAlike | src/ical-occurrence-edit.ts:191-222 | moved on to between where it began and the next start, the change reaches the starts it did |
| OccurrenceInputs.NextInUtcIsMovedOff | src/ical-occurrence-edit.ts:191-222 | a next start in UTC that then lists an hour off |
| OccurrenceInputs.NextOnSecondPassIsListedTwice | src/ical-occurrence-edit.ts:191-222 | a next start that lists as it did, the change moved on listed beside it |
| AnchorFrames.PatchAnchorOthers | src/ical-occurrence-edit.ts:119-222 | every other occurrence, wherever the change is moved on to: the start of the key written is listed by it where it counts; any other lists as it did exactly if it has an override, or is reached alike, with the length kept |
| AnchorFrames.PatchAnchorOnTheirOwn | src/ical-occurrence-edit.ts:191-222 | what is on its own then: one more exactly where no start has the key written and no override had, none where it is the key it had |
| OccurrenceInputs.NextUnderItsOwnKey | src/ical-occurrence-edit.ts:191-222 | a change written under the key it had: nothing more after a patch, one more after a deletion |
| OccurrenceInputs.EarlierStartIsReplaced | src/ical-occurrence-edit.ts:191-222 | a change written under the key of an earlier start, which lists by it |
| OccurrenceInputs.MovedOnIsCutShort | src/ical-occurrence-edit.ts:119-222 | a change whose DTEND is moved on to a night of a gap, after which it is an hour shorter |
| AnchorFrames.PatchLastAnchor | src/ical-occurrence-edit.ts:191-203 | at the last occurrence the change ends; every other lists as it did, exactly unless it was reached, and those on their own as well |
| AnchorFrames.AnchorRefusedIff | src/ical-occurrence-edit.ts:191-222 | a patch and a deletion there are refused exactly where the next start has an override or was not reached |
| OccurrenceFrames.DeletedIff | src/ical-occurrence-edit.ts:405-418 | the EXDATE written takes exactly the starts at its instant out of the walk: the one deleted exactly if it is written with its own |
| OccurrenceFrames.DeleteMissesItsStart | src/ical-occurrence-edit.ts:405-418 | else one with no override stays as it was, and so does every other but the start at that instant, and one that comes into a DATE override that had taken |
| OccurrenceInputs.SecondPassIsNotDeleted | src/ical-occurrence-edit.ts:405-418 | an RDATE on the second pass of an overlap that is not |
| OccurrenceFrames.EmittedWithout | src/ical-occurrence-edit.ts:405-418 | the EXDATE takes exactly the one start out of the walk |
| OccurrenceFrames.DeleteFrame | src/ical-occurrence-edit.ts:383-418 | the start and every revision of it are gone, and every other occurrence lists as it did, those on their own as well, with none added |
| OccurrenceFrames.DeleteUndoesTheFirst | src/ical-occurrence-edit.ts:383-418 | deleting a second start of a day whose DATE override an earlier took: the start goes, and the earlier one, exactly if it is another, back to what the series gives it |
| OccurrenceInputs.FirstOfTheDayIsUndone | src/ical-occurrence-edit.ts:383-418 | such a day |
| OccurrenceFrames.DeleteOnItsOwnIff | src/ical-occurrence-edit.ts:383-418 | deleting an override on its own: it is gone with every revision, and nothing else changes, exactly if no start is at the instant the EXDATE is written with |
| OccurrenceFrames.DeleteOnItsOwnStarts | src/ical-occurrence-edit.ts:383-418 | what every other start lists as where one is |
| OccurrenceFrames.DeleteOnItsOwnOthers | src/ical-occurrence-edit.ts:383-418 | and what is on its own: the override of the start taken with it too |
| OccurrenceInputs.AnotherIsDeleted | src/ical-occurrence-edit.ts:383-418 | an override whose deletion takes a start |
| AnchorFrames.DeleteAnchor | src/ical-occurrence-edit.ts:383-418 | deleting the occurrence such a change begins at: its start is gone, and every other lists exactly as after a patch there |
| AnchorFrames.DeleteAnchorOnTheirOwn | src/ical-occurrence-edit.ts:383-418 | and so is what is on its own, but that the change moved on is one more also under the key of the start that is gone |
| AnchorFrames.DeleteLastAnchor | src/ical-occurrence-edit.ts:383-418 | so at the last occurrence, where the change goes with it |
| SeriesShift.SeriesToShift.ShiftTimed | src/ical-series-shift.ts:227-342 | the whole stored series after the shift, or the first refusal there is with nothing changed |
| SeriesShift.SeriesToShift.ShiftAllDay | src/ical-series-shift.ts:172-208 | the whole stored series with its length in days, or a refusal with nothing changed |
| SeriesShift.MoveOverride | src/ical-series-shift.ts:319-339 | one override's new RECURRENCE-ID, times and revision |
| ShiftedListing.ZonesAreOrdered | src/ical-zones.ts:558-570 | every zone with changes apart reads shown clock times in order |
| ShiftedListing.OrderKept | src/ical-series-shift.ts:352-375 | values of the series' zone, and of others whose clock time names them, keep their order and meet exactly as before, where their clock times are one, a day apart, or shown before and after |
| ShiftedListing.KeepsMeetingIff | src/ical-series-shift.ts:352-375 | a UTC value that names an occurrence goes on naming it exactly if its clock time and the occurrence's name one instant after: with both shown then, exactly if the occurrence was not skipped; equal fields in the series' zone always do |
| ShiftedListing.StartsToMeetIff | src/ical-series-shift.ts:352-375 | and one that names none starts to under the same condition: with both shown, exactly on the other pass of its clock time |
| ShiftedListing.MovesOnTheClock | src/ical-series-shift.ts:352-375 | such a value moves by the difference on the clock of the series |
| ShiftedListing.RuleTimesStayOnTheirDay | src/ical-series-shift.ts:250-255 | a start at DTSTART's clock time stays on its day if DTSTART does |
| ShiftedListing.RecurrenceSetMoves | src/ical-series-shift.ts:311-402 | the recurrence set after the shift is the one before, each start moved: EXDATE, RDATE and a DATE-TIME UNTIL keep meeting the same ones, none appears, none vanishes |
| ShiftedListing.DailySeriesIsShiftable | src/ical-series-shift.ts:311-402 | of a series whose EXDATEs and UNTIL are at its own clock time, whether in a gap before or after or not, nothing more is asked for that |
| ShiftedListing.MatchMoves | src/ical-series-shift.ts:319-339 | every start is replaced by the override that replaced it |
| ShiftedListing.OnItsOwnMoves | src/ical-series-shift.ts:319-339 | an override on its own is so exactly if it was: none appears, none vanishes |
| ShiftedListing.OnItsOwnLists | src/ical-series-shift.ts:319-339 | it lists as it did where it was rescheduled, else at the start its own moves to |
| ShiftedListing.RescheduledStaysIff | src/ical-series-shift.ts:319-339 | an occurrence listed by a rescheduled override lists exactly as it did; one such a RANGE override reaches, exactly if its own fields move as far as the RECURRENCE-ID's |
| ShiftedListing.OthersStartLater | src/ical-series-shift.ts:227-340 | every other occurrence starts where its start is moved to, its properties as they were; one a RANGE override reaches by as much as its fields and the override's move less the RECURRENCE-ID's, in whatever zone, which in the series' own is the same exactly if the two move as far |
| ShiftedListing.OthersKeepTheirLengthIff | src/ical-series-shift.ts:227-340 | with no new length an override's own end moves as its start does, and any other occurrence keeps its length exactly if the DTEND it takes it from drifts as far as the DTSTART |
| ShiftedListing.OthersTakeTheLength | src/ical-series-shift.ts:298-339 | with a new length every occurrence that moves lasts that long |
| ShiftedListing.LengthenedLasts | src/ical-series-shift.ts:298-309 | an end written for a length lasts that length, in whatever zone it can be written |
| ShiftedListing.PeriodsMoveWhole | src/ical-series-shift.ts:363-374 | the end a PERIOD gives moves with the start it is given to |
| ShiftedListing.MasterMovesBack | src/ical-series-shift.ts:227-402 | shifting by the opposite difference restores what the master says |
| ShiftedListing.OverrideMovesBackIff | src/ical-series-shift.ts:215-218 | and an override, exactly if both ways take it for rescheduled or both do not |
| ShiftedListing.RescheduledOntoTheNewTime | src/ical-series-shift.ts:215-218 | an override rescheduled to the new time that the way back moves |
| ShiftedListing.SkippedExceptionIsOrphaned | src/ical-series-shift.ts:352-375 | a UTC EXDATE of a skipped clock time that the shift parts from its occurrence |
| ShiftedListing.SecondPassExceptionStartsToMeet | src/ical-series-shift.ts:352-375 | a UTC EXDATE on the second pass of an overlap that the shift makes meet one |
| ResizedListing.ResizedStaysCurrentIff | src/ical-series-shift.ts:172-339 | a new length, timed or in days, leaves what counts for a key current exactly unless it is rescheduled and raises another revision over it |
| ResizedListing.ResizedMatchIff | src/ical-series-shift.ts:172-339 | so it leaves the override a start is replaced by |
| ResizedListing.ResizedOnItsOwnIff | src/ical-series-shift.ts:172-339 | and what is on its own is so exactly if it was, by that override where none is raised over it |
| ResizedListing.TimedTakesTheLength | src/ical-series-shift.ts:298-339 | a new length alone: every occurrence of a timed series keeps its start and text and lasts that long, but a rescheduled one, and one a PERIOD gives its end, which list as they did |
| ResizedListing.StaleRevisionCounts | src/ical-series-shift.ts:319-339 | two revisions of which it makes the stale one count |
| ResizedListing.AllDayTakesTheLength | src/ical-series-shift.ts:172-208 | each occurrence of an all-day series lasts the days given, on its own day, whichever override lists it; one listed by a rescheduled override lists as it did |
| DavEtags.SpellingsAgree | src/caldav-etag.ts:14-21 | a tag bare, quoted or weak is one tag |
| DavEtags.OnlyTheVersionNamedIff | src/caldav-etag.ts:67-84 | only the version the caller named is written over exactly unless the stored ETag is weak and matched, or there is none and no version is given, or `*` is given for one and sent; the version read is let through where it was named; without an ETag from the caller, and under strict for another than the stored one, nothing goes out |
| DavEtags.StarIsAnyVersion | src/caldav-etag.ts:67-84 | a caller's `*` past a stored strong ETag, which lets any version be written over |
| DavEtags.OnlyTheVersionNamed | src/caldav-etag.ts:67-84 | the guard sent for a version, however spelt, matches no other |
| Move.GuardedWrite | src/caldav-client.ts:659-676 | the writes and the search sent, and what they come to: a second write only past a 412 to `*` and a search that found the event at the same URL, and success is the last one's 2xx |
| Move.CalDavMove.MoveObject | src/caldav-move.ts:106-138 | the requests of a whole move keep their order, and each way it ends rests on the answers it says it rests on |
| Move.CalDavMove.CopyThenDelete | src/caldav-move.ts:227-256 | the fallback: PUT, check, DELETE and what takes the copy away again |
| Move.CalDavMove.RemoveCopy | src/caldav-move.ts:389-403 | the copy is deleted only under its strong ETag or past a read that found its text |
| Move.CopyIsDisciplined | src/caldav-move.ts:227-403 | every run of the fallback keeps the order, and answers what its answers say |
| MoveWorlds.NeverLost | src/caldav-move.ts:106-403 | whatever is answered, done, done late or done by others short of deleting it, source or target holds the event at every step |
| MoveWorlds.NothingElseIsTouched | src/caldav-move.ts:106-403 | no other object changes, and nothing in the target is ever replaced |
| MoveWorlds.OnlyTheCopyIsDeleted | src/caldav-move.ts:389-403 | what is deleted in the target has the strong ETag the PUT answered, or was read just before with the text put |
| MoveWorlds.SourceDeletedIsTheOneCopied | src/caldav-move.ts:236-243 | the source deleted is the version of the caller's strong ETag, or was read with the text copied |
| MoveWorlds.NothingMovedIsTrue | src/caldav-move.ts:106-403 | after "Nothing was moved." the event is at its URL still |
| MoveWorlds.SourceWasNotRemoved | src/caldav-move.ts:106-403 | and no step of the run had removed it |
| MoveWorlds.CopyWasNotLeft | src/caldav-move.ts:348-403 | and any copy put was gone again later |
| MoveWorlds.MovedIsTrue | src/caldav-move.ts:106-193 | after an answer that it moved the event was seen gone from the source, and then or later in the target |
| MoveWorlds.WrittenOverTheVersionNamed | src/caldav-client.ts:659-676 | a write that succeeds under the caller's strong ETag replaced exactly the version named, in one request |
| PoolState.ExactlyOnePlace | src/ical-worker-pool.ts:274-461 | each task submitted is queued, with a worker or settled, and in one of these only |
| PoolState.OnlyOneQueue | src/ical-worker-pool.ts:274-461 | nor in two queues, or twice in one |
| PoolState.OnlyOneWorker | src/ical-worker-pool.ts:274-461 | nor with two workers |
| PoolState.HeldAsSubmitted | src/ical-worker-pool.ts:274-461 | until it is settled a task is with its own group or a worker, as it was submitted |
| PoolState.TakeKeeps | src/ical-worker-pool.ts:324-338 | taking a task keeps every other where it is and the turn order exactly the groups with work |
| PoolState.GiveKeeps | src/ical-worker-pool.ts:368-370 | giving it to an idle worker keeps `running` the count of each group's workers |
| PoolState.ReleaseKeeps | src/ical-worker-pool.ts:385-392 | so does taking it off one |
| PoolState.FinishKeeps | src/ical-worker-pool.ts:411-434 | a task settled was not settled before, and is nowhere else after |
| WorkerPool.ExpansionPool.Submit | src/ical-worker-pool.ts:274-284 | refused at once when closed or remembered as hanging, or one more task in the pool as given; every state invariant kept, with no worker idle beside queued work |
| WorkerPool.ExpansionPool.Take | src/ical-worker-pool.ts:324-338 | the loop ends; every turn it takes is recorded and serves a group, the last of them the group of the task taken; that is never one remembered as hanging, and what it settles is |
| WorkerPool.ExpansionPool.NextInTurn | src/ical-worker-pool.ts:324-333 | the task is the first of the first group in turn with the fewest running |
| WorkerPool.FewestRunning | src/ical-worker-pool.ts:326-330 | the first place with the least running |
| WorkerPool.ExpansionPool.Pump | src/ical-worker-pool.ts:347-366 | after it queued work has some worker and no ready worker is idle, or the queue has failed; it times out only what is remembered as hanging, and rejects only with no worker left and none to be started |
| WorkerPool.ExpansionPool.OnAnswer | src/ical-worker-pool.ts:419-432 | only an answer to the task a worker has settles it, as answered; whatever else is settled is remembered as hanging |
| WorkerPool.ExpansionPool.OnDeadline | src/ical-worker-pool.ts:371-379 | the task has timed out and its object is remembered; others are rejected only where that worker was the last and no other starts |
| WorkerPool.ExpansionPool.OnReady | src/ical-worker-pool.ts:414-418 | the worker is ready from then on, every other as ready as it was |
| WorkerPool.ExpansionPool.OnLost | src/ical-worker-pool.ts:443-453 | its task is rejected; a worker out already changes nothing, and one that never loaded empties the queue; otherwise others are rejected only where it was the last and no other starts |
| WorkerPool.ExpansionPool.Close | src/ical-worker-pool.ts:257-268 | every task ever submitted is settled, those settled before as they were |
| WorkerPool.ExpansionPool.RememberHanging | src/ical-worker-pool.ts:309-316 | the memory after: the object newest, remembered once, within the cap |
| WorkerPool.OnlyTheOldestIsForgotten | src/ical-worker-pool.ts:309-316 | every other object is remembered exactly as it was, but the oldest where there was no room |
| PoolTurns.PassedOver | src/ical-worker-pool.ts:324-338 | a turn that passes a waiting group with nothing running brings it one place forward, and no arrival moves it back |
| PoolTurns.ServedInTurn | src/ical-worker-pool.ts:274-338 | so it is served within its place plus one of turns, however many arrive |
| PoolTurns.PoolTakesTurns | src/ical-worker-pool.ts:324-338 | what `take` does to the order is such a turn |
| PoolTurns.PoolArrivals | src/ical-worker-pool.ts:274-284 | and what `submit` does to it an arrival at the back |
| WorkerPool.PoolServesInTurn | src/ical-worker-pool.ts:274-338 | over any run of the pool a request in its turn order is served within its place plus one of the turns it takes |
| GuestList.WrittenIsTheSamePerson | src/ical-attendees.ts:37-57 | an address as written is the person it was given for, and is never prefixed twice |
| GuestList.Schedulable | src/ical-attendees.ts:378-392 | those leaving and those listed plainly anywhere, without the account's own, each once |
| GuestList.Meeting.Check | src/ical-attendees.ts:508-522 | the first reason a change is refused for, in the order the checks are made, or none |
| GuestList.Meeting.WriteGuestList | src/ical-attendees.ts:463-498 | every VEVENT of the UID after the write |
| GuestList.Meeting.ChangeGuestList | src/ical-attendees.ts:508-533 | refused exactly for a reason there is, with nothing changed; or written, with whom the server may email, each once |
| GuestListMeaning.ExactUnlessSupplied | src/ical-attendees.ts:508-533 | the answer names exactly those the server was free to email before or is after, unless the ORGANIZER is supplied without notifying |
| GuestListMeaning.ExactIff | src/ical-attendees.ts:508-533 | there it does exactly if every guest's address, as it is shown, is read as some guest or the account, and every guest without an agent of their own is read so from some guest's |
| GuestListMeaning.ExactIffAllReadBack | src/ical-attendees.ts:508-533 | where no line has such an agent, exactly if every guest's address reads back |
| GuestListMeaning.BlankDoesNotReadBack | src/ical-attendees.ts:37-57 | two addresses that do not |
| GuestListMeaning.TwiceMailtoIsMisnamed | src/ical-attendees.ts:378-387 | a guest named as somebody else |
| GuestListMeaning.NobodyNewlyScheduled | src/ical-attendees.ts:463-498 | without `notify_attendees` nobody becomes someone the server is free to email |
| GuestListMeaning.TargetsListWhatWasAsked | src/ical-attendees.ts:487-496 | on every VEVENT aimed at, those listed are those who were, without the removed and with the added |
| GuestListMeaning.EveryVeventIsOrganized | src/ical-attendees.ts:463-477 | every VEVENT names an ORGANIZER after, the account's, and one that had it keeps it |
| GuestListMeaning.UnnamedKeepTheirLines | src/ical-attendees.ts:463-498 | everyone not named keeps their lines in order, marked only where the ORGANIZER is supplied without notifying |
| Secrets.ResolveSecret | shared/secrets.ts:192-242 | what the code does at the path, whatever others do there meanwhile, is a run of the steps the results below are about |
| Secrets.CreateExclusively | shared/secrets.ts:361-413 | so is every run of this part of it |
| Secrets.CreatorsAgree | shared/secrets.ts:361-413 | in every interleaving on an absent path all return one value, and the path is only ever absent or holds it whole |
| Secrets.CreatorsReturn | shared/secrets.ts:361-413 | none of them fails unless the file system does |
| Secrets.AgreesUnlessClobbered | shared/secrets.ts:192-242 | while nobody removes a whole secret all agree, and the value at the path never changes |
| Secrets.ResolversAgree | shared/secrets.ts:192-242 | so they do where no secret is linked between another's read and what it does about it |
| Secrets.AgreeIffNoneIsClobbered | shared/secrets.ts:206-232 | processes with values of their own that all end with one agree exactly if none removed a secret another had linked |
| Secrets.TwoSecrets | shared/secrets.ts:206-232 | an interleaving of two where each keeps its own |

## Left out

- Parsing and serialising iCalendar, and the rule walking of ical.js: a rule is the starts it gives, or its dates; an object is a master and its overrides.
- `Intl` and `Date`: a zone is an opaque offset function, a wall time a count of milliseconds on an unbounded clock, and instants that are not numbers do not occur.
- WallClock.EarliestShowing: assumes offsets within 14 hours and at most one change within 36 hours either side, as the code's own search does.
- ZoneTimes.WrittenInUtcIff: assumes offsets on whole minutes; for any others `ZoneTimes.WrittenInUtcBySecond` says when UTC is written, and `ZoneTimes.NamedYetWrittenInUtc` that a wall time can name the instant all the same.
- The laziness of the window generator, and the order of occurrences that start at one instant.
- A recurrence_id of null, an object with no master, and occurrences that do not recur at all, in the lookup.
- Reader.ReportedIsAddressed: assumes dates read as UTC.
- Reader.WalkIsRecurrenceSet: is of the walk over DTSTART, RDATE and EXDATE, all of one value type (`KeysAreInstants`: none a date where another is a time); of a series with an RRULE `Reader.RecurrenceWalk.Next` hands out what ical.js gives.
- What a patch of one occurrence does to its times and text: a patch is any function of them, so its own refusals are not modelled.
- AnchorFrames.PatchAnchor: assumes, as all of `AnchorFrames`, that the RECURRENCE-ID is under the key of the start, so no DATE one in a timed series.
- SEQUENCE beyond being raised by one, DTSTAMP and LAST-MODIFIED.
- A series whose zone nothing can place, VTIMEZONE rules the connector will not walk, a VEVENT with neither DTEND nor DURATION, and the guest half of the same write, in the shift; the switch between all-day and timed is refused before what is modelled.
- ShiftedListing.RecurrenceSetMoves: assumes each value of another zone is named by its clock time, two clock times that are neither one nor a day apart are shown before and after, and, for an UNTIL that is a date, that no start moves past it; where that fails for an exception is `ShiftedListing.KeepsMeetingIff` and `ShiftedListing.StartsToMeetIff`.
- ShiftedListing.RescheduledStaysIff: assumes, as all that follow, what `ShiftedListing.RecurrenceSetMoves` does.
- ShiftedListing.OthersKeepTheirLengthIff: leaves a PERIOD's own end to `ShiftedListing.PeriodsMoveWhole`.
- ShiftedListing.OverrideMovesBackIff: assumes values that each move back, and no new length.
- HTTP, authentication, the addresses calendars are found at, and the ETag read back for the answer after a move.
- MoveWorlds.NothingMovedIsTrue: assumes that no request takes effect after its answer; `MoveWorlds.NeverLost` does not.
- Unicode: addresses and tags are trimmed of ASCII blanks and lower-cased in ASCII.
- Worker threads, timers, promises and messages: each is an event, and a worker out of the pool is one the pool no longer lists; messages of a worker after `close` do nothing.
- WorkerPool.ExpansionPool.Close: decrements `running` as it closes each slot, which the code leaves as it was; nothing reads it after.
- The temporary file a secret is written to first, its mode, the text of errors, and a secret that is not to be generated.
- Everything else the connector does: mail, OAuth, settings, accounts, autoconfiguration, and the tools' own orchestration.
