# Xandikos in Dafny

A model of the parts of Xandikos, a CalDAV and CardDAV server that keeps its collections in
git, whose behaviour is hardest to see from the code, with proofs of what they keep.

| component | modules |
|---|---|
| Availability: prioritised VAVAILABILITY components folded into a free-busy report | `Timelines`, `FreeBusyReports`, `Availability` |
| Time-range tests and recurrence expansion with overrides | `Calendars`, `TimeRangeTables`, `Recurrences`, `Occurrences`, `RuleSets`, `Expansion`, `ExpandedFields` |
| Calendar queries answered from an index | `IndexRows`, `Indexing`, `IndexedTimeRanges`, `Filters`, `FilterAgreement`, `FilterLimits`, `CalendarQueries`, `PropertyQueries`, `QueryViews`, `KeyManager`, `Stores`, `CalendarStores` |
| The git store and sync-collection | `GitStores`, `Sync` |
| The scheduling signature and what an attendee may write | `Orders`, `SignatureStreams`, `Signatures`, `SerializedValues`, `SchedulingContents`, `AttendeeWrites`, `WriteRefusals` |
| Stream decoders: chunked bodies and milter frames | `Octets`, `ChunkSizes`, `ChunkedBodies`, `ChunkedReaders`, `Frames`, `Milters`, `MilterConnections` |

`Wrappers` and `Seqs` hold the shared option and result types and facts about sequences.

Code that changes things step by step is modelled by classes and loops (`Timeline`,
`Expander`, `MemoryIndex`, `AutoIndexManager`, `MemoryStore`, `GitStore`, `ChunkedReader`,
`Transaction`, `Conversation`), each proved against functions and predicates; the lemmas then
say what those functions mean. Expression-like code is modelled by functions.

Instants are integers in seconds and all times are read as UTC. Blob ids stand for contents
and tree ids are injective. A recurrence rule is any strictly increasing sequence, finite or
not. A text collation is any predicate. Exceptions and error returns are values
(`Result`, `Answer`, `Opening`, `Incoming`). `None` as the answer of a store query stands for a
failing assertion, so `r == Some(...)` says that no assertion fails.

## Where the code falls short of what is promised

What is false is shown by an input, and beside it stands the condition under which the
promise is kept.  Where the condition is exact, keeping it is necessary as well; where only
one way is proved the entry says so.

- A VAVAILABILITY without a priority is called undefined, yet wins over priorities 1 to 9;
  exactly when no component that covers the instant, or every one, is without one, the
  winner is the right one (`Availability.UndefinedPriorityWins`).
- "This component is not defined" asks the file for a component of *another* name; the index
  is asked the right question.  Exact (`FilterLimits.NegatedComponentAgrees`,
  `FilterLimits.NoAlarmsIsMissed`).
- Columns forget which component a value came from, so conditions on several components of
  one name are met together in the index when they are met apart.  One way: with one
  component on the path, or one condition, index and file agree
  (`FilterAgreement.IndexAgrees`), and for filters without negation the index never misses
  (`FilterAgreement.IndexNeverMisses`).  That neither part of the condition can be dropped is
  shown for every filter with conditions on two properties
  (`FilterLimits.SiblingsAreMixed`), every two tests of one text
  (`FilterLimits.TextsAreMixed`), every negated property (`FilterLimits.NegationIsMixed`), and
  for conditions of any kind and depth on which a calendar can be given
  (`FilterLimits.ConditionsAreMixed`).  For conditions on properties with one test each the
  calendars on which index and file agree are known exactly
  (`FilterLimits.SiblingsAgreeJustWhen`).
- The time-range tests follow the tables of RFC 4791 but for three families of inputs: events
  whose DURATION is not greater than zero, tasks of which only CREATED is known, and tasks
  due no later than they start, each for certain ranges.  Exact
  (`TimeRangeTables.VeventFollowsTable`, `TimeRangeTables.VtodoFollowsTable`,
  `TimeRangeTables.DueAtStartIsMissed`).
- The window of a range expansion is widened by the duration, which is not always how far an
  occurrence reaches, as for events with DTEND and DURATION both.  Exact
  (`Occurrences.WideningLosesNothing`, `Occurrences.NarrowWindowLoses`); what RFC 5545 allows
  is always widened enough (`Occurrences.ConformingIsWide`).
- An open-ended expansion stops after 3000 candidates.  What it loses is exactly the generated
  occurrences after them (`Expansion.ExpandCalendarRrule`, `Expansion.CapCutsShort`,
  `Expansion.DailyIsCutShort`), never an override (`Expansion.CapSparesOverrides`), and a query
  is not affected (`IndexedTimeRanges.CandidateDecides`).
- An override without DTSTART makes the expansion raise MissingProperty, which no query
  catches, whatever the range.  Exact (`Expansion.ExpandCalendarRrule`,
  `Expansion.RaisesJustWhen`).
- The index reads a component's RRULE and never its EXDATE, RDATE and EXRULE, so a query for a
  day that is taken out finds the event in the index and not in the file
  (`CalendarQueries.ExcludedDayIsFound`).  Exact: they agree just when the range meets rule and
  recurrence set alike, or the query's further conditions fail anyway
  (`CalendarQueries.AgreeJustWhen`).
- With a version of icalendar whose copies have no subcomponents, a range query with a
  condition on one never finds an occurrence in the file
  (`CalendarQueries.SubcomponentsAreForgotten`).
- A negated text match on CATEGORIES negates twice, so that it asks whether every category
  matches, not whether none does.  Exact (`PropertyQueries.NegatedCategoriesAgreeJustWhen`,
  `PropertyQueries.OnlyCategoryIsTurned`).
- An event without DTSTART ends the search for events in a range, so those after it are
  missed.  Exact where nothing recurs (`QueryViews.StartlessHides`).
- A sync report that is cut by a limit still ends with the newest token, so what is cut is
  lost.  Exact (`Sync.CutReportFallsShort`).
- The sync token of a collection never written to is refused as an old token until some
  client has made a first report.  Exact (`Sync.FreshTokenIsRefused`).
- Serialising joins parameters without escaping, so another attendee's participation status
  can be moved into the common name without the signature noticing
  (`SerializedValues.StatusCanBeHidden`).  One way: parameters without `=` in a name or `;` in
  a value, before values that are not what follows a colon in another, are told apart
  (`SerializedValues.SerializeTells`).  The first holds of all that is parsed.  That none of
  the three can be dropped is shown for every value with parameters to confuse
  (`SerializedValues.ParamsCanBeMerged`, `SerializedValues.NameCanBeLonger`,
  `SerializedValues.ParamsCanBeValue`).
- An attendee may add delegates, but an address counts as a new delegate even if it was an
  attendee before, so the entry of any other attendee can be rewritten by claiming it was
  delegated to (`AttendeeWrites.DelegationCoversRewrite`); where no attendee of old is so
  claimed, all entries of others survive (`AttendeeWrites.OldEntriesSurvive`).
- The cap on a message handed on by the milter counts the body only; headers are not bounded
  (`Milters.HeadersAreNotBounded`).  Exact (`Milters.OversizedJustWhen`).

## Model

| member | source | states |
|---|---|---|
| `Timelines.Timeline.AddPeriod` | xandikos/caldav.py:1255-1328 | inserting a non-empty period into an ordered timeline leaves it ordered, disjoint and non-empty; at every instant inside the period the mark is the winner of old and new, elsewhere it is unchanged |
| `Timelines.SortedIsOrdered` | xandikos/caldav.py:1327-1328 | sorting disjoint entries by start gives a timeline in time order that shows the same mark at every instant |
| `Timelines.ReconcilePlaces` | xandikos/caldav.py:1277-1320 | one turn of the loop, whichever of its four cases applies, has rewritten one more old entry and leaves exactly the rest of the new period to place |
| `Timelines.ReconcileFrames` | xandikos/caldav.py:1277-1320 | the moving bounds of the new period never run into entries still to come, and what is put out stays disjoint |
| `FreeBusyReports.TimelineToPeriods` | xandikos/caldav.py:1331-1353 | the report is sorted, disjoint, maximal and never FREE, and shows at every instant the timeline's type, FREE apart |
| `FreeBusyReports.ReportIsUnique` | xandikos/caldav.py:1331-1353 | two reports in that form that show the same types are the same list |
| `FreeBusyReports.LengthFits` | xandikos/caldav.py:1331-1353 | a report that lies in a window accounts for no more time than the window has |
| `Availability.ProcessVavailabilityComponents` | xandikos/caldav.py:1125-1252 | the report is in normal form and in the window, and at every instant of it shows BUSY if any covering component of the smallest priority says so since that priority's last AVAILABLE block there, else BUSY-UNAVAILABLE, else BUSY-TENTATIVE, else nothing; a type not given is BUSY-UNAVAILABLE, a priority not from 1 to 9 is 0 |
| `Availability.AddComponent` | xandikos/caldav.py:1176-1249 | one component, cut to the window, and its AVAILABLE blocks are laid over what the earlier ones left |
| `Availability.AddBlocks` | xandikos/caldav.py:1207-1249 | every AVAILABLE block frees, at its parent's priority, just the part of it inside parent and window |
| `Availability.FoldDecides` | xandikos/caldav.py:1262-1292 | laying marks over one another leaves the deciding one: of the numerically smallest priority, FREE if that is the last, else the highest-ranked busy type since the last FREE |
| `Availability.DeciderIsUnique` | xandikos/caldav.py:1262-1292 | the closed form names at most one mark |
| `Availability.FoldIsVerdict` | xandikos/caldav.py:1262-1292 | laying marks over one another leaves that verdict, in the three names and FREE, of any list of marks |
| `Availability.MarksAreTold` | xandikos/caldav.py:1176-1249 | the marks laid at an instant are those the components and blocks covering it tell, with default type, default end and the priorities that are read |
| `Availability.FoldIgnoresInterleaving` | xandikos/caldav.py:1174 | what is left depends only on the marks of each priority in their order, so sorting by priority changes nothing |
| `Availability.UndefinedPriorityWins` | xandikos/caldav.py:1146-1174 | the winner is of the foremost priority in the sense of the RFC just when no mark, or every mark, has priority 0 |
| `TimeRangeTables.VeventFollowsTable` | xandikos/icalendar.py:442-462 | on values of the types parsing gives, the test looked up for VEVENT gives what the VEVENT rows of section 9.9 of RFC 4791 say exactly when the event is not one whose DURATION is zero or less and that the range starts within |
| `TimeRangeTables.VtodoFollowsTable` | xandikos/icalendar.py:479-510 | likewise, the test gives what the VTODO rows say exactly when the range does not end at a CREATED that is all there is, nor meet only part of the time back from DTSTART to a DUE no later |
| `TimeRangeTables.VjournalFollowsTable` | xandikos/icalendar.py:465-476 | the test gives what the VJOURNAL rows say: at its date-time, or on the day of its date |
| `TimeRangeTables.DueAtStartIsMissed` | xandikos/icalendar.py:491-492 | a task due when it starts is missed by a range that starts then |
| `TimeRangeTables.OverlapIsShared` | xandikos/icalendar.py:442-462 | an event of some length passes just when it has an instant in common with the range |
| `TimeRangeTables.TimesAre` | xandikos/icalendar.py:93-98 | the first and last instant there can be, and the ends that count as open, counted out in days |
| `Recurrences.CandidatesAre` | xandikos/icalendar.py:2176-2191 | candidates are exactly the occurrences between the bounds, in order; with an open end at most 3000, and what is left out comes after them |
| `Occurrences.WideningLosesNothing` | xandikos/icalendar.py:2161-2191 | if the window is widened by no less than occurrences reach, an occurrence anywhere that overlaps the range lies in the inclusive widened window, timed or all-day |
| `Occurrences.NarrowWindowLoses` | xandikos/icalendar.py:2161-2191 | if it is not, every occurrence is lost to some range that it overlaps, as far as times can be written |
| `Occurrences.ConformingIsWide` | xandikos/icalendar.py:2012-2035 | components as RFC 5545 has them are always widened enough |
| `Expansion.Expander.PopOrCreate` | xandikos/icalendar.py:2205-2236 | an override of the occurrence is taken out of the exceptions, else an occurrence is made with start, end and RECURRENCE-ID moved |
| `Expansion.Expander.ExpandRruleComponent` | xandikos/icalendar.py:2129-2250 | exactly the overrides of the occurrences found are taken out, and the output grows by the overlapping instances in order |
| `Expansion.ExpandedIs` | xandikos/icalendar.py:2196-2250 | the output of the loop is exactly the overlapping instances, one per occurrence, none with a recurrence identifier twice |
| `Expansion.FoundIsBruteForce` | xandikos/icalendar.py:2253-2296 | what is found or left over is in the brute-force expansion, and all of that is found, left over, or cut off by the cap |
| `Expansion.CappedIsLost` | xandikos/icalendar.py:2178-2189 | what the cap cuts off is neither found nor left over |
| `Expansion.ExpandCalendarRrule` | xandikos/icalendar.py:2253-2296 | the loops give the expansion in its order, or raise just when some override cannot be tested |
| `Expansion.ExpansionMeetsBruteForce` | xandikos/icalendar.py:2253-2296 | the expansion has the copied components, each as often and in the order it was given, and of brute force (generate everything, substitute, add unmatched overrides, filter by overlap) just what the cap does not cut off; no identifier twice |
| `Expansion.RaisesJustWhen` | xandikos/icalendar.py:2206-2241 | every override is tested, in place of an occurrence or as left over, so one without DTSTART raises whatever the range |
| `Expansion.CapSparesOverrides` | xandikos/icalendar.py:2176-2191 | an overlapping override is never cut off, and an open query yields at most 3000 instances |
| `Expansion.CapCutsShort` | xandikos/icalendar.py:2178-2189 | of every rule with more than 3000 occurrences from the start of an open query on, the next one is cut off though it overlaps |
| `Expansion.DailyIsCutShort` | xandikos/icalendar.py:2178-2189 | a daily event, asked for without an end: its occurrence on day 3001 is missing from the output |
| `ExpandedFields.OccurrenceIs` | xandikos/icalendar.py:2154-2250 | whatever is in the output and was not in the calendar has its DTSTART and RECURRENCE-ID at one instant of the rule, a date if the master's is one, its DTEND and DUE as long after as the master's, no RRULE, EXRULE, UNTIL, RDATE or EXDATE, and every other property of the master as it is |
| `ExpandedFields.OriginalsAre` | xandikos/icalendar.py:2264-2296 | a component without RECURRENCE-ID is in the output as it was just when it is a time zone or has no RRULE |
| `ExpandedFields.OverridesAre` | xandikos/icalendar.py:2264-2296 | an override is in the output just when it overlaps the range and is the last with its RECURRENCE-ID |
| `Indexing.GetIndex` | xandikos/icalendar.py:1738-1788 | the worklist gives the values of all components on the key's path, in document order |
| `IndexedTimeRanges.RowAgrees` | xandikos/icalendar.py:811-869 | for one non-recurring VEVENT, VTODO or VJOURNAL the row rebuilt from columns gives the component's own answer whatever further keys there are, or none just when all columns are empty |
| `IndexedTimeRanges.SecondCandidateDecides` | xandikos/icalendar.py:1026-1059 | if an occurrence overlaps and two candidates come before it, the second overlaps too |
| `IndexedTimeRanges.CandidateDecides` | xandikos/icalendar.py:2160-2191 | some occurrence of the whole sequence overlaps just when some candidate does, capped or not |
| `IndexedTimeRanges.RecurringIndexIsExact` | xandikos/icalendar.py:871-1106 | for a plain recurring component the index answers yes just when some occurrence of its whole RRULE overlaps |
| `IndexedTimeRanges.IndexMatchesExpansion` | xandikos/icalendar.py:975-1106 | and just when expanding its RRULE over the range leaves anything |
| `FilterAgreement.IndexAgrees` | xandikos/icalendar.py:1240-1343 | on every calendar where columns cannot mix components up, the index answer of a nested filter is the file's, or is put off to the file; no key is missing |
| `FilterAgreement.PropAgrees` | xandikos/icalendar.py:1395-1446 | a property filter, negated or with text matches, has the same answer in its column as on the components |
| `FilterAgreement.IndexNeverMisses` | xandikos/icalendar.py:1302-1335 | for filters that only ask for what is there the index says yes wherever the file does, on every calendar |
| `FilterAgreement.MissingIsAlone` | xandikos/icalendar.py:1240-1276 | on a path where a component lacks a property its test needs, no other component there matches, so the exception hides no match |
| `FilterLimits.ColumnsDecide` | xandikos/icalendar.py:1302-1343 | without time ranges the index always decides, and its answer is a function of the calendar alone, so keys beyond those needed change nothing |
| `FilterLimits.NegatedComponentAgrees` | xandikos/icalendar.py:1248-1271 | the file's and the index's answers to "no such component" are the same just when there are subcomponents and all or none of them have the name |
| `FilterLimits.NoAlarmsIsMissed` | xandikos/icalendar.py:1248-1249 | an event without subcomponents, asked for having no alarm: the index says yes, the file no |
| `FilterLimits.SiblingsAreMixed` | xandikos/icalendar.py:1313-1335 | whatever the filter, if it puts conditions on two properties there are two components with which the index says yes and the file no |
| `FilterLimits.NegationIsMixed` | xandikos/icalendar.py:1313-1335 | whatever the negated property, there are two components with which the index says no and the file yes |
| `FilterLimits.TextsAreMixed` | xandikos/icalendar.py:1420-1446 | whatever the tests of one text, two values that together pass them and singly do not make the index say yes and the file no |
| `FilterLimits.ConditionsAreMixed` | xandikos/icalendar.py:1302-1335 | whatever the conditions, to any depth: where each is met by some component and all by none, the index says yes and the file no |
| `FilterLimits.SiblingsAgreeJustWhen` | xandikos/icalendar.py:1302-1335 | for property conditions with one test each, index and file agree just when some component meets all of them or one of them is met by none |
| `CalendarQueries.QueryAgrees` | xandikos/icalendar.py:1549-1600 | a whole query on a non-recurring calendar: the index of any keys that cover the query's gives the file's answer or puts it off |
| `RuleSets.AloneIsRule` | xandikos/icalendar.py:1925-2009 | without EXDATE, RDATE and EXRULE the recurrence set is the rule's |
| `CalendarQueries.FileIsSet` | xandikos/icalendar.py:1549-1579 | on a plain recurring component a range query holds of the file just when some occurrence of the recurrence set overlaps and the further conditions are met |
| `CalendarQueries.AgreeJustWhen` | xandikos/icalendar.py:1549-1600 | a range query with further conditions, on a calendar where one plain component recurs and time zones and others stand beside it: index and file agree just when the range meets rule and recurrence set alike or the conditions fail |
| `CalendarQueries.PlainAgrees` | xandikos/icalendar.py:1549-1600 | and outright where the recurrence set is the rule alone |
| `CalendarQueries.ExcludedDayIsFound` | xandikos/icalendar.py:1955-1978 | a daily meeting with one day taken out, asked for on that day: the index says yes, the file no |
| `CalendarQueries.SubcomponentsAreForgotten` | xandikos/icalendar.py:2155-2210 | if copies have no subcomponents, no condition on one is met by an occurrence |
| `PropertyQueries.TextMatchIs` | xandikos/icalendar.py:1164-1180 | a prop-filter with one text matches a component that has the property just when the text matches its value, or, negated, just when it does not; it never matches one that lacks the property |
| `PropertyQueries.PropRangeIs` | xandikos/icalendar.py:702-712 | a range on a property is met from its start to its end, both included |
| `PropertyQueries.AbsenceIs` | xandikos/icalendar.py:1395-1404 | a prop-filter that asks for absence matches just the components without the property, whatever else it holds |
| `PropertyQueries.CategoriesAre` | xandikos/icalendar.py:1164-1180 | a text match on CATEGORIES asks for some category that matches; negated, for every one to |
| `PropertyQueries.NegatedCategoriesAgreeJustWhen` | xandikos/icalendar.py:1169-1178 | so a negated one says that no category matches just when there is none, or some do and some do not |
| `PropertyQueries.OnlyCategoryIsTurned` | xandikos/icalendar.py:1169-1178 | of one category, a negated match finds the one it should leave out |
| `PropertyQueries.TextColumnIs` | xandikos/icalendar.py:1420-1446 | the index answers that prop-filter by whether some value in the column passes it |
| `PropertyQueries.RangeColumnIs` | xandikos/icalendar.py:714-728 | and a range on a property by whether some value in the column lies in it, both ends included |
| `PropertyQueries.TextQueryIs` | xandikos/icalendar.py:1549-1600 | a whole query for events by one text finds a calendar just when some event has the property and its text matches or, negated, does not; the index says the same |
| `PropertyQueries.PropRangeQueryIs` | xandikos/icalendar.py:1549-1600 | the same for one range on a property |
| `QueryViews.FirstRangeIs` | xandikos/icalendar.py:1537-1547 | the range of a query is the first of all time ranges in its component filters, outer before inner |
| `QueryViews.ViewIsCalendar` | xandikos/icalendar.py:1553-1562 | without a range, or where nothing has an RRULE or a RECURRENCE-ID, a query looks at the calendar as it is |
| `QueryViews.ViewIsExpansion` | xandikos/icalendar.py:1670-1696 | else at the expansion over that range; and this raises just when a last override with its identifier is a VEVENT or VJOURNAL without DTSTART |
| `QueryViews.StartlessHides` | xandikos/icalendar.py:1567-1579 | where nothing recurs, a range query for events finds a calendar just when some event meets the range and none before it lacks its DTSTART |
| `QueryViews.SetIs` | xandikos/icalendar.py:1925-2009 | the recurrence set has the instants of RRULE and the dates of RDATE, without those of EXDATE and EXRULE |
| `QueryViews.SearchedIs` | xandikos/icalendar.py:2012-2035 | an occurrence that is not of days is looked at just when it begins by the end of the range and lasts until its start, by DURATION, else DTEND, else DUE |
| `QueryViews.MeetingIsFound` | xandikos/icalendar.py:1549-1600 | a recurring event from DTSTART to DTEND is found by its file just when a time of its recurrence set, with its length, meets the range, and by its index just when a time of its RRULE does |
| `KeyManager.MemoryIndex.GetValues` | xandikos/store/index.py:61-72 | an unknown etag is KeyError, an unavailable key an assertion failure, else the values kept |
| `KeyManager.MemoryIndex.AddValues` | xandikos/store/index.py:77-82 | the etag's values enter the columns and nothing else changes |
| `KeyManager.AutoIndexManager.FindPresentKeys` | xandikos/store/index.py:99-128 | the keys to use, or None just when a list has none, with the missing ones wished for once more; popular ones become available by a reset |
| `KeyManager.AvailableGrows` | xandikos/store/index.py:99-128 | over any run of queries and handler loads keys only become available |
| `KeyManager.FallbacksAreBounded` | xandikos/store/index.py:99-128 | over any run, whatever is interleaved, one filter falls back to the naive scan at most threshold + 1 times |
| `KeyManager.RunManager` | xandikos/store/index.py:99-128 | the same of the manager itself: its calls go through the states of the run, and None is returned that often at most |
| `Stores.MemoryStore.IterWithFilterNaive` | xandikos/store/__init__.py:373-384 | every item of the content type whose file the filter holds for, in store order |
| `Stores.MemoryStore.ValuesFor` | xandikos/store/__init__.py:392-421 | the values used are those of the item's own file, for at least the keys needed; the item is in the index afterwards |
| `Stores.MemoryStore.Holds` | xandikos/store/__init__.py:392-440 | the index, or the file where it does not decide, gives the file's answer, and no assertion fails |
| `Stores.MemoryStore.IterWithFilterIndexes` | xandikos/store/__init__.py:386-440 | the answer is the naive scan's list in its order, no assertion fails, and all that was looked at is indexed |
| `Stores.MemoryStore.IterWithFilter` | xandikos/store/__init__.py:355-371 | with or without the index the answer is the naive scan's, and keys only become available |
| `Stores.MemoryStore.LoadExtraFileHandler` | xandikos/store/__init__.py:321-327 | the handler's default keys become available |
| `Stores.MemoryStore.CheckDuplicate` | xandikos/store/memory.py:76-92 | refused exactly when another item has the UID or the etag is not the current one |
| `Stores.MemoryStore.ImportOne` | xandikos/store/memory.py:94-137 | a refused import changes nothing, an accepted one stores the file in its normal form under a fresh etag; maps and index stay true |
| `Stores.MemoryStore.DeleteOne` | xandikos/store/memory.py:139-163 | a refused delete changes nothing, an accepted one removes the item and its UID |
| `Stores.ImportedIsWritten` | xandikos/store/memory.py:76-137 | an invalid file, a UID that an item of another name has, and an etag that the item does not have or that no item has are refused in this order and change nothing; else the one item of that name is what was given, in its normal form, under a new etag, and no other item changes |
| `Stores.DeletedIsGone` | xandikos/store/memory.py:139-163 | no such item, or an etag it does not have, is refused and changes nothing; else it is gone and no other item changes |
| `Stores.MemoryStore.Run` | xandikos/store/__init__.py:321-440 | over any run of imports, deletes, queries and handler loads every reply is that of a store without an index, and the key manager goes through the events of the run |
| `Stores.RunKeepsUids` | xandikos/store/memory.py:76-163 | over any run no two items share a name, nor a UID where that is asked for |
| `Stores.UidMapIsScan` | xandikos/store/memory.py:76-92 | asking the UID map is asking all items |
| `CalendarStores.CalendarQueryIsSound` | xandikos/store/__init__.py:386-440 | calendar queries meet the store's condition on every calendar they can be compared on |
| `CalendarStores.RangeQueryIsSound` | xandikos/store/__init__.py:386-440 | so do range queries with further conditions, on calendars where one plain component recurs and the range meets its rule and its recurrence set alike |
| `CalendarStores.CalendarRunIsSound` | xandikos/store/__init__.py:321-440 | a run whose queries can be compared on the calendars then held meets the condition of the run theorem, so a store of calendars answers it as without an index |
| `CalendarStores.QueryLists` | xandikos/store/__init__.py:373-384 | a calendar query lists just the items of type text/calendar that it holds of |
| `GitStores.GitStore.IterChanges` | xandikos/store/git.py:651-679 | the difference of two stored trees, or an error when one is not stored |
| `GitStores.DiffIs` | xandikos/store/git.py:651-679 | the difference names every visible entry that differs once, with old and new blob, and nothing else |
| `GitStores.GitStore.ScanUids` | xandikos/store/git.py:456-493 | the incremental scan installs the maps a full rescan would |
| `GitStores.ScanFindsTaken` | xandikos/store/git.py:365-382 | while UIDs are unique the scanned map tells exactly whether another entry has one |
| `GitStores.GitStore.CheckDuplicate` | xandikos/store/git.py:365-382 | refused exactly when another visible entry has the UID or the etag is not the current one |
| `GitStores.GitStore.ImportOne` | xandikos/store/git.py:384-441 | invalid content, a taken UID or a wrong etag leaves trees and ref alone; else the tree with the content in its normal form is stored and pointed to; UIDs stay unique |
| `GitStores.GitStore.DeleteOne` | xandikos/store/git.py:811-849 | likewise for a delete |
| `GitStores.ImportKeepsUnique` | xandikos/store/git.py:365-382 | an import that finds its UID free keeps UIDs unique |
| `Sync.ReportStatuses` | xandikos/sync.py:121-139 | one response per change: 404 for what is gone, the getetag where it differs |
| `Sync.ReportUpdatesMirror` | xandikos/sync.py:94-144 | replaying a report turns a mirror of the old snapshot into one of the new |
| `Sync.ClientsStaySynced` | xandikos/sync.py:94-144 | over any run, with imports, deletes and the halves of reports interleaved at will, every client mirrors the collection at its token, no report is refused, no two items share a UID |
| `Sync.ReportCatchesUp` | xandikos/sync.py:94-144 | a report that nothing interrupts leaves the client with the current collection |
| `Sync.TokensStayValid` | xandikos/store/git.py:722-734 | a token that can be looked up once can be ever after, as the same tree |
| `Sync.FreshTokenIsRefused` | xandikos/store/git.py:694-734 | while nothing was ever committed, the token read from the collection is accepted just when some tree was stored |
| `Sync.CutReportFallsShort` | xandikos/sync.py:106-144 | replaying the first n changes gives the snapshot of the token just when there are no more than n |
| `Sync.Run` | xandikos/store/git.py:651-849 | running events against the store does what the state machine does |
| `Sync.Report` | xandikos/web.py:563-585 | the second half of a report on the store: differences since the old token up to the one read before, or refusal |
| `Orders.SortIsCanonical` | xandikos/itip.py:182-188 | sorting forgets the order of a list and nothing else |
| `Orders.LexIsTotal` | xandikos/itip.py:182-188 | the order lists compare by is total where that of their elements is |
| `SignatureStreams.StreamIsInjective` | xandikos/itip.py:190-204 | for NUL-free values the hashed stream determines the sorted components |
| `Signatures.ExtractSchedulingSignature` | xandikos/itip.py:143-205 | the loops feed exactly the stream of the canonical form |
| `Signatures.CanonicalIsMeaning` | xandikos/itip.py:143-188 | sorting values in properties in components gives equal forms just when the nested multisets are equal |
| `Signatures.StreamIsMeaning` | xandikos/itip.py:143-205 | the stream is blind to every order, and for NUL-free values two calendars have one stream just when they have one meaning, as nested multisets of serialised values |
| `SerializedValues.SerializeTells` | xandikos/itip.py:98-112 | with clear parameters and separate values, two values are serialised alike just when value and parameters are the same |
| `SerializedValues.StatusCanBeHidden` | xandikos/itip.py:98-112 | two calendars with unlike parameters and the same stream, for any attendee |
| `SerializedValues.ParamsCanBeMerged` | xandikos/itip.py:98-112 | every value with two parameters is serialised like one with a single parameter that has a semicolon in it |
| `SerializedValues.NameCanBeLonger` | xandikos/itip.py:98-112 | a parameter with an equals sign in its value is serialised like one with it in its name |
| `SerializedValues.ParamsCanBeValue` | xandikos/itip.py:98-112 | every value with parameters is serialised like one without that has them before a colon |
| `SchedulingContents.StreamIsContent` | xandikos/itip.py:143-205 | equal contents give equal streams; of clear and separate calendars the stream tells every scheduling component by name, UID and RECURRENCE-ID, with the values and parameters of every scheduling property |
| `WriteRefusals.ChangeIsNoticed` | xandikos/itip.py:56-88 | a change of any one of the 23 properties listed, in an event, task or journal entry, changes the stream of clear and separate calendars |
| `WriteRefusals.OtherChangeIsNot` | xandikos/itip.py:161-163 | a change of any other property does not |
| `WriteRefusals.StreamByLetter` | xandikos/itip.py:98-205 | the stream of an event with one property, byte by byte |
| `AttendeeWrites.DelegatesOf` | xandikos/web.py:1665-1690 | the addresses of scheduling components whose DELEGATED-FROM names the user |
| `AttendeeWrites.RefuseWrite` | xandikos/web.py:1319-1345 | a write is refused exactly when the user was attendee and not organiser, and the calendars differ beyond the user's liberties |
| `AttendeeWrites.AcceptedWriteKeeps` | xandikos/web.py:1364-1399 | where serialising tells values apart, a write passes exactly when old and new have the same scheduling components, one for one, with the same values and parameters of every scheduling property, but for the parameters of the user's own ATTENDEE entries and the entries of new delegates |
| `AttendeeWrites.OthersEntriesAreKept` | xandikos/web.py:1364-1399 | with such an ATTENDEE field the entries of all others are the same, with all their parameters |
| `AttendeeWrites.OldEntriesSurvive` | xandikos/web.py:1364-1399 | where the new delegates are none of an old field's attendees, its entries of all others are still there |
| `AttendeeWrites.DelegationCoversRewrite` | xandikos/web.py:1319-1322 | otherwise they need not be: any parameters of another attendee can be replaced |
| `AttendeeWrites.AllowedWriteIsAccepted` | xandikos/web.py:1364-1399 | a write that changes no more than that passes, whatever the values |
| `WriteRefusals.AttendeeChangeIsRefused` | xandikos/web.py:1364-1399 | a write by one who was attendee and not organiser, over a clear and separate calendar that it changes in any one of the 22 properties listed, is refused |
| `WriteRefusals.OwnReplyIsNotRefused` | xandikos/web.py:1364-1399 | a write that changes no more than parameters of the user's own ATTENDEE entries is never refused |
| `WriteRefusals.OrganiserIsNotRefused` | xandikos/web.py:1340-1345 | nor is any write by the organiser of old |
| `WriteRefusals.StrangerIsNotRefused` | xandikos/web.py:1340-1345 | nor by one who was no attendee |
| `Octets.Eol` | xandikos/webdav.py:3348-3357 | a line ends at the first CRLF |
| `ChunkSizes.SizeIsRead` | xandikos/webdav.py:3374-3379 | any hexadecimal size, its digits taken from the tables of lower and upper case, with any extension after it, is read as the size it spells |
| `ChunkSizes.HexOfIsRead` | xandikos/webdav.py:3374-3379 | every size can be written, each digit in either case, and is read |
| `ChunkSizes.PaddedIsRead` | xandikos/webdav.py:3374-3379 | white space on either side is passed over |
| `ChunkSizes.PrefixIsRead` | xandikos/webdav.py:3374-3379 | so is a prefix 0x or 0X |
| `ChunkSizes.SignIsRead` | xandikos/webdav.py:3374-3379 | a sign is taken for one, so that a size can be negative |
| `ChunkSizes.UnderscoreIsRead` | xandikos/webdav.py:3374-3379 | an underscore between digits is passed over |
| `ChunkSizes.OtherEndIsRefused` | xandikos/webdav.py:3374-3379 | a line that ends in anything but a digit or white space is no size |
| `ChunkedBodies.DecodeInvertsEncode` | xandikos/webdav.py:3359-3416 | for any non-empty chunks with any extensions and trailers, decoding gives the payload and leaves just what follows the body |
| `ChunkedBodies.OneChunkIsDecoded` | xandikos/webdav.py:3359-3416 | a body of one chunk with an extension, letter by letter, is read as its ten bytes |
| `ChunkedBodies.CutIsNoticed` | xandikos/webdav.py:3341-3357 | a body that breaks off anywhere is never taken for a whole one, and what is read of it is a start of the payload |
| `ChunkedReaders.ChunkedReader.ReadLine` | xandikos/webdav.py:3348-3357 | the line up to the first CRLF, read byte by byte, or an error at the end of the stream |
| `ChunkedReaders.ChunkedReader.NextChunk` | xandikos/webdav.py:3366-3391 | the next chunk, the end of the body with its trailers skipped, or the error there is |
| `ChunkedReaders.ChunkedReader.ReadData` | xandikos/webdav.py:3393-3412 | part of a chunk, with the line break after it if it is the last |
| `ChunkedReaders.ChunkedReader.Read` | xandikos/webdav.py:3359-3416 | on any stream: min(size, remaining) bytes, what was not given out is still to come, an error exactly when the stream cannot satisfy the read; a short read only at the end of the body |
| `ChunkedReaders.ReadEach` | xandikos/webdav.py:3359-3416 | any sequence of reads cuts the payload at their sizes, and once it is used up exactly the body has been taken off the stream |
| `ChunkedReaders.CutIsPayload` | xandikos/webdav.py:3359-3416 | those pieces make up the payload as far as the sizes go |
| `ChunkedReaders.ReadBody` | xandikos/webdav.py:2389-2405 | the chunks joined are the payload, all but the last of 64 KiB; a broken body is an error |
| `Frames.ReadInvertsWrite` | xandikos/milter.py:362-386 | a written frame is read back, unless it is over 4 MiB, and then that is noticed |
| `Frames.FrameByByte` | xandikos/milter.py:385-386 | a frame is four bytes of length, the highest first, that count its command and its data; then the command; then the data |
| `Frames.WriteInvertsRead` | xandikos/milter.py:362-386 | what is read as a frame was written as one |
| `Milters.HeaderIsParsed` | xandikos/milter.py:393-398 | name and value of a header frame are taken apart at the NULs |
| `Milters.LineOfHeader` | xandikos/milter.py:401-412 | the line of a header is its name, a colon, a blank, its value and CRLF |
| `Milters.TermsAreCommon` | xandikos/milter.py:429-444 | a negotiation agrees on the lower version, no actions, and just the flags both sides have |
| `Milters.TermsByNumber` | xandikos/milter.py:429-444 | by number: at most version 6, action bits 0, and of the flags the bits 0, 1, 2, 8 and 9 that both have |
| `Milters.ReplyByLetter` | xandikos/milter.py:428-507 | the reply to each command by its letter: O to O, a to E, c to any other, none to D and A; Q, K and a short O end the conversation |
| `Milters.StateIsSince` | xandikos/milter.py:415-507 | what is kept of a transaction is what came since the last MAIL, end of body or abort, and it counts as too large just when its body is |
| `Milters.BodyIsBounded` | xandikos/milter.py:471-484 | whatever frames come, at most 8 MiB of body are held |
| `Milters.ResetForgets` | xandikos/milter.py:415-507 | after a reset, what is handed on does not depend on what came before |
| `Milters.TransactionHandsOn` | xandikos/milter.py:452-494 | a transaction hands on its own message, reassembled, with its recipients; nothing just when its body is too large |
| `Milters.MessageByLetter` | xandikos/milter.py:452-494 | one sender, recipient, header and body, letter by letter: the message handed on, or none when the body is over 8 MiB |
| `Milters.OneReplyEach` | xandikos/milter.py:428-507 | the other side reads one reply for every command but macros and aborts, which get none |
| `Milters.AllAreTaken` | xandikos/milter.py:415-427 | all frames of a well-formed stream are acted on |
| `Milters.HeadersAreNotBounded` | xandikos/milter.py:465-470 | with enough headers a message of more than any size is handed on |
| `Milters.OversizedJustWhen` | xandikos/milter.py:471-494 | a transaction hands on a message over the cap just when its body is not over it and with the headers it is |
| `MilterConnections.Transaction.Take` | xandikos/milter.py:452-484 | one frame takes the transaction to its next state, and its body stays within the bound |
| `MilterConnections.ReassembleMessage` | xandikos/milter.py:401-412 | the buffer is the headers, a blank line and the body |
| `MilterConnections.Conversation.Handle` | xandikos/milter.py:428-507 | one frame: its answer, what it hands on, and the next state |
| `MilterConnections.Conversation.HandleConnection` | xandikos/milter.py:415-507 | on any bytes the answers, the messages handed on and the state left are those of the frames in them |

## Left out

- XML, HTTP, WSGI, property and reporter classes, HTML, SMTP and LMTP, push, certificates and passwords: input and output around the parts modelled.
- Parsing of iCalendar text and of recurrence rules, the time-zone database, SHA hashing and the object store itself: abstract functions and ids.
- Availability.ProcessVavailabilityComponents: the window and every period are taken to start before they end, and PRIORITY to be already an integer or unreadable, which counts as 0.
- `_clip_period_to_window` and the recurrences of AVAILABLE blocks (`process_available_components`): not part of this model.
- Expansion.ExpandCalendarRrule: at most one recurring component, and one that is widened enough (`Occurrences.Wide`); several UIDs share overrides by time only in the code. Overrides are of components whose time-range test is modelled.
- TimeRangeTables.VeventFollowsTable, and the lemmas beside it: property values are taken to be of the types that parsing gives them.
- TimeRangeTables.VtodoFollowsTable: the tables have no row for a task with DUE and DURATION both; it is read as one with neither.
- How rules are read, RRULE UNTIL and the types of EXDATE and RDATE values: `RuleSets.GoodParser` says only that what is read is increasing and that the recurrence set is what RRULE and RDATE give and EXDATE and EXRULE do not take away.
- CalendarQueries.Check: a MissingProperty raised by the expansion counts as not matching, where in the code it ends the query; `QueryViews.ViewIsExpansion` says when it is raised, and no other theorem on queries is about a calendar on which it can be.
- Overrides in range queries on the index: calendars with overrides are excluded from the agreement of recurring components (`CalendarQueries.Lone`), the index never seeing them.
- Times with a TZID and floating times: the index stores wall-clock text for them, so the agreement theorems are about UTC.
- IndexedTimeRanges.RecurringIndexIsExact: components that do not conform to RFC 5545, all-day events with DTEND, zero-length DTEND, VJOURNAL and overrides are excluded, because the index can answer differently there; what ends before it starts is taken to recur within the times that can be written.
- FilterAgreement.IndexAgrees: negated component filters, several components on one path under several conditions, and time ranges on recurring components are excluded; `FilterLimits` says what holds there instead, and `CalendarQueries.PlainAgrees` of the last.
- Time ranges on VCALENDAR, VFREEBUSY, VALARM, VAVAILABILITY and AVAILABLE, parameter filters, and the text of collations.
- Properties with several values: a component holds at most one value per property.
- Stores.MemoryStore.Run: calls one after another, each query read to its end, and files that can be parsed; a store that is never told to index eagerly.
- Replacing one file handler by another for the same content type: only the keys it adds are modelled.
- GitStores.GitStore.ImportOne: the name's extension is taken to give the content type that is parsed, and normalising to keep the UID; commit messages, locks and authors are not modelled.
- `TreeGitStore` with its working tree and index file, `VdirStore`, and the cached tree of the bare store.
- Concurrent imports: check and commit are one step.
- A sync report with `limit` beyond `Sync.CutReportFallsShort`, sync level infinite, and properties other than getetag.
- AttendeeWrites.AcceptedWriteKeeps: streams stand for their digests, which are taken not to collide; nothing holds a NUL, no RECURRENCE-ID a colon, and parameters and values are such that serialising tells them apart, as above; without that, only `Signatures.StreamIsMeaning` holds. Names of components and fields are in upper case. The removal of SCHEDULE-FORCE-SEND from the calendar and the sending of messages are not modelled.
- A negative read size of the chunked reader, and streams that give fewer bytes than asked for before their end.
- MilterConnections.Conversation.HandleConnection: the decoding of text is any function from bytes to bytes; the handler's own work, connection resets and closing are not modelled.
