# Verified models of Zed's consent codec, issue bots and editor algorithms

This project models the parts of the Zed repository whose correctness rests on more than one function, and proves what
they are for. `dafny verify dfyconfig.toml` checks all of it.

**The consent-string codec** (IAB Tech Lab, "Transparency and Consent String with Global Vendor & CMP List Formats",
version 2; the alphabet is that of section 5 of RFC 4648), from the bundle the documentation site ships. Bits are
booleans, and vectors are classes with the fields that the bundle updates. Everything is built up to the round trip of a
whole string: `TcfBits` (integers, flags, dates, languages), `TcfBase64Url`, `TcfVector` (`H` and `ne`), `TcfVendors`
(`ce`, with its choice between ranges and a bit field), `TcfRestrictions` (`Ve`), `TcfFields` (the encoder of each field
and the field loops of `ze`), `TcfSegments` (`ze` and `bt`), `TcfSecondPass` (what was decoded, encoded again),
`TcfLayout` (where everything stands in the bits) and `TcfReading` (what is read from any string). For each loop there
is a method proved equal to a function, and the theorems are about the functions.

**The duplicate-issue bot.** `DuplicateReport` prints the report in the order that `ReportOrder` proves,
`ReportRoundTrip` and `ReportAreas` parse it back, `CandidateSelection` reserves quotas for search channels, and
`SearchIndex` merges search results.

**Editor algorithms.** `DiffExcerpts` merges ranges, `SkillNames` makes and validates names (out of words, by
`SkillWords`), `Frontmatter` finds the end of a skill file's frontmatter, and `TerminalOutput` cuts UTF-8 (section 4 of
RFC 3629) to a byte limit.

**Protocols over time.** `GuildSweep` is the nudge, reply and clear protocol as a state machine over a log of events,
`TriageQueue` the window of eligible days and the board kept equal to it, and `TriageStatus` the derivation of an
issue's triage state.

**A migration.** `ThreadMigration` folds tool results into the message before them.

`Outcomes`, `Sequences`, `Keyed` and `Text` hold what several modules need.

## What the code does other than its comments and documents say

- A consent model whose CMP id is 0 or 1, which includes a new model, encodes to a string that cannot be decoded: the
  setter of the decoded model refuses the value (`TcfSegments.NewModelIsLost`). The bundle's own `generateTCString` sets
  the CMP id through that setter before it encodes, so it does not reach this case. Otherwise the decoding of an encoded
  string fails only where no segments were encoded, which gives the empty string, or where the first is not the core and
  the model decoded into is of another version than 2 (`TcfSegments.TcStringRoundTrip`).
- A publisher restriction without vendors is written but does not come back, so a second pass through the codec gives
  another string. It gives the same string in every other case (`TcfSecondPass.SecondPass`).
- A vendor vector within 16-bit ids cannot be encoded when its ids are 4096 isolated ones reaching to 65533 or beyond:
  the budget then still picks ranges, whose count does not fit 12 bits (`TcfVendors.VendorsEncodable`).
- An issue created on a weekend is not eligible on the Tuesday after it, although a whole business day, the Monday, has
  elapsed (`TriageQueue.WindowEnd`, `TriageQueue.WeekendIssueWaits`).
- Every channel's quota is kept from limit 6 on, and not below (`CandidateSelection.QuotasNotHonoured`). The two callers
  pass the limits 30 and 10, so none reaches this case.
- A Guild assignee's reply with the very time stamp of the check-in does not count as a reply
  (`GuildSweep.ClearedExactly`, `GuildSweep.SimultaneousReply`); in the same way a user's reply with the time stamp of
  the question is not seen (`TriageStatus.ReplyInTheSameSecond`).
- The migration's debug assertion does not prevent loss: of two result-carrying messages in a row only the second's
  results are left (`ThreadMigration.SecondCarrierReplacesFirst`).

## Model

| member | source | states |
|---|---|---|
| TcfBits.ToBinaryFits | docs/theme/c15t@2.0.0-rc.3.js:1 | a number's binary text fits `t` places exactly when the number is below 2^t |
| TcfBits.ValueOfInjective | docs/theme/c15t@2.0.0-rc.3.js:1 | bit strings of one length with one value are the same, so a decoded integer determines its bits |
| TcfBits.EncodeIntText | docs/theme/c15t@2.0.0-rc.3.js:1 | `L.encode`: fails exactly on integers that are negative or too wide, and otherwise writes exactly `t` bits with that value |
| TcfBits.IntRoundTrip | docs/theme/c15t@2.0.0-rc.3.js:1 | an integer written anywhere in a bit string is read back from there |
| TcfBits.LangRoundTrip | docs/theme/c15t@2.0.0-rc.3.js:1 | of a language code the first two letters come back, in upper case |
| TcfBase64Url.DictInverse | docs/theme/c15t@2.0.0-rc.3.js:1 | the dictionary and the reverse dictionary of `pe` are inverse to each other |
| TcfBase64Url.DecodeEncode | docs/theme/c15t@2.0.0-rc.3.js:1 | decoding an encoded bit string gives it back with zeros up to a multiple of 24 bits |
| TcfBase64Url.EncodeDecode | docs/theme/c15t@2.0.0-rc.3.js:1 | encoding a decoded text gives it back with `A`s up to a multiple of 4 characters |
| TcfBase64Url.EncodeText | docs/theme/c15t@2.0.0-rc.3.js:1 | `pe.encode`, its padding loop and its loop over six bits each, equals the function of the round trips |
| TcfBase64Url.DecodeText | docs/theme/c15t@2.0.0-rc.3.js:1 | `pe.decode` equals the function of the round trips, failing exactly on an empty text and on characters outside the alphabet |
| TcfVector.Vector.Set | docs/theme/c15t@2.0.0-rc.3.js:1 | adds one id and keeps `maxId_` the greatest; ids below 1 are refused |
| TcfVector.Vector.Unset | docs/theme/c15t@2.0.0-rc.3.js:1 | removes an id; the search for the new greatest id restores the invariant |
| TcfVector.FixedRoundTrip | docs/theme/c15t@2.0.0-rc.3.js:1 | a fixed-width vector gives back exactly the ids within the width |
| TcfVector.DecodeFixedText | docs/theme/c15t@2.0.0-rc.3.js:1 | `ne.decode`: refuses another length, else the vector of the positions of set bits |
| TcfVendors.RunsCover | docs/theme/c15t@2.0.0-rc.3.js:1 | the ranges recorded up to an id, with the one still open, stand for exactly the ids up to it |
| TcfVendors.RunsSeparated | docs/theme/c15t@2.0.0-rc.3.js:1 | the ranges are maximal and in order, with an absent id next to each and between any two |
| TcfVendors.BudgetIsCost | docs/theme/c15t@2.0.0-rc.3.js:1 | what the budget variable holds at every id in terms of the ranges so far |
| TcfVendors.BudgetMonotone | docs/theme/c15t@2.0.0-rc.3.js:1 | the budget never falls |
| TcfVendors.FormChoice | docs/theme/c15t@2.0.0-rc.3.js:1 | above id 45 ranges are chosen exactly when they cost at most 15 bits, and one per single id, more than the bit field |
| TcfVendors.EncodedLength | docs/theme/c15t@2.0.0-rc.3.js:1 | the encoding has exactly the length of the form chosen |
| TcfVendors.RangeOverflow | docs/theme/c15t@2.0.0-rc.3.js:1 | ranges are chosen and overflow their 12-bit count exactly for 4096 single ids reaching to 65533 or beyond, so never up to 65532 |
| TcfVendors.VendorsEncodable | docs/theme/c15t@2.0.0-rc.3.js:1 | encoding fails exactly above id 65535, or on 4096 isolated ids that reach to 65533 or beyond |
| TcfVendors.UnencodableVendors | docs/theme/c15t@2.0.0-rc.3.js:1 | the first 4095 odd numbers together with 65533 are such a set of 16-bit ids |
| TcfVendors.VendorsRoundTrip | docs/theme/c15t@2.0.0-rc.3.js:1 | whatever form was chosen and whatever bits follow, decoding recovers the ids and stops at the last bit |
| TcfVendors.EncodeVendorsText | docs/theme/c15t@2.0.0-rc.3.js:1 | the one loop of `ce.encode` that grows both forms and skips the ranges above budget equals the encoding of the round trip |
| TcfVendors.DecodeVendorsText | docs/theme/c15t@2.0.0-rc.3.js:1 | `ce.decode` with its cursor: the vector holds the decoded ids, its greatest id and the number of bits read |
| TcfRestrictions.GroupsCover | docs/theme/c15t@2.0.0-rc.3.js:1 | entry by entry, all vendors so far are covered and nothing else that the vendor list has |
| TcfRestrictions.WidenedIsExact | docs/theme/c15t@2.0.0-rc.3.js:1 | the entries of a restriction cover its ids, and any other id they cover is not on the vendor list |
| TcfRestrictions.WidenedMeaning | docs/theme/c15t@2.0.0-rc.3.js:1 | the entries cover, besides the ids, exactly what lies between neighbouring ids that have no listed id between them, but one from the second to the greatest id |
| TcfRestrictions.WidenedIsSame | docs/theme/c15t@2.0.0-rc.3.js:1 | they cover no other ids exactly when all such neighbours are adjacent |
| TcfRestrictions.EntryCount | docs/theme/c15t@2.0.0-rc.3.js:1 | there are as many entries as ids that are not so joined to the one before |
| TcfRestrictions.EntriesFit | docs/theme/c15t@2.0.0-rc.3.js:1 | the entries of a restriction fit 16 bits exactly when its ids do |
| TcfRestrictions.RestrictionsRoundTrip | docs/theme/c15t@2.0.0-rc.3.js:1 | decoding encoded restrictions gives the recovered ones and stops at the last bit, whatever follows |
| TcfRestrictions.RecoveredIsExact | docs/theme/c15t@2.0.0-rc.3.js:1 | the recovered restrictions have the same keys in order, save those without vendors, all of their vendors, and on the vendor list no others |
| TcfRestrictions.RecoveredIsSame | docs/theme/c15t@2.0.0-rc.3.js:1 | they are recovered unchanged exactly when none is without vendors and in none two ids apart from each other share an entry |
| TcfRestrictions.EncodeGroups | docs/theme/c15t@2.0.0-rc.3.js:1 | the loop of `Ve.encode` with the start of the entry in progress writes exactly those entries, and counts them |
| TcfRestrictions.EncodeRestrictionsText | docs/theme/c15t@2.0.0-rc.3.js:1 | `Ve.encode` equals the encoding of the round trip, in values and in failures |
| TcfRestrictions.PurposeRestrictionVector.AddRange | docs/theme/c15t@2.0.0-rc.3.js:1 | adds the ids of one range to one restriction, a new one last, and leaves the others as they are |
| TcfRestrictions.DecodeRestrictionsText | docs/theme/c15t@2.0.0-rc.3.js:1 | `Ve.decode` with its two nested loops equals the decoding of the round trip |
| TcfFields.FieldRoundTrip | docs/theme/c15t@2.0.0-rc.3.js:1 | whatever follows, decoding an encoded field at the cursor gives what is kept of it and the cursor behind it |
| TcfFields.KeptIsCanonical | docs/theme/c15t@2.0.0-rc.3.js:1 | an encodable value is kept unchanged exactly if it is a date in tenths of a second, two capital letters, ids within the width, restrictions with vendors and no joined ids apart from each other, or of another kind |
| TcfFields.FieldEncodable | docs/theme/c15t@2.0.0-rc.3.js:1 | for each kind of field, the values that are encoded, exactly: integers and dates within the width, two ASCII letters, 16-bit vendor ids but for the 4096 isolated ones, restrictions of 16-bit ids of which fewer than 4096 begin an entry |
| TcfFields.FieldsRoundTrip | docs/theme/c15t@2.0.0-rc.3.js:1 | decoding an encoded sequence of fields recovers all of them, though the widths of two are read on the way; it fails exactly on a CMP id below 2 |
| TcfFields.EncodeFieldsText | docs/theme/c15t@2.0.0-rc.3.js:1 | the field loop of `ze.encode` equals the encoding of the round trip, and turns every failure into an encoding error |
| TcfFields.DecodeFieldsText | docs/theme/c15t@2.0.0-rc.3.js:1 | the field loop of `ze.decode` equals the decoding of the round trip |
| TcfSegments.SegmentTypeRoundTrip | docs/theme/c15t@2.0.0-rc.3.js:1 | the first three bits of an encoded segment identify it, the core's being those of version 2 |
| TcfSegments.SegmentRoundTrip | docs/theme/c15t@2.0.0-rc.3.js:1 | decoding an encoded segment recovers all of its fields, the padding notwithstanding |
| TcfSegments.TcStringEncodable | docs/theme/c15t@2.0.0-rc.3.js:1 | a model is encoded exactly when there are no segments, or it is of version 2 and every field carried is within its limits |
| TcfSegments.EmptyModel | docs/theme/c15t@2.0.0-rc.3.js:1 | for every list of segments, the constructor's model with a CMP id set is encoded, and decoding recovers every field carried |
| TcfSegments.NewModelIsLost | docs/theme/c15t@2.0.0-rc.3.js:1 | the constructor's model, with CMP id 0, is encoded to a string that decoding refuses |
| TcfSegments.TcStringRoundTrip | docs/theme/c15t@2.0.0-rc.3.js:1 | decoding an encoded string recovers the fields of its segments and leaves the others; it fails exactly without segments, without a core in front into a model of another version, and on a CMP id below 2 |
| TcfSegments.FreshRoundTrip | docs/theme/c15t@2.0.0-rc.3.js:1 | decoded into a new model, every field carried has its kept value, which is the original exactly if that is canonical |
| TcfSecondPass.WidenedOnce | docs/theme/c15t@2.0.0-rc.3.js:1 | compression adds nothing to restrictions it has widened |
| TcfSecondPass.SameEntries | docs/theme/c15t@2.0.0-rc.3.js:1 | the widened ids are written as the same entries as the original ones |
| TcfSecondPass.SameRestrictions | docs/theme/c15t@2.0.0-rc.3.js:1 | recovered restrictions are encoded to the same bits exactly if no restriction was without vendors |
| TcfSecondPass.KeptForGood | docs/theme/c15t@2.0.0-rc.3.js:1 | what is kept of an encodable value can be encoded and is kept unchanged |
| TcfSecondPass.SecondPass | docs/theme/c15t@2.0.0-rc.3.js:1 | a decoded model is encoded to the very same string exactly if the string carries no restriction without vendors |
| TcfLayout.VendorsLayout | docs/theme/c15t@2.0.0-rc.3.js:1 | a vendor vector is the greatest id in 16 bits, a form bit, and one bit each or a 12-bit count and the maximal ranges; the form bit is set exactly above id 45 when ranges cost at most 15 bits, and one per single id, more |
| TcfLayout.RestrictionsLayout | docs/theme/c15t@2.0.0-rc.3.js:1 | restrictions are a 12-bit count and, for each, 6 bits of purpose, 2 of type, a 12-bit count and the entries |
| TcfLayout.CoreLayout | docs/theme/c15t@2.0.0-rc.3.js:1 | which value of the model stands at which bit of an encoded core, at offsets 0 to 213 and behind, up to the padding |
| TcfLayout.PublisherLayout | docs/theme/c15t@2.0.0-rc.3.js:1 | which value stands at which bit of the publisher's segment, behind its type 3 |
| TcfLayout.DisclosedLayout | docs/theme/c15t@2.0.0-rc.3.js:1 | the segment of vendors disclosed is type 1 and one vendor vector |
| TcfLayout.AllowedLayout | docs/theme/c15t@2.0.0-rc.3.js:1 | the segment of vendors allowed is type 2 and one vendor vector |
| TcfLayout.LettersOfBits | docs/theme/c15t@2.0.0-rc.3.js:1 | each character stands for six bits, by the table of RFC 4648 |
| TcfLayout.CoreBeginsWithC | docs/theme/c15t@2.0.0-rc.3.js:1 | the text of a core begins with "C" |
| TcfBits.FirstBitCountsMost | docs/theme/c15t@2.0.0-rc.3.js:1 | the first bit of a number counts most |
| TcfReading.VendorsReading | docs/theme/c15t@2.0.0-rc.3.js:1 | decoding vendors accepts exactly a greatest id, a form bit and either as many bits or entries of positive ids, in any order, and gives their union and the bits taken |
| TcfReading.RestrictionsReading | docs/theme/c15t@2.0.0-rc.3.js:1 | decoding restrictions accepts exactly entries that do not end before they begin, of valid restrictions, and adds their ids in order |
| TcfReading.CoreReading | docs/theme/c15t@2.0.0-rc.3.js:1 | from which bit of any core that is decoded each field of the model comes; the CMP id is above 1 and the country between "A" and "z" |
| TcfReading.PublisherReading | docs/theme/c15t@2.0.0-rc.3.js:1 | from which bit of any publisher's segment each field comes |
| TcfReading.VendorSegmentReading | docs/theme/c15t@2.0.0-rc.3.js:1 | from which bit of the other segments the vendors come |
| TcfReading.TypeLetter | docs/theme/c15t@2.0.0-rc.3.js:1 | the first letter of a segment tells its type: "A" to "H", "I" to "P", "Q" to "X", "Y" to "f", and none for the others |
| TcfReading.UnknownType | docs/theme/c15t@2.0.0-rc.3.js:1 | a part of an unknown type ends the decoding |
| TcfSegments.EncodeTcStringText | docs/theme/c15t@2.0.0-rc.3.js:1 | `bt.encode`: the loop that appends segments and dots equals the encoding of the round trip |
| TcfSegments.DecodeTcStringText | docs/theme/c15t@2.0.0-rc.3.js:1 | `bt.decode`: splitting at dots and decoding each part by its type equals the decoding of the round trip |
| GuildSweep.Survey | script/github-guild-board.py:617-636 | one pass over the comments gives the assignee's latest activity and the latest check-in, or nothing where the assignment time throws |
| GuildSweep.FindAssignment | script/github-guild-board.py:172-186 | the latest assignment time, missing exactly without an assignment event |
| GuildSweep.Issue.Stale | script/github-guild-board.py:591-657 | a sweep changes the log of the issue as one step of a run does |
| GuildSweep.SweepSafety | script/github-guild-board.py:617-657 | over every run, check-ins come 14 days after all activity, two of them have activity between them, and a clearing follows a check-in by 7 days without later activity |
| GuildSweep.SweepProgress | script/github-guild-board.py:591-677 | a silent assignment is cleared within 21 days plus twice the longest time between sweeps |
| GuildSweep.CheckInExactly | script/github-guild-board.py:636-650 | a sweep posts a check-in exactly if 14 days have passed since all activity, some of which is later than every check-in |
| GuildSweep.NothingToSweep | script/github-guild-board.py:595-614 | a blocked or unassigned issue is left alone |
| GuildSweep.AssignedMeaning | script/github-guild-board.py:604-607 | an issue is assigned exactly if no assignment has ended since the last |
| GuildSweep.ClearedExactly | script/github-guild-board.py:651-657 | with a check-in out, a sweep clears exactly if 7 days have passed and all activity since has the check-in's own time |
| GuildSweep.SimultaneousReply | script/github-guild-board.py:638-654 | a reply with the check-in's own time stamp does not save the assignment |
| DuplicateReport.ExtractInfo | script/github-find-top-duplicated-bugs.py:79-98 | an issue with at least two different closed duplicates is listed with their number and the names in its area labels, others are not |
| DuplicateReport.AreaNamesMeaning | script/github-find-top-duplicated-bugs.py:92-93 | the areas are the names in the area labels, in their order, without the prefix |
| Text.RemovePrefix | script/github-find-top-duplicated-bugs.py:92-93 | an area label gives the name behind its prefix exactly if the name does not hold the prefix again |
| DuplicateReport.GroupByArea | script/github-find-top-duplicated-bugs.py:154-159 | the two dictionaries hold, for each area in order of first use, its issues in order and the sum of their counts |
| Text.SortIsStable | script/github-find-top-duplicated-bugs.py:167 | sorting by falling count keeps the order of issues with the same count |
| DuplicateReport.BuildMarkdownBody | script/github-find-top-duplicated-bugs.py:148-178 | the printed text is the lines of the report, areas by falling total and issues by falling count |
| ReportOrder.PrintedInOrder | script/github-find-top-duplicated-bugs.py:166-176 | in the printed text each area has one heading, the headings stand by falling total, and from one to the next the items by falling count, equal ones in the order of the input |
| ReportOrder.TotalMeaning | script/github-find-top-duplicated-bugs.py:154-159 | the total of an area is the sum of the counts of the issues that have it |
| ReportOrder.ItemText | script/github-find-top-duplicated-bugs.py:173-176 | the text of an item |
| ReportRoundTrip.ParseDuplicateMagnets | script/github-check-new-issue-for-duplicates.py:487-524 | the loop over the lines with the heading in force equals the parser of the round trip |
| ReportRoundTrip.ItemRoundTrip | script/github-check-new-issue-for-duplicates.py:500-511 | a printed item line gives back its number and its count, for every width of either |
| ReportRoundTrip.ReportRoundTrip | script/github-check-new-issue-for-duplicates.py:487-524 | parsing a printed report gives exactly one magnet for each listed issue, with its number, count and readable areas, by falling count |
| ReportRoundTrip.MagnetsUnique | script/github-check-new-issue-for-duplicates.py:512-522 | no two magnets of a report have the same number |
| ReportRoundTrip.TrimmedAreas | script/github-check-new-issue-for-duplicates.py:494-518 | of an issue with trimmed, non-empty area names all come back but "(unlabeled)" |
| ReportAreas.AreasInOrder | script/github-check-new-issue-for-duplicates.py:494-522 | with trimmed, non-empty area names listed once, a magnet has each of its areas but "(unlabeled)" exactly once, by falling total of the area |
| CandidateSelection.SelectSearchCandidates | script/github-check-new-issue-for-duplicates.py:613-638 | the two passes with their set of keys equal the selection that the theorems are about |
| CandidateSelection.SelectionMeaning | script/github-check-new-issue-for-duplicates.py:613-638 | no key twice, only candidates, as long as limit and keys allow, and from limit 6 on all that each channel reserves |
| CandidateSelection.SelectionOrder | script/github-check-new-issue-for-duplicates.py:613-638 | the selection is the first candidate of every key, up to the limit, of the shares of the five channels in turn followed by all candidates |
| CandidateSelection.ReservedSelected | script/github-check-new-issue-for-duplicates.py:625-638 | from limit 6 on, with different keys, the candidates each channel reserves are themselves selected |
| CandidateSelection.QuotasFit | script/github-check-new-issue-for-duplicates.py:617-623 | the five quotas sum to at most the limit exactly from 6 on |
| CandidateSelection.QuotasNotHonoured | script/github-check-new-issue-for-duplicates.py:613-638 | below 6 a reserved candidate can be left out |
| SearchIndex.MergeResults | script/github-check-new-issue-for-duplicates.py:686-730 | the nested loops over queries and results equal the fold of all hits |
| SearchIndex.IndexMeaning | script/github-check-new-issue-for-duplicates.py:686-730 | each issue found except the new one is there once, with the duplicate-free set of searches that found it and its best rank in a text search, or 1000 |
| SearchIndex.IndexOrder | script/github-check-new-issue-for-duplicates.py:697-728 | issues stand in the order in which they were first found, and so do the searches of each |
| SearchIndex.HitMeaning | script/github-check-new-issue-for-duplicates.py:696-699 | a hit is an issue at a rank of the results of some query |
| DiffExcerpts.MergeLoop | crates/acp_thread/src/diff.rs:360-374 | the nested loops that extend a range and push it equal the merge |
| DiffExcerpts.SortedUnique | crates/acp_thread/src/diff.rs:359 | ranges have one order sorted by the key, so the unstable sort cannot show |
| DiffExcerpts.MergeMeaning | crates/acp_thread/src/diff.rs:340-376 | the merge is sorted and strictly separated, covers exactly the same points and takes its ends from the input |
| DiffExcerpts.MergeGrows | crates/acp_thread/src/diff.rs:340-376 | with more ranges each old excerpt lies inside one new one |
| DiffExcerpts.PendingDiff.ExcerptRanges | crates/acp_thread/src/diff.rs:340-376 | the result is the merge of every sorted order of hunks and revealed ranges, and has all the properties of a merge |
| DiffExcerpts.PendingDiff.RevealRange | crates/acp_thread/src/diff.rs:256-259 | revealing a range shows all of it and keeps each old excerpt inside one new one |
| SkillNames.SlugifySkillName | crates/agent_skills/agent_skills.rs:450-496 | the pass with its buffer and its flag for the last dash equals the slug of the theorems |
| SkillWords.SlugIsWords | crates/agent_skills/agent_skills.rs:450-491 | a slug is the words of the input, separated at spaces and hyphens, cleaned to lower-case letters and digits and joined by single hyphens, cut at 64 characters and the hyphens before |
| SkillWords.ExpandMeaning | crates/agent_skills/agent_skills.rs:454 | every ampersand becomes "-and-", and nothing else changes |
| SkillNames.ValidateMeaning | crates/agent_skills/agent_skills.rs:508-527 | which names are accepted, and for what the others are refused |
| SkillNames.SlugifySome | crates/agent_skills/agent_skills.rs:450-496 | there is a slug exactly when the input has an ASCII letter or digit or an ampersand |
| SkillNames.SlugifyIsNormal | crates/agent_skills/agent_skills.rs:450-527 | a slug is a valid name without a double hyphen, also after the truncation |
| SkillNames.SlugifyFixed | crates/agent_skills/agent_skills.rs:450-527 | the fixed points of the slugifier are exactly the valid names without a double hyphen |
| SkillNames.SlugifyLetters | crates/agent_skills/agent_skills.rs:450-496 | a slug spells the letters and digits of the input in order, and all of them unless the truncation applied |
| Frontmatter.FindCandidates | crates/agent_skills/agent_skills.rs:359-388 | the loop that collects the ends of closing lines equals the list of candidates |
| Frontmatter.CandidatesMeaning | crates/agent_skills/agent_skills.rs:359-388 | the candidates are exactly the ends of lines that are `---`, strictly rising |
| Frontmatter.CloserMeaning | crates/agent_skills/agent_skills.rs:364-384 | a closing line is `---` before a line break of either kind or the end of the text |
| Frontmatter.ExtractSkillFrontmatter | crates/agent_skills/agent_skills.rs:292-301 | the size limit and the retry loop equal the extraction of the theorems |
| Frontmatter.ExtractMeaning | crates/agent_skills/agent_skills.rs:343-413 | extraction succeeds exactly with the first closing line whose prefix the YAML parser accepts, and prefix plus body is the whole |
| Frontmatter.ExtractErrors | crates/agent_skills/agent_skills.rs:343-413 | when each error is returned, exactly |
| Frontmatter.BodyReplaced | crates/agent_skills/agent_skills.rs:343-413 | replacing what follows a newline-terminated closing line changes the body only |
| Frontmatter.LeadingWhite | crates/agent_skills/agent_skills.rs:292-344 | leading white space does not matter but for the limit of 102400 bytes |
| TerminalOutput.BoundaryIsCut | crates/acp_thread/src/terminal.rs:567-569 | in valid UTF-8 the look at one byte tells exactly where a prefix is valid UTF-8 |
| TerminalOutput.KeptMeaning | crates/acp_thread/src/terminal.rs:563-573 | over the limit, valid text is kept up to the last newline within the limit, or without one up to the last whole character, at most three bytes below the limit |
| TerminalOutput.KeptFrozen | crates/acp_thread/src/terminal.rs:557-576 | once over the limit, further output does not change what is kept |
| TerminalOutput.Terminal.TruncatedOutput | crates/acp_thread/src/terminal.rs:557-576 | the loop back to a boundary and the truncation, which never panics, give the kept part and the full length |
| TerminalOutput.Terminal.Finish | crates/acp_thread/src/terminal.rs:477-486 | the output taken when the command ends is the kept part of what is shown then |
| TerminalOutput.Terminal.CurrentOutput | crates/acp_thread/src/terminal.rs:537-555 | live or finished, the flag is set exactly when the text is over the limit, and the content is valid UTF-8 |
| TriageQueue.EligibleBlock | script/github-triage-queue-board.py:87-100 | every creation day is eligible on one unbroken, non-empty block of days |
| TriageQueue.WindowMonotone | script/github-triage-queue-board.py:87-100 | the window is never empty and neither end moves back |
| TriageQueue.WindowStart | script/github-triage-queue-board.py:87-96 | a weekend is evaluated as its Friday, and the window begins on the Thursday before the week evaluated |
| TriageQueue.WindowEnd | script/github-triage-queue-board.py:97-99 | a day is before the end exactly when a whole business day has elapsed, except from a weekend to Tuesday |
| TriageQueue.WeekendIssueWaits | script/github-triage-queue-board.py:97-99 | an instance of that exception |
| TriageQueue.Board.Sync | script/github-triage-queue-board.py:182-203 | the two loops turn the board into the synced one and keep item ids unique; a dry run changes nothing |
| TriageQueue.SyncedBoard | script/github-triage-queue-board.py:182-203 | after a sync the issues on the board are the eligible ones, and items of eligible issues stay |
| TriageQueue.SyncedOnce | script/github-triage-queue-board.py:182-203 | from a board with at most one item for each issue, a sync leaves exactly one item for each eligible issue and no other |
| TriageQueue.SyncAgain | script/github-triage-queue-board.py:182-203 | syncing a board that holds exactly the eligible issues changes nothing |
| TriageStatus.DeriveStatus | script/triage_project_sync.py:345-437 | the cascade with its scanning loops gives the status and the rule that the theorems are about |
| TriageStatus.ReproducibleMeaning | script/triage_project_sync.py:349-379 | when an issue is closed, claimed, reproducible or handed off, each by its own condition on closing, labels, assignees and comments |
| TriageStatus.NeedsInfoMeaning | script/triage_project_sync.py:386-414 | when a question is needed, awaits the user or was replied to, each by its own condition |
| TriageStatus.NeedsReproMeaning | script/triage_project_sync.py:416-437 | when reproduction is to be attempted or was answered, labels are needed, or the status is unknown, each by its own condition |
| TriageStatus.RuleMeaning | script/triage_project_sync.py:345-437 | the rule reported with each status |
| TriageStatus.SubstantiveMeaning | script/triage_project_sync.py:300-326 | which comments are substantive ones of the staff |
| TriageStatus.OutsiderMeaning | script/triage_project_sync.py:403-405 | who is an outsider |
| TriageStatus.LatestReporterActivity | script/triage_project_sync.py:329-336 | the latest time at which the reporter did something |
| TriageStatus.FindAnswer | script/triage_project_sync.py:416-427 | the search from the end finds out whether a substantive staff comment came after everything the reporter did |
| TriageStatus.DerivationIsIncremental | script/triage_project_sync.py:381-414 | for needs-info issues the status derived from all comments is that of an automaton that hears each comment once |
| TriageStatus.AskedForGood | script/triage_project_sync.py:381-399 | the status is Needs ask exactly until a substantive staff comment, and never again |
| TriageStatus.RepliedMeaning | script/triage_project_sync.py:399-414 | once asked, over chronological comments, the status is User replied exactly when the last comment is an outsider's and its time differs from the question's |
| TriageStatus.ReplyInTheSameSecond | script/triage_project_sync.py:399-414 | a reply with the question's time stamp is not seen |
| TriageStatus.UnseenReply | script/triage_project_sync.py:399-414 | a chronological thread ending in such a reply |
| TriageStatus.DeriveStaleSince | script/triage_project_sync.py:440-474 | the time that aging is measured from, for each status |
| TriageStatus.StaleSinceMeaning | script/triage_project_sync.py:440-474 | for each derived status, the time by the issue and its comments alone |
| TriageStatus.StaleSinceAbsent | script/triage_project_sync.py:440-474 | for derived statuses it is absent exactly for resting or unknown ones, and for User replied it is the last comment's |
| TriageStatus.AgedNeverReverts | script/triage_project_sync.py:477-493 | an issue nobody touches does not become young again, and when it becomes aged, exactly |
| TriageStatus.AgedMeaning | script/triage_project_sync.py:477-493 | an issue has aged after 7, 14 or 3 days, always or never, by its status |
| ThreadMigration.Upgrade | crates/agent/src/legacy_thread.rs:88-112 | the loop that pushes messages or overwrites the last one's results equals the fold, and sets the version |
| ThreadMigration.ResultsConserved | crates/agent/src/legacy_thread.rs:93-106 | all tool results are kept in order exactly when no result-carrying user message follows a message with results |
| ThreadMigration.MessagesKept | crates/agent/src/legacy_thread.rs:93-106 | the other messages keep their order and everything but their tool results |
| ThreadMigration.ResultsInPlace | crates/agent/src/legacy_thread.rs:93-106 | the results of a message end up in its own place or that of the message it is folded into |
| ThreadMigration.UpgradeAgain | crates/agent/src/legacy_thread.rs:93-106 | folding again changes nothing exactly when no carrier directly follows a user message without results, save the first |
| ThreadMigration.AssertionMeaning | crates/agent/src/legacy_thread.rs:100 | when the debug assertion holds, exactly |
| ThreadMigration.SecondCarrierReplacesFirst | crates/agent/src/legacy_thread.rs:93-106 | the assertion does not keep results from being lost |
| ThreadMigration.Load | crates/agent/src/legacy_thread.rs:52-76 | what each version loads to, field by field for a legacy message, and that loading fails exactly on any other version; what is loaded is of version 0.2.0 |

## Left out

- TcfVector.Vector.Set: takes one integer; arrays, sets and maps of ids, which the bundle walks through id by id, and
  strings and fractions, which it lets through, are not modelled.
- TcfVector.Vector.Unset: takes one id; arrays and maps of ids are not modelled.
- TcfSegments.EncodeTcStringText: takes the model and the segments as they are after the preparation, which is not
  modelled.
- The version-1 form of consent strings: a core of another version than 2 fails to decode here, and to encode.
- The preparation of a consent model before encoding (choice of segments by vendor list, filtering of vendor ids) and the
  loading of vendor lists; the ids of the vendor list are a parameter.
- Consent bits are booleans, so the Base64 encoder's error for other characters than 0 and 1 cannot arise; `toUpperCase`
  is that of ASCII letters; a language code of fewer than two letters fails in its encoder and not one step later.
- Ids in purpose restrictions are positive; the keys of restrictions are pairs and not their hash strings; segment-level
  methods take the vectors of a model by value.
- The Guild sweep is modelled for one issue with one Guild assignee; a check-in has the time of its sweep; Slack messages
  and the status column of the board are not modelled.
- In the report, the digits of integers are ASCII and without underscores, and issue URLs are those of this repository.
- Search requests are inputs; one that fails is a query without results. Ranking of the merged index and the regular
  expressions of the bot are not modelled.
- In the diff, places are rows and columns that are already resolved from anchors; buffers and multibuffers are not
  modelled.
- Frontmatter positions count characters, and the YAML parser is an arbitrary function of the text before a candidate.
- Library sorts are modelled by insertion sorts with the same order.
- Time zones and daylight saving in the triage window; days are numbered from a Monday.
- Comments always have an author, and an absent body is an empty one; the explanation texts of statuses are not modelled.
- JSON reading and writing of threads; the debug assertion is modelled as a predicate and does not stop the upgrade.
