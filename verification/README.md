# Firmware service, modelled and proved

The firmware service keeps a table of firmware images in step with an S3 bucket, remembers which
firmware every access point reports, and answers questions about both through REST servers and a
message bus. This project models the parts of it that carry state, arithmetic or text across calls,
and proves what those parts keep, undo and decide, for every input and every run.

Code of the service that updates things step by step is modelled by classes and methods with loops,
each proved against a function of its inputs or of the state before; the theorems are then about those
functions. Strings are sequences of characters or, where the code works on bits, of bytes. Machine
words are modelled with their width wherever a wrap can be seen. The clock, random identifiers, what
the JSON parser makes of a text and whether a storage call succeeds are inputs.

`dafny verify dfyconfig.toml` checks the whole project.

| file | what it models |
|---|---|
| `SqlText.dfy` | conditions printed as SQL text, with a lexer and a parser for reading them back |
| `Clauses.dfy` | where clauses that callers put together by hand, and the rows they select |
| `Placeholders.dfy` | statement texts of a table and the numbering of their placeholders |
| `TableWalk.dfy` | selecting records and walking a table by pages |
| `Base64.dfy`, `SerialNumbers.dfy` | the codecs of the utility library |
| `Glob.dfy` | the wildcard matcher |
| `ServiceRegistry.dfy` | the registry of services on the message bus |
| `Manifest.dfy`, `FirmwareTable.dfy`, `LatestFirmware.dfy` | bucket listing, judgement, firmware table, cache of latest firmwares |
| `FirmwareFlags.dfy`, `FirmwareRefresh.dfy` | which row carries the flag of the latest firmware; repeated refreshes, and the ages of devices after one |
| `HandlerSteps.dfy` | the storage calls of the two handlers, interleaved |
| `DeviceStore.dfy`, `DeviceReport.dfy` | devices and their upgrade history; the device report |
| `RateLimiter.dfy`, `Cidr.dfy`, `Fifo.dfy`, `WorkQueue.dfy` | rate limiter, network prefixes, ring buffer, handler threads |
| `Options.dfy`, `Characters.dfy`, `Decimals.dfy`, `Quotients.dfy`, `Sequences.dfy`, `Widths.dfy` | shared definitions and arithmetic |

## Where the code does not do what one would expect

Each of these is kept in the model as the code has it, with the exact condition under which the code
does what is expected.

- `match` compares characters before it looks for a star, so a star in the pattern that meets a star in
  the text stands for that one character only; and a `?` that meets the end of the text reads beyond the
  terminator. The call stays inside every text and is right about it exactly for patterns without `?` and
  `*` (`Glob.RightPatternsArePlain`), and no text is safe from every pattern
  (`Glob.NoTextIsRightForEveryPattern`). A pattern stays inside every text exactly when it has no `?`
  (`Glob.SafePatternsHaveNoQuestionMark`). On one text all patterns without `?` are right exactly when no
  star stands in front of its last character (`Glob.MatchIsRightWithoutQuestionMarks`).
- Several callers paste values between quotes without escaping them. Such a clause says what it is meant
  to say exactly when no pasted value holds a quote (`Clauses.OneClauseExactly`,
  `Clauses.TwoClauseExactly`); what is proved about upgrade histories, firmware look-ups and the firmware
  table has that condition.
- A call of `OP` with n operands opens one parenthesis and closes max(1, n - 2), so it prints a
  condition exactly when n is at most three (`SqlText.ReadBack`).
- Numbering placeholders can be undone exactly when no placeholder and no dollar sign is directly
  followed by a digit (`Placeholders.NumberingIsReversible`).
- `base64decode` does not look at what stands behind the first padding character, and accepts unused
  bits that are not zero (`Base64.DecodesExactly`, `Base64.EncodeUndoesDecode`).
- The write that fills the last slot of a `FIFO` makes it look empty, so it agrees with a queue exactly
  on runs that keep fewer than Size items outstanding (`Fifo.RefinesExactlyWithinCapacity`).
- A stop that comes before the worker has set its running flag is lost, and the worker goes on until
  somebody asks again: a stop ends the worker exactly when the worker had begun
  (`WorkQueue.StopEndsExactlyTheBegun`).
- The sweep of the registry subtracts unsigned times, so a clock set back drops the records that were
  entered before (`ServiceRegistry.SurvivesExactly`).
- The flag `latest` of a firmware row follows the last firmware added, the cache the newest one. Over any
  additions to an empty table they agree for a device type exactly when no image of the type was newer than
  the last one added (`FirmwareFlags.FlagAgreesWithCacheExactly`), and clearing the old flags stops at 200
  rows (`FirmwareTable.AddingFlagsOne`). After a manifest a device type can be left with rows and no flag
  (`FirmwareFlags.TypeIsFlaggedExactly` says exactly when it is not).
- The upgrade history is a linked chain as long as every storage call succeeds and the operations of the two
  handlers come one after another. With failures a change of revision keeps it exactly when its history
  record and its device row are both written or both not, and a deletion exactly when it does not remove the
  row alone, unless there is no history to contradict (`DeviceStore.OperationKeepsChains`). But the handlers
  run on threads of their own: a change that is entered after a deletion has deleted the history, when the
  row it was read from is gone or about to go, leaves an entry without a row, and that is exactly how a chain
  breaks (`HandlerSteps.ChainIsKeptExactly`).
- In an interval as long as the period the rate limiter can admit almost twice the configured number of
  calls (`RateLimiter.BurstIsBounded`, reached by `RateLimiter.BurstIsAttained`). It keeps to the number
  exactly when that is one, when the period is one millisecond, or when no call falls into a period at all
  (`RateLimiter.LimitIsKeptExactly`).
- The caches of latest firmwares depend on the order of arrival exactly when two calls of maximal time
  stamp for a device type differ (`LatestFirmware.OrderMattersExactly`).
- A refresh that is repeated need not leave the table alone: old rows go by the date of the image, entries
  are judged by the time stamp in the manifest. It does exactly when every row the first one left has an
  image not older than the second limit (`FirmwareRefresh.RefreshAgainExactly`).
- The last eight characters of an image's name are cut off whatever they are, so two images can belong to
  one release. The order of the listing does not matter exactly when all manifests of a release agree and
  all its images do (`Manifest.ListingOrderMattersExactly`).
- Rows that a refresh removes stay in the cache, and then the ages of the device type are undetermined
  (`FirmwareRefresh.AgesAfterManifest` says exactly when they are not).

## Model

| member | source | states |
|---|---|---|
| SqlText.Escape | src/framework/orm.h:106-116 | the loop doubles every quote and copies everything else |
| SqlText.LiteralEndsAtItsOwnQuote | src/framework/orm.h:106-116 | a quoted and escaped value is read back whole under the rules for SQL character literals, and the literal ends at its own closing quote, whatever is in the value and whatever follows other than one more quote |
| SqlText.EscapeIsInjective | src/framework/orm.h:106-116 | two values have the same escaped form only if they are the same value |
| SqlText.ComparisonReadBack | src/framework/orm.h:294-317 | field, comparison operator and value of any type are read back as the three tokens they were printed from, in front of any text that can follow |
| SqlText.LexPrint | src/framework/orm.h:294-338 | the lexer undoes the printer on every nest of calls, for arbitrary strings inside the literals |
| SqlText.ParsePrint | src/framework/orm.h:294-338 | a nest of two- and three-operand calls parses under AND-over-OR precedence to the tree it is meant to say, up to its own closing parenthesis; of three operands AND binds first in whichever order they come |
| SqlText.ParenthesesPrinted | src/framework/orm.h:319-338 | by induction over the variadic recursion, the parentheses of a nest fall short of balance by exactly the sum over its calls of max(1, n - 2) - 1 |
| SqlText.SurplusMeansLong | src/framework/orm.h:328-338 | that sum is zero exactly when no call has more than three operands |
| SqlText.ReadBack | src/framework/orm.h:294-338 | the whole text reads back as the intended condition if no call has more than three operands, and as no condition at all otherwise |
| SqlText.PrintIsUnambiguous | src/framework/orm.h:294-338 | of two nests that print the same text both or neither are conditions, and if they are they mean the same |
| SqlText.GivenAreNotEmpty | src/framework/orm.h:123-162 | of the arguments exactly the empty strings are left out, and the others keep their order |
| SqlText.WhereAndReadsBack | src/framework/orm.h:118-168 | the text is empty when every argument is an empty string and otherwise reads back as the conjunction, in order, of exactly the arguments that are not |
| Clauses.ReadWeight | src/framework/orm.h:106-116 | in any text that reads back as a condition the quotes are used up by its literals: two for each, and two for each quote inside |
| Clauses.OneClauseExactly | src/storage/orm_history.cpp:72-75 | a clause with one pasted value reads back as the intended comparison if and only if the value has no quote |
| Clauses.TwoClauseExactly | src/storage/orm_firmwares.cpp:94-109 | a clause with two pasted values, or one and a truth value, reads back as the intended conjunction if and only if no value has a quote |
| Clauses.OneClauseSelects | src/storage/orm_history.cpp:72-75 | a database that selects by what a text says selects by the pasted value, if that has no quote |
| Clauses.TwoClauseSelects | src/storage/orm_firmwares.cpp:64-65 | the same for two values |
| Clauses.NumberClauseReadsBack | src/storage/orm_firmwares.cpp:84-88 | a clause that compares a column with a number reads back as that comparison |
| Clauses.NumberClauseSelects | src/storage/orm_firmwares.cpp:84-88 | and selects the rows whose number is below it |
| Placeholders.DB.constructor | src/framework/orm.h:210-240 | the three column lists and the name-to-place map are those of the field list, in lower case and in order |
| Placeholders.DB.ConvertParams | src/framework/orm.h:396-413 | for PostgreSQL the loop numbers the placeholders from 1; for other databases the text is unchanged |
| Placeholders.NumberingIsReversible | src/framework/orm.h:396-413 | mapping every numbered placeholder back to `?` restores the text if and only if no placeholder or dollar sign in it is directly followed by a digit |
| Placeholders.NumberingIsInOrder | src/framework/orm.h:396-413 | on such a text the placeholders are numbered consecutively from left to right, and there are no other numbers |
| Placeholders.InsertCount | src/framework/orm.h:427-428 | the insert text has exactly one placeholder for each field |
| Placeholders.UpdateCount | src/framework/orm.h:589-590 | the update text has one placeholder for each field and one more |
| Placeholders.StatementsAreNumbered | src/framework/orm.h:396-429 | in both texts the placeholders become $1 to $k in order, and putting `?` back restores the text |
| Placeholders.InsertReadsBack | src/framework/orm.h:427-428 | the insert statement names the table, then the columns in the order of the fields in lower case, then one placeholder for each |
| Placeholders.UpdateReadsBack | src/framework/orm.h:589-590 | the update statement names the table, then each column in order with its placeholder, and last the key with its own |
| Placeholders.PrepareStatements | src/framework/orm.h:589-592 | the texts a table built by the constructor sends to the driver are those two texts, numbered or not as the database asks |
| TableWalk.GetRecords | src/framework/orm.h:547-573 | the selected page is appended in order, and the result says whether there was any row |
| TableWalk.MatchingPicksInOrder | src/framework/orm.h:547-573 | a condition picks out of each part of a table what fits, in order, and of one row the row or nothing |
| TableWalk.PageIsNext | src/framework/orm.h:995-1011 | a page holds the rows from its offset on, as many as asked for or as there are |
| TableWalk.Iterate | src/framework/orm.h:716-742 | walking by pages of fifty computes what one scan of all matching rows computes, for every table size |
| TableWalk.WalkVisitsUpToFirstStop | src/framework/orm.h:726-729 | a scan visits a prefix of the rows once and in order, and leaves rows out only behind the first one for which the callback returns false |
| TableWalk.WalkIsFold | src/framework/orm.h:716-742 | a callback that never returns false is applied to every row |
| Base64.EncodeRemainder | src/framework/utils.cpp:190-205 | the last one or two bytes are padded to a whole group |
| Base64.Encode | src/framework/utils.cpp:173-208 | the loop over three-byte words and the remainder compute the encoding of section 4 of RFC 4648 |
| Base64.NextDigit | src/framework/utils.cpp:229-240 | shifting a digit into an accumulator whose low 6k bits are the last k digits makes the low 6k + 6 bits the last k + 1, whatever stale bits stand above |
| Base64.BytesOfDigits | src/framework/utils.cpp:242-262 | the bytes cut out of the accumulator depend on the digits of the current group only |
| Base64.DecodeGroup | src/framework/utils.cpp:230-258 | from any accumulator left by the groups before, the inner loop ends with the result for the whole text or with exactly the four digits of its group in the low bits |
| Base64.Decode | src/framework/utils.cpp:210-266 | the two loops with their never-reset accumulator compute the decoding, and raise exactly the errors of the text |
| Base64.DecodeUndoesEncode | src/framework/utils.cpp:173-266 | decoding an encoding gives back every byte sequence |
| Base64.EncodedIsByTheTable | src/framework/utils.cpp:167-208 | character i of an encoding is the character of the RFC 4648 table at the i-th group of six bits of the input padded with zero bits, and `=` in the places left |
| Base64.DigitIsInTable | src/framework/utils.cpp:232-241 | the characters that decode are exactly those of the table |
| Base64.ErrorIsOfFirstBad | src/framework/utils.cpp:242-255 | a text of whole groups that does not decode raises a padding error if its first character outside the table is `=`, and a character error otherwise |
| Base64.LengthError | src/framework/utils.cpp:211-212 | the length error is raised exactly for lengths that are no multiple of four |
| Base64.DecodesExactly | src/framework/utils.cpp:210-266 | decoding succeeds if and only if the length is a multiple of four, the first padding character, if any, is one of the last two, and everything in front of it is in the alphabet |
| Base64.EncodeUndoesDecode | src/framework/utils.cpp:173-266 | for a text that decodes, encoding the result gives the text back if and only if its padding is complete and its unused bits are zero |
| SerialNumbers.IntToSerialNumber | src/framework/utils.cpp:340-352 | the loop that fills the buffer from its end writes the last twelve hexadecimal digits |
| SerialNumbers.IntThereAndBack | src/framework/utils.cpp:336-352 | every 64-bit number comes back modulo 2^48 |
| SerialNumbers.SerialThereAndBack | src/framework/utils.cpp:336-352 | every twelve-digit serial number comes back in lower case |
| SerialNumbers.DigitsGoByTheTable | src/framework/utils.cpp:343-347 | a digit stands in `0123456789abcdef` at its value, in either case, and nothing else is a digit |
| SerialNumbers.TextGoesByTheTable | src/framework/utils.cpp:340-352 | each place of the text has the digit of its power of sixteen |
| SerialNumbers.NumbersAreRead | src/framework/utils.cpp:336-338 | space, a sign and a 0x prefix may stand in front of the digits and anything else behind them; a number that does not fit 64 bits is an error, and a minus sign negates in 64 bits |
| SerialNumbers.NoDigitsAreInvalid | src/framework/utils.cpp:336-338 | a text without a digit where one is due is an error |
| SerialNumbers.SerialToMAC | src/framework/utils.cpp:89-119 | the result is the serial number, made twelve characters long, in pairs separated by colons, up to its first NUL |
| SerialNumbers.FittedIs | src/framework/utils.cpp:85-95 | a serial number that is too short is filled up with zeros, one that is too long is cut |
| SerialNumbers.PairedTwelve | src/framework/utils.cpp:97-116 | the six pairs stand in order between five colons |
| SerialNumbers.MACToInt | src/framework/utils.cpp:121-136 | the loop computes the value of the digits in 64 bits, colons dropped |
| SerialNumbers.MacOfSerialKeepsValue | src/framework/utils.cpp:89-136 | the MAC address made from a serial number has the serial number's value |
| SerialNumbers.SerialNumberToOUI | src/framework/utils.cpp:360-382 | the loop computes the value of the first six digits of any text |
| SerialNumbers.FirstDigitsAreFirst | src/framework/utils.cpp:364-380 | the six digits are the first of all the digits in the text, whatever stands between them |
| SerialNumbers.OuiIsUpperHalf | src/framework/utils.cpp:360-382 | for a serial number that is its value divided by 2^24 |
| SerialNumbers.MatchIsSameQuotient | src/framework/utils.cpp:354-358 | at any number of bits below 64 two serial numbers match exactly when their values agree after division by that power of two |
| SerialNumbers.MatchIsSameVendor | src/framework/utils.cpp:354-358 | at 24 bits two serial numbers match exactly when their vendor prefixes are equal |
| SerialNumbers.Split | src/framework/utils.cpp:56-71 | the loop cuts a list into its pieces |
| SerialNumbers.SplitAndJoin | src/framework/utils.cpp:56-71 | joining the pieces gives the list back less one trailing delimiter, and no piece holds a delimiter |
| Glob.MatchDecides | src/framework/utils.h:154-185 | when pattern or text has no star, the call matches exactly the texts in the language of the pattern, and steps beyond the terminator exactly when it does not match and the text runs out in front of a `?` |
| Glob.NoQuestionMarkStaysInside | src/framework/utils.h:154-185 | a pattern without `?` never makes the call step beyond a terminator, on any text, stars included |
| Glob.SafePatternsHaveNoQuestionMark | src/framework/utils.h:173-176 | a pattern keeps every read inside every text, stars or not, if and only if it has no `?` |
| Glob.SkipStarsKeepsLanguage | src/framework/utils.h:160-164 | skipping all but the last of a run of stars changes neither the language nor where texts run out |
| Glob.ShortestStretchSuffices | src/framework/utils.h:178-182 | a star that tries the shortest stretch first loses no match to a read beyond the terminator |
| Glob.RightPatternsArePlain | src/framework/utils.h:154-185 | a pattern stays inside every text and tells of each whether it is in its language if and only if it has neither `?` nor `*` |
| Glob.NoTextIsRightForEveryPattern | src/framework/utils.h:173-184 | for every text some pattern reads beyond its end or is wrong about it |
| Glob.MatchedIsInGlobForTextsWithoutStars | src/framework/utils.h:175-182 | for a given text the patterns for which the call returns a match inside the text are those in whose language it is if and only if the text has no star; reads beyond the terminator are not excluded, they count as no match |
| Glob.MatchIsRightWithoutQuestionMarks | src/framework/utils.h:154-185 | for a given text the call stays inside it and is right on every pattern without `?` if and only if no star stands in front of the text's last character |
| ServiceRegistry.MicroService.BusMessageReceived | src/framework/MicroService.cpp:49-187 | one message and its sweep change the registry as the step function says, for every kind of message |
| ServiceRegistry.MicroService.RemoveZombies | src/framework/MicroService.cpp:168-178 | exactly the records not older than 120 seconds, in unsigned 64-bit time, stay |
| ServiceRegistry.MicroService.GetServices | src/framework/MicroService.cpp:189-199 | each record of the wanted type, compared in lower case, is returned exactly as often as it is filed, and nothing else is |
| ServiceRegistry.RegistryIsFunctionOfTrace | src/framework/MicroService.cpp:49-187 | after any trace with a clock that does not run back, an endpoint is registered if and only if its last complete event from another service was a join or keep-alive not more than 120 seconds before the last sweep, with the data of that event |
| ServiceRegistry.RecordIsOfItsMessage | src/framework/MicroService.cpp:63-130 | every record has each of its fields from the field of that name of one join or keep-alive message of another service, its time from the clock, and no sweep since was more than 120 seconds later |
| ServiceRegistry.AnnouncedIsRegistered | src/framework/MicroService.cpp:58-130 | a join or keep-alive with all seven fields is registered under its private end point as long as no complete event about it follows and every reading of the clock is within 120 seconds |
| ServiceRegistry.LeftIsGone | src/framework/MicroService.cpp:74-81 | a service whose last complete event was a leave is not registered |
| ServiceRegistry.RecordsAreFiledUnderThemselves | src/framework/MicroService.cpp:63-130 | over such a trace every record is filed under its own private endpoint and is of another service |
| ServiceRegistry.SurvivesExactly | src/framework/MicroService.cpp:168-178 | whatever the clock does, a record that the message does not renew survives the sweep if and only if its stamp is not in the future and at most 120 seconds old |
| LatestFirmware.LatestFirmwareCache.AddToCache | src/LatestFirmwareCache.cpp:21-43 | the new state of both maps and both sets; the result is always true |
| LatestFirmware.LatestFirmwareCache.FindLatestFirmware | src/LatestFirmwareCache.cpp:45-55 | the entry of the device type, if there is one |
| LatestFirmware.LatestFirmwareCache.FindLatestRCOnlyFirmware | src/LatestFirmwareCache.cpp:57-67 | the release entry of the device type, if there is one |
| LatestFirmware.LatestFirmwareCache.IsLatest | src/LatestFirmwareCache.cpp:69-77 | true exactly when there is an entry and it has the revision |
| LatestFirmware.LatestFirmwareCache.IsLatestRCOnly | src/LatestFirmwareCache.cpp:79-88 | true exactly when there is a release entry and it has the revision |
| LatestFirmware.IsRcExactly | src/LatestFirmwareCache.h:43-49 | a revision is a release if and only if it has exactly one slash and what follows it and any space starts with the release mark |
| LatestFirmware.CacheHoldsLatest | src/LatestFirmwareCache.cpp:21-43 | after any calls the cache holds, for each device type, the last-arriving call among those of maximal time stamp, and the release cache the same over releases; neither holds anything else |
| LatestFirmware.SetsAndOrder | src/LatestFirmwareCache.cpp:21-43 | the sets hold exactly the device types and revisions seen, the device set is the cache's keys, and no release entry is newer than the full cache's |
| LatestFirmware.ArrivalOrderDoesNotMatter | src/LatestFirmwareCache.cpp:21-43 | with distinct time stamps per device type, or when only the calls of maximal stamp agree, the state depends neither on the order of the calls nor on how often one is repeated |
| LatestFirmware.OrderMattersExactly | src/LatestFirmwareCache.cpp:21-43 | every arrangement of the calls gives the same caches if and only if for each device type all calls of maximal time stamp make the same entry, over all revisions and over the releases |
| Manifest.ManifestCreator.ReadObject | src/ManifestCreator.cpp:243-314 | how one object of the listing changes the bucket map |
| Manifest.ManifestCreator.ReadBucket | src/ManifestCreator.cpp:215-336 | a listing of any pages is merged object by object; at the first manifest that is no JSON it stops with exactly the objects in front merged |
| Manifest.MergedIsLast | src/ManifestCreator.cpp:243-314 | for every listing, the entry of a release is the one made by its last complete manifest and its last image, and its name is set exactly when an image finds an entry |
| Manifest.ImageMeetsItsManifest | src/ManifestCreator.cpp:249-311 | a complete manifest `r.json` and an image `r-upgrade.bin` meet in the entry of `r`, which has each field of the manifest and its text, and the date in seconds, the size and the place of the image |
| Manifest.EveryImageHasItsEntry | src/ManifestCreator.cpp:286-311 | every image has an entry under its base name less the last eight characters, or under the whole of a shorter name |
| Manifest.EntriesComeFromObjects | src/ManifestCreator.cpp:243-314 | without a complete manifest, or without an image, the fields of an entry that would come from it are blank |
| Manifest.ListingOrderDoesNotMatter | src/ManifestCreator.cpp:233-325 | two listings of the same objects, one manifest and one image at most per release, merge to the same map up to the name field, in whatever order and pages they come |
| Manifest.ListingOrderMattersExactly | src/ManifestCreator.cpp:243-314 | every arrangement of a listing merges to the same map up to the name field if and only if all complete manifests of a release make the same part of its entry and all its images do |
| Manifest.ManifestCreator.JudgeEntry | src/ManifestCreator.cpp:57-97 | the judged entry and the count that goes up |
| Manifest.ManifestCreator.ComputeManifest | src/ManifestCreator.cpp:50-105 | every entry is judged, and the counts are the numbers of entries with each verdict; an entry is valid exactly when its manifest is complete, its time stamp plus the greatest age is after now and its image is `<release>-upgrade.bin`, and then it carries what the manifest says |
| Manifest.JudgementIsByManifest | src/ManifestCreator.cpp:50-97 | the same for one entry, for every kind of manifest, with what stays as it was |
| Manifest.CountsAreByManifest | src/ManifestCreator.cpp:62-102 | each of the four counts is the number of entries whose manifest is missing, too old, names another image, or is accepted, by the fields of the manifests |
| Manifest.AcceptedIsValid | src/ManifestCreator.cpp:50-105 | on a fresh map the accepted count is the number of valid entries, the valid entries are the accepted ones, and the four counts with the entries that do not parse add up to the whole map |
| Manifest.JudgementDoesNotDependOnOrder | src/ManifestCreator.cpp:50-105 | the order of the listing decides neither which entries are valid nor any count |
| FirmwareTable.FirmwaresDB.AddFirmware | src/storage/orm_firmwares.cpp:58-76 | cache, flags of the first 200 rows its clause selects and the new row change together as the state function says; the call succeeds exactly when the identifier is new |
| FirmwareTable.FirmwaresDB.GetFirmwareByName | src/storage/orm_firmwares.cpp:94-103 | the first row its clause selects; with names that hold no quote a row is found if and only if one of that release and device type is there, and it is such a row |
| FirmwareTable.FirmwaresDB.RemoveOldDBEntriesNotInManifest | src/storage/orm_firmwares.cpp:180-205 | collecting identifiers and deleting them one by one leaves exactly the rows whose release is in the bucket, in order, and counts the others |
| FirmwareTable.FirmwaresDB.DropStaging | src/ManifestCreator.cpp:109-116 | erasing while iterating leaves exactly the entries whose URI does not contain `-staging-`, as they were |
| FirmwareTable.FirmwaresDB.InsertMissing | src/ManifestCreator.cpp:123-145 | the loop inserts entry by entry, each look-up seeing the rows inserted before it |
| FirmwareTable.FirmwaresDB.AddManifestToDB | src/ManifestCreator.cpp:107-147 | the three passes composed: the content that is left and the new state of table and cache |
| FirmwareTable.FirmwaresDB.RemoveOldFirmware | src/storage/orm_firmwares.cpp:84-88 | the rows its clause does not select stay, and those are exactly the rows whose image date plus the greatest age is not before now |
| FirmwareTable.FirmwaresDB.Refresh | src/ManifestCreator.cpp:38-48 | removal of old rows and the manifest, composed |
| FirmwareTable.AddingFlagsOne | src/storage/orm_firmwares.cpp:58-76 | for a device type without a quote, a stored firmware becomes the only flagged row of its device type if and only if at most 200 rows of the type were flagged, and no other type's flags change |
| FirmwareTable.FlagFollowsCache | src/storage/orm_firmwares.cpp:58-76 | then the flagged row is the cached firmware if and only if nothing newer of its type had been cached |
| FirmwareTable.AddingKeepsOneFlag | src/storage/orm_firmwares.cpp:58-76 | adding keeps identifiers distinct and at most one flagged row per device type |
| FirmwareTable.ManifestKeepsOneFlag | src/ManifestCreator.cpp:107-147 | so does bringing in a whole manifest |
| FirmwareTable.TableFollowsManifest | src/ManifestCreator.cpp:107-147 | when no valid entry has a quote in its release name or device type: afterwards no row is of a release outside the bucket and every valid entry has a row; up to the flags the table is the rows that stay, in order, followed by one row for each valid entry that had none |
| FirmwareTable.MissingRowsAreTheirEntries | src/ManifestCreator.cpp:123-137 | each inserted row has the release, device type, revision, uri, image, date and size of a valid entry, the identifier drawn for it and the time of the draw |
| FirmwareTable.NothingInStagingComesIn | src/ManifestCreator.cpp:109-116 | no row of an entry whose uri contains `-staging-` is inserted |
| FirmwareTable.StagingIsByUri | src/ManifestCreator.cpp:111 | an entry is in staging exactly when its uri contains `-staging-` |
| FirmwareTable.ClauseTexts | src/storage/orm_firmwares.cpp:64-96 | the clauses have the texts of the code |
| FirmwareTable.ManifestChangesNothing | src/ManifestCreator.cpp:107-147 | for such a bucket rows, flags and cache all stay the same if and only if every row is listed and every valid entry already has its row |
| FirmwareTable.SecondTimeChangesNothing | src/ManifestCreator.cpp:107-147 | for such a bucket, bringing in the same manifest again changes nothing |
| FirmwareFlags.FlagAgreesWithCacheExactly | src/storage/orm_firmwares.cpp:58-76 | over every sequence of additions to an empty table, with identifiers used once and device types without a quote, the one flagged row of a device type is the last added, and it is the cached firmware if and only if no earlier image of the type is newer |
| FirmwareFlags.LastAdditionIsFlagged | src/storage/orm_firmwares.cpp:58-76 | whatever is added for other device types, the flag of a type stays with its last addition |
| FirmwareFlags.RowsAreAdditions | src/storage/orm_firmwares.cpp:58-76 | up to the flags the rows are the firmwares that were added, in order, each with its identifier |
| FirmwareFlags.CachedFirmwareIsARow | src/storage/orm_firmwares.cpp:58-76 | over every sequence of additions, what either cache says of a device type is the identifier, revision and image date of a row of that type |
| FirmwareFlags.TypeIsFlaggedExactly | src/ManifestCreator.cpp:107-147 | after a manifest a device type has its one flagged row if and only if something of the type came in or its flagged row stayed |
| FirmwareRefresh.RefreshAgainExactly | src/ManifestCreator.cpp:38-48 | a second refresh with whatever limit, on the same entries judged again, changes nothing if and only if every row the first one left has an image not older than that limit |
| FirmwareRefresh.LaterLimitJudgesAgain | src/ManifestCreator.cpp:50-105 | judging the same bucket with a later limit makes no further entry valid and changes no device type of a valid one |
| FirmwareRefresh.RefreshedTable | src/ManifestCreator.cpp:38-48 | the rows after a refresh are those whose image date plus the greatest age is not before now and whose release is in the bucket, and behind them one for each valid entry that had none |
| FirmwareRefresh.RefreshTwiceExactly | src/ManifestCreator.cpp:38-48 | a whole refresh that is repeated on the same bucket with the same limit changes nothing if and only if every entry it had to insert has an image not older than the limit |
| FirmwareRefresh.AgesAfterManifest | src/storage/orm_firmwares.cpp:137-178 | after a manifest is brought in, the ages of a device type are determined if and only if a firmware at least as new as the cached one came in, or the cached one's row stayed |
| FirmwareRefresh.FilledCacheIsFresh | src/storage/orm_firmwares.cpp:130-135 | a cache filled from the table names only identifiers of its rows, so newly drawn ones are not among them |
| DeviceStore.StorageService.SetDeviceRevision | src/storage/orm_deviceInfo.cpp:30-52 | device row and history after a connection, whichever storage calls fail |
| DeviceStore.StorageService.SetDeviceDisconnected | src/storage/orm_deviceInfo.cpp:58-66 | a disconnection changes the end point and status of a known device and nothing else |
| DeviceStore.StorageService.DeleteHistory | src/storage/orm_history.cpp:72-75 | the entries its clause selects go and the others stay in order; with a serial number that holds no quote those are exactly the device's own |
| DeviceStore.StorageService.HandleCommand | src/NewCommandHandler.cpp:46-66 | a delete-device command removes history and row; any other command changes nothing |
| DeviceStore.ConnectedRow | src/storage/orm_deviceInfo.cpp:40-51 | after a connection the device's row has the reported revision, device type and end point, the status `connected`, and the time of the earlier row or of the report; the other rows stay |
| DeviceStore.ConnectedEntry | src/storage/orm_history.cpp:47-65 | a change of revision of a known device adds one history entry with the device, both revisions, the firmware's identifier and the time, and nothing else adds any |
| DeviceStore.DisconnectedRow | src/storage/orm_deviceInfo.cpp:58-66 | after a disconnection the row has the end point and the status `not connected`; everything else stays |
| DeviceStore.DeletedRow | src/storage/orm_deviceInfo.cpp:54-56 | a deletion takes the row of its device and no other |
| DeviceStore.HistoryClauseText | src/storage/orm_history.cpp:73 | the clause of a deletion has the text of the code |
| DeviceStore.HistoryIsReportedChanges | src/storage/orm_deviceInfo.cpp:30-52 | over every run whose deletions name serial numbers without a quote, a device's history is, entry for entry, the changes in the revisions it has reported since it was last deleted |
| DeviceStore.ChangesAreLinked | src/storage/orm_deviceInfo.cpp:39-46 | the changes of any sequence of revisions are a linked chain from its first to its last |
| DeviceStore.HistoryIsChained | src/storage/orm_deviceInfo.cpp:30-66 | over every such run each device's history is linked, changes revision in every entry, and ends at the revision in the device's row |
| DeviceStore.OperationKeepsChains | src/NewCommandHandler.cpp:46-66 | from a state of chains, with any storage calls failing, such an operation keeps the chains of the device it is about if and only if it is consistent, and always those of the others |
| HandlerSteps.CallsMakeOperations | src/storage/orm_deviceInfo.cpp:30-66 | uninterrupted, the storage calls of an operation do what the operation does |
| HandlerSteps.CallKeeps | src/NewCommandHandler.cpp:46-66 | every single storage call of either handler keeps what holds for a device, except a late entry of its own |
| HandlerSteps.TimelyRunsKeepChains | src/NewConnectionHandler.cpp:62-148 | in every interleaving of the storage calls in which no entry for a device is late, its history is a linked chain whenever both handlers are at rest |
| HandlerSteps.ChainIsKeptExactly | src/storage/orm_deviceInfo.cpp:30-52 | after such an interleaving, one more entry, and calls that leave the device alone until both handlers are at rest, its history is a linked chain if and only if that entry was not late |
| DeviceReport.PopulateLatestFirmwareCache | src/storage/orm_firmwares.cpp:130-135 | the cache is the one that adding the rows in order gives |
| DeviceReport.FreshCacheGivesTrueAges | src/storage/orm_firmwares.cpp:137-178 | with that cache, and a revision and device type without a quote, an age is determined exactly for the device types in the table, counts from a firmware none is newer than, and never wraps |
| DeviceReport.UpdateCountedMap | src/framework/OpenWifiTypes.h:51-58 | one key goes up by the increment, in 64 bits, and every other key stays |
| DeviceReport.UpdateCounted3DMap | src/framework/OpenWifiTypes.h:60-76 | one counter goes up by the increment in 64 bits, every other counter of the same and of other keys stays, and no other key or index appears |
| DeviceReport.ReportInProgress.Count | src/storage/orm_deviceInfo.cpp:78-100 | how one device changes the report |
| DeviceReport.GenerateDeviceReport | src/storage/orm_deviceInfo.cpp:78-104 | the paged walk produces the report of all rows in order |
| DeviceReport.TallyIsExact | src/storage/orm_deviceInfo.cpp:78-104 | every map of the report holds, for each key, exactly the number of devices that have it, and no other key |
| DeviceReport.TotalsAreByField | src/storage/orm_deviceInfo.cpp:80-85 | each of the five total maps counts, for every key, the devices whose device type, revision, status, end point or first six characters of the serial number are that key |
| DeviceReport.MatchedAreByRevision | src/storage/orm_deviceInfo.cpp:87-91 | the matched map counts the devices of a revision that the firmware table knows for their type |
| DeviceReport.UpToDateAreByAge | src/storage/orm_deviceInfo.cpp:92-94 | the latest map counts the devices of a revision whose age is known and whose firmware is the latest |
| DeviceReport.UnknownAreByAge | src/storage/orm_deviceInfo.cpp:95-96 | the unknown map counts those whose firmware is not the latest and of age zero |
| DeviceReport.SecondsAreByAge | src/storage/orm_deviceInfo.cpp:97-99 | the total is the sum of the ages of the devices whose firmware is not the latest, in 64 bits |
| DeviceReport.RevisionClauseText | src/storage/orm_firmwares.cpp:108-109 | the clause of the look-up has the text of the code |
| DeviceReport.ReportIsConserved | src/storage/orm_deviceInfo.cpp:78-104 | for fewer than 2^64 rows, the five total maps each sum to the number of devices, which is the row count; for each revision those on the latest and those of unknown firmware together, and the matched ones, are at most all of that revision |
| DeviceReport.KeysAreApart | src/storage/orm_deviceInfo.cpp:87-99 | no device is counted both as on the latest firmware and as of unknown firmware |
| DeviceReport.SecondsAreAddedUp | src/storage/orm_deviceInfo.cpp:97-99 | the total age is the sum of the ages of the outdated devices, in 64 bits |
| RateLimiter.RESTAPI_RateLimiter.IsRateLimited | src/framework/RESTAPI_RateLimiter.h:32-58 | the answer and the entry remembered for the client; other clients' entries stay |
| RateLimiter.BurstIsBounded | src/framework/RESTAPI_RateLimiter.h:32-58 | with a clock that does not run back any half-open interval of one period admits at most 2 max(1, MaxCalls) - 1 calls |
| RateLimiter.BurstIsAttained | src/framework/RESTAPI_RateLimiter.h:32-58 | for every limit of at least one and period of at least two some client reaches that bound |
| RateLimiter.LimitIsKeptExactly | src/framework/RESTAPI_RateLimiter.h:32-58 | no half-open interval of one period ever admits more than MaxCalls calls if and only if MaxCalls is not negative and the period is empty, or MaxCalls is one, or it is more and the period is a single instant |
| RateLimiter.ClosedBurstIsBounded | src/framework/RESTAPI_RateLimiter.h:32-58 | with both ends counted no interval of one period admits more than 2 max(1, MaxCalls) calls if and only if the period is not zero |
| RateLimiter.ClosedBurstIsAttained | src/framework/RESTAPI_RateLimiter.h:32-58 | for every limit and period of at least one some client reaches that bound |
| RateLimiter.PoliteClientIsNeverLimited | src/framework/RESTAPI_RateLimiter.h:32-58 | a client that never makes more than MaxCalls calls within one period is never limited |
| RateLimiter.ClientsAreIndependent | src/framework/RESTAPI_RateLimiter.h:32-58 | over every run what is remembered of a client is what its own calls alone would give |
| Cidr.CidrMatchIsSamePrefix | src/framework/CIDR.h:16-21 | the masked comparison holds if and only if the addresses, as big-endian numbers, agree after division by 2^(32 - bits), on hosts of either byte order |
| Cidr.Cidr6MatchIsSamePrefix | src/framework/CIDR.h:23-46 | the comparison of whole words and one masked word holds if and only if the 128-bit numbers agree after division by 2^(128 - bits) |
| Cidr.ShorterPrefixesMatch | src/framework/CIDR.h:16-46 | a match at some length is a match at every smaller one |
| Cidr.MatchSortsIntoNetworks | src/framework/CIDR.h:16-21 | matching at one length is an equivalence relation that does not depend on the host |
| Cidr.Match6SortsIntoNetworks | src/framework/CIDR.h:23-46 | the same for 128-bit addresses |
| Fifo.FIFO.constructor | src/framework/MicroServiceExtra.h:45-52 | a new queue is empty |
| Fifo.FIFO.Read | src/framework/MicroServiceExtra.h:54-70 | the first item comes out, and the result says whether there was one |
| Fifo.FIFO.Write | src/framework/MicroServiceExtra.h:72-86 | the item goes in behind the others, unless it takes the last slot and all are lost; the counters follow |
| Fifo.RefinesUnbounded | src/framework/MicroServiceExtra.h:54-86 | over every run with fewer than Size items outstanding the ring buffer behaves as an unbounded queue, its used counter is the length and its maximum the running maximum of the length |
| Fifo.RefinesExactlyWithinCapacity | src/framework/MicroServiceExtra.h:54-86 | the items agree with an unbounded queue at every point of a run if and only if fewer than Size are outstanding throughout |
| WorkQueue.Handler.Received | src/NewConnectionHandler.cpp:175-179 | a producer's step appends one item behind the others and changes nothing else |
| WorkQueue.Handler.WorkerStep | src/NewConnectionHandler.cpp:31-49 | each step of the worker between two points where another thread can come in |
| WorkQueue.EveryInterleavingIsSafe | src/NewCommandHandler.cpp:14-32 | in every interleaving the worker takes from the queue only when it is not empty, and processed, in hand and queued together are always the arrivals in order |
| WorkQueue.EverythingIsProcessed | src/NewConnectionHandler.cpp:34-49 | from any point of a run at which the worker has begun and nobody has stopped it, whatever else arrives, four worker steps for each unfinished item and three more leave everything that had arrived processed, in order |
| WorkQueue.StopTakesEffect | src/NewConnectionHandler.cpp:34-49 | after a stop the worker takes at most a bounded number of further steps, and at most one more item, whatever else arrives |
| WorkQueue.StoppedWithinFiveSteps | src/NewConnectionHandler.cpp:161-168 | a stop after the worker has begun ends it within five of its own steps |
| WorkQueue.EarlyStopIsLost | src/NewConnectionHandler.cpp:31-34 | after a stop that comes before the worker has begun, the worker never ends, whatever else happens, until somebody asks again |
| WorkQueue.StopEndsExactlyTheBegun | src/NewConnectionHandler.cpp:31-49 | for every history before a stop and every continuation with five steps of the worker and no other stop, the worker has ended if and only if it had begun |

## Left out

- The HTTP, TLS, Kafka and S3 clients, logging, configuration, signals, files and the REST handlers: foreign libraries and input or output.
- `ManipulateVectorMember`, the texts that create tables and indexes, and the enumerations with their strings: plain conversions with no state behind them.
- DeviceStore.StorageService.DeleteHistory: for a serial number with a quote it says only that the entries the clause selects go, because what such a clause selects is for the database; the same holds for the runs in `DeviceStore.HistoryIsReportedChanges` and `DeviceStore.HistoryIsChained`.
- FirmwareTable.FirmwaresDB.AddFirmware: a database call fails for a taken identifier only.
- FirmwareTable.TableFollowsManifest: nothing is promised for a bucket with a quote in a release name or device type of a valid entry, nor by the other theorems on such buckets.
- DeviceReport.FreshCacheGivesTrueAges: nothing is promised for a revision or device type with a quote.
- Collations under which a database takes different strings for equal: a database is assumed to select by what a clause says.
- Backslash escapes that some MySQL configurations recognise inside literals: the literals are those of section 5.3 of ISO/IEC 9075:1992.
- The effect of a statement inside the database, its transactions and the row cache beside it: a table is a sequence of rows in a fixed order, a page the rows that LIMIT and OFFSET name, an update and a deletion by identifier act on the rows that have it.
- Storage failures in interleavings of the two handlers: `HandlerSteps` takes every call to succeed.
- SqlText.WhereAndReadsBack: floating-point arguments, whose decimal text is that of the C library, are not modelled.
- Placeholders.DB.constructor: the column list of the statement that creates the table, and the index texts, are not modelled.
- TableWalk.GetRecords: the ordering clause and the path of a database exception are not modelled.
- TableWalk.Iterate: the callback is a function from what it has collected to what it then has, so it is not one that changes the table it walks.
- ServiceRegistry.MicroService.GetServices: the order in which the records come, which is that of the map's keys, is not stated.
- ServiceRegistry.MicroService.BusMessageReceived: what a JSON text holds is an input; a message that cannot be parsed is one case of it. Token removal, which another module handles, is a message without effect here.
- Manifest.ManifestCreator.ReadBucket: a listing that the S3 client reports as failed, or that ends because the service is stopped, is not modelled; claims about the merged map are for complete listings.
- DeviceReport.UpdateCountedMap: a map passed by reference is handed in and back.
- FirmwareTable.FirmwaresDB.AddManifestToDB: the names come in as the sequence in which the map iterates; the theorems hold for any order. Fields of a firmware row that no code here reads are left out.
- RateLimiter.RESTAPI_RateLimiter.IsRateLimited: eviction of clients from the cache and the wrap of the 32-bit counter are not modelled.
- Cidr.CidrMatchIsSamePrefix: mask lengths above 32, and above 128 in the other family, for which the code shifts by an amount its language leaves undefined or reads beyond the address.
- Range texts with dashes and commas, and the parsing of mask lengths, in `CIDR.h`: the address parser belongs to a foreign library.
- `FIFO::isFull` and the event raised by each write.
- An exception that ends a handler thread while it processes an item, and the memory model: each step between two locks is atomic.
- `AuthClient`, the option cache of `AutoUpdater`, `CompareTime`, the generator lock of `Dashboard`, the websocket server and the configuration validator.
