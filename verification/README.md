# Verified model of the suite's core

Dafny modules that model the pieces of the suite with the most branching, state or arithmetic, and prove what
they keep. Code that changes buffers, lists or tables in place is a class or a method over arrays, proved against
a function of its inputs; what the code promises is then proved of that function, for all inputs or all runs.
`dafny verify dfyconfig.toml` checks everything.

- **Reverse zones** (`lib/dnsa_net.c`). `Ipv4` is the canonical dotted-quad printer and parser behind
  the conversions. `ZoneBlocks` computes a zone's size, its first and last address and its sub-zones;
  `SqlLike` and `ReverseNames` build the LIKE pattern and the in-addr.arpa name of a sub-zone in character buffers,
  and `ZoneNames` says which addresses a name stands for.
  `ZoneRows`, `ZoneDatabase`, `ZoneSerial` and `ZoneValidation` are the table of zones, the SOA check that changes a
  list and the database, and the validation loop. `ZoneTable` puts them together as steps: add, delete, mark
  updated, validate. `RevZoneList` is the list of names and the name server configuration written from it, and
  `ZoneConfig` a reader of that configuration.
- **Reverse records** (`src/zones.c`). `ReverseBuild` says which rows a build removes and adds and when the result is
  right, `ReverseRecords` is the walks over the lists of records that collect them.
- **Statement rewriting** (`lib/queries.c`, `old/ailsasql.c`). `SqlText` gives the rewritten texts, `SqlMeaning` and
  `SqlDeletion` give statements a meaning by reading their text, `SqlBuilders` and `OldSqlBuilder` are the buffer
  writing builders (over `CString`, character buffers that end at a NUL).
- **Lists and what is built on them** (`lib/list.c`, `lib/helper.c`, `lib/hash.c`, `lib/data.c`). `LinkedList` is the
  heap structure with its operations, `ListRuns` runs of them, `DataElements` the replacement of an element,
  `HashTable` the string hash and the table of bucket lists, `StringBuffer` the doubling buffer.
- **Build addresses** (`old/build_add.c`, `old/build_data_struct.c`). `BuildAddresses` says which address is chosen and
  what runs do, `BuildIp` is the list of used addresses, the scan and the guarded insertion.
- **Flat results** (`lib/dnsa_net.c`, `lib/queries.c`). `ZoneHeader` is the three-pass writer of NS, MX and SRV
  records, `ZoneLines` a reader of its lines, `ResultFetch` the loop that binds the cells of the next row ahead,
  `FlatRows` the rows of a flat list.

What the surroundings supply is a parameter: the clock of each round, how each statement goes (done, failed, or no
connection), whether a query gives its rows, a file can be opened or a zone check passes, the ports of services, the
rows a query gives, and the order they come in.

## What the code does that its names and messages do not say

Each point is proved, with its exact condition where there is one.

- The end of a zone is right exactly when the zone ends below 255.255.255.255. One that ends there gets
  2^64 - 1, and one that passes it finishes before it starts (`ZoneBlocks.FinishExact`; 255.255.255.0/24 in
  `ZoneBlocks.TopZoneExample`). A /8 always finishes one before it starts (`ZoneBlocks.StartFinishSucceeds`), so it
  is never accepted, and neither is 0.0.0.0 (`ZoneTable.AcceptedExactly`). The count of
  sub-zones refuses prefixes below 8 and is 1 above 24, where no address is worked out (`ZoneBlocks.ZoneIndexErrors`,
  `ZoneBlocks.OffsetIpErrors`).
- SQLite keeps 2^64 - 1 as -1, so the overlap query misjudges zones at the top: `ZoneTable.OverlapTestExact` says
  which pairs, `ZoneTable.AcceptedExactly` which requests are accepted all the same,
  `ZoneTable.InsertKeepsInvExactly` and `ZoneTable.RunKeepsInvExactly` which additions and runs leave overlapping
  zones, `ZoneTable.SqliteOverlapExample` shows one. MySQL takes the low 32 bits, which are right.
- A zone need not start on a boundary of its prefix, or even of its sub-zones, and is accepted. Below the top its
  stored interval is right, and its names differ from those of all other zones, but the LIKE pattern and the
  in-addr.arpa name of a sub-zone stand for the addresses of that sub-zone exactly when the zone starts on a sub-zone
  boundary (`ReverseNames.PatternExact`, `ZoneNames.NameExact`), and so do all patterns, or all names, for the zone
  (`ReverseNames.PatternsCoverZone`, `ZoneNames.NamesCoverZone`). 10.0.0.128/24 is accepted, misses 10.0.1.0 and takes
  in 10.0.0.0 (`RevZoneList.UnalignedZoneAccepted`, `RevZoneList.UnalignedZoneName`,
  `RevZoneList.UnalignedZonePattern`).
- With MySQL a statement that fails is taken for done: its status is positive, and only a negative one counts as a
  failure (`ZoneRows.OutcomeOf`). SQLite reports every failure. So with MySQL
  - a marked zone is bumped exactly when some round is the first to store its serial, by the clock of that round, and
    not only by the first round (`ZoneValidation.RoundsBump`, `ZoneValidation.FirstStoreIs`);
  - the files of one validation carry different serials unless the rounds before that one had worked out the same
    (`ZoneValidation.FilesAgreeExactly`; `ZoneValidation.SwallowedUpdateExample`);
  - `valid` may stay as it was although no error is returned (`ZoneValidation.ValidationRecordsChecks`;
    `ZoneValidation.SwallowedRecordingExample`);
  - adding a zone can return success with no row stored, or end the process (`ZoneTable.SwallowedInsertion`;
    `ZoneTable.SwallowedInsertionExample`).
- The in-addr.arpa names of the configuration are distinct exactly when no two zones share a block of the size of both
  their sub-zones (`RevZoneList.FilledNamesExactly`), for every table that additions make
  (`RevZoneList.ReachableNamesExactly`). With SQLite they can coincide (`RevZoneList.SqliteNamesExample`).
- A build of reverse records is right exactly when no record passes as known by a row of another sub-zone and the text
  it is compared with decides as the sub-zone's would (`ReverseBuild.BuildRightExactly`). It goes wrong in three ways:
  10.0.10.5 also gets a row in 10.0.1 (`ReverseRecords.OverreachExample`), a host with the same last octet in two
  sub-zones gets one row of the two (`ReverseBuild.HiddenExample`), and in a zone of 16 bits records can be left out
  (`ReverseBuild.NarrowExample`). There the host of a row is not reversed either, so its owner name is that of another
  address (`ReverseRecords.OwnerNameExact`).
- Removal from a hash table hands the element before the match to the list, so it never removes the match
  (`HashTable.Table.Remove`), and nothing from a table filled by insertions (`HashTable.Table.InsertedStays`).
- The buffer of the widened INSERT is one byte short when there are fewer values than one row
  (`SqlBuilders.WidenedInsertFits`, `SqlBuilders.WidenedInsertOverrun`), that of the rewritten DELETE when the
  statement ends in `=` (`SqlBuilders.WidenedDeleteFits`, `SqlBuilders.WidenedDeleteOverrun`). Values that do not make
  up whole rows give a statement with fewer parameters than values, which is refused (`SqlMeaning.PartRowsRefused`).
- A hash bucket takes one element only: insertion passes no anchor, and the list refuses that when it is not empty
  (`HashTable.Table.Insert`).
- An element of a list that is replaced at an end takes over a link of the element it is copied from, so the list
  stays well formed exactly when that link is null (`DataElements.ReplaceDataElement`).
- The address allocator is right exactly on the ranges of `BuildAddresses.Sound` (`BuildAddresses.ChosenRightExactly`);
  for a range of one used address it returns the address after it (`BuildAddresses.OneUsedAddress`,
  `BuildAddresses.OneAddressExample`).
- A dated serial half the serial space or more ahead is not newer for secondary servers
  (`ZoneSerial.NextSerialIsNewer`, section 3.2 of RFC 1982; `ZoneSerial.FarSerialExample`).

## Model

| member | source | states |
|---|---|---|
| Ipv4.ParsePrint | lib/dnsa_net.c:1787-1816 | the text of every address reads back as that address |
| Ipv4.PrintParse | lib/dnsa_net.c:1801-1816 | every accepted text is the one canonical text of its address |
| Ipv4.BinTextBin | lib/dnsa_net.c:1787-1816 | number to text and back keeps the low 32 bits and refuses exactly zero |
| Ipv4.TextBinText | lib/dnsa_net.c:1787-1816 | text to number and back gives the same text and refuses exactly 0.0.0.0 |
| Ipv4.LeadingFields | lib/dnsa_net.c:1787-1799 | texts agree in their first k fields exactly when the addresses agree in their first k octets |
| ZoneBlocks.NetRangeIsPower | lib/dnsa_net.c:106-113 | a prefix of p covers 2^(32-p) addresses |
| ZoneBlocks.MaskIsHighBits | lib/dnsa_net.c:1750-1760 | the mask has the high p bits set, its complement the others |
| ZoneBlocks.SubZonesFillZone | lib/dnsa_net.c:1702-1722 | the count of sub-zones times their size is the size of the zone |
| ZoneBlocks.SubZonesPartitionZone | lib/dnsa_net.c:1702-1722 | an address lies in sub-zone i exactly when it lies in the zone and i is its offset divided by the sub-zone size |
| ZoneBlocks.OffsetIpText | lib/dnsa_net.c:1847-1872 | the text written for sub-zone i is its first address; only address zero is refused |
| ZoneBlocks.StartFinishValue | lib/dnsa_net.c:1874-1903 | the detour through text computes start plus size minus one in 32 bits, borrowing into an unsigned long at zero |
| ZoneBlocks.StartFinishSucceeds | lib/dnsa_net.c:1874-1903 | success exactly for an address text and prefix 8 to 24, except 0.0.0.0/8; a /8 finishes before it starts |
| ZoneBlocks.FinishExact | lib/dnsa_net.c:1874-1903 | the finish is the last address exactly when the zone ends below the top; what it is otherwise |
| ZoneBlocks.TopZoneExample | lib/dnsa_net.c:1874-1903 | 255.255.255.0/24 finishes at 2^64 - 1 |
| ZoneBlocks.MaskAgrees | lib/dnsa_net.c:1750-1760 | for an aligned zone the finish is start OR NOT mask, and the addresses between are those that mask to start |
| ZoneBlocks.SubZoneIsBlockExactly | lib/dnsa_net.c:1847-1872 | a sub-zone is the block of addresses with its leading octets, if and only if the zone starts on a sub-zone boundary |
| ZoneBlocks.BlocksAreZoneExactly | lib/dnsa_net.c:1847-1872 | those blocks together are the zone, under the same condition |
| SqlLike.LikePrefix | lib/dnsa_net.c:1830-1843 | a literal text and % matches exactly the texts that begin with it |
| ReverseNames.GetRangeSearchString | lib/dnsa_net.c:1818-1845 | the buffer ends up holding the kept fields of the sub-zone's first address and .%, or the offset error is returned |
| ReverseNames.PatternMatches | lib/dnsa_net.c:1818-1845 | an address text matches the pattern exactly when both addresses are in the same block of sub-zone size |
| ReverseNames.PatternExact | lib/dnsa_net.c:1818-1872 | the pattern of sub-zone i matches exactly the addresses of sub-zone i, if and only if the zone starts on a sub-zone boundary |
| ReverseNames.PatternsCoverZone | lib/dnsa_net.c:1818-1872 | all patterns of a zone together match exactly the addresses of the zone, if and only if the zone starts on a sub-zone boundary |
| ReverseNames.PatternDefined | lib/dnsa_net.c:1818-1872 | a sub-zone has a pattern exactly when its first address is not zero |
| ReverseNames.MoveFields | lib/dnsa_net.c:1187-1226 | moving the last field over until none is left appends the fields in reverse |
| ReverseNames.GetInAddrString | lib/dnsa_net.c:1170-1231 | the buffer gains the kept fields reversed and in-addr.arpa |
| ZoneNames.NameIsReversedOctets | lib/dnsa_net.c:1170-1231 | the name is the leading three, two or one octets reversed under in-addr.arpa (section 3.5 of RFC 1035) |
| ZoneNames.NameInjective | lib/dnsa_net.c:1170-1231 | two names are equal exactly when they are for blocks of one size and the same block |
| ZoneNames.NameExact | lib/dnsa_net.c:1170-1231 | exactly the addresses of sub-zone i have its name, if and only if the zone starts on a sub-zone boundary |
| ZoneNames.NamesCoverZone | lib/dnsa_net.c:993-1012 | the names of all sub-zones are those of exactly the addresses of the zone, under the same condition |
| ZoneNames.ApartNamesDiffer | lib/dnsa_net.c:1170-1231 | blocks that do not overlap have different names, whatever their sizes |
| RevZoneList.UnalignedZoneAccepted | lib/dnsa_net.c:1352-1396 | 10.0.0.128/24 is accepted into an empty table |
| RevZoneList.UnalignedZoneName | lib/dnsa_net.c:1170-1231 | 10.0.1.0 lies in it and has another name than its only one, 10.0.0.0 lies outside and has that name |
| RevZoneList.UnalignedZonePattern | lib/dnsa_net.c:1818-1845 | its only pattern matches 10.0.0.0 and not 10.0.1.0 |
| RevZoneList.FillRevZoneList | lib/dnsa_net.c:971-1030 | walking the flat list by sixes appends one entry for each sub-zone of each row, up to the first row that fails; an empty list gives the unset result |
| RevZoneList.RowOfStored | lib/dnsa_net.c:993-1025 | a stored zone yields exactly its sub-zones in order, each with its address text and name, the type of the zone, and for a slave its master |
| RevZoneList.FilledNamesExactly | lib/dnsa_net.c:971-1030 | from every table of stored zones, disjoint or not, the list has one entry for each sub-zone and nothing else, and its names are distinct if and only if no two zones have sub-zones of one size and share a block of it |
| RevZoneList.DisjointZonesNoClash | lib/dnsa_net.c:971-1030 | zones that share no address have no name in common |
| RevZoneList.WriteRevZoneConfig | lib/dnsa_net.c:911-969 | the result and the text of the configuration file: the declarations of the entries, and when nothing is written |
| RevZoneList.ReadsBack | lib/dnsa_net.c:943-962 | the declarations of any entries, read token by token, are one zone statement for each, in order: its in-addr.arpa name, its type, masters for a slave only, and the file named by its range |
| RevZoneList.ConfigDeclaresEachOnce | lib/dnsa_net.c:911-969 | from every table of stored zones the file reads as one zone statement for each sub-zone, with its name, file, type and master, and nothing else, and no two statements are for one name if and only if no two zones clash |
| RevZoneList.ReachableNamesExactly | lib/dnsa_net.c:971-1030 | from the empty table, over every run, the list is filled without an error and its names are distinct if and only if no two zones clash, as after every admissible run |
| RevZoneList.SqliteNamesExample | lib/dnsa_net.c:971-1030 | SQLite accepts 255.255.253.0/24 and then 255.255.252.0/22, and two entries have the same name |
| ZoneTable.OverlapTestExact | lib/queries.c:738-742 | the three-way test is non-empty intersection, if and only if the pair is not one that SQLite misjudges |
| ZoneTable.CheckForRevZoneOverlap | lib/dnsa_net.c:1668-1700 | the six arguments are bound in the order start, end, start, start, end, end, and the outcome is that of the test on all rows, or that of a query that fails |
| ZoneTable.NewZoneStored | lib/dnsa_net.c:617-723 | an accepted request stores a row for its own block |
| ZoneTable.InsertedRow | lib/dnsa_net.c:617-723 | it is the one row read back under its range: a master zone with master NULL, or a slave of the named master, with the name servers, timers and dated serial of the request, not yet valid |
| ZoneTable.AddedRow | lib/dnsa_net.c:1352-1372 | and so it stays, but for its valid column, through the validation that ends the addition |
| ZoneTable.AcceptedExactly | lib/dnsa_net.c:1352-1396 | a request is accepted exactly when its range and prefix are supported, its block fits, and each stored zone shares an address with it if and only if the database misjudges the two |
| ZoneTable.InsertKeepsInvExactly | lib/dnsa_net.c:1352-1396 | an addition leaves the zones pairwise disjoint exactly when it is not stored or does not go wrong, which the request and the stored zones decide; with MySQL none goes wrong |
| ZoneTable.SqliteTopRefusesLower | lib/dnsa_net.c:1668-1700 | a stored zone at the top makes SQLite refuse every zone that starts no higher |
| ZoneTable.SqliteTopCoversHigher | lib/dnsa_net.c:1668-1700 | SQLite accepts a zone that reaches the top over any stored zone that starts higher |
| ZoneTable.SqliteOverlapExample | lib/dnsa_net.c:1668-1700 | 255.255.1.0/24 and then 255.255.0.0/16 are both accepted |
| ZoneTable.AddAndValidate | lib/dnsa_net.c:1352-1372 | database, files and result are exactly those of the addition step: overlap check, insertion that takes effect, is reported or is swallowed, validation |
| ZoneTable.AdditionReturns | lib/dnsa_net.c:1352-1372 | an addition that is stored or refused always returns |
| ZoneTable.MissingZone | lib/dnsa_net.c:514-559 | a validation of a zone without a row: success for a slave, an error when the SOA cannot be read, and otherwise the end of the process |
| ZoneTable.SwallowedInsertion | lib/queries.c:1682-1700 | what adding an accepted zone returns when MySQL fails its insertion: no row is stored, a slave succeeds, any other zone ends in an error or ends the process |
| ZoneTable.SwallowedInsertionExample | lib/queries.c:1682-1700 | MySQL, an empty table and the slave zone 10.0.0.0/24: success, and no row |
| RevZoneList.AddReverseZone | lib/dnsa_net.c:1352-1396 | the whole of it, with the configuration written and the name server reloaded only after all before went well; exactly which result and file each outcome of each statement gives |
| RevZoneList.AddedZoneDeclared | lib/dnsa_net.c:1352-1396 | after an addition that is stored the configuration reads as a statement for each sub-zone of the zone added: a slave exactly when a master was named, and then of it |
| ZoneTable.DeletesExactly | src/zones.c:1281-1317 | a deletion takes the one row with that range and type and leaves the others in order; with none, or more than one, it takes nothing |
| ZoneTable.DeleteStep | src/zones.c:1281-1317 | after a deletion that takes effect no row has that range and type, unless two had, and the rows of every other range and the files are as they were |
| ZoneTable.MarkStep | lib/queries.c:1142-1146 | marking a zone sets its updated flag and leaves the rest of its row, every other row and the files |
| ZoneTable.ApplyKeepsInvExactly | lib/dnsa_net.c:1352-1396 | a step of any kind leaves the zones disjoint exactly when it is not an addition that goes wrong |
| ZoneTable.RunKeepsInvExactly | lib/dnsa_net.c:1352-1396 | over every run of additions, deletions, updates and validations the zones are disjoint throughout, exactly when no addition of the run goes wrong |
| ZoneTable.RunKeepsInv | lib/dnsa_net.c:1352-1396 | with MySQL over every run, with SQLite over every run of zones below the top, the zones stay disjoint and their names distinct |
| ZoneTable.InvGivesDistinctNames | lib/dnsa_net.c:1352-1396 | zones that share no address have different names |
| ZoneTable.StepProjects | lib/dnsa_net.c:301-338 | marking or validating acts on the SOA of each zone as its own step does, with a check by the clock of the round that stores, if one does, and on other zones not at all |
| ZoneTable.RunProjects | lib/dnsa_net.c:301-338 | over every run of updates and validations of any zones, whatever fails, each zone's SOA follows the run of its own steps, which the steps and the database alone decide |
| ZoneTable.RunBoundsZoneSerial | lib/dnsa_net.c:301-338 | a zone's serial in the table lies between its first value and the largest dated serial, plus the number of bumps |
| ZoneSerial.SerialValue | lib/dnsa_net.c:809-837 | the text built reads as YYYYMMDD01 (section 2.2 of RFC 1912) |
| ZoneSerial.SerialsOrderAsDays | lib/dnsa_net.c:809-837 | dated serials order as calendar days do, for years of any length |
| ZoneSerial.NextSerialGrows | lib/dnsa_net.c:317-321 | a bumped serial is larger exactly when the old one is not the last unsigned long |
| ZoneSerial.NextSerialIsNewer | lib/dnsa_net.c:317-321 | it is newer in the sense of section 3.2 of RFC 1982 exactly when the date is less than half the space ahead |
| ZoneSerial.FarSerialExample | lib/dnsa_net.c:317-321 | from serial 1 a clock of the year 2148 gives a serial that is not newer |
| ZoneSerial.StepMovesSerial | lib/dnsa_net.c:301-338 | a serial moves exactly at the steps that clear the updated flag, and then up |
| ZoneSerial.RunBoundsSerial | lib/dnsa_net.c:301-338 | over every run, with any clock, after k bumps the serial is at most the largest of the first and the dated serials plus k, and at least the first plus k |
| ZoneDatabase.Database.SoaOnRange | lib/queries.c:427-431 | the result list holds the SOA columns of the matching rows, row by row |
| ZoneDatabase.SoaColumn | lib/queries.c:427-431 | each of the eight columns of each row, by its place in the list |
| ZoneDatabase.ForwardRefresh | lib/dnsa_net.c:261-299 | the check of a forward zone changes the second of its six elements, to the next serial, exactly when the sixth is yes |
| ZoneDatabase.Database.CheckForUpdate | lib/dnsa_net.c:261-338 | forward and reverse check: the serial in the list changes, and that in the database with it, with the flag cleared, exactly when the update takes effect; the result is an error exactly when the update is reported |
| ZoneDatabase.Database.WriteRevZoneFile | lib/dnsa_net.c:561-615 | a written file carries the serial of the list after the check, stored or not; which failures leave what behind |
| ZoneDatabase.Database.ValidateRevZone | lib/dnsa_net.c:514-559 | the loop over the sub-zones does to database and files what the validation step says |
| ZoneValidation.QuietRounds | lib/dnsa_net.c:301-338 | rounds on a zone not marked updated change no row |
| ZoneValidation.RoundsBump | lib/dnsa_net.c:514-615 | rounds on a marked zone bump its serial exactly when some round is the first to store it, and then to the serial by that round's clock |
| ZoneValidation.FirstStoreIs | lib/queries.c:1662-1680 | that round is the one whose update takes effect while the update of every round before it was swallowed and its file written and passed |
| ZoneValidation.RoundsWrite | lib/dnsa_net.c:561-615 | the files of any rounds are those of the first so many sub-zones, in order; each carries the serial its own round works out up to the storing round, and behind it the stored one |
| ZoneValidation.ValidationChecksOnce | lib/dnsa_net.c:514-615 | one validation is one check of the serial, by the clock of the round that stores, or none at all; no other zone changes |
| ZoneValidation.FilesAgreeExactly | lib/dnsa_net.c:514-615 | all files of a validation carry the serial the zone ends with, if and only if the zone was not marked, or nothing was stored or written, or every round before the storing one worked out its serial |
| ZoneValidation.ReportedUpdatesAgree | lib/dnsa_net.c:514-615 | so they do whenever the first update is not swallowed, as with SQLite |
| ZoneValidation.SwallowedUpdateExample | lib/queries.c:1662-1680 | MySQL, 10.0.0.0/23 over midnight with the first update failing: success, and files with 2024010102 and 2024010201 |
| ZoneValidation.ValidationRecordsChecks | lib/dnsa_net.c:514-559 | without an error valid is yes exactly when every sub-zone check passed, if the recording took effect; when it was swallowed, and with an error, valid is left |
| ZoneValidation.SwallowedRecordingExample | lib/queries.c:1662-1680 | the same zone with its recording failing too: both checks pass, success is returned, and valid stays no |
| ReverseBuild.InToRemove | src/zones.c:1640-1694 | a row is removed exactly when no forward record has its name at the address its sub-zone and host make |
| ReverseBuild.BuildRightExactly | src/zones.c:1640-1773 | after a build each sub-zone has just the rows of the forward records with an address in it, if and only if every record with a known row has one in that sub-zone and every other is compared as the sub-zone would decide |
| ReverseBuild.RowsHaveTargets | src/zones.c:1674-1677 | every row a build leaves has the name of a record as its target: the labels of the host, unless that is @, those of the domain, and the root |
| ReverseBuild.RightByTarget | src/zones.c:1640-1773 | rows that are right are, in each sub-zone, those with the name of a record at its address |
| ReverseBuild.TargetsDiffer | src/zones.c:1674-1677 | records of one domain with different hosts, neither of them @, have different targets |
| ReverseBuild.BuildAgain | src/zones.c:1640-1773 | where every address that begins with a sub-zone's pattern up to the last dot also has that dot, a build from rows that are right changes nothing |
| ReverseBuild.HiddenExample | src/zones.c:1719-1734 | one name at 10.0.0.5 and 10.0.1.5 with the row of the second: the first never gets one |
| ReverseBuild.NarrowExample | src/zones.c:1736-1740 | in 10.1.0.0/16 with a row for 10.1.3.5 a new record for 10.1.4.7 gets none |
| ReverseRecords.OverreachExample | src/zones.c:1736-1751 | in 10.0.0.0/20 a record for 10.0.10.5 gets a row with the host .5 in sub-zone 1 |
| ReverseRecords.BuildOfZoneExactly | src/zones.c:1640-1773 | the same for the sub-zones of every range and prefix that have addresses, and records for addresses |
| ReverseRecords.RightByAddress | src/zones.c:1640-1773 | rows that are right put a record in sub-zone i exactly when its address lies there, for a zone that starts on a sub-zone boundary |
| ReverseRecords.StemIsBlock | lib/dnsa_net.c:1818-1845 | an address begins with the pattern of a sub-zone, without its %, exactly when it lies in its block |
| ReverseRecords.OwnerNameExact | src/zones.c:1775-1787 | the owner name of a row is the reverse name of its address if and only if the host is one octet or its first and last octets are equal |
| ReverseRecords.RecordsToRemove | src/zones.c:1640-1694 | the two walks with the pattern in a buffer list the ids, sub-zone by sub-zone, or end in the error of the first sub-zone without an address |
| ReverseRecords.RecordsToAdd | src/zones.c:1696-1773 | the same for the rows to add, with what the buffer holds after each inner walk |
| ReverseRecords.InTrim | src/zones.c:1590-1638 | a record stays exactly when every preferred entry for its address names it |
| ReverseRecords.TrimRecordList | src/zones.c:1590-1638 | the walks that unlink records from the list while they go over it leave just those |
| ReverseRecords.BuildReverseRecords | src/zones.c:1360-1387 | trimming, removing and adding leave the rows of the specified build |
| SqlText.WidenedInsertMarks | lib/queries.c:1485-1515 | the widened text has as many parameters as values exactly when the values make up whole rows |
| SqlText.WidenedDeleteMarks | lib/queries.c:1442-1483 | the rewritten deletion has one parameter for each value |
| SqlMeaning.ReadWidenedInsert | lib/queries.c:1485-1515 | the widened text reads as an insertion into the same table and columns, with the tuple repeated |
| SqlMeaning.WideningKeepsMeaning | lib/queries.c:1485-1515 | executing the widened statement on all values adds the same rows in the same order as the single-row statement for each chunk |
| SqlMeaning.PartRowsRefused | lib/queries.c:1485-1515 | the widened statement is refused exactly when the values do not make up whole rows |
| SqlDeletion.ReadWidenedDelete | lib/queries.c:1442-1483 | the rewritten text reads as a deletion on the same table and column |
| SqlDeletion.WidenedDeleteKeepsMeaning | lib/queries.c:1442-1483 | it leaves the same table as the single deletion for each argument, in any order |
| SqlBuilders.CreateValueString | lib/queries.c:1517-1534 | the buffer holds a comma and one tuple and is never overrun |
| SqlBuilders.InsertFieldsArray | lib/queries.c:1536-1552 | field k is the type of column k mod n for all whole rows, and unset behind them |
| SqlBuilders.WidenedInsertFits | lib/queries.c:1485-1515 | the allocation holds the text and its NUL exactly when there is a whole row |
| SqlBuilders.WidenedInsertOverrun | lib/queries.c:1485-1515 | one value for two columns: 35 bytes for an allocation of 34 |
| SqlBuilders.CreateMulti | lib/queries.c:1485-1515 | the buffer, filled at moving offsets, holds the widened statement; the types are those of the columns in turn |
| SqlBuilders.WidenedDeleteFits | lib/queries.c:1442-1483 | the allocation suffices exactly when something follows the last = |
| SqlBuilders.WidenedDeleteOverrun | lib/queries.c:1442-1483 | a statement that ends in =: 31 bytes for an allocation of 30 |
| SqlBuilders.CreateDeleteMulti | lib/queries.c:1442-1483 | the buffer holds the text before the last = and the IN list; which calls are refused and how |
| ZoneRows.BindNumberIs | lib/queries.c:2160-2167 | SQLite sees the 64 bits of a number in two's complement, MySQL its low 32 bits |
| SqlBuilders.BindArguments | lib/queries.c:2140-2194 | the i-th value of the list is the i-th parameter; success exactly when there are enough values of known types |
| SqlBuilders.MultipleInsert | lib/queries.c:1384-1411 | building, binding and executing gives the table of the single insertions, or an error exactly for part rows |
| SqlBuilders.MultipleDelete | lib/queries.c:1413-1440 | building, binding and executing gives the table of the single deletions in any order |
| OldSqlBuilder.GetSizeFromLen | old/ailsasql.c:314-327 | the shift loop ends at the power of two that is above the length and at most twice it |
| OldSqlBuilder.SizeIsLeast | old/ailsasql.c:314-327 | that size is at most every power of two above the length, so at most the real capacity |
| OldSqlBuilder.CheckForResize | old/cmdb_data.c:144-153 | one doubling keeps the text and makes room for any length below twice the size |
| OldSqlBuilder.AddSqlInsertValues | old/ailsasql.c:344-381 | with the re-derived size every write is in bounds and the text is that of the newer builder |
| OldSqlBuilder.BuildSqlInsert | old/ailsasql.c:420-464 | for every table, column list and row count the text is the widened single-row statement |
| OldSqlBuilder.SingleInsertReads | old/ailsasql.c:420-464 | for names without blanks, and a table not called VALUES, the single-row statement reads as an insertion into the table and columns it was built for |
| OldSqlBuilder.OldStatementMeaning | old/ailsasql.c:420-464 | the old builder's text means what its single-row statement for each row means |
| LinkedList.List.InsNext | lib/list.c:82-108 | the list stays well formed and is the old sequence with the value after the anchor; a null anchor is refused exactly when the list is not empty |
| LinkedList.List.InsPrev | lib/list.c:110-136 | the same, before the anchor |
| LinkedList.List.Insert | lib/list.c:138-158 | the value is appended; null is refused and changes nothing |
| LinkedList.List.Remove | lib/list.c:160-184 | the list is the old sequence without the element, whose value is handed back; else nothing changes |
| LinkedList.List.RemoveElements | lib/list.c:186-211 | exactly the run that starts at the element is removed and destroyed in order |
| LinkedList.List.Clean | lib/list.c:49-63 | every value is destroyed exactly once, from the tail |
| LinkedList.List.GetElement | lib/list.c:337-351 | the element of that number counted from one, or null outside the list |
| LinkedList.List.MoveDown | lib/list.c:353-365 | the element that many places on, or null past the end |
| LinkedList.List.InsertClone | lib/list.c:243-291 | exactly which anchors and places are accepted, and where the clone goes |
| LinkedList.List.Neighbours | lib/list.c:82-108 | next and previous of an element are the elements on either side, null exactly at the ends |
| ListRuns.StepConserves | lib/list.c:49-291 | each operation, clone insertion and replacement included, keeps with multiplicity all that is stored, destroyed, handed back and dropped, plus what it adds |
| ListRuns.RunConserves | lib/list.c:49-291 | over every run each value put in is in exactly one place: stored, destroyed once, handed back, or dropped by a list without a destroy function |
| ListRuns.PerformAll | lib/list.c:49-291 | a run on the real list, with or without a destroy function, ends where the run on the mathematical sequence ends and hands back what that one takes |
| DataElements.ReplaceDataElement | lib/helper.c:952-997 | the element gives way to a copy at that place, equal to the source's datum but for texts of more than 256 characters, and its datum is destroyed; the list is well formed exactly when the source element has no link on an outer side |
| HashTable.FoldBits | lib/hash.c:50-54 | whichever branch is taken, the top four bits are moved onto bits 4 to 7 by exclusive or, all other bits stay, and the value is below 2^28 |
| HashTable.Hash | lib/hash.c:41-58 | the hash of every string, signed or unsigned bytes, is below 2^28 |
| HashTable.HashStep | lib/hash.c:41-58 | each character makes the hash sixteen times what it was plus the character's code, folded |
| HashTable.ShortHash | lib/hash.c:41-58 | up to six characters below 0x80 are not folded: the hash is their codes times the powers of 16 |
| HashTable.HashExample | lib/hash.c:41-58 | the hash of hostname, and of a byte that a signed char extends |
| HashTable.Table.constructor | lib/hash.c:60-77 | a new table is empty in every bucket |
| HashTable.Table.Lookup | lib/hash.c:126-140 | the first match of the bucket; the first match of the whole table when matching data were stored under equal hashes |
| HashTable.Table.Insert | lib/hash.c:90-102 | 1 when a match is in the bucket, 0 and stored when the bucket is empty, -1 otherwise; only 0 changes the table, size is the sum of the bucket lengths, and a datum that matches itself is then found exactly when it was not refused |
| HashTable.FirstInBucketIsEarliest | lib/hash.c:90-102 | what a bucket ends up with is the earliest pair whose key falls in it |
| HashTable.Table.InsertAll | lib/hash.c:90-102 | after any insertions each bucket holds exactly the first pair that fell in it |
| HashTable.Table.InsertedCoherent | lib/hash.c:90-140 | when matching data among the pairs inserted have equal hashes, a lookup finds the first match of the whole table |
| HashTable.Table.Remove | lib/hash.c:104-124 | -1 without a match, 1 with the match at the head of its bucket and nothing changed, and otherwise 0 with the element before the match removed; the match itself stays |
| HashTable.Table.InsertedStays | lib/hash.c:104-124 | after insertions a match is at the head of its bucket, so nothing is ever removed |
| StringBuffer.Buffer.Fill | lib/data.c:602-613 | an append gives the old text and the new one, ended by a NUL, the length below the size |
| StringBuffer.AppendFits | lib/data.c:592-613 | the one doubling makes room exactly when the whole text is shorter than twice the size |
| StringBuffer.Buffer.FillAll | lib/data.c:602-613 | after any appends that fit the buffer holds their concatenation |
| StringBuffer.AfterBounds | lib/data.c:574-613 | after any appends the length is below the size, the size is the first one times a power of two and at most the larger of that and twice the length |
| StringBuffer.CapacitySuffices | lib/data.c:602-613 | texts no longer than the capacity they meet always fit |
| BuildAddresses.ChosenRightExactly | old/build_add.c:1148-1226 | the scan gives the least unused address, or that all are used, exactly on sound ranges |
| BuildAddresses.OneUsedAddress | old/build_add.c:1190-1217 | a range of one used address gives the address after it, or the used one to a host called free |
| BuildAddresses.OneAddressExample | old/build_add.c:1190-1217 | 10.0.0.5 used and alone in its range gives 10.0.0.6 |
| BuildAddresses.NoFreeHost | old/build_add.c:1190-1217 | with two addresses or more and no host called free every range is sound |
| BuildAddresses.OrderIrrelevant | old/build_add.c:1161-1187 | the order of the rows makes no difference there |
| BuildAddresses.RunKeepsDistinct | old/build_add.c:1248-1302 | over every run of requests for any ranges the guard keeps addresses distinct, and the table gains just what was granted |
| BuildAddresses.RunAllocatesAscending | old/build_add.c:1076-1086 | request i in a range succeeds exactly when i addresses were not all that was free; successes are in range, were unused, and ascend |
| BuildAddresses.EmptyRangeGivesAll | old/build_add.c:1076-1086 | from an unused range exactly end - start + 1 requests succeed |
| BuildIp.BuildDomain.IpNodeAdd | old/build_data_struct.c:82-128 | walking to the tail and linking appends the row and keeps the list well formed |
| BuildIp.BuildDomain.Scan | old/build_add.c:1190-1214 | the loop with its found flag and held node ends with the chosen address |
| BuildIp.BuildDomain.GetBuildIp | old/build_add.c:1148-1226 | the head node gets the chosen address, or keeps its own when there is none; every other node is freed once |
| BuildIp.BuildIpTable.InsertIp | old/build_add.c:1248-1302 | a used address is refused and the table kept, any other is added |
| BuildIp.BuildIpTable.BuildAll | old/build_add.c:1076-1086 | a run on the real list and table is the run of the specification |
| ZoneHeader.OrderIsByKindThenPlace | lib/dnsa_net.c:374-432 | the order of writing is NS, MX, SRV, within a kind that of the query, with each such row once and no other |
| ZoneHeader.HeaderWritesInOrder | lib/dnsa_net.c:374-432 | one line for each row in that order, up to the first SRV record whose port is unknown |
| ZoneLines.HeaderReads | lib/dnsa_net.c:374-432 | each line, read at its tabs and blanks, is the record of the row that stands there in the order |
| ZoneLines.NsLineReads | lib/dnsa_net.c:388-397 | an NS line has its destination |
| ZoneLines.MxLineReads | lib/dnsa_net.c:398-408 | an MX line has a preference that reads as that of the row, and then the destination |
| ZoneLines.SrvLineReads | lib/dnsa_net.c:409-431 | an SRV line has the owner _host._proto under the zone, then priority, weight 0 and port as numbers, and a target that ends in a dot: the destination itself exactly when that does, and otherwise the destination in the zone |
| ZoneHeader.WriteNs | lib/dnsa_net.c:388-397 | the cursor is on a row boundary or null between rows; the lines are those of the NS rows |
| ZoneHeader.WriteMx | lib/dnsa_net.c:398-408 | the same for MX rows |
| ZoneHeader.WriteSrv | lib/dnsa_net.c:409-431 | the same for SRV rows, ending at the first port that is not found |
| ZoneHeader.WriteFwdHeaderRecords | lib/dnsa_net.c:374-432 | the three passes in order; nothing from a list that is not made of whole rows |
| ResultFetch.BindResults | lib/queries.c:1823-1862 | one new blank cell for each field is appended and bound; no fields is an error |
| ResultFetch.RemoveEmptyResults | lib/queries.c:1942-1957 | exactly as many elements as fields leave the tail |
| ResultFetch.ArgumentQuery | lib/queries.c:1601-1660 | on success the list is what it was and then the values of the rows in order; a failure leaves exactly one group of cells more, blank or as the failing fetch left them |

## Left out

- MySQL, SQLite, files, the zone checker, rndc and the clock: parameters of the operations; a file is its name and the
  serial in its SOA record.
- Records of a zone: the lines a zone file has after its SOA record, glue records and the forward zone writer beyond
  its header; they walk flat lists like the parts that are modelled.
- Validation of forward zones: only its serial check is modelled, by the forward layout of `CheckForUpdate`.
- A validation of a range that is not in the table follows null, and the process ends; the run treats it as a step that changes nothing.
- ZoneTable.RunBoundsZoneSerial: for runs that stay below the largest number the database stores; a MySQL column narrower than the 32 bits that are bound is not modelled.
- ZoneHeader.WriteSrv: an SRV destination is not empty, since the code reads the character before its end.
- RevZoneList.AddReverseZone: the rows already in the table come from additions; the code would follow null at a range with too few dots. An addition that ends the process is not a call that returns.
- RevZoneList.FillRevZoneList: rows with prefix 8, 16 or 24 have enough dots and a name that fits its buffer, since the code follows null, or writes past the buffer, otherwise.
- RevZoneList.WriteRevZoneConfig: the same for the rows of the table.
- RevZoneList.ReadsBack: names and files without quotes, and masters that are one word of the configuration; comments are not read.
- ZoneLines.HeaderReads: for texts without tabs, blanks and line ends, which the lines cannot hold apart.
- SqlMeaning.WideningKeepsMeaning: statements are read by their VALUES list and their text before it; constraints, defaults and types of the database are not part of the meaning.
- OldSqlBuilder.BuildSqlInsert: names short enough for the one doubling before each write; HOST_S is not part of this model and enters as a power of two of at least 64.
- OldSqlBuilder.SingleInsertReads: quoted names, which may hold blanks, are not read.
- SqlBuilders.CreateMulti: at least one whole row of values, since the code writes past its buffer with fewer.
- SqlBuilders.CreateDeleteMulti: the statement does not end in `=`, since the code writes past its buffer if it does.
- LinkedList.List.RemoveElements: the run ends inside the list, since the code follows null past its end.
- DataElements.ReplaceDataElement: two elements or more and a number inside the list, since the code follows null otherwise.
- BuildIp.BuildIpTable.InsertIp: an insertion that fails after the guard is not modelled; the code goes on with memory it has freed.
- StringBuffer.Buffer.Fill: the append fits twice the size, which is where the code stops being defined.
- BuildIp.BuildDomain.GetBuildIp: addresses are unbounded numbers, so a range that ends at the largest unsigned long is not modelled; host names are not cut at the length of their field.
- ResultFetch.ArgumentQuery: column types the code ends the process for do not occur.
- ReverseRecords.RecordsToRemove: hosts of rows are shorter than the 16 bytes they are written in.
- ReverseRecords.RecordsToAdd: the same, and forward records are for texts with three dots that are no longer than an address; the code would read past the end of others.
- ReverseRecords.TrimRecordList: a list without a destroy function, which is refused, is not modelled.
- The queries of a build and its statements: the rows they give are parameters, and what the statements do is `SqlBuilders.MultipleDelete` and `SqlBuilders.MultipleInsert`; marking the zone and validating it again are steps of `ZoneTable`.
- LinkedList.List.InsertClone: a clone is of the whole datum, with its size only compared to zero; that a clone equals its original is not stated for data other than text, because the copy of those goes the wrong way (lib/data.c:705).
- ailsa_list_pop_element: its middle case does not advance (lib/list.c:229-236).
- check_for_build_domain_overlap and cbc_fill_partition_details: the first takes an argument array that its callers build, the second copies fields from one list to another.
- Per-table store and bind functions, initialisation and cleaning of records, command lines, configuration files, regular expressions, logging, base64 and DHCP: long or easy, and they would add no property of this kind.
