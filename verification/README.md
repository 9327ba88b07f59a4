# Argus: verified model

Argus is a monitoring platform: agents and server-side pollers report the health of
services, hosts, network shares and SNMP devices; a backend turns the reports into
events, uptime figures and forecasts; workers write and prune backups. This project
models the algorithms and state machines at the heart of it in Dafny and proves what
they promise.

Run `dafny verify dfyconfig.toml` in this directory to check everything.

| module(s) | part of the system |
|---|---|
| `SmbTree`, `SmbNodes`, `SmbFrontier`, `SmbWalk`, `SmbTrueSize` | the budgeted breadth-first walk of an SMB share, with sizes rolled up to every ancestor |
| `BucketKeys`, `Retention`, `RetentionRule` | day, ISO-week and month buckets; grandfather-father-son pruning |
| `Schedule`, `BackupWorker` | when a backup is due; the worker's tick, where scheduling and pruning act on each other |
| `Base32`, `Base32Codec`, `Base32Forms`, `Bits`, `Totp`, `TotpStandard` | the base32 codec with its unmasked 32-bit accumulator; one-time codes |
| `Mib`, `MibOids`, `OidNames` | MIB symbols resolved to a fixpoint; longest-prefix names for OIDs, done in two ways |
| `Diff`, `Pipeline`, `Uptime`, `UptimeHours` | the ingest pipeline: derived events, live baseline, hourly uptime |
| `Forecast`, `ForecastResult` | least-squares capacity forecast |
| `Restore`, `RestoreIntegrity` | export, and restore in foreign-key order |
| `ScanControl`, `ScanManager` | background scans with pause, resume and cancel |
| `SnmpPolling`, `SnmpRuns`, `SnmpScheduler` | two-speed SNMP polling with a flap guard |
| `SpoolQueue`, `Spool`, `SpoolRuns` | the agent's disk queue |
| `Lockout`, `Sessions` | login lockout; rotating refresh tokens and revocable access tokens |
| `Calendar`, `Decimal`, `Shared`, `Sorting`, `StringOrder` | shared helpers |

How it is built: code that updates things in place is a class or a method with loops,
proved equal to a pure function of the inputs or of the old state; what the code
promises is proved about that function, for every input or over every run. Runs are
sequences of steps or events; the clock readings and the outcomes of the outside world
(database, network, disk, operators) are parts of each step.

## What the proofs found

Places where the code does not do what its comments, or a plain reading, say. The
model follows the code; for each one a member states exactly when the promise holds.

- `base32Decode` is documented as tolerant of case, spaces and padding. It strips
  padding before spaces, so it throws on `=` exactly if whitespace comes anywhere after a
  padding character (`Base32.TolerantExactly`); the grouped, padded form that its comment
  speaks of, as in "ME== ====", is such a text (`Base32.GroupedPaddingThrows`).
- `forecastStorage` throws a RangeError instead of returning a forecast when a share
  grows so slowly that the full date is beyond what a Date can hold
  (`Forecast.ThrowsExactly`, `Forecast.SlowGrowthThrows`).
- With a retention policy that has no room at all in a scope, every tick writes a
  backup of that scope and prunes it again, so the schedule is due at every tick
  (`BackupWorker.TickSettles`, with an example in `BackupWorker.NothingKeptDueAgain`).
- Folders whose path the walk refuses for its characters are skipped without setting
  `partial`. After a walk that is not partial a folder has its true recursive size if
  and only if the refused folders below it are empty (`SmbTrueSize.NodeIsTrueExactly`);
  so it has when no node's path is refused (`SmbTrueSize.AcceptedIsTrue`), and there is a
  share whose complete walk exists and has not (`SmbTrueSize.RefusedFolderIsMissed`).
- `Date.UTC` takes the years 0 to 99 for 1900 to 1999, so every instant of those years
  shares its week key with one 1900 years later (`BucketKeys.TwoDigitYearsCollide`), and
  a week whose Thursday lies in them has a negative number
  (`BucketKeys.WeekNumberExact`, `BucketKeys.WeekBeforeYear100`). In all other years
  keys and numbers are right (`BucketKeys.WeekKeyExact`).
  Day and month keys are right in the years 0 to 9999 (`BucketKeys.DateKeysExact`); beyond
  them a day key names a month and a month key a year (`BucketKeys.ExpandedKeys`).
- The comment on `restoreOne` says that tables missing from a bundle are skipped. The
  code deletes every listed table first, so they end up empty (`Restore.RestoreOne`,
  `Restore.MissingKeptExactly`).
  Tables of the schema that are in neither order list (`snmp_profiles`, `mib_objects`,
  `client_meta` and several telemetry tables) are neither exported nor restored.
- A unit sampled twice in one batch can leave the event log out of step with the
  baseline: exactly if it leaves its previous status and returns to it
  (`Pipeline.BatchReplaysExactly`, with an example in `Pipeline.ReturnBreaksReplay`).
- An hour's uptime bucket can hold up to 7199 seconds, because a gap is credited to
  the hour in which it starts (`Uptime.HourCanSpill`, `Uptime.HourNeverOver`). It holds
  more than 3600 only if two samples at different times lie in the hour and the first one
  after it comes more than an hour after the first one in it
  (`UptimeHours.OverfullMeansSpill`), and without pruning and at whole seconds exactly
  then (`UptimeHours.OverfullExactly`).
- A cancelled scan does not always end as cancelled: it does so exactly if it comes to
  the head of the walk's loop once more with a folder left
  (`ScanControl.EndsCancelledExactly`). One that is cancelled while its last folder is
  being listed ends as done (`ScanControl.CancelTooLate`).
- Spool file names are documented to sort chronologically. The next name sorts after the
  last one exactly if the clock has gone on, or stands still and the sequence number does
  not roll over to a seventh or later digit (`Spool.NextStamp`); the millionth file can
  sort before the one written before it (`Spool.MillionthSortsFirst`).
- A failed second factor neither counts as a failed login nor clears the counter
  (`Lockout.Users.Login`).
- `verifyTotp` throws for times closer to the epoch than its window; the comment on
  the counter's high half says that it is always zero, but the code writes it
  (`Totp.VerifyTotp`).

## Model

| member | source | states |
|---|---|---|
| SmbWalk.WalkRoot | apps/backend/src/services/smb.ts:113-168 | the walk ends, never exceeds the call budget, and adds to the totals exactly the listings that came back, which is also what the root's node holds; every node holds the sum over the visited folders at or below it; no node exceeds its recursive size; `partial` is set if and only if folders were still queued when calls or time ran out, a listing failed, or a folder above the depth limit had more than 4000 subfolders; without `partial` every folder within the depth limit whose path is accepted was listed, and the nodes are exactly the folders of that tree with their recursive sizes, refused folders counting as empty; a cancelled walk met a cancellation |
| SmbWalk.TakeListing | apps/backend/src/services/smb.ts:147-165 | one listing is credited to the folder and all ancestors; above the depth limit its first 4000 subfolders are queued in order, with their paths and one level deeper, and given nodes, and a longer list makes the walk partial |
| SmbWalk.LogMeans | apps/backend/src/services/smb.ts:128-164 | the log holds what accepted paths listed; a walk is lossy exactly if a listing failed or a folder above the depth limit had more than 4000 subfolders; and no round begins after the deadline or a cancellation |
| SmbTree.ParseDir | apps/backend/src/services/smb.ts:91-104 | the loop computes the listing of the lines |
| SmbTree.ListedDirs | apps/backend/src/services/smb.ts:85-104 | a folder is walked into exactly when it is listed as a directory and neither hidden nor a system folder |
| SmbTree.ListingExactly | apps/backend/src/services/smb.ts:91-104 | a listing counts the lines that are neither directories nor "." nor "..", and its bytes are the sum of their sizes, in whatever order they are added |
| SmbTree.ListingJoins | apps/backend/src/services/smb.ts:91-104 | lines count independently of each other: of two listings together the directories stand one after the other and bytes and counts add up |
| SmbTree.OneLine | apps/backend/src/services/smb.ts:95-101 | what each kind of line contributes |
| SmbTree.ListedPath | apps/backend/src/services/smb.ts:127 | the path that is listed is below the share's root and the watched folder |
| SmbTree.AcceptedExactly | apps/backend/src/services/smb.ts:29-137 | the walk refuses exactly the paths longer than 255 characters or with another character than letters, digits and six others |
| SmbNodes.CreditAncestors | apps/backend/src/services/smb.ts:149-158 | walking up the path credits the folder and each of its ancestors once and nothing else |
| SmbNodes.EnqueueKids | apps/backend/src/services/smb.ts:159-164 | subfolders are queued in order and get a node even if never visited |
| SmbNodes.RolledUpCredit | apps/backend/src/services/smb.ts:147-158 | crediting one more listing keeps every node equal to the sum over the visited folders at or below it |
| SmbFrontier.VisitBalanced | apps/backend/src/services/smb.ts:131-166 | at every iteration, visited plus still queued sizes below a folder balance with its recursive size |
| SmbFrontier.WalkNeverOver | apps/backend/src/services/smb.ts:131-168 | visited sums never exceed recursive sizes, and equal them once the queue is empty and nothing was lost |
| SmbFrontier.WalkComplete | apps/backend/src/services/smb.ts:131-168 | an exhausted, lossless walk has a node for exactly the folders of the tree, and has listed every accepted one |
| SmbTrueSize.SizeIsTrueExactly | apps/backend/src/services/smb.ts:131-166 | the size that skips refused paths never exceeds the one that does not, and equals it if and only if every refused folder first met on the way down is empty |
| SmbTrueSize.NodeIsTrueExactly | apps/backend/src/services/smb.ts:131-168 | after a complete walk a node holds the true size of its folder if and only if the refused folders below it are empty |
| SmbTrueSize.AcceptedIsTrue | apps/backend/src/services/smb.ts:131-168 | after a complete walk without a refused path among its nodes every node holds the true size |
| SmbTrueSize.RefusedFolderIsMissed | apps/backend/src/services/smb.ts:29-137 | a share whose only folder is refused and holds 5 bytes has a complete walk, and every complete one reports none of them |
| BucketKeys.WeekNumberExact | packages/shared/src/backup.ts:116-124 | rounding recovers the exact week index of the Thursday unless its year is 0 to 99, and the number is 1 to 53 if and only if it is not |
| BucketKeys.WeekKeyMeans | packages/shared/src/backup.ts:116-124 | over all instants, two share a week key if and only if their days, with the years 0 to 99 moved by 1900, lie in the same Monday-to-Sunday UTC week |
| BucketKeys.WeekKeyExact | packages/shared/src/backup.ts:116-124 | outside the years 0 to 99 two instants share a week key if and only if they lie in the same Monday-to-Sunday UTC week |
| BucketKeys.TwoDigitYearsCollide | packages/shared/src/backup.ts:117-124 | every instant of the years 0 to 99 shares its key with one of another week, 1900 years later |
| BucketKeys.SpringsCollide | packages/shared/src/backup.ts:117-124 | 1 March of the year 50 and 1 March 1950 have the same week key |
| BucketKeys.WeekBeforeYear100 | packages/shared/src/backup.ts:121-122 | the week of 1 January 100 has a negative number |
| BucketKeys.DateKeysExact | packages/shared/src/backup.ts:111-129 | day and month keys identify UTC days and months in years 0 to 9999 |
| BucketKeys.ExpandedKeys | packages/shared/src/backup.ts:111-129 | in the years before 0 and after 9999, up to a million, two instants share a day key if and only if they lie in one UTC month, and a month key if and only if they lie in one UTC year |
| BucketKeys.DateKeyText | packages/shared/src/backup.ts:111-129 | in the years 0 to 9999 a day key reads as four digits of the year, two of the month and two of the date, with dashes, and the month key is its first seven characters |
| BucketKeys.WeekKeyText | packages/shared/src/backup.ts:124 | for a week year outside 0 to 99 the key reads as the year, "-W" and two digits whose value is the week number |
| Retention.ProtectBuckets | packages/shared/src/backup.ts:132-144 | the loops keep the first backup of each of the first `count` distinct buckets, and all that was kept before |
| Retention.BackupsToPrune | packages/shared/src/backup.ts:150-164 | the names to delete are those that no rule of any scope keeps, in listing order |
| Retention.PruneLeavesSurvivors | packages/shared/src/backup.ts:150-164 | deleting these names leaves exactly the backups that the rules protect: the newest N of a scope, and the newest of each of the most recent day, week and month buckets |
| Retention.PruneEarly | packages/shared/src/backup.ts:146-164 | pruning before more backups arrive does not change what a later prune leaves |
| Retention.IncrementalEqualsBatch | packages/shared/src/backup.ts:146-164 | pruning at any moments while backups are written, in whatever order of age, and once more at the end leaves what one prune at the end of everything written would leave |
| Retention.SurvivorsBound | packages/shared/src/backup.ts:150-164 | when no two backups of a scope have the same time, it never keeps more than its count plus the daily, weekly and monthly counts |
| Retention.NewestSurvives | packages/shared/src/backup.ts:150-164 | the newest backup of a scope survives if and only if some rule has room |
| Retention.ProtectedFill | packages/shared/src/backup.ts:131-144 | with `count` more recent buckets, `count` more recent buckets have a protected backup |
| Retention.ProtectedBound | packages/shared/src/backup.ts:131-144 | among backups with distinct times a rule protects at most as many as it counts buckets |
| RetentionRule.SurvivesExactly | packages/shared/src/backup.ts:131-164 | in the years 100 to 9999 a backup survives if and only if fewer backups of its scope are newer than `keepAll`, `keepConfig` or `keepData` says, by its scope, or it is the newest of its UTC day, Monday-to-Sunday week or month and fewer later days, weeks or months have backups than `daily`, `weekly` or `monthly` says |
| RetentionRule.PrunedExactly | packages/shared/src/backup.ts:150-164 | the names to delete are exactly those of the backups that rule does not keep |
| RetentionRule.PrunedInOrder | packages/shared/src/backup.ts:163 | the names to delete come in the order in which the backups were given, each as often as it was listed |
| Schedule.IsDue | apps/workers/src/index.ts:121-142 | due if and only if never run, or as many hours as the interval says have passed, or after the last run and not after now there is an instant at which the local clock shows exactly the scheduled hour and minute on a day the schedule is meant for; the search loops end at a run day |
| Schedule.StrikesExactly | apps/workers/src/index.ts:128-141 | these instants are the scheduled times of the run days |
| Calendar.KnownDays | apps/workers/src/index.ts:126-141 | the calendar and its weekdays agree with dates that are known |
| Calendar.MonthLengths | apps/workers/src/index.ts:134-138 | the lengths of the twelve months |
| Schedule.WeeklyWithinSix | apps/workers/src/index.ts:132-133 | the weekly search takes at most six steps |
| Schedule.MonthlyWithinThirty | apps/workers/src/index.ts:134-140 | the monthly search, with the day clamped to the last date of the month, takes at most thirty steps (thirty-one in the year 0, whose 29 February the Date constructor misses), so the cutoff of forty never ends it |
| Schedule.LatestRunDecides | apps/workers/src/index.ts:126-141 | the most recent run day alone decides whether any scheduled instant was crossed |
| BackupWorker.Worker.NewestBackupMtime | apps/workers/src/index.ts:91-95 | the newest modification time in the scope, 0 without a backup |
| BackupWorker.Worker.RunTick | apps/workers/src/index.ts:145-175 | a tick leaves the directory with what each due, enabled schedule wrote in turn, pruned if anything was written |
| BackupWorker.TickExactly | apps/workers/src/index.ts:145-175 | a schedule runs if and only if it is enabled, its export succeeds and it is due by the newest backup of its scope as of its turn; its backup carries its scope and the export's name and time; once anything is written exactly what the policy keeps stays |
| BackupWorker.TickSettles | apps/workers/src/index.ts:145-175 | after a tick whose export succeeds, its new backups being newer than those present and newly named, an enabled schedule is due again at once if and only if something was written and its scope has no room |
| BackupWorker.NothingKeptDueAgain | apps/workers/src/index.ts:145-175 | a daily schedule under a policy that keeps nothing writes a backup, prunes it and is due again |
| BackupWorker.OncePerInstant | apps/workers/src/index.ts:121-175 | over any run of ticks whose new backups are newer than those present and newly named, when the policy has room in the schedule's scope: two runs of a daily, weekly or monthly schedule have a scheduled instant between them, and two runs of an interval schedule are at least the interval apart |
| BackupWorker.TickKeepsNewest | apps/workers/src/index.ts:144-175 | such a tick never makes the newest backup of a scope with room older |
| BackupWorker.NewestAfterPrune | apps/workers/src/index.ts:109-114 | pruning keeps a scope's newest backup, or empties the scope when it has no room |
| Base32Codec.Base32Encode | packages/core/src/totp.ts:23-40 | the encoder, with its never-masked 32-bit accumulator, writes each group of five bits of the input, padded with zeros, as one alphabet character |
| Base32Codec.Base32Decode | packages/core/src/totp.ts:47-63 | the decoder cleans the text and reads each full group of eight of its bits as a byte, or throws on a character outside the alphabet |
| Base32.RoundTrip | packages/core/src/totp.ts:22-63 | decoding an encoding gives the bytes back for every length; n bytes take (8n + 4) / 5 characters |
| Base32.TolerantExactly | packages/core/src/totp.ts:42-63 | a text that is an encoding followed by padding once its case and its whitespace, wherever it stands, are put aside decodes to the bytes if and only if no whitespace comes after a padding character; otherwise decoding throws on the padding |
| Base32.TrailingSpaceExactly | packages/core/src/totp.ts:42-63 | in particular a display form with a padding run and whitespace after it decodes if and only if one of the two is missing |
| Base32.GroupedPaddingThrows | packages/core/src/totp.ts:42-47 | "ME======" decodes to one byte and "ME== ====" throws on the padding |
| Base32.TextCarriesBits | packages/core/src/totp.ts:23-40 | the text carries the input's bits followed by fewer than five zeros |
| Base32.AlphabetTable | packages/core/src/totp.ts:20 | the characters and their values are inverse |
| Base32Forms.Rfc4648Vector | packages/core/src/totp.ts:20-63 | the vector "foo" of RFC 4648, both ways |
| Base32Forms.CaseIgnored | packages/core/src/totp.ts:42-48 | two texts that differ in letter case only decode the same |
| Base32Forms.SpaceIgnored | packages/core/src/totp.ts:42-48 | whitespace anywhere in a text without padding does not change what it decodes to |
| Base32Forms.PaddingIgnored | packages/core/src/totp.ts:42-48 | nor does padding at the very end of any text |
| Base32Forms.SpaceTable | packages/core/src/totp.ts:48 | the characters that count as whitespace |
| Base32Forms.SpecialLetters | packages/core/src/totp.ts:48 | the characters outside ASCII whose upper case consists of ASCII letters |
| Totp.Hotp | packages/core/src/totp.ts:93-109 | the code is the truncated HMAC of the eight-byte counter in the asked-for number of decimal digits, and a counter outside 64 bits throws |
| Totp.HalvesAreMessage | packages/core/src/totp.ts:94-98 | the two separately written halves are the big-endian counter |
| Totp.MessageNumber | packages/core/src/totp.ts:94-98 | the counter can be read back from its message, so counters have distinct messages |
| Totp.CodeWidth | packages/core/src/totp.ts:100-108 | a code has exactly the asked-for digits and denotes the truncated value modulo the power of ten |
| Totp.VerifyTotp | packages/core/src/totp.ts:120-146 | format first, then the secret, then the window: accepted if and only if some counter within the window has the trimmed token as its code |
| Totp.SkewTolerated | packages/core/src/totp.ts:115-146 | the code of a device whose clock is off by at most the window is accepted |
| Totp.AcceptedExactly | packages/core/src/totp.ts:115-146 | a well-formed token is accepted if and only if some counter of the window truncates to its number |
| TotpStandard.Rfc4226Example | packages/core/src/totp.ts:93-109 | the worked example of section 5.4 of RFC 4226 gives 872921 |
| TotpStandard.TruncatedBytes | packages/core/src/totp.ts:100-106 | the low four bits of the last byte choose the four bytes that make up the number, without their top bit |
| TotpStandard.CounterExactly | packages/core/src/totp.ts:87 | the counter is the number of whole steps since the epoch |
| TotpStandard.Rfc6238Steps | packages/core/src/totp.ts:87 | two times of appendix B of RFC 6238 |
| TotpStandard.TrimExactly | packages/core/src/totp.ts:128 | trimming removes whitespace and nothing else, and leaves none at either end |
| Decimal.NumeralExample | packages/core/src/totp.ts:108 | numerals are decimal |
| Mib.ResolveTokens | apps/backend/src/services/mib.ts:114-129 | the loop concatenates numbers, labelled numbers and known symbols, and gives up on unknown symbols, other tokens and empty results |
| Mib.ResolveAll | apps/backend/src/services/mib.ts:90-100 | the pass loop ends, every entry has a finite derivation from the roots, and no remaining definition can be resolved |
| Mib.ParseMib | apps/backend/src/services/mib.ts:90-111 | the objects are those of the resolved definitions, the last one of equal OID, and `resolved` counts the definitions |
| Mib.LeastNames | apps/backend/src/services/mib.ts:90-100 | the resolved names are the least set closed under the definitions, even with repeated names |
| Mib.LeastTable | apps/backend/src/services/mib.ts:90-100 | with distinct names the table is the least fixpoint |
| Mib.OrderIrrelevant | apps/backend/src/services/mib.ts:90-100 | any permutation of the definitions resolves the same names, and with distinct names to the same OIDs |
| Mib.UnresolvedExactly | apps/backend/src/services/mib.ts:90-129 | with distinct names, a definition stays unresolved if and only if a chain of references from it runs into a malformed token, an unknown symbol or a cycle |
| MibOids.ResolvedExactly | apps/backend/src/services/mib.ts:114-129 | a definition resolves to an OID if and only if every token stands for a part, a numeral or a labelled numeral for its number and a name for its symbol's OID, and the parts in their order make up the OID, which is not empty |
| MibOids.ChildOid | apps/backend/src/services/mib.ts:114-129 | `{ parent a b ... }` resolves to the parent's OID followed by the arcs |
| MibOids.RootsAreSmi | apps/backend/src/services/mib.ts:24-40 | `iso` is 1, and the upper roots are what the SMI's own definitions resolve to |
| MibOids.RootsBelow | apps/backend/src/services/mib.ts:24-40 | and so are the lower ones |
| MibOids.StandsExactly | apps/backend/src/services/mib.ts:116-127 | a token is taken for a number exactly if it is a numeral or `label(numeral)` for it, for a symbol exactly if it is a name in the table, and otherwise for nothing |
| MibOids.NameCharacters | apps/backend/src/services/mib.ts:118-120 | letters are A to Z and a to z; names hold letters, digits, "_" and "-" |
| Mib.CountExactly | apps/backend/src/services/mib.ts:102-110 | `resolved` is the number of definitions whose name resolved, repeated names included |
| Mib.ParsedExactly | apps/backend/src/services/mib.ts:102-110 | there is one object for each OID that some definition resolves to, with the name of the last such definition, and `resolved` counts the definitions that resolve |
| OidNames.MatchesIsPrefix | apps/backend/src/services/mib.ts:177 | the textual test is the prefix relation on dotted components |
| OidNames.DottedTextInjective | apps/backend/src/services/mib.ts:108 | dotted text determines the OID, so objects merge only on equal OIDs |
| OidNames.FindSorted | apps/backend/src/services/mib.ts:172-177 | sorting by length and taking the first match finds a longest match, or there is none |
| OidNames.ScanLongest | apps/backend/src/services/snmp.ts:299-307 | one scan with a running maximum finds a longest match, or there is none |
| OidNames.LongestIsDeepest | apps/backend/src/services/snmp.ts:297-307 | a longest match has every other matching OID as a component-wise prefix, and is unique |
| OidNames.ResolveOne | apps/backend/src/services/mib.ts:174-184 | an exact match first, then the longest prefix, named only for the scalar instance or a single numeric index |
| OidNames.ResolveOidNames | apps/backend/src/services/mib.ts:165-186 | exactly the asked-for OIDs that have a name are named, each as for a single one |
| OidNames.OidName | apps/backend/src/services/snmp.ts:298-311 | the label is the longest prefix's name, with the remainder unless that is empty or 0 |
| OidNames.LabellingsAgree | apps/backend/src/services/mib.ts:171-184 | on the same table both labellings choose the same entry and give the same name; they differ only where the remainder is not a plain index |
| OidNames.InstanceNames | apps/backend/src/services/mib.ts:178-183 | below a known OID the object itself and its scalar instance have its name, one other component becomes an index, and more are shown only by the browse label |
| OidNames.DottedParts | apps/backend/src/services/mib.ts:108 | dotted text has one decimal numeral for each component |
| Diff.DiffStates | packages/core/src/diff.ts:72-117 | the loop derives the events sample by sample against the same earlier snapshot |
| Diff.ChangesExactly | packages/core/src/diff.ts:72-98 | a batch has a status change for a unit if and only if one of its samples is of a new unit, or of one with another status than in the snapshot, and it carries both statuses |
| Diff.RestartsExactly | packages/core/src/diff.ts:99-115 | and a restart if and only if both process ids are known and positive, and differ |
| Diff.EventsJoin | packages/core/src/diff.ts:72-117 | the events of two lists of samples are those of the first followed by those of the second |
| Diff.OneSample | packages/core/src/diff.ts:77-115 | one sample makes at most one event of each kind, the status change first |
| Diff.AccumulateExactly | packages/core/src/uptime.ts:56-66 | time counts as seen, and as up time only for a unit that was up |
| Pipeline.TelemetryDb.ProcessUnits | apps/backend/src/services/pipeline.ts:21-91 | a batch appends its derived events, credits each known unit's gap to the hour of its last sample, and replaces the baseline rows: each unit's last sample of the batch, process id included, and no other row |
| Pipeline.GapExactly | apps/backend/src/services/pipeline.ts:67 | the credited time is the whole seconds passed, at most an hour and never negative |
| Pipeline.HourExactly | apps/backend/src/services/pipeline.ts:18 | a bucket begins at the full hour before |
| Pipeline.TelemetryDb.PruneOrphans | apps/backend/src/services/units.ts:19-24 | rows of units that are no longer monitored go, unless nothing is monitored |
| Pipeline.LogReplaysToBaseline | apps/backend/src/services/pipeline.ts:25-42 | over any run of batches with distinct entities and prunes in between, replaying the status events gives the stored status of every baseline row, each old status is the preceding new one, and no event has equal ones |
| Pipeline.BatchReplaysExactly | apps/backend/src/services/pipeline.ts:25-90 | a batch keeps log and baseline in agreement if and only if no unit in it leaves its previous status and returns to it |
| Pipeline.ReturnBreaksReplay | apps/backend/src/services/pipeline.ts:25-90 | a unit that is up and is sampled down and up in one batch is left down by the log and up in the baseline |
| Pipeline.BatchChained | packages/core/src/diff.ts:72-117 | a batch with distinct entities continues every unit's chain of events |
| Uptime.BucketIsFold | apps/backend/src/services/pipeline.ts:64-78 | every bucket is the core accumulator folded over the credits of its hour, with 0 <= upSec <= totalSec |
| Uptime.UptimeConserved | apps/backend/src/services/pipeline.ts:64-90 | over any run of batches with distinct entities a unit's buckets together hold exactly the clamped, floored gaps between its consecutive samples, as up time where the earlier sample was up |
| Uptime.NeverMoreThanElapsed | apps/backend/src/services/pipeline.ts:64-90 | over such a run, with a clock that does not run backwards, a unit's buckets never hold more time than has passed |
| Uptime.BaselineIsLastMark | apps/backend/src/services/pipeline.ts:80-90 | a baseline row is the unit's latest sample unless it was pruned since |
| Uptime.HourNeverOver | apps/backend/src/services/pipeline.ts:64-78 | over such a run, with a clock that does not run backwards, no hour bucket exceeds 7199 seconds |
| Uptime.HourCanSpill | apps/backend/src/services/pipeline.ts:64-78 | a run in which that bound is reached; when an hour is exceeded at all is `UptimeHours.OverfullExactly` |
| UptimeHours.BucketHolds | apps/backend/src/services/pipeline.ts:64-78 | over any run of batches with distinct entities a bucket holds exactly the clamped gaps between consecutive samples that began in its hour |
| UptimeHours.OverfullMeansSpill | apps/backend/src/services/pipeline.ts:64-78 | over such a run with a clock that does not run backwards, pruned or not, a bucket over 3600 seconds has two samples at different times in its hour, and the first sample after the hour comes more than 3600 seconds after the first one in it |
| UptimeHours.OverfullExactly | apps/backend/src/services/pipeline.ts:64-78 | over such a run, for a unit that is never pruned, and batches at whole seconds, a bucket exceeds 3600 seconds if and only if that is so |
| Forecast.DenominatorIsPairSquares | packages/core/src/storage.ts:34-37 | the denominator is the sum of squared distances over all pairs, so it is never negative and zero exactly when all times coincide |
| Forecast.SlopeIsOptimal | packages/core/src/storage.ts:31-37 | no line has a smaller squared error than the fitted slope with its mean intercept |
| Forecast.NormalEquations | packages/core/src/storage.ts:31-37 | the fitted line satisfies both normal equations, also in the degenerate case |
| Forecast.SlopeExactOnLine | packages/core/src/storage.ts:31-37 | collinear data gives back its true slope |
| Forecast.ProjectionReachesTotal | packages/core/src/storage.ts:39-47 | on collinear data there is a projection exactly when the line rises and a capacity is known, and the line reaches the capacity on the projected day whenever that is still ahead |
| Forecast.OrderIrrelevant | packages/core/src/storage.ts:22-50 | reordering a history with distinct timestamps does not change the forecast |
| ForecastResult.ForecastExactly | packages/core/src/storage.ts:22-50 | a forecast needs two usable points and counts them; its growth is the slope of a line with the least squared error over the samples, 0 if all times coincide; its span is the days between first and last; it has a projection if and only if the capacity of the last sample is known and not 0 and the growth is positive, and then growth times days is what is left, or the days are 0, and the date is cut to whole milliseconds |
| Forecast.UsableConcat | packages/core/src/storage.ts:23-26 | the points of a history are taken one by one |
| ForecastResult.OneUsable | packages/core/src/storage.ts:23-26 | a point counts if its time parses and its used bytes are known |
| Sorting.SortByStable | packages/core/src/storage.ts:27 | the sort keeps the order of points with equal times |
| Forecast.ThrowsExactly | packages/core/src/storage.ts:43-47 | it throws if and only if the projected date cannot be represented |
| Forecast.SlowGrowthThrows | packages/core/src/storage.ts:43-47 | one byte a day towards a terabyte throws |
| Restore.RestoreOne | packages/db/src/backup.ts:212-233 | for an order with parents first and no outside references into it, an intact database and rows that refer only along declared foreign keys: the database, which checks foreign keys, primary keys and unique columns at once, refuses no delete and no insert chunk of 500 if and only if the bundle's references resolve within it and its keys and unique columns are unique; whenever none is refused every listed table has the bundle's rows, none where the bundle lacks it, and the others are unchanged |
| Restore.RestoredIntact | packages/db/src/backup.ts:212-233 | the state a restore aims at is intact if and only if the bundle is |
| Restore.MissingKeptExactly | packages/db/src/backup.ts:206-232 | a listed table that the bundle lacks keeps its rows if and only if it has none |
| Restore.ClearedIntact | packages/db/src/backup.ts:217-222 | after every single delete, children first, all references resolve |
| Restore.RefilledIntact | packages/db/src/backup.ts:224-232 | after every single insert chunk, parents first, all references resolve |
| Restore.DumpTables | packages/db/src/backup.ts:126-136 | the dump has the rows of every listed table under its name |
| Restore.ExportDatabases | packages/db/src/backup.ts:144-153 | the bundle has exactly the databases in scope |
| Restore.ImportDatabases | packages/db/src/backup.ts:240-261 | a database the bundle omits is unchanged, the second is only touched after the first is restored, and with fitting databases the import succeeds if and only if each database's bundle is omitted or intact |
| Restore.RoundTrip | packages/db/src/backup.ts:126-136 | the dump of an intact database can be restored into any intact one and reproduces the listed tables |
| Restore.ScopedRoundTrip | packages/db/src/backup.ts:144-261 | exporting a scope and importing it elsewhere reproduces the listed tables of the databases in scope, with the program's own table orders |
| Restore.MasterOrdered | packages/db/src/backup.ts:68-91 | the master order puts parents first for the foreign keys the schema declares, and no table outside it refers into it |
| RestoreIntegrity.InsertedExactly | packages/db/src/backup.ts:224-232 | one more row keeps an intact database intact if and only if its key is new in the table, none of its unique cells is taken, and every reference has a row, be it the new one |
| RestoreIntegrity.ClearedExactly | packages/db/src/backup.ts:217-222 | the empty database is intact, and clearing a table keeps one intact if and only if no row of another table refers to it |
| RestoreIntegrity.SuitsExactly | packages/db/src/backup.ts:64-91 | an order suits a database and a bundle if and only if, by position, parents stand before their children, no table outside it has a parent in it, and rows refer only along foreign keys |
| ScanControl.AtMostOneInFlight | apps/backend/src/services/scan-manager.ts:198-258 | however calls and steps interleave, at most one scan of a monitor is in flight |
| ScanControl.StatusTells | apps/backend/src/services/scan-manager.ts:24-45 | without a scan in flight the status is idle, done, cancelled or error, and otherwise it is not; a waiter exists exactly when the scan in flight is blocked, which implies paused; a cancelled scan's result is never cached |
| ScanControl.NoLostWakeup | apps/backend/src/services/scan-manager.ts:101-112 | from a resume or cancellation until the next pause no scan is blocked, whatever happens |
| ScanControl.OneCallAfterCancel | apps/backend/src/services/scan-manager.ts:108-112 | after a cancellation the scan starts at most one more share call, and none if it was waiting for the share or past the walk |
| ScanControl.PauseBoundsCalls | apps/backend/src/services/scan-manager.ts:222-229 | while nobody resumes or cancels, a paused scan starts at most one more share call |
| ScanControl.CancelledScanEnds | apps/backend/src/services/scan-manager.ts:209-256 | a cancelled scan has ended after at most seven of its own steps, and no later pause holds it up |
| ScanControl.EndsCancelledExactly | apps/backend/src/services/scan-manager.ts:209-256 | from any reachable state and whatever follows, a scan that is cancelled ends as cancelled if and only if its own outcomes lead it to a loop head with a folder left: from the last listing on if that leaves one, before it also without an error on the way, and never once the walk is over |
| ScanControl.CancelTooLate | apps/backend/src/services/scan-manager.ts:219-237 | a run in which a cancellation during the last listing does not prevent the end as done |
| ScanControl.ProceedExactly | apps/backend/src/services/scan-manager.ts:209-256 | from each await and outcome a scan goes where the program goes, and what is booked with it: calls to the share, status, waiters, the kept result |
| ScanManager.Entry.Pause | apps/backend/src/services/scan-manager.ts:101 | pausing sets the flag for a scan in flight and does nothing else |
| ScanManager.Entry.Resume | apps/backend/src/services/scan-manager.ts:102-107 | resuming clears the pause, lets exactly the waiters go and does nothing else |
| ScanManager.Entry.Cancel | apps/backend/src/services/scan-manager.ts:108-112 | cancelling marks the scan in flight, lifts the pause and lets exactly the waiters go; without one in flight it does nothing |
| ScanManager.Entry.Start | apps/backend/src/services/scan-manager.ts:198-209 | a call joins the scan in flight or starts a new one with clear flags |
| ScanManager.Entry.Proceed | apps/backend/src/services/scan-manager.ts:209-256 | each stretch of the scan between two awaits, including the walk's loop head, moves the entry as the state machine says |
| ScanManager.Registry.Handle | apps/backend/src/services/scan-manager.ts:47-53 | a call or step for one monitor leaves all other entries alone |
| ScanManager.MonitorsIndependent | apps/backend/src/services/scan-manager.ts:47-53 | over any log of calls and steps a monitor's state depends only on its own, in their order |
| SnmpScheduler.Scheduler.Probe | apps/backend/src/services/snmp-scheduler.ts:68-159 | one poll decides and updates the four memories of its monitor as the state machine says and leaves the other monitors alone |
| SnmpScheduler.Scheduler.Sweep | apps/backend/src/services/snmp-scheduler.ts:161-171 | monitors that are gone are forgotten and each of the others is probed once, as one step of the scheduler's memory |
| SnmpRuns.MemoryIsOwnRun | apps/backend/src/services/snmp-scheduler.ts:68-171 | over any run of sweeps with monitors that come and go, what is remembered of a monitor is what its own polls since it was last absent leave |
| SnmpRuns.OutcomeIsOwnRun | apps/backend/src/services/snmp-scheduler.ts:68-171 | so what a sweep yields for a monitor is what the last of these polls yields, and the statements about one device below hold for every monitor of every run |
| SnmpRuns.ReturnStartsOver | apps/backend/src/services/snmp-scheduler.ts:97-171 | a monitor that was absent from a sweep is not recorded as down before it has been in as many later ones as the flap guard asks for |
| SnmpPolling.FlapGuard | apps/backend/src/services/snmp-scheduler.ts:97-113 | a device is recorded as down if and only if this poll and enough performed polls right before it failed, and as up if and only if this poll was answered |
| SnmpPolling.MissesCount | apps/backend/src/services/snmp-scheduler.ts:97-102 | the counter is the number of failures since the last answered poll |
| SnmpPolling.HeavyExactly | apps/backend/src/services/snmp-scheduler.ts:89 | a poll is heavy if and only if no heavy poll has succeeded within the tables interval |
| SnmpPolling.Spacing | apps/backend/src/services/snmp-scheduler.ts:88-122 | a heavy poll starts at least the tables interval after any earlier successful one ended, and no light poll starts inside a cooldown |
| SnmpPolling.SkippedExactly | apps/backend/src/services/snmp-scheduler.ts:91-93 | a monitor is left out of a sweep if and only if tables are not due and the cooldown is running |
| SnmpPolling.ShownAndRecorded | apps/backend/src/services/snmp-scheduler.ts:115-151 | on an answered poll the tables and disks shown are those of the latest successful heavy poll, all else is fresh, and history gets the fresh sample only |
| Spool.NameOrder | agent/internal/spool/spool.go:38 | names are ordered by the clock, and on one reading by the numerals of the sequence numbers |
| Spool.StampOrder | agent/internal/spool/spool.go:38 | below a million, names are ordered by time and then sequence number |
| Spool.NextStamp | agent/internal/spool/spool.go:35-39 | the next name sorts after the last one if and only if the clock has gone on, or is unchanged and the number does not roll over to a power of ten with seven or more digits; otherwise it sorts before it |
| Spool.MillionthSortsFirst | agent/internal/spool/spool.go:35-39 | on one clock reading the file with number 1000000 sorts before the one with 999999 |
| Spool.NameParts | agent/internal/spool/spool.go:38 | a name is 20 digits whose value is the clock, a dash, at least six digits whose value is the sequence number, and ".json" |
| Spool.ListedExactly | agent/internal/spool/spool.go:76-89 | listed are exactly the files, not folders, whose name ends with ".json" |
| Spool.Spool.List | agent/internal/spool/spool.go:76-89 | the listing is the sorted sequence of the files with the extension |
| Spool.Spool.Trim | agent/internal/spool/spool.go:92-97 | exactly the oldest files beyond 5000 are removed |
| Spool.Spool.Enqueue | agent/internal/spool/spool.go:35-46 | with stamps in order the payload becomes the newest item of a queue that keeps the newest 5000; a failed write changes nothing |
| Spool.Spool.Drain | agent/internal/spool/spool.go:50-68 | a prefix of the queue is dealt with, its readable payloads are sent in order, and exactly the rest stays |
| SpoolQueue.DrainedExactly | agent/internal/spool/spool.go:55-66 | a drain stops at the first refused payload and only there |
| SpoolQueue.EveryPayloadAccounted | agent/internal/spool/spool.go:35-97 | after any run every payload is delivered, in order, or queued, or dropped as unreadable, or trimmed with at least 5000 newer ones put after it, and the queued ones are the latest |
| SpoolRuns.DirectoryIsQueue | agent/internal/spool/spool.go:35-97 | over any run with stamps in order the directory holds, and its drains deliver, what the bounded queue does after the same operations |
| SpoolRuns.DirectoryAccounted | agent/internal/spool/spool.go:35-97 | so the fates of all payloads put into an empty directory are accounted for |
| SpoolQueue.Lossless | agent/internal/spool/spool.go:4-6 | with at most 5000 payloads put and no file spoiled, what was delivered followed by what is queued is what was put |
| Lockout.Users.RecordFailure | apps/backend/src/services/lockout.ts:55-70 | the counter goes up, or at the limit returns to 0 with the account locked for the window |
| Lockout.Users.Login | apps/backend/src/routes/auth.routes.ts:43-83 | a locked account is refused before the password is looked at and nothing changes; a wrong password counts; only a full login clears |
| Lockout.CounterBelowLimit | apps/backend/src/services/lockout.ts:55-70 | over any run the counter stays below a positive limit |
| Lockout.LockedChangesNothing | apps/backend/src/routes/auth.routes.ts:50-54 | attempts on a locked account neither count nor prolong the lock |
| Lockout.RateBound | apps/backend/src/services/lockout.ts:50-70 | without a successful login, any k times maxAttempts plus 1 counted failures in a row span at least k windows |
| Lockout.LockedExactly | apps/backend/src/services/lockout.ts:38-70 | an account is locked if and only if a failure reached the limit less than a window ago |
| Sessions.Auth.RotateRefreshToken | apps/backend/src/services/auth.ts:91-111 | a live row with the token is revoked and a successor for the same user issued, no other row changes, or nothing happens |
| Sessions.Auth.RevokeRefreshToken | apps/backend/src/services/auth.ts:120-125 | a logout revokes exactly the rows with the token that are not revoked yet |
| Sessions.Auth.Authenticate | apps/backend/src/plugins/auth.ts:60-85 | a signed token is accepted if and only if it has not expired, its version is current, its session is live, and its user exists and is enabled |
| Sessions.Auth.Login | apps/backend/src/routes/auth.routes.ts:80-94 | a login opens a session and signs a token bound to it, which is accepted |
| Sessions.Auth.Refresh | apps/backend/src/routes/auth.routes.ts:96-111 | an exchange rotates the session and signs a token bound to the new row |
| Sessions.Auth.PasswordChanged | apps/backend/src/routes/auth.routes.ts:200-217 | exactly the caller's other live sessions are revoked, only the caller's version is bumped, and the caller's token is re-signed |
| Sessions.Auth.TerminateSessions | apps/backend/src/services/sessions.ts:58-99 | exactly the user's live sessions but for the excepted one are revoked, every other row is unchanged, and the rows that changed are counted |
| Sessions.ExchangedAtMostOnce | apps/backend/src/services/auth.ts:85-111 | over any run each refresh token is exchanged at most once |
| Sessions.OneLiveSessionPerLogin | apps/backend/src/services/auth.ts:85-111 | over any run the rotation chain of a login has at most one live row |
| Sessions.ClosedForGood | apps/backend/src/services/auth.ts:119-154 | a session that is revoked or deleted is never live again |
| Sessions.ClosingKillsAccess | apps/backend/src/services/auth.ts:55-60 | after a logout, a termination, an exchange or a deletion no access token bound to the session is ever accepted |
| Sessions.BumpKillsEarlier | apps/backend/src/services/auth.ts:127-137 | after a version bump no access token signed for the user before it is ever accepted |
| Sessions.AcceptedIsBound | apps/backend/src/plugins/auth.ts:66-85 | over any run, a token the program signed is accepted if and only if it is unexpired, carries the user's current version, and its session is live and the user's own |
| Sessions.PasswordChangeKeepsOnlyCaller | apps/backend/src/routes/auth.routes.ts:200-212 | a password change leaves the caller with an accepted token, no other live session, and no usable earlier token |
| Sessions.AcceptedUntilTargeted | apps/backend/src/plugins/auth.ts:60-85 | an accepted token stays accepted through an event if and only if the event is not aimed at its user, its session or the refresh token its session carries |

## Left out

- The web interface, HTTP wiring, validation schemas, WebSocket hubs, OIDC, the SQL Server, FortiGate and SNMP or SMB transports, service installation and self-update: I/O or thin wrappers.
- SmbTrueSize.NodeIsTrueExactly: a folder below a refused one whose listing fails counts as empty in the true size too, since nothing is known of it.
- SmbWalk.WalkRoot: takes directory lines as already matched by the entry expression, asks the clock and the cancel flag once per round, and leaves the pause to `ScanControl`; well-formed listings (distinct sibling names without a separator) are assumed only for the comparison with the tree. The order of nodes in the result map and the final cut to 3000 emitted folders are not modelled.
- Retention.PruneLeavesSurvivors: assumes unique names and distinct times within a scope, because ties are broken by the listing order. Times are numbers, compared as numbers instead of as ISO strings.
- RetentionRule.SurvivesExactly: for the years 100 to 9999, in which all three kinds of keys name days, weeks and months exactly; outside them `Retention.PruneLeavesSurvivors` speaks of the keys, and `BucketKeys.TwoDigitYearsCollide` says what goes wrong in the years 0 to 99.
- Schedule.IsDue: local time has a fixed offset from UTC, so daylight saving is not modelled, and schedule fields are within the ranges that the backend's route enforces.
- BackupWorker.Worker.RunTick: failures to read the schedules, the policy or the directory, and to delete a file, are not modelled; an export either fails or leaves a complete file.
- Base32.TolerantExactly: upper-casing is modelled exactly for every character whose upper case consists of letters of the alphabet; for the few whose upper case mixes such letters with others, decoding throws as in the program but names another character. Surrogate pairs in invalid input are not modelled.
- Totp.Hotp: HMAC-SHA1 is an arbitrary function with 20-byte results, constant-time comparison is equality, and counters are integers, not floating-point numbers.
- Mib.ParseMib: starts from the definitions that the expressions extract; comments, units and descriptions are not modelled, and sub-identifiers are unbounded numbers.
- OidNames.OidName: the fixed table of the source is a parameter.
- Pipeline.TelemetryDb.ProcessUnits: notifications, log lines, samples and the critical flag are not modelled, a call is one atomic step, and events that agents supply directly are not part of the log.
- Pipeline.LogReplaysToBaseline: assumes distinct entities within a batch; `Pipeline.BatchReplaysExactly` says what happens otherwise.
- UptimeHours.OverfullExactly: with times in milliseconds each gap loses its fraction of a second, so only the forward half, `UptimeHours.OverfullMeansSpill`, is stated without whole seconds.
- Forecast.SlopeIsOptimal: over real numbers; rounding of floating-point arithmetic is not modelled.
- Restore.RestoreOne: each statement is atomic and checked at once; deletes do not cascade, which makes no difference in this order. Rows are keys, unique columns, references and opaque data, and tables are numbered.
- ScanControl.OneCallAfterCancel: counts the calls to the share of one scan; progress reports, timestamps and log lines are not modelled. Scans that run on agents, whose state arrives by message, are not modelled.
- ScanManager.Registry.Handle: calls may fall between any two awaits, which is more than the event loop allows.
- SnmpScheduler.Scheduler.Probe: limits are integers; the numeric filtering of history values, profile look-up and database failures are not modelled; probes of different monitors run one after another, which is the same because they share no memory.
- Spool.Spool.Drain: draining and trimming run without the mutex that guards the numbering; the agent's loop calls them one after another, and interleavings are not modelled.
- Spool.Spool.Enqueue: a failing write leaves no partial file, removals succeed, the directory can be listed, and the clock is after 1970.
- Lockout.RateBound: the policy is fixed and made of whole numbers, one request is one atomic step, and runs in which an administrator or a password change clears the counter are not covered.
- Sessions.ExchangedAtMostOnce: each operation is one atomic step; refresh tokens are random and never repeat, and their hashes stand for them. Device data, last-used times, the static administrator token, display devices and permissions are not modelled.
- `diffClients`, `isStale`, `uptimePct`, `buildNotification`, folder-history throttling, `otpauthUri` and the redaction and clamping helpers: true, but easy.
