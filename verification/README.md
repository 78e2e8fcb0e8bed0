# Verified models of the operations scripts

The repository's operations scripts and index migrations contain small engines whose correctness rests on an
invariant over a loop, a recursion or a whole run. This project models those engines in Dafny and proves what
the scripts rely on. One module stands for one engine:

- **HotUpgrade**: one blue/green upgrade. A host is its nginx file, the configuration nginx has loaded, the
  running containers and a clock; every command may fail. The transactional switch, the readiness wait, the
  observation window, the rollback and the stops are methods on that host, with a trace of what happened.
- **Upstream**, **UpstreamMeaning**, **TextLines**: reading and rewriting the nginx upstream block, line ends included, and
  what its expressions match. **Texts** and **Wrappers** hold what several modules share: characters, splitting, Option and Result.
- **UpgradeQueue**, **StableSort**: the agent's request queue. The four directories are maps; the agent can be killed
  between any two file operations and between starting a child and recording it, while the application submits
  requests and children report, also one that outlived its agent.
- **StableJson**, **JsonStrings**, **IndexSpec**, **IndexMigration**, **MigrationRun**, **Migrations**: canonical JSON and a reader of its strings, the
  index signature built on it, mongod's conflict rule, `ensureIndex`, whole `up` and `down` runs over any plan, and the declared plans.
- **EditDistance**: the one-row Levenshtein program and the flag suggestion.
- **Csv**: the audit-export reader against a writer by section 2 of RFC 4180, and the manifest line.
- **StripComments**: the comment-blanking scanner.
- **AuditChain**: the paged rebuild of the hash chain. **HmacResign**: re-signing behind the append-only ledger.
  **MfaRotation**: key rotation of MFA secrets. **PiiEncryption**: encryption, key back-fill and rotation of PII columns.
- **BundlePaths**, **BundleIntake**: which relative paths a bundle may name and where they lead; staging, verification and
  promotion of a bundle.
- **RollbackDrill**: the JSON codec of the snapshots and the snapshot, clear, restore cycle.
- **CommentRatchet**: the ledger of comment lines that may only go down.

Strings are sequences of characters; StableJson works on UTF-16 code units because `JSON.stringify` treats lone
surrogates specially. Hashes, HMACs and ciphers are arbitrary functions with the laws each module states
(`AuditChain.GoodDigest`, `MfaRotation.Authentic`, `PiiEncryption.Sound`, `HmacResign.GoodFormat`). Failure, crash and the
behaviour of other processes are nondeterministic choices or inputs, so every theorem holds for all of them.

## Where a promise holds only under a condition

- No run stops the colour nginx serves, and traffic ends where the outcome says, when the configuration file and what
  nginx runs with name the same colour at the start (`HotUpgrade.Host.Upgrade`). Whatever they name, the one harmful stop
  there can be is that of a target that was serving and is found not ready. The colours agree again after every run
  except exactly a failed switch, there or back, that could not put the file back (`HotUpgrade.LandedAgree`); the run
  after such a one takes the serving colour for its target (`HotUpgrade.TornMisleads`, `HotUpgrade.NextRunMisled`, with a
  file in `HotUpgrade.SpareServerMisleads`).
- The queue's three guarantees hold in every run when killing the agent kills its children too (systemd's
  default, which the unit file keeps), and otherwise for every id whose child was never left behind between its start
  and the recording of its pid (`UpgradeQueue.Queue.Guarantees`). Without that, `UpgradeQueue.Queue.StrayRun` is the run in which
  a task that had ended runs again and no file tells of it, and `UpgradeQueue.Queue.StrayRunTwice` executes it twice.
- `renderUpstream` says that rendering again is byte-identical. It is exactly when no line ends in a CR after its
  line end and one more CR are removed (`Upstream.RenderAgain`); `Upstream.StrayCrMoves` is a file where it is not. That
  the target colour serves afterwards holds for every text (`Upstream.RenderSwitches`).
- Switching back after a switch succeeds exactly when the block, as it is then read, has one server line on the old
  port and none that only shows once a CR is gone (`Upstream.SwitchBack`, `Upstream.SwitchBackTidy`). A second,
  commented-out line on that port makes every rollback fail (`Upstream.NoWayBack`).
- There and back, every line means what it did exactly when the text has at most one CR before each LF and none at
  its end (`Upstream.ThereAndBack`); `Upstream.LastCrLost` is a file with one at its end.
- `up` gets through exactly when no declared index meets, at its turn, an equivalent index under another name with
  another TTL that no earlier step of the run has replaced or dropped (`MigrationRun.Up`, `MigrationRun.GoesThrough`).
  mongod gives a TTL to single-field indexes only, so none of the three shipped migrations can meet one
  (`Migrations.DeclaredGoThrough`).
- An unterminated last CSV record comes back unless it is a single empty field (`Csv.UnterminatedRoundTrip`).
- A chain rebuild cut short inside a page can leave any records of that page unwritten. Run again, it leaves the
  written ones alone exactly when no unwritten record in front of a written one lacks its timestamp while the clocks
  differ (`AuditChain.WrittenStay`); `AuditChain.WrittenMoves` is a run in which one changes.
- A PII value that is rewritten reads back as its plain text exactly when that text does not itself have the shape of
  a ciphertext (`PiiEncryption.EncryptReads`, with an instance in `PiiEncryption.LooksEncrypted`).
- A second PII run without rotation writes nothing exactly when no column's plain text is itself an old ciphertext
  that the current key opens (`PiiEncryption.SecondRunWritesNothing`); `PiiEncryption.WrittenTwice` is such a row.
- Snapshot, clear and restore give the collections back exactly when every document is plain
  (`RollbackDrill.Database.Drill`). The snapshot codec gives a value back exactly when no plain object in it has a text
  `$oid` or `$date`, poses as an ObjectId through `_bsontype`, or has a field `__proto__` (`RollbackDrill.RoundTrip`). The
  drill's check compares counts and does not notice (`RollbackDrill.CountsMissIt`).
- Key signatures decide the key only for names free of `:` and `|` (`IndexSpec.KeySigInjective`, `IndexSpec.KeySigCollides`).
- The header of the PII script describes `--encrypt` as encrypting columns only; the code does the same as the default
  mode, and so does the model.

## Model

| member | source | states |
|---|---|---|
| `HotUpgrade.Host.WaitReadyz` | scripts/hotUpgrade.js:154-164 | ready exactly when the last probe of that colour was; not ready means that every probe failed and the time was up |
| `HotUpgrade.Host.Observe` | scripts/hotUpgrade.js:167-175 | success means every probe of the window was ready and the last came at or after its end; failure means that the last probe was not ready, and it alone |
| `HotUpgrade.Host.InstallConf` | scripts/hotUpgrade.js:198-239 | write, test, reload: on success file and loaded configuration are the candidate; on failure nginx keeps what it had and the original was backed up before any change |
| `HotUpgrade.Host.SwitchTraffic` | scripts/hotUpgrade.js:185-240 | success means the loaded text serves the colour and is the rendering of the old file; failure leaves what is loaded alone |
| `HotUpgrade.Host.SwitchAndVerify` | scripts/hotUpgrade.js:265-318 | where traffic and file are for each outcome; no stop of the serving colour, whatever the file said at the start; a rollback that succeeds ends by stopping the new colour while the old one serves; a failed one stops nothing |
| `HotUpgrade.Host.SwitchBack` | scripts/hotUpgrade.js:283-306 | the rollback: which commands ran and with what result, and whether it ended with the stop of the new colour or without any |
| `HotUpgrade.Host.Prepare` | scripts/hotUpgrade.js:520-591 | going on means backed up, started on the image, found ready, migrated with it, in this order; not ready ends with the stop of the target, which is harmful exactly when nginx serves the target |
| `HotUpgrade.Host.ExecutePlan` | scripts/hotUpgrade.js:505-612 | a harmful stop exactly on a target that serves and is not ready; traffic by outcome; for each outcome exactly which commands ran, in order and with which results, so no outcome without its cause: rolled back, for one, only after a probe of the target found it not ready behind the switch |
| `HotUpgrade.Host.Upgrade` | scripts/hotUpgrade.js:447-503 | refused exactly on an unreadable upstream or a disallowed image, dry run exactly as asked; neither changes anything; when the colours agree at the start: no harmful stop, traffic by outcome, and exactly when they agree again; every outcome explained by its commands |
| `HotUpgrade.Host.UpgradeAll` | scripts/hotUpgrade.js:505-612 | any number of runs until one leaves file and nginx apart: no harmful stop, and apart only after a failed switch |
| `HotUpgrade.LandedTraffic` | scripts/hotUpgrade.js:265-318 | traffic by outcome |
| `HotUpgrade.LandedAgree` | scripts/hotUpgrade.js:209-240 | after which outcomes file and nginx name the same colour, exactly |
| `HotUpgrade.TornMisleads` | scripts/hotUpgrade.js:209-240 | when they do not, the next run aims at the colour that serves |
| `HotUpgrade.NextRunMisled` | scripts/hotUpgrade.js:209-240 | a switch that failed and was not written back: the next run aims at the serving colour, and its stop is harmful |
| `HotUpgrade.SpareServerMisleads` | scripts/hotUpgrade.js:209-240 | a file on which that happens |
| `UpgradeQueue.ExecutedOnce` | scripts/hotUpgradeJob.js:290-297 | in a sound history two executions of one id have its status pruned in between |
| `UpgradeQueue.NeverRevived` | scripts/hotUpgradeQueue.js:378-380 | in a sound history a task that ended begins again only after its status was pruned |
| `UpgradeQueue.Queue.Guarantees` | scripts/hotUpgradeJob.js:267-394 | at every moment, of every id when the whole unit is killed, and otherwise of every id that never had a stray child: executed once, never revived, and, from the moment it entered, in requests, processing, rejected or ended, unless pruned |
| `UpgradeQueue.Queue.OnlyCheckedExecuted` | scripts/hotUpgradeJob.js:37-86 | at every moment: whatever was executed was a request of its own id, well formed, signed, allowed and made within the limits when it was checked |
| `UpgradeQueue.ValidatesMeans` | scripts/hotUpgradeJob.js:37-86 | the checks one after the other pass exactly such requests |
| `UpgradeQueue.ValidIdMeans` | scripts/hotUpgradeQueue.js:24-24 | an id is five groups of lower-case hexadecimal digits with dashes between them |
| `Texts.HexMeans` | scripts/hotUpgradeQueue.js:24-24 | a lower-case hexadecimal digit |
| `UpgradeQueue.RevivedHistory` | scripts/hotUpgradeJob.js:144-160 | the history of a stray child: ended and begun again, executed twice, nothing pruned; unsound |
| `UpgradeQueue.Queue.StrayRun` | scripts/hotUpgradeJob.js:144-160 | the run of the agent's own steps that gives the first part of it and leaves the id in no file |
| `UpgradeQueue.Queue.StrayRunTwice` | scripts/hotUpgradeJob.js:144-160 | and the rest: the same id executed a second time |
| `UpgradeQueue.Queue.Killed` | deployment/systemd/fsms-hot-upgrade-agent.service:26-39 | what a killed agent leaves: nothing when the unit is killed whole, a recorded child, or a stray |
| `UpgradeQueue.Queue.RunChild` | scripts/hotUpgradeJob.js:144-166 | start, record, wait, killed at any point; only a crash between start and record adds an id to the lost ones, and only this id |
| `UpgradeQueue.Queue.Submit` | scripts/hotUpgradeJob.js:267-289 | a submission, also of an id known already, keeps the invariant |
| `UpgradeQueue.Queue.ChildStep` | scripts/hotUpgradeStatusSink.js:19-78 | exactly what a child's progress, end or exit does; it keeps the invariant and touches no other id |
| `UpgradeQueue.Queue.StrayStep` | scripts/hotUpgradeStatusSink.js:19-78 | exactly what the progress, end or exit of a child that outlived its agent does |
| `UpgradeQueue.Queue.RecoverStale` | scripts/hotUpgradeAgent.js:69-100 | busy only when a pid answers that a claim, not too old, records; otherwise every claimed task is settled: what had ended is as it was, what had not has failed, and its claim was asked to go; keeps the invariant wherever it is killed |
| `UpgradeQueue.Queue.PrepareRequest` | scripts/hotUpgradeJob.js:267-318 | each verdict with its reason and its steps; what passes is the file seen, under its own id, not ended, not executed since its last pruning unless it had a stray child, well formed, signed, allowed, and made between the limit before and five minutes after the check; what fails these checks has failed as a task |
| `UpgradeQueue.Queue.Quarantine` | scripts/hotUpgradeQueue.js:382-389 | the file is moved under its own id or stays |
| `UpgradeQueue.Queue.Execute` | scripts/hotUpgradeJob.js:144-265 | one execution of an id that had none, of a checked request, import first when offline and upgrade only behind a good import; the exact steps; keeps the invariant wherever it is killed |
| `UpgradeQueue.Queue.ProcessRequest` | scripts/hotUpgradeJob.js:320-394 | executed means checked, claimed, run and ended, once, by exactly these steps; skipped means exactly what its verdict says, nothing was executed and the other requests are still there |
| `UpgradeQueue.Queue.PruneStatus` | scripts/hotUpgradeQueue.js:399-419 | in an order from new to old the first ones up to the limit stay, also every pending one; each other one was unlinked, and is gone if that worked |
| `UpgradeQueue.OrderByRequestedAt` | scripts/hotUpgradeQueue.js:144-153 | the same requests, earliest first, unreadable last, ties as listed |
| `UpgradeQueue.Queue.RunOnce` | scripts/hotUpgradeAgent.js:212-282 | not ready or busy, or: the requests listed, in order of request time, each dealt with as its verdict says, until one was executed; keeps the invariant wherever it is killed, and loses at most one id |
| `UpgradeQueue.Queue.Serve` | scripts/hotUpgradeAgent.js:212-282 | so does any number of rounds |
| `Upstream.ParseActiveUpstream` | scripts/hotUpgradePolicy.js:136-170 | the loop over the block computes the reading of the text: one active line, on a known port |
| `UpstreamMeaning.ReadingMeans` | scripts/hotUpgradePolicy.js:136-170 | in a block the one server line not commented out decides: blue on port 3000, green on 3001, unknown on any other; refused as not one active exactly when there is none or more than one |
| `UpstreamMeaning.NoReading` | scripts/hotUpgradePolicy.js:105-118 | no block exactly when no line opens one, unclosed exactly when one does and no block is complete |
| `UpstreamMeaning.BlockMeans` | scripts/hotUpgradePolicy.js:105-118 | the block is from the first opening line to the first closing line behind it |
| `UpstreamMeaning.UpstreamStartMeans` | scripts/hotUpgradePolicy.js:106-106 | the opening line, part by part |
| `UpstreamMeaning.BlockEndMeans` | scripts/hotUpgradePolicy.js:115-115 | the closing line |
| `UpstreamMeaning.MatchServerMeans` | scripts/hotUpgradePolicy.js:121-121 | a server line and its captured parts, exactly as the expression has them |
| `UpstreamMeaning.PortMeans` | scripts/hotUpgradePolicy.js:124-127 | the port of an address is the decimal numeral behind its last colon |
| `Upstream.RenderUpstream` | scripts/hotUpgradePolicy.js:181-241 | the in-place program computes the specified rendering; the error for an untouched block cannot occur |
| `Upstream.RewriteInPlace` | scripts/hotUpgradePolicy.js:216-230 | the array is the line-wise rewriting of what it was, and the target line was touched |
| `Upstream.MatchServerText` | scripts/hotUpgradePolicy.js:121-121 | a server line written from captured parts is captured as the same parts |
| `Upstream.RewrittenServer` | scripts/hotUpgradePolicy.js:217-230 | indent, address and tail are kept; active exactly on the target port; other lines untouched |
| `Upstream.OutputBlock` | scripts/hotUpgradePolicy.js:105-118 | the block of the output stands where it stood |
| `Upstream.RenderSwitches` | scripts/hotUpgradePolicy.js:181-241 | whatever the text, a returned rendering is read back as exactly the target colour |
| `Upstream.RenderSucceeds` | scripts/hotUpgradePolicy.js:181-241 | for every text, when rendering succeeds and which error it gives otherwise, by the lines on the target port and the lines that surface as active |
| `Upstream.RenderSucceedsTidy` | scripts/hotUpgradePolicy.js:181-241 | on tidy text by the number of lines on the target port alone |
| `Upstream.RenderKeeps` | scripts/hotUpgradePolicy.js:216-236 | for every text, every line of the output from the line of the input |
| `Upstream.RenderAgain` | scripts/hotUpgradePolicy.js:172-180 | rendering again is the identity if and only if no stripped line ends in a CR |
| `Upstream.StrayCrMoves` | scripts/hotUpgradePolicy.js:172-180 | a file that a second rendering changes |
| `Upstream.SwitchBack` | scripts/hotUpgrade.js:283-286 | for every text, after a switch the other switch succeeds if and only if its port then has exactly one line and none surfaces |
| `Upstream.SwitchBackTidy` | scripts/hotUpgrade.js:283-286 | on tidy text if and only if its port has exactly one line |
| `Upstream.NoWayBack` | scripts/hotUpgrade.js:283-286 | a file that can be switched to green and not back |
| `Upstream.ThereAndBack` | scripts/hotUpgrade.js:283-286 | from the colour that serves there and back, every line means what it did if and only if no line ends in a CR |
| `Upstream.LastCrLost` | scripts/hotUpgrade.js:283-286 | a file that does not come back |
| `TextLines.LinesOfJoin` | scripts/hotUpgradePolicy.js:196-196 | joining and splitting lines, for both line ends |
| `TextLines.EolOfJoin` | scripts/hotUpgradePolicy.js:98-102 | the dominant line end of a joined text is the one it was joined with |
| `StableJson.StableIsCanonical` | migrations/20261101000000-filter-tiebreak-compound-indexes.js:151-161 | two values serialise equally if and only if they are the same up to key order, with undefined and non-finite numbers as null |
| `StableJson.StableIsInjective` | migrations/20261101000000-filter-tiebreak-compound-indexes.js:151-161 | on values without those, if and only if they are equal up to key order |
| `StableJson.QuoteUnique` | migrations/20261101000000-filter-tiebreak-compound-indexes.js:157-157 | a quoted string followed by anything determines the string |
| `JsonStrings.ReadBack` | migrations/20261101000000-filter-tiebreak-compound-indexes.js:157-157 | a reader by section 7 of RFC 8259 reads a quoted string back, whatever it is, and goes on behind it |
| `JsonStrings.EscapePaired` | migrations/20261101000000-filter-tiebreak-compound-indexes.js:157-157 | a quoted string has no half of a surrogate pair in it |
| `JsonStrings.SimpleStays` | migrations/20261101000000-filter-tiebreak-compound-indexes.js:157-157 | and what needs no escape is written as it is |
| `JsonStrings.Marks` | migrations/20261101000000-filter-tiebreak-compound-indexes.js:151-161 | the marks and words of the text |
| `JsonStrings.NumberUnitMeans` | migrations/20261101000000-filter-tiebreak-compound-indexes.js:160-160 | the characters a finite number is printed with |
| `IndexSpec.CollationSigMeaning` | migrations/20261101000000-filter-tiebreak-compound-indexes.js:124-149 | collation signatures agree exactly when each of the nine options agrees, given or by the default written out for it; none is not all-defaults |
| `IndexSpec.ExpandedSame` | migrations/20261101000000-filter-tiebreak-compound-indexes.js:116-149 | a collation and what the server lists for it, the nine options by their documented defaults and any further field, have the same signature |
| `IndexSpec.ListedSig` | migrations/20261101000000-filter-tiebreak-compound-indexes.js:184-193 | so has the index |
| `IndexSpec.SpecSigMeaning` | migrations/20261101000000-filter-tiebreak-compound-indexes.js:184-193 | what equality of signatures compares, both directions |
| `IndexSpec.KeySigInjective` | migrations/20261101000000-filter-tiebreak-compound-indexes.js:111-114 | on clean names the key signature determines the ordered key |
| `IndexSpec.KeySigCollides` | migrations/20261101000000-filter-tiebreak-compound-indexes.js:111-114 | a field name with a separator makes two different keys collide |
| `IndexSpec.SpecSigDecides` | migrations/20261101000000-filter-tiebreak-compound-indexes.js:184-193 | on clean names equal signatures are the same index in every option |
| `IndexSpec.TwinIsEquivalent` | migrations/20261101000000-filter-tiebreak-compound-indexes.js:205-212 | the twin test is exactly mongod's error-85 rule |
| `IndexMigration.Database.CreateIndex` | migrations/20261101000000-filter-tiebreak-compound-indexes.js:195-204 | mongod's answers: equivalent index under another name, other spec under the same name, or created |
| `IndexMigration.Database.DropTwins` | migrations/20261021000000-query-performance-indexes.js:234-249 | exactly the twins go, and every set on the way keeps what is not to be touched |
| `IndexMigration.Database.EnsureIndex` | migrations/20261021000000-query-performance-indexes.js:203-253 | fails exactly when an equivalent index with another TTL blocks it; else the declared set; issues nothing when present |
| `MigrationRun.EnsureReached` | migrations/20261021000000-query-performance-indexes.js:203-253 | one more declared index, in terms of the set at the start alone |
| `MigrationRun.BlockedThen` | migrations/20261021000000-query-performance-indexes.js:245-251 | what blocks an index at its turn, in terms of the set at the start |
| `MigrationRun.KeptEnsure` | migrations/20261101000000-filter-tiebreak-compound-indexes.js:234-279 | every set an ensure passes through keeps bystanders, serves every old index or its replacement, and holds nothing foreign |
| `MigrationRun.KeptDrop` | migrations/20261101000000-filter-tiebreak-compound-indexes.js:280-281 | so does dropping an old index once its replacement is present |
| `MigrationRun.Up` | migrations/20261021000000-query-performance-indexes.js:266-278 | when it gets through, exactly; the resulting set whatever the order; what every set on the way keeps; nothing issued when settled |
| `MigrationRun.NoTtlGoesThrough` | migrations/20261101000000-filter-tiebreak-compound-indexes.js:253-257 | without equivalent indexes of another TTL no create meets a conflict |
| `MigrationRun.UpSettles` | migrations/20261101000000-filter-tiebreak-compound-indexes.js:235-244 | after a run nothing is left to do |
| `MigrationRun.SettledGoesThrough` | migrations/20261101000000-filter-tiebreak-compound-indexes.js:235-244 | and nothing can stop a run there |
| `MigrationRun.UpAgain` | migrations/20261101000000-filter-tiebreak-compound-indexes.js:228-282 | on the set an earlier run reached, as the server lists it, a run gets through, changes nothing and passes through no set: no drop and no create |
| `MigrationRun.SettledListed` | migrations/20261101000000-filter-tiebreak-compound-indexes.js:116-123 | what leaves nothing to do leaves nothing to do as the server lists it |
| `MigrationRun.Down` | migrations/20261021000000-query-performance-indexes.js:280-297 | when it gets through, exactly, and the resulting set |
| `MigrationRun.DownUndoesUp` | migrations/20261101000000-filter-tiebreak-compound-indexes.js:284-292 | from the old shapes, down after up gives back exactly the set there was |
| `MigrationRun.DownAfterUp` | migrations/20261021000000-query-performance-indexes.js:280-297 | down on the set that up reached from the old shapes meets no conflict and gives back the set there was |
| `MigrationRun.UpThenDown` | migrations/20261021000000-query-performance-indexes.js:266-297 | and neither of the two meets a conflict |
| `Migrations.TieBreaksWellFormed` | migrations/20261101000000-filter-tiebreak-compound-indexes.js:47-90 | the six declared replacements form a plan the theorems apply to |
| `Migrations.QueryIndexesWellFormed` | migrations/20261021000000-query-performance-indexes.js:46-80 | so do its creations, replacements and removal |
| `Migrations.UsernameIndexWellFormed` | migrations/20260928000000-audit-username-ci-index.js:39-42 | so does the declared index with a collation |
| `Migrations.UsernameSettled` | migrations/20260928000000-audit-username-ci-index.js:64-84 | the index with all nine options and the server's version, as listed, is the declared one |
| `Migrations.UsernameUp` | migrations/20260928000000-audit-username-ci-index.js:64-84 | and up leaves it alone |
| `Migrations.PartTexts` | migrations/20261101000000-filter-tiebreak-compound-indexes.js:111-114 | a declared key part has the text of its field and its direction |
| `Migrations.ReplacementsExtend` | migrations/20261101000000-filter-tiebreak-compound-indexes.js:47-90 | every replacement's key begins with the key it replaces, in the same collection |
| `Migrations.DeclaredGoThrough` | migrations/20261101000000-filter-tiebreak-compound-indexes.js:171-182 | with TTLs on single-field indexes only, none of the three migrations meets a conflict |
| `EditDistance.Distance` | scripts/cliFlagPolicy.js:28-45 | the one-row program computes the recursive distance |
| `EditDistance.LevIsShortestEditPath` | scripts/cliFlagPolicy.js:28-45 | the distance is the length of a shortest edit script |
| `EditDistance.LevSymmetric` | scripts/cliFlagPolicy.js:28-45 | symmetry |
| `EditDistance.LevZeroOnlyOnEqual` | scripts/cliFlagPolicy.js:28-45 | zero if and only if equal |
| `EditDistance.LevTriangle` | scripts/cliFlagPolicy.js:28-45 | the triangle inequality |
| `EditDistance.SuggestFlag` | scripts/cliFlagPolicy.js:48-60 | the first flag at least distance, and only within the bound |
| `EditDistance.ShapeMeans` | scripts/cliFlagPolicy.js:22-25 | the shape of a flag: its letters in their order, each by its place in the alphabet, nothing else |
| `EditDistance.ExactShapeIsSuggested` | scripts/cliFlagPolicy.js:22-60 | a flag of the same shape is suggested before any other |
| `Csv.ParseCsv` | scripts/verify-audit-export.js:97-134 | the loop computes the scanner of the specification |
| `Csv.RoundTrip` | scripts/verify-audit-export.js:96-134 | whatever a writer by section 2 of RFC 4180 wrote is read back |
| `Csv.UnterminatedRoundTrip` | scripts/verify-audit-export.js:129-132 | a last record without line end, and the one that is lost |
| `Csv.RefusedOnOddQuotes` | scripts/verify-audit-export.js:128-128 | a text is refused if and only if its number of quotes is odd |
| `Csv.Rewrite` | scripts/verify-audit-export.js:97-134 | whatever was read can be written and read again |
| `Csv.SplitAppended` | scripts/verify-audit-export.js:81-93 | the manifest is split off where it was appended, whatever the table contains |
| `StripComments.StripText` | scripts/auditCountAssertionScan.js:112-145 | the loop with its helpers computes the specified output |
| `StripComments.ConsumeQuoted` | scripts/auditCountAssertionScan.js:90-99 | one step inside a string |
| `StripComments.ConsumeBlockComment` | scripts/auditCountAssertionScan.js:79-87 | one step inside a block comment |
| `StripComments.ConsumeLineComment` | scripts/auditCountAssertionScan.js:102-110 | a line comment with its LF |
| `StripComments.StripAligned` | scripts/auditCountAssertionScan.js:73-78 | every character kept or blanked, LFs at their positions, length kept but for a dangling backslash |
| `StripComments.LineCommentBlanked` | scripts/auditCountAssertionScan.js:102-110 | a line comment as written is blanked up to its LF or the end, and code goes on behind it |
| `StripComments.BlockCommentBlanked` | scripts/auditCountAssertionScan.js:79-87 | a block comment as written is blanked but for its LFs up to its end, or to the end of the text |
| `StripComments.StringKept` | scripts/auditCountAssertionScan.js:90-99 | a string in any of the three quotes, with its escapes and whatever it holds, is kept up to its quote or the end of its line |
| `StripComments.CodeKept` | scripts/auditCountAssertionScan.js:130-144 | any other character of code is kept |
| `StripComments.DanglesOnBackslash` | scripts/auditCountAssertionScan.js:90-99 | the one extra blank only behind a text that ends in a backslash |
| `StripComments.StripTwice` | scripts/auditCountAssertionScan.js:112-145 | the output holds no comment and a second pass changes nothing |
| `StripComments.StripFixes` | scripts/auditCountAssertionScan.js:112-145 | exactly the texts without comments and dangling backslash are left alone |
| `AuditChain.Collection.Rechain` | scripts/resign-audit-chain-v3.js:103-160 | the page loop equals one left fold in _id order, with its counts; it gets through exactly when every write lands and every page is answered; otherwise it stops in the first page where not, with the pages before it written, of it exactly the records whose writes landed, and none behind it; nothing is written without apply |
| `AuditChain.Collection.BulkWrite` | scripts/resign-audit-chain-v3.js:157-157 | the unordered write: exactly the records whose writes land are written, and it fails exactly when one does not or no answer comes |
| `AuditChain.ChainPage` | scripts/resign-audit-chain-v3.js:116-154 | one page of the fold, carrying the hash |
| `AuditChain.RechainedIsChain` | scripts/resign-audit-chain-v3.js:118-136 | every record is complete, linked to the stored hash before it and hashed over its stored payload |
| `AuditChain.FixedExactlyOnChains` | scripts/resign-audit-chain-v3.js:103-160 | a run changes nothing if and only if the records already are a chain |
| `AuditChain.RechainTwice` | scripts/resign-audit-chain-v3.js:124-130 | a second run writes identical values, whatever the clock |
| `AuditChain.RechainResumes` | scripts/resign-audit-chain-v3.js:110-157 | whichever records were written, a second run gives the first m what one run would have given if and only if the unwritten ones among them have a timestamp or the clocks agree |
| `AuditChain.WrittenStay` | scripts/resign-audit-chain-v3.js:118-157 | the second run leaves every written record alone, if and only if |
| `AuditChain.WrittenMoves` | scripts/resign-audit-chain-v3.js:157-157 | two records of which the second was written and then changes |
| `AuditChain.ChainsDiverge` | src/utils/auditChainPayload.js:163-169 | two chains that differ in a payload differ in every hash from there on |
| `AuditChain.RechainedKeeps` | scripts/resign-audit-chain-v3.js:120-131 | what each record keeps and which defaults it gains |
| `AuditChain.DefaultsWritten` | src/utils/auditChain.js:438-446 | the six defaults, written out, and the version |
| `AuditChain.LastHashDecides` | src/utils/auditChainPayload.js:163-169 | two chains with the same last hash have the same hashes and payloads all the way back |
| `AuditChain.HashDecides` | src/utils/auditChainPayload.js:163-169 | the hash of the joined text determines the previous hash and the payload |
| `HmacResign.TallyHmacStates` | scripts/resign-audit-hmac.js:149-168 | every class counted exactly, by what each class means; the samples are the first ten records that are evidence |
| `HmacResign.StateMeans` | scripts/resign-audit-hmac.js:133-139 | each class by the record's HMAC, the new key's and the current key's, written out |
| `HmacResign.EvidentMeans` | scripts/resign-audit-hmac.js:163-165 | evidence are, in order, exactly the records with a hash and an HMAC that is not empty, not the new key's, and not the current key's or there is none |
| `HmacResign.TallyMeans` | scripts/resign-audit-hmac.js:133-139 | four classes are together the records the new key has not signed, with the fifth all audited records |
| `HmacResign.AppendGrows` | scripts/resignLedger.js:60-98 | an appended entry is one more line behind unchanged lines |
| `HmacResign.AppendCut` | scripts/resignLedger.js:60-98 | a cut append leaves the lines, and no partial line can be appended to |
| `HmacResign.AppendableMeans` | scripts/resignLedger.js:64-75 | a ledger can be appended to when it is empty or its last line that is not blank is valid |
| `HmacResign.TicketMeans` | scripts/resignLedger.js:59-62 | a ticket is missing when an override has nothing or a dash behind white space |
| `HmacResign.StrokesAreGood` | scripts/resignLedger.js:59-90 | what is asked of the line format is met by one that trims the ticket, as the source does |
| `HmacResign.Store.AppendResignLedger` | scripts/resignLedger.js:55-102 | refused exactly without a ticket or on a bad last line; grows by whole lines |
| `HmacResign.Store.WriteResignatures` | scripts/resign-audit-hmac.js:171-193 | buffered writes: it fails exactly when one of them did; on success every audited record signed, the others untouched, and the count exact; on failure each record old or signed |
| `HmacResign.Store.WithLedger` | scripts/resignLedger.js:105-111 | intent, writes, result: how far a run came for each outcome and how each append went; a completed line among the new ones, however the run ended, means all signed |
| `HmacResign.Store.Resign` | scripts/resign-audit-hmac.js:328-345 | rejected exactly when applied without an override on some evidence, written out; without an override only records change that had no HMAC or the current key's; no record changes before the intent line, which says whether evidence was overridden; each outcome with its cause |
| `HmacResign.ResignResumes` | scripts/resign-audit-hmac.js:171-193 | an interrupted run repeated gives what one full run would |
| `MfaRotation.Users.WriteAndVerify` | scripts/migrate-mfa-secret.js:113-127 | the new text is stored exactly when the write lands, and it is a success exactly when it also is answered |
| `MfaRotation.EncryptedMeans` | src/utils/mfaSecret.js:23-45 | an encrypted text is the version and its payload |
| `MfaRotation.Users.MigrateOne` | scripts/migrate-mfa-secret.js:148-206 | exactly when one record is migrated, skipped, a failure or not taking part, the text it then has, and that nothing else changes |
| `MfaRotation.Users.MigrateAll` | scripts/migrate-mfa-secret.js:133-209 | every count exact; the failures are exactly the records that no key opens or whose write fails; every other record has its secret under the new key |
| `MfaRotation.StepKeepsSecret` | scripts/migrate-mfa-secret.js:150-193 | no step of any run changes what the secret is |
| `MfaRotation.Resumes` | scripts/migrate-mfa-secret.js:158-173 | what a later run finishes was the secret at the start |
| `MfaRotation.RunUntilDone` | scripts/migrate-mfa-secret.js:133-209 | stopped anywhere and repeated until no failure is left, every secret is under the new key; what no key opens stays as it was; one run that nothing disturbs suffices |
| `PiiEncryption.EncryptReads` | src/utils/piiCrypto.js:115-131 | an encrypted value reads back if and only if the plain text is not shaped like a ciphertext |
| `PiiEncryption.ShapedMeans` | src/utils/piiCrypto.js:59-61 | the shape of a ciphertext: version, 16 characters of IV, a dot, data and padding |
| `PiiEncryption.Base64Means` | src/utils/piiCrypto.js:59-59 | the characters of Base64 |
| `PiiEncryption.LooksEncrypted` | src/utils/piiCrypto.js:57-59 | a text that is not encrypted and not readable |
| `PiiEncryption.Collection.ScanAndRewrite` | scripts/migrate-pii-encryption.js:427-488 | every row is its specified rewriting in one update, corrupt columns reported exactly, rows written and columns of each kind counted exactly |
| `PiiEncryption.FullColumn` | scripts/migrate-pii-encryption.js:402-424 | readable under the current key as the normalised old plain text with matching keys; undecryptable unchanged and reported; what is empty or shaped like a ciphertext stored as it is |
| `PiiEncryption.KeysOnlyColumn` | scripts/migrate-pii-encryption.js:380-388 | no managed value changes; keys match the plain text |
| `PiiEncryption.HealColumn` | scripts/migrate-pii-encryption.js:452-463 | a column that is to be plain, in every mode: without prefix as it was, an old text that opens is its plain text again, anything else as it was and reported |
| `PiiEncryption.SkippedColumn` | scripts/migrate-pii-encryption.js:402-409 | an empty column, and in a full run an encrypted one, is as it was |
| `PiiEncryption.CorruptMeans` | scripts/migrate-pii-encryption.js:452-477 | exactly which columns are reported, for every column and mode |
| `PiiEncryption.CountedMeans` | scripts/migrate-pii-encryption.js:466-481 | exactly which columns count as back-filled, upgraded, encrypted or skipped |
| `PiiEncryption.OtherColumn` | scripts/migrate-pii-encryption.js:438-442 | a column outside the target is left alone |
| `PiiEncryption.SecondRunWritesNothing` | scripts/migrate-pii-encryption.js:338-353 | without rotation a second run over the collection writes nothing if and only if no column loops |
| `PiiEncryption.SecondRunWrites` | scripts/migrate-pii-encryption.js:402-424 | it writes exactly the columns that loop |
| `PiiEncryption.WrittenTwice` | scripts/migrate-pii-encryption.js:402-424 | a row that a second run writes again, under a cipher with every law |
| `PiiEncryption.ClearIsSound` | src/utils/piiCrypto.js:115-150 | the laws assumed of the cipher can be met |
| `PiiEncryption.RotatedAgain` | scripts/migrate-pii-encryption.js:321-329 | a second rotation leaves rotated rows and reports them |
| `BundlePaths.SafeStaysInside` | scripts/offlineBundlePolicy.js:76-102 | an accepted path leads to the directory plus exactly its own names |
| `BundlePaths.SafeNeverCollides` | scripts/offlineBundlePolicy.js:76-102 | different accepted paths lead to different places |
| `BundlePaths.WithinRootExactly` | scripts/offlineBundleIntakePolicy.js:267-280 | the check passes exactly for the root and what lies below it; under the top directory only for itself |
| `BundlePaths.SafeMeans` | scripts/offlineBundlePolicy.js:76-102 | accepted are exactly the trimmed texts that are names with slashes between them, none empty, a step, or with a slash, backslash or NUL in it, the first without a drive |
| `Texts.TrimMeans` | scripts/offlineBundlePolicy.js:77-80 | trimming takes off white space at both ends and nothing else, and all of it |
| `Texts.SpaceMeans` | scripts/offlineBundlePolicy.js:77-80 | what counts as white space |
| `BundleIntake.NormalizeMeans` | scripts/offlineBundleIntakePolicy.js:139-141 | an entry's name without the slashes at its end |
| `BundleIntake.ListingMeans` | scripts/offlineBundleIntakePolicy.js:139-196 | the listing passes exactly with 1 to 32 safe entries, plain files or directories, and the three fixed names among them |
| `BundleIntake.ImageMeans` | scripts/offlineBundlePolicy.js:139-194 | an image passes exactly with the application's role and a safe file name ending in .tar, its other checks settled |
| `BundleIntake.ExtractedMeans` | scripts/offlineBundleIntake.js:80-90 | extracted are exactly the named members and what lies below them, each as the archive's last entry of that name has it |
| `BundleIntake.ParseImages` | scripts/offlineBundlePolicy.js:139-194 | accepted exactly when every image passes and no role and no file is declared twice |
| `BundleIntake.Root.ExtractNamedMembers` | scripts/offlineBundleIntake.js:80-108 | it succeeds exactly when the tools do, every member landed as a plain file and nothing stands on a file's path |
| `BundleIntake.Root.ExtractAndVerify` | scripts/offlineBundleIntake.js:370-464 | each outcome exactly by its cause; success leaves a vetted tree in staging; everything else leaves no staging; an existing target is refused |
| `BundleIntake.StagedIsNamed` | scripts/offlineBundleIntake.js:427-446 | the staged tree is exactly the fixed files and the declared ones |
| `BundleIntake.Root.IntakeOne` | scripts/offlineBundleIntake.js:466-582 | each outcome exactly by its cause; a bundle is shown only vetted and by one step; existing ones are never altered; failures show nothing |
| `RollbackDrill.RoundTrip` | scripts/run-rollback-drill.js:166-196 | decoding undoes encoding if and only if the value is plain |
| `RollbackDrill.TaggedForms` | scripts/run-rollback-drill.js:166-180 | the tagged forms, and what an object that poses as an ObjectId is written as |
| `RollbackDrill.ReadBackPlain` | scripts/run-rollback-drill.js:166-196 | whatever was written, what is read back is plain |
| `RollbackDrill.UpsertPlain` | scripts/run-rollback-drill.js:211-232 | a plain document is put back as it was |
| `RollbackDrill.BackupCollection` | scripts/run-rollback-drill.js:198-209 | every document is in the snapshot once |
| `RollbackDrill.Database.RestoreCollection` | scripts/run-rollback-drill.js:211-232 | it succeeds exactly when every document can be read back and written; the collection then is just what is read back |
| `RollbackDrill.Database.Drill` | scripts/run-rollback-drill.js:310-342 | it finishes exactly when all can be read back and written; each count is that of the _ids read back; the collections come back if and only if all documents are plain; other collections and a dry run are untouched |
| `RollbackDrill.CountsMissIt` | scripts/run-rollback-drill.js:336-338 | a changed document that the count check does not notice |
| `CommentRatchet.MeasureText` | scripts/commentDensity.js:117-128 | comment and code lines of a text |
| `CommentRatchet.CommentLineMeans` | scripts/commentDensity.js:31-31 | a comment line is white space, one of three marks, and anything; a blank one white space alone |
| `CommentRatchet.OverCapMeans` | scripts/commentDensity.js:34-34 | over the cap means a share of comment lines above 0.3 |
| `CommentRatchet.GoodMeans` | scripts/commentDensity.js:207-289 | a ledger is good exactly when every file has its count and the totals there are add up |
| `CommentRatchet.Evaluate` | scripts/commentDensity.js:164-205 | the lists of the comparison, complete and in order |
| `CommentRatchet.SnapshotReads` | scripts/commentDensity.js:207-289 | every snapshot passes all checks of a later reading |
| `CommentRatchet.SnapshotAccepted` | scripts/commentDensity.js:303-349 | the survey a ledger was made from is accepted again |
| `CommentRatchet.Repository.Check` | scripts/commentDensity.js:330-350 | passes exactly when a readable ledger accepts the survey |
| `CommentRatchet.Repository.UpdateBaseline` | scripts/commentDensity.js:362-411 | replaced exactly on acceptance, else untouched |
| `CommentRatchet.UpdateTightens` | scripts/commentDensity.js:176-204 | an accepted update loses no file and raises no count and no total |
| `CommentRatchet.Repository.UpdateAll` | scripts/commentDensity.js:362-411 | so does any sequence of updates, and the ledger stays readable |

## Left out

- Docker, nginx, tar, HTTP probes and child processes are steps that succeed or fail; their output, log texts, file modes, owners and time stamps are not modelled.
- The agent's lock: one agent at a time is assumed. The lock file is created and written, and judged and removed, in separate calls, so the code does not give mutual exclusion at that granularity.
- `UpgradeQueue.Queue.Guarantees`: no child that is recorded or about to be outlives three hours from its claim.
- `UpgradeQueue.Queue.Execute`: import and upgrade of an offline request are two child runs; what they do to images is not modelled, nor what an import left behind by a killed agent does to them. A status file can be unreadable when the agent starts; becoming unreadable while it runs (over 64 KiB, replaced by a link) is not modelled.
- Heartbeats, readiness reasons and the intake step inside a round.
- `HotUpgrade.Host.Upgrade`: nobody else writes the configuration file or reloads nginx during the run. Argument parsing and image-reference parsing are one yes-or-no input.
- Comment spacing in the upstream block is normalised to one space when a line is commented out, so the text after switching there and back is not the same byte for byte.
- `MigrationRun.Up`: concurrent migrations and unique-index violations while building are not modelled; the listing of a missing collection is the empty list.
- `StableJson.StableIsCanonical`: numbers are their JavaScript text; values are trees without dates or other classes.
- The hash, manifest and signature checks of the audit-export verifier are comparisons of digests and are left out, except the split of the manifest line.
- The scan for audit-count assertions beyond its comment stripping.
- `AuditChain.Collection.Rechain`: records are not added during a run, and the driver's own schema defaults outside the table of payload defaults are not modelled. The verification before and after the run is left out.
- `HmacResign.Store.Resign`: records are not added or changed by others between the two passes.
- `MfaRotation.Users.MigrateAll`: nobody else writes secrets during the run; the cursor visits each record once.
- `PiiEncryption.Collection.ScanAndRewrite`: the search key and the n-grams belong to one column each, as in the declared targets; values that are not strings are not modelled. The n-gram index is one function of the key and the text.
- `BundleIntake.Root.IntakeOne`: signature and transfer checks are yes-or-no inputs, and the importer's checks are one predicate on the extracted tree. Permissions are not modelled.
- `RollbackDrill.Database.Drill`: compression and encryption of the snapshot are the identity; BSON types other than ObjectId and date, and invalid dates, are not modelled.
- `CommentRatchet.Evaluate`: shares are compared exactly instead of in floating point; fractional counts in a hand-written ledger are not modelled.
- Argument parsers, printing and exit codes of all scripts.
