# Pushify core logic, modelled and proved in Dafny

This project models the small, self-contained rules at the centre of Pushify (`src/lib`) and proves what they
promise over every input, every run and every interleaving: money and months, locks and slots on Redis, the text
that is scanned, printed and matched, the reconciliation of DNS records, the decision to skip a build, and the
state machines that alert and scale. `dafny verify dfyconfig.toml` checks all of it.

| file | models |
|---|---|
| `UtcCalendar.dfy`, `IncludedCredit.dfy` | the calendar of section 21.4.1 of ECMA-262; credit periods, upgrades and charges of the included credit |
| `InfraBilling.dfy` | accruing a server's monthly price with a carry |
| `DeployConcurrency.dfy` | deploy slots counted in Redis and in memory |
| `RedisLease.dfy` | the leader lease and the per-server patch lock |
| `CliAuthStore.dfy` | CLI login sessions: create, approve, take |
| `LogMasking.dfy`, `Csv.dfy` | the secret masker, the CSV printer |
| `EnvExampleKeys.dfy`, `EnvExampleLines.dfy` | the dotenv reader, and what each of its lines reports |
| `ProjectContainers.dfy`, `WorkerContainers.dfy`, `RunSpec.dfy` | the language of container names, without workers and with them, slug conflicts and replica names |
| `CloudflareOrgDns.dfy`, `ManagedRecords.dfy` | create, delete and sync of a custom domain's records in a shared zone, and what they make of its records |
| `ComposeBuildCache.dfy`, `ComposeProject.dfy`, `JsTree.dfy` | the build-skip decision, the compose plan and the rewritten file, over parsed trees |
| `AppHealth.dfy`, `ResourceAlerts.dfy`, `Autoscale.dfy` | health checks, resource alerts and replica counts over whole runs |
| `Text.dfy`, `Wrappers.dfy` | digits, white space, splitting; optional values and results |

What the sources change in place is a class or a loop here, and each such method is proved equal to a function of
its inputs or of the state before it; the lemmas are about those functions. Every Redis command, every script and
every expiry of a key is one step, and any number of clients interleave. Every API call to Cloudflare and every
command of a lease may fail, before or after it took effect. Clocks, Redis replies and
API answers are parameters or part of the state.

Where the code does less than its comments might suggest, the model keeps the code, and what it does is proved exactly:
as an equivalence, as a bound that is attained, or, for leases, as a run that every lost renewal can go on to:

- `addMonths` gives back its own date for 0 months except for 29 February of the year 0, because `Date.UTC` reads the
  years 0 to 99 as 1900 to 1999; and a yearly slice holds `now` throughout a period only up to thirteen months.
- The balance that starts a server covers every split of 72 hours into fewer than 2000 ticks, and no more.
- `slugsConflict` misses a name shared through a colour suffix, through `preview-`, or where one slug reaches into the
  name of a worker of the other: `shop` with a worker `blue` and the slug `shop-worker`, for one. It reports a conflict
  without a shared name exactly for a slug that spells a worker the other does not have. Both are proved as
  equivalences for any worker lists on both sides.
- The limits of deploy slots hold for leases given back before they are so old if and only if that age is at most the
  time the keys live, or there is no room for any lease; the worst run is built for all limits.
- Two workers can lead when a lease runs out between an acquire's GET and its EXPIRE.
- An approval written after a CLI session was collected makes the session again: a code is handed out at most once for
  each create and each such late approval, and for any number of both there is a run that does.
- `toCsv` does not end its last line, so a last record of one empty field is lost.
- `createCustomDomainRecords` keeps a trailing dot of the domain in the record's name; delete and sync drop it. This is
  a property of the functions alone: `src/services/domain.service.ts` (lines 112 and 328) refuses such a domain when it
  is added, so the program does not send one.
- `containerPortOf` does not check the range of a port given as a number or an object, so a plan can hold a port that
  the rewritten file no longer publishes.

## Model

| member | source | states |
|---|---|---|
| UtcCalendar.MonthLength | src/lib/included-credit.ts:27-35 | the calendar the date setters use: every month's length, February by the leap rule |
| UtcCalendar.InstantFields | src/lib/included-credit.ts:27-35 | an instant built from a month, a day that exists and a time of day has exactly these fields |
| UtcCalendar.InstantsOrdered | src/lib/included-credit.ts:27-35 | any day of a month comes before any day of a later month at the same time of day |
| UtcCalendar.EpochIsNewYear1970 | src/lib/included-credit.ts:27-35 | the count of milliseconds starts with 1 January 1970 |
| IncludedCredit.AddMonthsInPlace | src/lib/included-credit.ts:27-35 | the three setter calls on a copy amount to moving by calendar months with the day clamped; the argument is not touched |
| IncludedCredit.LastDayIsMonthEnd | src/lib/included-credit.ts:32 | day 0 of the next month is the month's last day, except for February of the year 0 |
| IncludedCredit.AddMonthsFields | src/lib/included-credit.ts:27-35 | the result is in the month asked for, at the same time of day, on the same day or the month's last |
| IncludedCredit.AddMonthsIncreases | src/lib/included-credit.ts:27-35 | more months give a strictly later instant, despite clamping and leap years |
| IncludedCredit.AddNoMonths | src/lib/included-credit.ts:27-35 | adding 0 months is the identity exactly when the date is not 29 February of the year 0 |
| IncludedCredit.CreditPeriodOf | src/lib/included-credit.ts:42-57 | the loop over slices ends and gives the period of the specification, dates untouched |
| IncludedCredit.YearIsTiled | src/lib/included-credit.ts:42-57 | the twelve slices are not empty, and an instant of the year gets slice k exactly when it lies in it |
| IncludedCredit.YearIsCovered | src/lib/included-credit.ts:42-57 | each instant of the year lies in exactly one of the twelve |
| IncludedCredit.KeysDiffer | src/lib/included-credit.ts:42-57 | two different slices have different keys |
| IncludedCredit.KeyNamesTheSlice | src/lib/included-credit.ts:42-57 | two instants of the year share a key exactly when they share a slice |
| IncludedCredit.SliceHoldsNow | src/lib/included-credit.ts:42-57 | for any period end, every slice given holds `now` if and only if the period is at most thirteen months long |
| IncludedCredit.SliceRunsToTheNextStep | src/lib/included-credit.ts:51-56 | a slice of a year begins at the last monthly step reached and ends at the next one or with the subscription's period, whichever comes first |
| IncludedCredit.MonthIsItsOwnPeriod | src/lib/included-credit.ts:48-50 | a monthly subscription's credit period is its own billing period |
| IncludedCredit.KeyNamesTheDay | src/lib/included-credit.ts:49-56 | in the years 0 to 9999 two instants have the same key exactly when they are on the same day |
| IncludedCredit.FractionOfPeriod | src/lib/included-credit.ts:60-65 | the fraction left is in [0, 1], exact inside the period and never grows with time |
| IncludedCredit.UpgradeGrantsTheMost | src/lib/included-credit.ts:72-83 | an upgrade grants the largest whole amount within the prorated difference and the headroom of the new plan |
| IncludedCredit.GrantsStayWithinLargestPlan | src/lib/included-credit.ts:66-83 | over any plan changes in a period the total granted never falls and never exceeds the largest plan held |
| IncludedCredit.FullUpgradeReachesThePlan | src/lib/included-credit.ts:72-83 | an upgrade with the whole period ahead makes up the difference in full |
| IncludedCredit.TwoStepsNeverBeatOne | src/lib/included-credit.ts:72-83 | two steps up at one instant never grant more than the direct step |
| IncludedCredit.SplittingNeverGrantsMore | src/lib/included-credit.ts:72-83 | nor do any number of steps, despite floors and caps |
| IncludedCredit.ChargeIsPaidInOrder | src/lib/included-credit.ts:85-98 | a charge is refused exactly when both balances cannot cover it or the wallet is negative; the wallet pays only when the credit is used up |
| IncludedCredit.ChargesAreConserved | src/lib/included-credit.ts:85-98 | over any run of charges balances stay non-negative and what leaves them is the sum of the accepted charges, credit first |
| InfraBilling.TickIsNearest | src/lib/infra-billing.ts:88-100 | one tick is within half a millicent of the exact price and leaves a carry in [0, 1000) |
| InfraBilling.RunIsExactWithinHalfPerTick | src/lib/infra-billing.ts:80-100 | over any run of n ticks, at changing prices, charges and carry are within n/2 millicents of the exact price |
| InfraBilling.BalanceCovers72Hours | src/lib/infra-billing.ts:88-105 | fewer than 2000 ticks over 72 hours charge at most the start balance from carry 0 and one cent more from any carry |
| InfraBilling.WorstSplitOvershoots | src/lib/infra-billing.ts:88-105 | from 2000 ticks on there is a split that charges one cent more |
| InfraBilling.CoversExactlyBelow2000Ticks | src/lib/infra-billing.ts:102-105 | the balance covers every split into n ticks at every price if and only if n is below 2000 |
| DeployConcurrency.Redis.TryAcquireDeploySlots | src/lib/deploy-concurrency.ts:10-20 | the acquire script takes a slot exactly when both counters are below their limits, and sets both expiries |
| DeployConcurrency.Redis.ReleaseDeploySlots | src/lib/deploy-concurrency.ts:22-28 | the release script takes one off each counter that is above 0 |
| DeployConcurrency.MemorySlots.TryAcquireDeploySlots | src/lib/deploy-concurrency.ts:38-67 | the in-memory twin takes a slot under the same condition |
| DeployConcurrency.MemorySlots.ReleaseDeploySlots | src/lib/deploy-concurrency.ts:69-83 | and gives it back, no counter going below 0 |
| DeployConcurrency.OnlyIdleKeysExpire | src/lib/deploy-concurrency.ts:10-28 | a key that can expire while every lease is in time counts nothing |
| DeployConcurrency.HeldIsCounted | src/lib/deploy-concurrency.ts:22-28 | the counters of a held lease are above 0, so a release never meets the clamp |
| DeployConcurrency.StepKeepsInv | src/lib/deploy-concurrency.ts:10-83 | every step of every client, and every expiry, keeps counters equal to live leases and limits kept |
| DeployConcurrency.TimelyRunsCountLeases | src/lib/deploy-concurrency.ts:10-83 | so does every interleaving in which each lease is given back once, in time |
| DeployConcurrency.SlotsNeverExceedLimits | src/lib/deploy-concurrency.ts:10-83 | from the empty store no limit is exceeded, both back ends decide alike, and with no lease left all counters are 0 |
| DeployConcurrency.SlotsGoToWhoFits | src/lib/deploy-concurrency.ts:10-83 | after any timely run a slot is given exactly when fewer leases are held than both limits allow, a refusal changes nothing, and a release frees just that slot |
| DeployConcurrency.CountersStayAboveZero | src/lib/deploy-concurrency.ts:22-83 | in every run, late releases included, no counter falls below zero |
| DeployConcurrency.LateReleaseBreaksTheLimit | src/lib/deploy-concurrency.ts:5-28 | for all positive limits, a full server whose leases outlive the keys gives one lease too many |
| DeployConcurrency.HoldTimeIsExact | src/lib/deploy-concurrency.ts:5-28 | all interleavings that give leases back before a given age keep the limits if and only if that age is at most the keys' time, or there is no room at all |
| RedisLease.AcquireLease | src/lib/server-patch-lock.ts:28-33 | undisturbed, SET NX, GET and EXPIRE succeed exactly when the key is free or already the caller's, for the full time; after a failed command the lease is as it was, or taken unknown to the caller |
| RedisLease.TryHoldDeployWorkerLeadership | src/lib/deploy-worker-lock.ts:14-37 | the leader lease is taken or renewed so; without Redis every worker leads, and after a failed command none does |
| RedisLease.ReleaseDeployWorkerLeadership | src/lib/deploy-worker-lock.ts:39-53 | only the holder's key is deleted, and a failed command changes nothing else |
| RedisLease.AcquireServerPatchLock | src/lib/server-patch-lock.ts:21-34 | the same lease per server; without Redis no run starts, and a failed command is thrown |
| RedisLease.ReleaseServerPatchLock | src/lib/server-patch-lock.ts:37-53 | only the holder's key is deleted, and a failed command changes nothing else |
| RedisLease.StepKeepsInv | src/lib/deploy-worker-lock.ts:14-53 | every command of any client, failed ones too, that does not renew a lost lease keeps each young hold in the store with time to run |
| RedisLease.UndisturbedAcquire | src/lib/deploy-worker-lock.ts:20-33 | the commands of an acquire, undisturbed, hold the key from now on when it is free or already the caller's, and otherwise change nothing |
| RedisLease.LeasesExclude | src/lib/server-patch-lock.ts:17-53 | in every interleaving where no lease runs out between GET and EXPIRE at most one token holds a key |
| RedisLease.BrokenRenewalBreaksExclusion | src/lib/deploy-worker-lock.ts:26-30 | the condition is exact: after any renewal of a lost lease the run can go on to two holders |
| RedisLease.TwoLeadersAreReachable | src/lib/deploy-worker-lock.ts:14-37 | such a run exists from the start |
| RedisLease.ReleaseByOthersChangesNothing | src/lib/server-patch-lock.ts:36-53 | a release by a token that does not hold the key leaves the store and every other hold alone |
| RedisLease.ReleaseFreesTheKey | src/lib/server-patch-lock.ts:36-53 | a release by the holder removes the key and nothing else, and the next to ask has it at once |
| RedisLease.FailureClaimsNothing | src/lib/deploy-worker-lock.ts:33-36 | a failed command ends its acquire without a hold, with the key as it was or as the command left it |
| RedisLease.ServersHaveTheirOwnKeys | src/lib/server-patch-lock.ts:13-15 | two servers never share a key, nor does one with the leader |
| CliAuthStore.AuthStore.SweepMemory | src/lib/cli-auth-store.ts:34-37 | exactly the sessions past their time are dropped |
| CliAuthStore.AuthStore.Create | src/lib/cli-auth-store.ts:40-48 | a pending session is written with its expiry, in either back end |
| CliAuthStore.AuthStore.Get | src/lib/cli-auth-store.ts:50-61 | a session is shown unless it is missing or past its time |
| CliAuthStore.AuthStore.Approve | src/lib/cli-auth-store.ts:63-71 | in memory only an existing session is approved; in Redis the hash is written whether it was there or not |
| CliAuthStore.AuthStore.Take | src/lib/cli-auth-store.ts:77-96 | undisturbed, an approved session is removed and handed out unless another secret sealed it; any other stays |
| CliAuthStore.AuthStore.Remove | src/lib/cli-auth-store.ts:98-101 | the session is gone, the others stay |
| CliAuthStore.SessionsLiveUntilTheirTime | src/lib/cli-auth-store.ts:40-71 | in Redis a created session waits, is collectable once approved, keeps its time, and disturbs no other |
| CliAuthStore.MemorySessionsLiveUntilTheirTime | src/lib/cli-auth-store.ts:33-101 | in memory the same; creating one drops exactly the sessions past their time, an approval makes none, and a take removes only an approved one |
| CliAuthStore.TakesAreCounted | src/lib/cli-auth-store.ts:40-101 | along any interleaving from any genuine state, takes plus what is left are at most births plus what was there |
| CliAuthStore.TakesNeverExceedBirths | src/lib/cli-auth-store.ts:73-96 | a code is handed out at most as often as its key came into existence, and only with approvals written for it |
| CliAuthStore.OneCreateOneApproval | src/lib/cli-auth-store.ts:73-96 | without approvals for sessions that are gone, at most one approval for each create |
| CliAuthStore.TakesAreCreatesOrLate | src/lib/cli-auth-store.ts:63-96 | in every run a code is handed out at most once for each create and each approval written on a missing session |
| CliAuthStore.EveryLateApprovalCanBeCollected | src/lib/cli-auth-store.ts:63-96 | for any numbers of both there is a run that hands out one approval for each |
| CliAuthStore.MemoryTakesNeverExceedCreates | src/lib/cli-auth-store.ts:33-101 | in memory a code is handed out at most once for each create, whatever happens |
| CliAuthStore.MemoryCreatesCanAllBeCollected | src/lib/cli-auth-store.ts:33-101 | and any number of creates can give as many approvals |
| LogMasking.CollectEnvSecrets | src/lib/log-masking.ts:39-55 | the nested loops collect the trimmed secret lines of the watched variables, in order |
| LogMasking.WatchedWhen | src/lib/log-masking.ts:41-45 | a variable is watched from four characters on when its name tells, otherwise from sixteen, unless its value is trivial |
| LogMasking.NamesThatTell | src/lib/log-masking.ts:10-11 | a name tells a secret exactly when, in any case of letters, a telling word stands in it, or `pass` at the end of a word |
| LogMasking.CollectedSecretsAre | src/lib/log-masking.ts:39-55 | a text is collected exactly when a watched variable has a line that is it, trimmed, long enough and not trivial |
| LogMasking.SecretLinesAre | src/lib/log-masking.ts:45-52 | of one value, exactly the trimmed lines long enough and not trivial |
| LogMasking.PatternMasks | src/lib/log-masking.ts:62-82 | replacing by the alternation sorted longest first is masking the longest secret at each place, so only the set of secrets matters |
| LogMasking.LogMasker.Mask | src/lib/log-masking.ts:77-82 | after any calls, with the cached pattern or a rebuilt one, the text is masked by the set of secrets |
| LogMasking.LogMasker.Rebuild | src/lib/log-masking.ts:62-74 | a clean pattern is the one that rebuilding gives |
| LogMasking.LogMasker.AddSecrets | src/lib/log-masking.ts:83-97 | the secret lines of all given values are registered and nothing else changes |
| LogMasking.AlwaysSecretsAre | src/lib/log-masking.ts:83-97 | what is registered by hand: the lines long enough and not trivial of all values, whatever the key |
| LogMasking.LogMasker.AddEnvVars | src/lib/log-masking.ts:98-105 | the collected secrets are registered and nothing else changes |
| LogMasking.NoSecretSurvives | src/lib/log-masking.ts:57-109 | no registered secret free of the mask character occurs anywhere in a masked text |
| LogMasking.MaskingIsIdempotent | src/lib/log-masking.ts:57-109 | when all secrets are free of it, masking twice is masking once |
| LogMasking.MaskLikeSecretIsMaskedAgain | src/lib/log-masking.ts:17-20 | that hypothesis cannot simply be dropped: a secret of four mask characters is masked again |
| LogMasking.OnlySecretsAreHidden | src/lib/log-masking.ts:57-109 | the text is kept characters and whole secrets, and only the secrets are replaced |
| EnvExampleKeys.AssignmentsAreMatched | src/lib/env-example-keys.ts:21 | the pattern matches exactly the lines written as name, `=` and value, and finds both |
| EnvExampleKeys.FindClosingQuote | src/lib/env-example-keys.ts:34-43 | the scanning loop computes the specified index |
| EnvExampleKeys.ClosingQuoteIsFirstUnescaped | src/lib/env-example-keys.ts:34-43 | which is the first quote behind an even number of backslashes, or -1 when there is none |
| EnvExampleKeys.SearchClose | src/lib/env-example-keys.ts:74-82 | the look-ahead that asks the memo first finds what always looking ahead finds, and keeps the memo right |
| EnvExampleKeys.ReadValue | src/lib/env-example-keys.ts:66-93 | the value and the line to go on from are those of the parser without a memo |
| EnvExampleKeys.ParseEnvExampleKeys | src/lib/env-example-keys.ts:50-100 | the same keys as without the memo, looking ahead over at most four lines for each line of the file |
| EnvExampleKeys.KeysAreFirstPlaceLastValue | src/lib/env-example-keys.ts:96-99 | each name once, where it first stood, with the last value it had |
| EnvExampleKeys.EntriesAreValid | src/lib/env-example-keys.ts:95-96 | only valid names are reported |
| EnvExampleKeys.LinesInsideAValueAreNotRead | src/lib/env-example-keys.ts:58-97 | after a closed multi-line value reading goes on behind it, otherwise on the next line |
| EnvExampleLines.LineEndsSplit | src/lib/env-example-keys.ts:53 | CRLF, CR and LF each end a line, and the text before and behind splits on its own |
| EnvExampleLines.LinesAreMatched | src/lib/env-example-keys.ts:21 | a line is matched exactly when it is an assignment, or `export`, white space and an assignment |
| EnvExampleLines.CommentsAreSkipped | src/lib/env-example-keys.ts:59-64 | of those, blank lines and comments are skipped and no others |
| EnvExampleLines.AssignmentsAreReported | src/lib/env-example-keys.ts:66-96 | an assignment is reported exactly when its name is `[A-Z][A-Z0-9_]*` of at most 255 characters, with a default exactly when something stands before the first `#`, or between the quotes, over however many lines |
| EnvExampleLines.EntriesAreReported | src/lib/env-example-keys.ts:58-97 | the entries are exactly what the lines read as a start report |
| Csv.ToCsv | src/lib/csv.ts:18-24 | the loop prints the header and every row, by column name, joined by CRLF |
| Csv.FieldReadsBack | src/lib/csv.ts:10-16 | a printed field is read back as the text shown and nothing after it is consumed |
| Csv.QuotedWhenNeeded | src/lib/csv.ts:10-16 | a field is printed in quotes exactly when it carries a comma, a quote, a CR or an LF |
| Csv.RowsReadBack | src/lib/csv.ts:26-29 | by section 2 of RFC 4180 the printed rows are read back, whatever the text in them |
| Csv.RowsReadBackExactly | src/lib/csv.ts:26-29 | cell by cell if and only if every row has a column |
| Csv.TableReadsBack | src/lib/csv.ts:18-24 | what `toCsv` prints is read back as the same rows if and only if the last is not one empty field |
| Csv.FieldsAreByColumn | src/lib/csv.ts:18-24 | read back, field j of a row shows the row's value of column j, and nothing where it has none |
| Csv.NoDecodedFieldStartsAFormula | src/lib/csv.ts:5-16 | no field of the printed rows, as read back, begins with a formula character |
| Csv.ShownTellsTextsApart | src/lib/csv.ts:11-16 | two texts are shown alike exactly when they are equal or one is the other behind the apostrophe |
| ProjectContainers.NamesOfAProject | src/lib/project-containers.ts:33-45 | the pattern of a slug without workers matches exactly the deployer's names for it |
| ProjectContainers.UnsafeSlugsAreRefused | src/lib/project-containers.ts:22-36 | only slugs of small letters, digits and dashes have a pattern |
| ProjectContainers.WhenNamesAreShared | src/lib/project-containers.ts:33-45 | two slugs share a name exactly when they are equal or one is the other with a stage, a slot, `-db` or a preview around it |
| ProjectContainers.WhenConflictMissesAName | src/lib/project-containers.ts:47-55 | without workers, `slugsConflict` misses a shared name exactly when a slot or a preview makes it |
| ProjectContainers.WhenConflictHasNoName | src/lib/project-containers.ts:47-55 | it reports slugs that share no name exactly when one spells a worker of the other; every `-staging`, `-db` and `-pr-N` conflict has a shared name |
| ProjectContainers.PlainSlugsShareOnlyWhenInConflict | src/lib/project-containers.ts:47-55 | for slugs without `preview-` in front or a colour suffix a shared name implies a conflict |
| ProjectContainers.ConflictIsSymmetric | src/lib/project-containers.ts:51-55 | the conflict is symmetric |
| WorkerContainers.NamesWithWorkers | src/lib/project-containers.ts:38-45 | with workers a project has the names it has without and those of its plainly named workers, in production and staging |
| WorkerContainers.WhenNamesAreSharedWithWorkers | src/lib/project-containers.ts:38-45 | for any worker lists, two slugs share a name exactly when they do without workers or one reaches, up to a cut, into a worker's name of the other |
| WorkerContainers.WhenConflictMissesANameWithWorkers | src/lib/project-containers.ts:38-55 | for any worker lists, `slugsConflict` misses a shared name exactly for a slot, a preview, or a slug that slips into a worker's name |
| WorkerContainers.WhenConflictHasNoNameWithWorkers | src/lib/project-containers.ts:38-55 | and reports slugs that share none exactly when one spells a worker and reaches into no worker the other has |
| WorkerContainers.SlotNameSlips | src/lib/project-containers.ts:38-55 | a worker `blue` is missed against the slug with `-worker` behind it |
| WorkerContainers.StagingNameSlips | src/lib/project-containers.ts:38-55 | a worker ending in `-blue` is missed in staging |
| WorkerContainers.PreviewNameSlips | src/lib/project-containers.ts:38-55 | a worker ending in `-pr-1` is missed behind `preview-` |
| WorkerContainers.WorkersAndConflicts | src/lib/project-containers.ts:38-55 | a worker's name is shared and in conflict with the slug that spells it; in staging it is shared without conflict |
| ProjectContainers.ReplicasBelong | src/lib/project-containers.ts:33-36 | every replica name of a slug is matched by the slug's pattern |
| RunSpec.ReplicaNamesReadBack | src/lib/run-spec.ts:45-59 | the index read from a replica's name is its index |
| RunSpec.NamesReadAreNamesGiven | src/lib/run-spec.ts:53-59 | a name with an index is that replica's name exactly when its number is at least 2 without a leading zero |
| CloudflareOrgDns.ZoneCandidates | src/lib/cloudflare-org-dns.ts:78-83 | the loop lists the domain and its parents, longest first |
| CloudflareOrgDns.CandidatesAreParents | src/lib/cloudflare-org-dns.ts:78-83 | a name is a candidate exactly when it is the domain or a parent of it and has a dot |
| CloudflareOrgDns.FindZone | src/lib/cloudflare-org-dns.ts:86-93 | the first candidate with a visible zone, or the error of the call that failed |
| CloudflareOrgDns.MostSpecificZone | src/lib/cloudflare-org-dns.ts:85-93 | which is the longest visible zone that contains the domain; none only when there is none |
| CloudflareOrgDns.CreateCustomDomainRecords | src/lib/cloudflare-org-dns.ts:113-146 | success means no record was in the way and exactly those for the addresses given were added; a conflict means one was, and like a missing zone or address changes nothing; only a failing call leaves a prefix |
| CloudflareOrgDns.PostedPointAt | src/lib/cloudflare-org-dns.ts:116-145 | what is posted: an A record exactly with the IPv4, an AAAA record exactly with the IPv6, at the name, proxied as asked, with Pushify's comment |
| CloudflareOrgDns.TakenIsInTheWay | src/lib/cloudflare-org-dns.ts:126-135 | a conflict is found exactly when a record of a kind whose address is given stands at the name |
| CloudflareOrgDns.DeleteCustomDomainRecords | src/lib/cloudflare-org-dns.ts:153-170 | the calls are the deletions of Pushify's records on the page, in order, up to the first that fails, and are counted |
| CloudflareOrgDns.SyncCustomDomainRecords | src/lib/cloudflare-org-dns.ts:186-237 | without an IPv4, a zone or a managed record nothing is touched; otherwise the planned calls are made up to the first that fails |
| ManagedRecords.CreateOnlyAdds | src/lib/cloudflare-org-dns.ts:137-145 | at every prefix of a create the old records stand and only Pushify's are behind them |
| ManagedRecords.DeleteTouchesOnlyManaged | src/lib/cloudflare-org-dns.ts:148-170 | at every prefix of a delete every other record is unchanged and in order |
| ManagedRecords.DeleteFate | src/lib/cloudflare-org-dns.ts:157-168 | a finished delete removes exactly Pushify's records on the page |
| ManagedRecords.SyncTouchesOnlyManaged | src/lib/cloudflare-org-dns.ts:178-237 | at every prefix of a sync every other record is unchanged and in order |
| ManagedRecords.SyncFate | src/lib/cloudflare-org-dns.ts:210-235 | a sync gives each managed record on the page the wanted address, keeping the rest of it, or removes it when there is none, and leaves all others |
| ManagedRecords.SyncCreates | src/lib/cloudflare-org-dns.ts:206-226 | a sync makes a record exactly for a wanted address of a kind that has none at a managed name, proxied as the first managed record |
| ManagedRecords.SyncedIffOffPageRight | src/lib/cloudflare-org-dns.ts:200-236 | after a sync all managed records are right exactly when those past the first twenty were |
| ManagedRecords.SyncedOnOnePage | src/lib/cloudflare-org-dns.ts:178-236 | with at most twenty records of a kind a finished sync leaves every managed record right |
| ManagedRecords.SecondSyncIsIdleExactly | src/lib/cloudflare-org-dns.ts:186-237 | a second sync to the same addresses changes nothing, exactly unless without an IPv6 managed AAAA records behind the first page moved up into it |
| ManagedRecords.SecondSyncIsIdle | src/lib/cloudflare-org-dns.ts:206-236 | with one page of records of each kind it changes nothing |
| ManagedRecords.CountersAreReal | src/lib/cloudflare-org-dns.ts:190-236 | the counters are the numbers of records really changed, made and removed |
| ManagedRecords.DeletedAreGone | src/lib/cloudflare-org-dns.ts:157-169 | the number a finished delete returns is the number of records that are gone |
| ManagedRecords.CreateThenDeleteRestores | src/lib/cloudflare-org-dns.ts:113-170 | where the name had no managed record in its zone, create and then delete restores it if and only if the domain has no trailing dot |
| ManagedRecords.DottedDomainLeavesRecord | src/lib/cloudflare-org-dns.ts:113-170 | the domain of any zone with a trailing dot leaves its record behind |
| ComposeBuildCache.CanonicalIsIdempotent | src/lib/compose-build-cache.ts:107-118 | sorting keys again changes nothing |
| ComposeBuildCache.CanonicalIdentifies | src/lib/compose-build-cache.ts:107-118 | two trees become the same exactly when they differ only in the order of keys |
| ComposeBuildCache.ComposeBuildInputsHash | src/lib/compose-build-cache.ts:77-105 | the loop over the sorted services gives the specified hash, and none when something is missing or a build names secrets |
| ComposeBuildCache.SectionIsRead | src/lib/compose-build-cache.ts:93-99 | of a service with a build, the build, the image and the platform are read, null where missing |
| ComposeBuildCache.HashIsKnownWhen | src/lib/compose-build-cache.ts:77-98 | the hash is known exactly for a commit of 40 or 64 hexadecimal digits, services that are an object and builds without secrets |
| ComposeBuildCache.HashesAgree | src/lib/compose-build-cache.ts:68-105 | two hashes agree exactly when the key, the commit, the compose text and every service's build, image and platform do, up to key order |
| ComposeBuildCache.SameImagesIsEquality | src/lib/compose-build-cache.ts:63-66 | comparing one way and the counts is equality of the maps |
| ComposeBuildCache.SkipsExactlyWhen | src/lib/compose-build-cache.ts:30-61 | for any previous deploy or none: the build is skipped exactly when it is not forced, that deploy succeeded and recorded its inputs and images, and commit, hash and images are known and the same |
| ComposeBuildCache.SkipsExactlyWhenUnchanged | src/lib/compose-build-cache.ts:30-61 | the build is skipped exactly when nobody forces it, the last deploy succeeded, and commit, inputs and images are those it recorded |
| ComposeBuildCache.SecretsAlwaysBuild | src/lib/compose-build-cache.ts:97-98 | a configuration whose build names secrets is always built |
| ComposeProject.FirstPort | src/lib/compose-project.ts:103-110 | the first entry of a list of ports that has a container port |
| ComposeProject.FirstPortIsFirst | src/lib/compose-project.ts:103-110 | which is the first entry with a port, and none only when no entry has one |
| ComposeProject.PortTextIsRead | src/lib/compose-project.ts:31-48 | in a text the number past the last colon and before the protocol is the port, when it is one of 1 to 65535 |
| ComposeProject.BarePortIsRead | src/lib/compose-project.ts:40-48 | without a colon the number before the protocol is the port |
| ComposeProject.DigitsInFrontAreRead | src/lib/compose-project.ts:46 | of a number with more text behind, the digits in front and their sign are read |
| ComposeProject.RangeIsNoPort | src/lib/compose-project.ts:44-45 | a range in its place is no port |
| ComposeProject.TargetIsRead | src/lib/compose-project.ts:34-38 | a target, as a number or its text, is the port, whatever its range |
| ComposeProject.OtherEntriesAreRead | src/lib/compose-project.ts:31-39 | a whole number is a port, and a list, a truth value or an object without a target none |
| ComposeProject.OtherTargetsAreNone | src/lib/compose-project.ts:34-38 | a target that is a fraction, a truth value, an object or an empty list is none |
| ComposeProject.ListTargetsAreRead | src/lib/compose-project.ts:34-38 | a target that is a list is read as its first item, a number up to its decimal point |
| ComposeProject.PublishedPortReadsBack | src/lib/compose-project.ts:32-48 | the port Pushify prints is read back exactly when it is one of 1 to 65535, whatever the bind address |
| ComposeProject.PublishedPortParts | src/lib/compose-project.ts:130-136 | the published port is the bind address when one is given, the host's port and the container's |
| ComposeProject.RenderDeployableCompose | src/lib/compose-project.ts:125-146 | the services are rewritten in place, in order, with the dropped names; setting a property on a value that is no object throws |
| ComposeProject.RewritingChangesOnlyPorts | src/lib/compose-project.ts:130-143 | every service keeps its place and all fields but its ports; only the chosen one publishes |
| ComposeProject.DroppedLostTheirPorts | src/lib/compose-project.ts:139-142 | a name is dropped exactly when its service had a list of ports and has none now |
| ComposeProject.PublishingAfter | src/lib/compose-project.ts:125-146 | after the rewriting the chosen service publishes its port and nothing else does |
| ComposeProject.PlanFindsThePublisher | src/lib/compose-project.ts:50-101 | without a named service there is a plan exactly when one service alone publishes a port, and it is that service at that port |
| ComposeProject.NamedServiceIsPlanned | src/lib/compose-project.ts:70-82 | a named service that is there is planned at the port set or its first, and refused when that is missing or 0 |
| ComposeProject.RefusedPlans | src/lib/compose-project.ts:55-75 | invalid YAML, no services and an unknown service are refused, the last with the names there are |
| ComposeProject.NonePublishes | src/lib/compose-project.ts:84-94 | a file in which no service publishes is refused with all names |
| ComposeProject.SeveralServicesPublish | src/lib/compose-project.ts:84-100 | one in which several do, with the names of exactly those |
| ComposeProject.PlannedService | src/lib/compose-project.ts:55-101 | the service of a plan is one of the file's |
| ComposeProject.ReplanningIsStable | src/lib/compose-project.ts:55-146 | planning the rewritten file gives the same service and port exactly when the port is in 1 to 65535 and the service is an object |
| AppHealth.DownGoesTogether | src/lib/app-health.ts:106-150 | in every reachable state being down, having a start and having been told go together |
| AppHealth.NoticesAreOutages | src/lib/app-health.ts:79-150 | the notices of any run are outages of `down`, at most two reminders and `up`, the last perhaps open |
| AppHealth.DownAtTheThreshold | src/lib/app-health.ts:121-123 | with one threshold a project is down exactly while the last failures in a row reach it, counted from the one that did |
| AppHealth.UpOnceAnswered | src/lib/app-health.ts:112-142 | a project that is not down is up exactly when it ever answered |
| AppHealth.NotifiedAtLastNotice | src/lib/app-health.ts:139-146 | an outage keeps the time of the last notice sent |
| AppHealth.SentExactly | src/lib/app-health.ts:112-131 | `down` is sent exactly at the T-th failure in a row, `up` exactly at the success that ends such a streak |
| AppHealth.ReminderIsDue | src/lib/app-health.ts:83-87 | a reminder that raises the step to k comes only once the outage is as old as the k-th bound |
| AppHealth.ReminderExactly | src/lib/app-health.ts:130-138 | in any run a reminder is sent exactly when the step rises, which is when a confirmed outage has passed a bound not yet covered |
| AppHealth.StepIsWhatIsDue | src/lib/app-health.ts:124-138 | with one threshold and a clock that goes on, the step is always the number of bounds passed |
| AppHealth.ReminderAtEachBound | src/lib/app-health.ts:79-138 | with one threshold and a clock that goes on, exactly at the first failure past each bound |
| ResourceAlerts.StateTracksEpisode | src/lib/resource-alerts.ts:77-113 | the state is the start of the episode under way and the moment it was told |
| ResourceAlerts.PressureExactly | src/lib/resource-alerts.ts:86-95 | `pressure` is sent exactly at the first reading over the line that is long enough after the start of its episode |
| ResourceAlerts.PressureIsSustained | src/lib/resource-alerts.ts:86-95 | at a `pressure` no reading since the start has cleared and the start is at least `sustainMs` ago |
| ResourceAlerts.ClearedBetweenPressures | src/lib/resource-alerts.ts:97-113 | between two `pressure` notices some reading cleared |
| ResourceAlerts.EveryPressureEndsOnce | src/lib/resource-alerts.ts:103-113 | the first cleared reading ends a `pressure` with one `recovered`, or silently when stale, and nothing is sent in between |
| ResourceAlerts.RecoveredAnswersPressure | src/lib/resource-alerts.ts:103-113 | `recovered` only follows a `pressure` that nothing has cleared since |
| ResourceAlerts.WorstSample | src/lib/resource-alerts.ts:119-126 | the first of the highest finite samples; none only when there is no finite one |
| Autoscale.PolicyForIsResolved | src/lib/autoscale.ts:111-118 | the bounds of a project's policy are already what a decision makes of them |
| Autoscale.DecisionsAnswerTheLoad | src/lib/autoscale.ts:85-105 | within the bounds a container is added or removed exactly when enough readings average past the line, there is room and the cooldown is over |
| Autoscale.BackIntoBounds | src/lib/autoscale.ts:69-84 | out of them the count is brought back at once, whatever the load |
| Autoscale.BoundsAreNearest | src/lib/autoscale.ts:69-75 | the bounds are the nearest whole numbers, at least 1 and in order |
| Autoscale.BoundsAreKept | src/lib/autoscale.ts:69-108 | a count out of bounds is fixed by the first decision; from then on it stays in bounds and moves by at most one |
| Autoscale.BetweenTheLinesNothingChanges | src/lib/autoscale.ts:85-107 | a run whose load stays between the lines, or is not known well enough, never changes the count |
| Autoscale.ChangesAreApart | src/lib/autoscale.ts:87-105 | a container is added or removed no sooner than its cooldown after any change before |
| Autoscale.ChangesAreFew | src/lib/autoscale.ts:87-105 | a stretch of time W holds at most W over the shorter cooldown, plus one, changes |
| Autoscale.BusyReachesTheMaximum | src/lib/autoscale.ts:89-96 | looks a cooldown apart at a busy project add one each up to the maximum |
| Autoscale.IdleReachesTheMinimum | src/lib/autoscale.ts:98-105 | looks a cooldown apart at an idle project remove one each down to the minimum |

## Left out

- Dates have no range: the limit of ±8.64e15 milliseconds and invalid dates are not modelled.
- Doubles are exact rationals or unbounded integers; NaN and infinities appear only where the code asks for finite numbers.
- Texts are sequences of Unicode scalar values, not UTF-16 units; `toLowerCase` covers the letters of ASCII.
- YAML and JSON parsing and printing: documents are parsed trees, and printing a canonical tree is taken as injective.
- Cryptography: a sealed approval is opened again by a reader with the same secret, and a keyed hash keeps its key and message.
- Redis failures that move a slot from Redis to memory halfway: each run uses one back end. Failed commands are modelled for leases only.
- The Drizzle queries of `project-containers.ts`, `verifyCloudflareToken`, `maskToken`, e-mails, logs and message texts of errors.
- Names in a zone are compared as texts: an API that itself drops a trailing dot is not modelled.
- CloudflareOrgDns.DeleteCustomDomainRecords: identifiers of records are distinct in the account, as the API promises.
- ComposeProject.FirstPort: a number inside `target` is read up to its decimal point, so numbers printed with an exponent are not modelled.
- ComposeProject.ReplanningIsStable: only for bind addresses without a slash, which cannot be part of an address.
- ComposeProject.PlannedService: names that every JavaScript object inherits, such as `constructor`, count as absent.
- LogMasking.PatternMasks: the regular expression is a list of literal alternatives; escaping them is not modelled.
- Autoscale.ChangesAreFew: every decision is taken to be carried out at once; a failed or slow change of the containers is not modelled.
