# Proofs about fingermouse

A model of the parts of fingermouse that carry state, protocol or hand-written parsing, and proofs of what they promise.
Every statement is for all inputs, all runs or all interleavings; nothing is bounded.

| files | what they model |
|---|---|
| `RateWindow`, `RateLimiter`, `RateRuns` | the per-address rate limiter: one check as a relation, the limiter object that performs it, and theorems about whole runs of checks |
| `RateTightness` | runs that reach the burst bound for every number of evictions |
| `RateThreads`, `RateStalls` | the same check as a protocol of many connection tasks over one shared table, in every interleaving, and what a task that stalls adds to the burst bound |
| `RateStallTightness` | interleavings that reach that bound, and exactly when the sequential one survives |
| `Text` | the string operations of Rust's standard library that the readers use |
| `Shell`, `Flags`, `Make`, `Recipes` | the readers of `make -n` output: the quote-aware command splitter, the flag normaliser, the assignment reader, the verdict on targets |
| `MakeVerdicts` | what one command reads as, for every command, stated apart from the functions that read it |
| `Config`, `ConfigComments`, `CiSteps` | the reader of `rustflags` sources in a Cargo configuration, where a comment is part of its meaning, and the slicer of workflow steps |
| `Identity`, `Query` | user and host names, and the query line parser with its grammar |
| `Spelling` | merging spelling dictionaries and expanding them into corrections |
| `Framing`, `Profile` | CRLF framing, UTF-8 encoding and the rendered profile |

Where the source updates something step by step, a method does, and is proved against a function or relation; the laws are
then proved about that function or relation. Errors are datatypes, one constructor for each error the source can raise.

Facts about the code that its own text does not say:

- `README.md` of the repository calls the limiter's window sliding. The code restarts a window at the first request after it
  runs out, so a client can be admitted one less than twice the limit inside one window length, and a limit more for each
  eviction; `RateRuns.BurstBound` and `RateTightness.EvictionBoundIsReached` say so exactly. A sliding bound holds only
  for a limit of at most one or a window of at most one nanosecond: `RateRuns.SlidingBoundExactly`.
- Tasks that run at once can exceed even that. A locked step is late when it comes after the table was pruned or entered
  by a later reading; each late step may add the limit less one, or one for a limit of one. `RateStalls.StalledBurstBound`
  gives the bound for every interleaving, `RateStallTightness.StalledBoundIsReached` reaches it for every number of late
  steps. The sequential bound survives every interleaving only for an empty window
  (`RateStallTightness.OnlyEmptyWindowsKeepTheBound`); `RateStallTightness.SurvivingLateStepsExactly` says how many late
  steps it takes to break it.
- The one-second fallback of a refusal (src/rate_limit.rs:107) is unreachable: `RateRuns.RefusalsLeaveTime`.
- Evicting a client can later refuse it when a table without eviction would not (`RateRuns.EvictionCanRefuseLater`). An
  eviction is felt exactly when the client comes back before its lost window would have run out:
  `RateRuns.EvictionsAreFeltExactlyWhenEarly`.
- A refusal promises more than a window exactly when the clock reading is behind the client's window:
  `RateRuns.PromisesFitTheWindow`.
- After a line of a Cargo configuration that leaves a quote open, a trailing `#` is not a comment to the reader: after
  `rustflags = ] "a`, an appended ` #` changes the word read from `a` to `a #`. `ConfigComments.CommentsAreSafeExactly`
  gives the exact condition, `ConfigComments.UnclosedWordTakesTheComment` the inputs.
- A query without a host prints as `user@<default>`, which does not parse: `Query.QueriesWithAHostRoundTrip`.
- `Flags::from_words` and its test reference `joined_pairs` differ when a `-C` is followed by an empty word and more words:
  `Flags.JoinedMeetsTheReference` gives the exact condition, `Flags.EmptyValueDisagrees` the smallest input.
- An attribute key that holds a CRLF adds a line to the response: `Profile.ResponsesAreFramedExactly` gives the exact
  condition, `Profile.CrlfInAKeyAddsLines` what then happens.

## Model

| member | source | states |
|---|---|---|
| RateWindow.PrunedAre | src/rate_limit.rs:119-122 | Pruning keeps exactly the entries whose window opened at most one window length ago, unchanged |
| RateWindow.StepOn | src/rate_limit.rs:88-141 | Whoever is checked, a client's entry after the check is the one the locked step leaves if it is that client's check, the pruned one otherwise, and nothing if it was evicted; a check never evicts its own client |
| RateWindow.CheckKeepsCapacity | src/rate_limit.rs:124-141 | If the table fits before a check it fits after it, the checked client stays, and an eviction leaves the table exactly full |
| RateWindow.RunKeepsCapacity | src/rate_limit.rs:88-141 | In every run from the empty table, the table never exceeds its room and always holds the client last checked |
| RateLimiter.RateLimiter.WithClock | src/rate_limit.rs:63-81 | A new limiter is empty and has room for at least one entry |
| RateLimiter.RateLimiter.Check | src/rate_limit.rs:88-117 | The object's table, before and after, and the answer returned are one check of the relation; the history grows by exactly that check; the table fits and holds the client |
| RateLimiter.RateLimiter.PruneStale | src/rate_limit.rs:119-122 | Exactly the entries opened at or after the cutoff remain |
| RateLimiter.RateLimiter.Record | src/rate_limit.rs:91-113 | The locked block opens, restarts, counts or refuses one entry and touches no other |
| RateLimiter.RateLimiter.EnforceCapacity | src/rate_limit.rs:124-141 | The loop ends with the table down to its room, the protected entry kept, everything kept unchanged, nothing dropped newer than what is kept, and nothing dropped without need |
| RateLimiter.RateLimiter.OldestKeyExcluding | src/rate_limit.rs:143-160 | The scan finds an entry with the oldest window among all but the excluded one, or none when there is no other |
| RateLimiter.TheEvent | src/rate_limit.rs:124-141 | Enforcing capacity after the locked step evicts at most one entry, an oldest other one: the whole method is one check of the relation |
| RateRuns.EntriesAreSound | src/rate_limit.rs:88-122 | On a clock that never steps back, every stored count is between one and the limit and every window was opened by then |
| RateRuns.BurstBound | src/rate_limit.rs:88-141 | Inside any half-open interval one window long, a client is admitted fewer than limit × (2 + its evictions there) times |
| RateRuns.NoLimitNoAdmission | src/rate_limit.rs:102-109 | A limit of zero admits nobody |
| RateRuns.BurstBoundIsReached | src/rate_limit.rs:97-100 | For all settings with a window of two nanoseconds or more, a run without eviction admits 2 × limit − 1 requests inside one window length |
| RateRuns.InstantBound | src/rate_limit.rs:97-100 | With a window of one nanosecond every instant admits a client at most the limit, and the limit once more for each eviction in it |
| RateRuns.SlidingBoundExactly | src/rate_limit.rs:88-141 | Every run keeps the limit in every window length without eviction if and only if the limit is at most one or the window at most one nanosecond |
| RateTightness.EvictionBoundIsReached | src/rate_limit.rs:88-141 | For all settings with a window of two nanoseconds or more and every number of evictions, some run admits a client inside one window length exactly as often as the burst bound allows |
| RateRuns.RefusalsLeaveTime | src/rate_limit.rs:97-108 | On any clock a refusal's remaining time is not negative, so the fallback is unreachable, and it is zero only for a limit and a window of zero with no stored window ahead of the clock |
| RateRuns.PromisesFitTheWindow | src/rate_limit.rs:97-109 | On any clock and any table a refusal promises at most a window if and only if its reading is not behind the window stored for that client |
| RateRuns.LongPromisesTakeABackwardsClock | src/rate_limit.rs:88-109 | In a run, a promise longer than a window takes an earlier check of that client that read the clock later |
| RateRuns.BackwardsClockOverstatesRetry | src/rate_limit.rs:103-108 | The witness: a run in which a check at 5 is admitted and one at 0 is told to wait 15 of a window of 10 |
| RateRuns.RefusalFillsTheWindow | src/rate_limit.rs:102-109 | On a clock that never steps back a refusal promises more than nothing and at most a window, and leaves a full entry until then |
| RateRuns.FullWindowStays | src/rate_limit.rs:88-122 | That entry stays full until its time, whoever else is checked, unless it is evicted |
| RateRuns.RefusalsAreExact | src/rate_limit.rs:97-112 | Without eviction, each later check of a refused client is refused before the promised time, and the first at or after it is admitted |
| RateRuns.UnevictedClientsAreIsolated | src/rate_limit.rs:88-127 | A client never evicted gets, refusal times included, the answers of a single start-and-count counter fed only its own check times |
| RateRuns.StoredWindowsWereOpened | src/rate_limit.rs:92-100 | Every stored window was opened by an earlier check of that client at that time |
| RateRuns.FewClientsEvictNobody | src/rate_limit.rs:119-141 | A check evicts nobody when the distinct clients seen in the closed window before it fit the table |
| RateRuns.FewClientsAreIsolated | src/rate_limit.rs:88-141 | When that holds at each check, nobody is ever evicted and every client's answers are those of its own counter |
| RateRuns.LostWindowIsMissed | src/rate_limit.rs:91-113 | For every entry a client can lose, a check that finds nothing gives the answer and entry its counter gives if and only if the lost window has run out |
| RateRuns.EvictionsAreFeltExactlyWhenEarly | src/rate_limit.rs:88-141 | On a clock that never steps back, every check of a client gives the answer and leaves the entry of its own counter if and only if each of its checks after an eviction of it comes when the lost window would have run out; its answers are then the counter's |
| RateRuns.EvictionCanRefuseLater | src/rate_limit.rs:124-141 | A witness that an early return can be worse than no eviction: the evicted client is later refused at a time when its own counter would admit it |
| RateThreads.StepKeepsSafe | src/rate_limit.rs:88-141 | Every atomic step of every task keeps the invariant on capacity, victims, counts and admissions |
| RateThreads.ExecutionsAreSafe | src/rate_limit.rs:88-141 | The invariant holds in every state of every execution |
| RateThreads.CapacityInEveryInterleaving | src/rate_limit.rs:91-141 | The table exceeds its room by at most the tasks between their locked step and the end of their eviction loop, and not at all when there are none |
| RateThreads.CapacityBoundIsReached | src/rate_limit.rs:91-141 | For all settings and every number of tasks, some execution has that many tasks in flight and exceeds the room by that many entries |
| RateThreads.TasksSpareTheirOwnEntry | src/rate_limit.rs:131-138 | In no interleaving does a task's eviction loop remove the task's own client |
| RateThreads.VictimsAreOldest | src/rate_limit.rs:131-160 | A task only ever sets out to drop another's entry, with the oldest window of all others |
| RateThreads.AdmissionsAreConserved | src/rate_limit.rs:91-122 | In every interleaving, admissions equal live counts plus counts discarded by resets, prunes and evictions, and no count passes the limit, so the counter never overflows |
| RateThreads.StepSpends | src/rate_limit.rs:88-141 | Each step uses up a pending insert, shrinks the table, or brings its task nearer the end, also when another task has already removed the victim |
| RateThreads.StepLowersPotential | src/rate_limit.rs:124-141 | Each step lowers one natural number computed from pending inserts, table size and task phases |
| RateThreads.StepsAreBounded | src/rate_limit.rs:124-141 | However the steps of finitely many checks are mixed, there are no more of them than that number: eviction terminates in every interleaving |
| RateThreads.ChecksEndInQuadraticTime | src/rate_limit.rs:88-141 | m checks on an empty table end within 10m² + 4m steps in any order |
| RateThreads.UnfinishedTasksCanStep | src/rate_limit.rs:88-141 | A task that is not done can always take a step: no check waits for another |
| RateThreads.UninterruptedChecksAreSequential | src/rate_limit.rs:88-141 | A check whose steps no other task interrupts is exactly one check of the sequential relation |
| RateStalls.TraceOfExecution | src/rate_limit.rs:88-141 | Every execution is a trace of named steps |
| RateStalls.TraceIsExecution | src/rate_limit.rs:88-141 | Every such trace is an execution |
| RateStalls.StalledBurstBound | src/rate_limit.rs:88-141 | In every interleaving a client is admitted, at readings inside one window length, fewer than limit × (2 + its evictions) times plus, for each of its late locked steps, the limit less one (one for a limit of one) |
| RateStalls.StalledInstantBound | src/rate_limit.rs:88-141 | With a window of one nanosecond an instant admits a client, in every interleaving, at most limit × (1 + its evictions) + its late locked steps times |
| RateStalls.PromptBurstBound | src/rate_limit.rs:88-141 | The sequential burst bound survives every interleaving in which none of the client's locked steps is late |
| RateStalls.PromptClientsAreIsolated | src/rate_limit.rs:88-141 | In every interleaving, a client that is never evicted and none of whose locked steps is late gets, in their order and refusal times included, the answers of a counter fed only its own readings |
| RateStallTightness.LateStepsAddUp | src/rate_limit.rs:88-122 | For every limit, every window that is not empty and every number of late steps, an interleaving without eviction on a clock that never steps back admits a client that much oftener than prompt checks can |
| RateStallTightness.StalledTaskBreaksTheBound | src/rate_limit.rs:88-122 | For every limit and every window of two nanoseconds or more, one late step admits a client twice the limit inside one window length |
| RateStallTightness.OnlyEmptyWindowsKeepTheBound | src/rate_limit.rs:88-141 | Every interleaving keeps the sequential burst bound if and only if the window is empty; the same on a clock that never steps back |
| RateStallTightness.SurvivingLateStepsExactly | src/rate_limit.rs:88-141 | Every interleaving with at most a given number of late steps keeps the sequential burst bound if and only if that number is zero, the window is empty, or the window is one nanosecond and the number below the limit |
| RateStallTightness.StalledBoundIsReached | src/rate_limit.rs:88-122 | For every limit and every number of late steps, with a window of two nanoseconds for each and two more, an interleaving without eviction admits a client inside one window length exactly as often as the bound with late steps allows |
| Shell.ShellCommands | tests/build_standard_support/shell.rs:48-79 | The splitting loop computes the split |
| Shell.CommandsAreTheOnlyReading | tests/build_standard_support/shell.rs:48-79 | For every line whatever, the commands and the dropped separators are the one and only way to cut the line into commands that fit before their separators; interleaved they rebuild it |
| Shell.PiecesAreWhole | tests/build_standard_support/shell.rs:48-79 | Splitting any piece again returns just that piece |
| Shell.QuotedTextIsOneCommand | tests/build_standard_support/shell.rs:60-68 | What either quote mark encloses belongs to one command, separators included |
| Shell.ClosedFits | tests/build_standard_support/shell.rs:69-75 | Closed commands are exactly those that fit before every separator |
| Shell.SplitUndoesJoin | tests/build_standard_support/shell.rs:41-79 | Commands that fit before the separators after them come back exactly; the last may also leave a quote open, dangle a backslash or end in a bare `&` |
| Shell.WithoutLeadingKeywords | tests/build_standard_support/shell.rs:82-95 | The stripping loop computes the stripped command |
| Shell.LeadsAreStripped | tests/build_standard_support/shell.rs:82-95 | Whatever keywords lead a command, with whatever white space, stripping leaves what stripping the command leaves |
| Shell.UnledCommandsStay | tests/build_standard_support/shell.rs:82-95 | A command led by none of the ten keywords stays as it is, and so does a word that nothing follows |
| Shell.LedFits | tests/build_standard_support/shell.rs:48-95 | Leading keywords never change before which separators a command fits, or whether it is cut |
| Flags.FromWords | tests/build_standard_support/config.rs:167-176 | The loop computes the normal form |
| Flags.JoinedIsIdempotent | tests/build_standard_support/config.rs:156-176 | Normalising twice is normalising once, on all lists |
| Flags.JoinedDistributes | tests/build_standard_support/config.rs:167-176 | Normalising distributes over concatenation exactly when the left part leaves no `-C` pending or nothing follows |
| Flags.FusingPairsChangesNothing | tests/build_standard_support/config.rs:161-176 | Writing `-C v` as one word changes nothing wherever that `-C` is not itself a value |
| Flags.JoinedMeetsTheReference | tests/build_standard_support/exhaustive.rs:137-148 | Normaliser and reference agree exactly on the lists where no `-C` takes an empty value that more words follow; so on all lists of non-empty words |
| Flags.EmptyValueDisagrees | tests/build_standard_support/exhaustive.rs:137-148 | The smallest lists on which they differ: a `-C`, an empty word and any other |
| Make.ChainedCommandsAreReadOneByOne | tests/build_standard_support/make.rs:109-127 | Reading a chained line is reading each command on its own, in order, first error winning, whatever separators join them, whatever keywords lead them and however the last one ends |
| Make.LeadsDoNotMatter | tests/build_standard_support/make.rs:112-119 | Leading keywords never change the verdict on a command, blank commands included |
| Make.ContinuedLinesAreOne | tests/build_standard_support/make.rs:110-112 | A trailing backslash and line feed read as a space, wherever they stand |
| Make.LinesAreReadOneByOne | tests/build_standard_support/make.rs:109-127 | The output of any number of lines is read line by line, without their carriage returns |
| Make.ChainsInOrder | tests/build_standard_support/make.rs:112-127 | Readings are gathered in order, and the first error is the one reported |
| MakeVerdicts.ReadsTheQuotedValue | tests/build_standard_support/make.rs:70-101 | The assigned value is the text between the first quotes after the first `RUSTFLAGS="`: refused exactly when something touches an expansion without separator anywhere in it; otherwise its flags are its words with both expansions read as spaces, normalised, and it inherits exactly when it holds one |
| MakeVerdicts.CompilesIs | tests/build_standard_support/shell.rs:21-44 | A command compiles exactly when it is no version probe and runs Whitaker, or a Cargo whose first word that is no option is none of the ten inspections; either tool by any path |
| MakeVerdicts.SilentCommandsAddNothing | tests/build_standard_support/make.rs:115-118 | Messages, tool probes and commands that name neither tool add nothing |
| MakeVerdicts.BareCommandsAreThoseThatBuild | tests/build_standard_support/make.rs:112-125 | A command that assigns nothing is bare exactly when it compiles, and unassigned otherwise |
| MakeVerdicts.AssigningCommandsAreRead | tests/build_standard_support/make.rs:112-138 | A command that assigns in quotes is that assignment, except Whitaker behind the one isolating assignment, which is none; it fails exactly for a touched expansion |
| MakeVerdicts.BrokenAssignmentsFail | tests/build_standard_support/make.rs:70-79 | An assignment without its opening quote fails as unreadable, one without its closing quote as unterminated |
| Make.PlainAssignment | tests/build_standard_support/make.rs:70-101 | Without either expansion, other dollar signs or not, the flags are the words, normalised, and the caller's are dropped |
| Make.PrependedAssignment | tests/build_standard_support/make.rs:80-101 | The separating expansion keeps the caller's flags and adds no flag of its own |
| Make.FallbackAssignment | tests/build_standard_support/make.rs:80-101 | The expansion without separator is refused exactly when the next flag touches it |
| Recipes.DevelopmentProblems | tests/build_standard_support/make.rs:222-243 | The loop over the development targets gathers every target's problems and counts, or stops at the first failure |
| Recipes.HeldOutProblems | tests/build_standard_support/make.rs:281-283 | The same for the held-out targets |
| Recipes.HeldOutProblemsFor | tests/build_standard_support/make.rs:291-317 | The same for any list of held-out targets |
| Recipes.TogetherIsClean | tests/build_standard_support/make.rs:222-243 | Many targets raise nothing exactly when each raises nothing, and fail exactly when one fails |
| Recipes.TogetherConcat | tests/build_standard_support/make.rs:222-243 | What targets raise and count together is what some raise and count, then what the others do |
| Recipes.TogetherInOrder | tests/build_standard_support/make.rs:222-243 | Without a failure the problems of all targets are gathered in order and their counts added |
| Recipes.FirstFailureWins | tests/build_standard_support/make.rs:222-243 | The first failure is the one reported |
| Recipes.DevelopmentIsTheStandard | tests/build_standard_support/make.rs:177-243 | No failure and no complaint exactly when every target is defined and readable, every command either takes no flags or keeps the caller's and names the frontend flag iff the pin is nightly and the linker iff the host is Linux, and the test target keeps denying warnings somewhere |
| Recipes.DevelopmentProblemsAreDue | tests/build_standard_support/make.rs:177-243 | Each complaint about the development targets is raised exactly when it is due to a command of its own target, or to the tests' policy |
| Recipes.PolicyComesLast | tests/build_standard_support/make.rs:230-240 | Complaints follow the order of the commands, the one about the policy last |
| Recipes.OutcomesCount | tests/build_standard_support/make.rs:230-234 | A development target counts its assignments, a held-out one all its commands |
| Recipes.HeldOutIsTheStandard | tests/build_standard_support/make.rs:247-317 | No failure and no complaint exactly when every target assigns somewhere, leaves no build bare, keeps both standard flags out, and a release keeps the caller's flags |
| Recipes.HeldOutProblemsAreDue | tests/build_standard_support/make.rs:247-317 | Each complaint about the held-out targets is raised exactly when it is due, and names its own target |
| Recipes.HeldOutFaultsInOrder | tests/build_standard_support/make.rs:247-277 | A held-out command is told of the frontend flag, then of the linker, then of the caller's flags |
| Recipes.ChainedRecipesAreJudgedOneByOne | tests/build_standard_support/make.rs:177-196 | The complaints about a chained recipe are those about each command on its own, in order |
| Config.WithoutComment | tests/build_standard_support/config.rs:269-280 | The loop cuts at the first `#` outside quotes |
| Config.Sources | tests/build_standard_support/config.rs:314-332 | The loop finds every source under its table, or the first error |
| Config.DedupShort | tests/build_standard_support/config.rs:361-368 | Dropping equal neighbours leaves at most one list exactly when all are equal |
| Config.DriftIsAnyDifference | tests/build_standard_support/config.rs:361-368 | Drift is reported exactly when two sources, however far apart, differ once the linker flag is skipped on either side |
| Flags.SameButLinkerIs | tests/build_standard_support/config.rs:201-203 | Stripped lists are equal exactly when the lists are the same with linker flags skipped on either side |
| Flags.WithoutLinkerOf | tests/build_standard_support/config.rs:201-203 | Stripping leaves no linker flag, changes nothing else, and leaves a list without one alone |
| Flags.LinkersAreInvisible | tests/build_standard_support/config.rs:201-203 | The linker flag makes no difference wherever it is added |
| Flags.DeniesWarningsIs | tests/build_standard_support/config.rs:182-186 | Warnings are denied exactly by `-Dwarnings`, or by `-D` with `warnings` right after it, anywhere in the list |
| Config.ProblemsAreDue | tests/build_standard_support/config.rs:336-385 | Each complaint, with what it names, is raised exactly when it is due |
| Config.ProblemsAreRanked | tests/build_standard_support/config.rs:379-385 | What is missing comes first, then what is wrong with each source, then drift |
| Config.DeclaredSourcesAreClean | tests/build_standard_contract.rs:285-290 | The repository's own sources raise nothing |
| Config.OneMoreFlagIsDrift | tests/build_standard_support/config.rs:361-368 | One more flag in one of them is drift |
| Config.VerdictIsTheStandard | tests/build_standard_support/config.rs:336-385 | Any number of sources raise nothing exactly when they meet the declared standard |
| Config.ConfigVerdictIsTheStandard | tests/build_standard_support/config.rs:379-385 | A file raises nothing exactly when it is readable and its sources meet the standard |
| Config.DecorationChangesNothing | tests/build_standard_support/exhaustive.rs:193-258 | Indentation and meaningless lines, added anywhere in a file of any length, and comments after lines that take them, never change the result, errors included |
| ConfigComments.CommentsAreSafeExactly | tests/build_standard_support/config.rs:269-311 | No comment after a line changes its reading if and only if the line leaves no quote open or reads as nothing |
| ConfigComments.UnclosedWordTakesTheComment | tests/build_standard_support/config.rs:263-311 | After `rustflags = ]`, a quote and any unclosed word, a comment is read as part of the word |
| Config.BlanksAndCommentsAreNoise | tests/build_standard_support/config.rs:269-332 | Blank lines and comment lines are meaningless |
| Config.LookalikeKeysAreNoise | tests/build_standard_support/config.rs:301-306 | Keys that only begin like `rustflags` are meaningless |
| Config.FlagLinesInAnySpelling | tests/build_standard_support/config.rs:263-311 | A line that assigns quoted words gives back exactly those words, normalised, however it is spaced; a `#` in them starts no comment |
| Config.OpenArraysAreRefused | tests/build_standard_support/config.rs:307-309 | An array not closed on its line is refused |
| Config.FlagLineIsRead | tests/build_standard_support/config.rs:292-311 | A written flag line reads back as its words, normalised, whatever they contain but a quote |
| Config.TableLineIsRead | tests/build_standard_support/config.rs:294-300 | A written table line reads back as its name |
| Config.TableLinesInAnyShape | tests/build_standard_support/config.rs:294-300 | So does one with any number of brackets on either side and white space around the name |
| Config.SectionsAreRead | tests/build_standard_support/config.rs:314-332 | Written sections of any number read back as their sources |
| Config.WrittenConfigIsJudgedByTheStandard | tests/build_standard_support/config.rs:379-385 | A written file, decorated in any way, raises nothing exactly when its sections meet the standard |
| CiSteps.StepsAreFoundWhole | tests/build_standard_support/ci_steps.rs:155-194 | Each step of a workflow of any size is found by its own `uses:` line with exactly its own lines |
| CiSteps.SetupStepsAreJudgedByTheirOwnLines | tests/build_standard_support/ci_steps.rs:75-97 | The complaints are exactly those of the setup steps none of whose own lines spells the input once blanks and quotes are skipped, each at its own line |
| CiSteps.InstallComplaintIsDue | tests/build_standard_support/ci_steps.rs:75-97 | A step is told so exactly when no line of it spells the input |
| CiSteps.LinesAre | tests/build_standard_support/ci_steps.rs:141-194 | What a line of white space and text is: an opener, a comment, a use, its indent, and whether it ends a step |
| CiSteps.CoverageStepsAreJudgedByTheirOwnLines | tests/build_standard_support/ci_steps.rs:223-228 | The same for coverage steps and their own assignment |
| CiSteps.CoverageIsJudgedByItsValue | tests/build_standard_support/ci_steps.rs:101-130 | A coverage step is judged by the words of its first assignment without the quote marks around each and without an inline comment: one that holds a standard flag is complained about first, then a policy that does not deny warnings; nothing else in the step counts |
| CiSteps.CoverageNeedsAnAssignment | tests/build_standard_support/ci_steps.rs:81-107 | It is told that it assigns nothing exactly when no line of it does |
| CiSteps.InstallInputInAnySpelling | tests/build_standard_support/ci_steps.rs:75-138 | The install input passes however it is indented, spaced and quoted |
| CiSteps.OrdinaryStepsAreAWorkflow | tests/build_standard_support/workflow_exhaustive.rs:109-161 | List-item steps at one indent, with lines past the dash, comments at it and blank lines anywhere, are such a workflow |
| Identity.HostName | src/identity.rs:69-86 | The label loop returns the trimmed input in lower case, or the error of the first bad label |
| Identity.UsernamesAreExact | src/identity.rs:32-46 | Accepted exactly when the trimmed input is 1 to 32 letters, digits, hyphens and underscores; the result has each letter A to Z 32 places on and nothing else changed; otherwise the length is at fault, or else the characters |
| Identity.HostnamesAreExact | src/identity.rs:69-111 | Accepted exactly when the trimmed input is at most 253 characters of letters, digits, hyphens and dots with a letter or digit at each label's ends; the result is lowered the same way; the length is at fault exactly when it is empty or longer |
| Identity.FirstBadLabelDecides | src/identity.rs:76-111 | After any number of valid labels the first bad one decides the error: empty, a hyphen at an end, or its characters |
| Identity.LabelsAreDotted | src/identity.rs:97-111 | Checking label by label is that one condition on the whole name |
| Identity.ParsersAreIdempotent | src/identity.rs:32-86 | What either parser returns is a normal form, which parses to itself |
| Identity.CaseNeverMattersToNames | src/identity.rs:32-86 | Changing ASCII case never changes either result, errors included |
| Query.Tokens.Next | src/query.rs:102-103 | The shared iterator hands out each token once, in order |
| Query.ParseVerboseFlag | src/query.rs:54-74 | The flag reader takes one or two tokens from the shared iterator and leaves the rest |
| Query.Parse | src/query.rs:100-118 | The parser over the iterator computes the parsed query or its first error |
| Query.ParserIsExact | src/query.rs:42-118 | A line parses to a query exactly when it is spelled by the grammar (a variant of section 2.3 of RFC 1288) and the query is its meaning: the names with each letter A to Z 32 places on, the host if the fragment is not empty, verbose with the flag |
| Query.FramingIsRefusedFirst | src/query.rs:42-51 | Encoding, ending and control bytes are refused in that order, before any word is read, and exactly when they are wrong |
| Query.WordsAreRefusedInOrder | src/query.rs:54-118 | A line with sound framing is refused for a missing name, an option or a surplus word exactly when it has no word after its flag or one that starts with `@`, a first one that starts with a slash, or more than one |
| Query.NamesAreRefusedInOrder | src/query.rs:77-97 | User before host: each name error is raised exactly when that name is at fault, the host error being that of the host parser, and only the first fragment after an `@` is read |
| Query.ParsedQueriesAreNormal | src/query.rs:100-118 | Every parsed query holds names in normal form |
| Query.HostedQueriesRoundTrip | src/query.rs:124-134 | A normal query with a host, printed with its flag and CRLF, parses back to itself |
| Query.HostlessQueriesAreRefused | src/query.rs:124-134 | A printed query without a host is refused for the characters of its host |
| Query.QueriesWithAHostRoundTrip | src/query.rs:124-134 | Printing and parsing give a normal query back exactly when it has a host |
| Query.CaseNeverMatters | src/query.rs:42-118 | Lines that differ only in ASCII case have the same result, errors included |
| Spelling.MergeDictionaries | scripts/typos_rollout.py:102-123 | The merging loop computes the merged dictionary or the first conflict |
| Spelling.MergeIsUnion | scripts/typos_rollout.py:102-123 | Merging succeeds exactly when the two agree on every shared correction, and says exactly what either says |
| Spelling.MergeConflictIsFirst | scripts/typos_rollout.py:102-112 | Merging fails exactly at the first local correction that differs from the shared one, and names the word, what was known and what was to come |
| Spelling.LessIs | scripts/typos_rollout.py:113-123 | Sorting is by the first character that differs, a text after its own beginnings |
| Spelling.MergeIsCommutative | scripts/typos_rollout.py:102-123 | Merging is commutative, raising included |
| Spelling.MergeIsAssociative | scripts/typos_rollout.py:102-123 | Merging is associative, raising included |
| Spelling.MergeIsIdempotent | scripts/typos_rollout.py:102-123 | Merging a dictionary with itself changes nothing |
| Spelling.GenerateWordMappings | scripts/typos_rollout.py:126-147 | The loops add accepted words, corrections and the entries of stems in that order; they succeed exactly when no word is given two corrections and then yield exactly the demanded ones |
| Spelling.ConflictIsFirst | scripts/typos_rollout.py:130-147 | Adding fails exactly at the first pair that conflicts with what was added before it, and names both corrections |
| Spelling.StemsDemandNinePairs | scripts/typos_rollout.py:27-37 | A stem demands the Oxford form for each of its nine British forms and for itself, and nothing else |
| Spelling.MergedGenerationIsUnion | scripts/typos_rollout.py:102-147 | Merge then generate succeeds exactly when each generates alone and the mappings agree, and is then their union |
| Spelling.SuffixShape | scripts/typos_rollout.py:27-37 | Each pair is one suffix in two spellings, and no suffix starts like a suffix again inside |
| Spelling.UniqueSplit | scripts/typos_rollout.py:27-37 | No suffix ends another, so a word is a stem and a suffix in at most one way |
| Spelling.StemsNeverConflict | scripts/typos_rollout.py:126-147 | Stems alone never conflict |
| Spelling.OrderNeverMatters | scripts/typos_rollout.py:126-147 | Order and repetition in a dictionary never change what it generates |
| Spelling.OnlyExplicitCorrectionsChain | scripts/typos_rollout.py:126-147 | Correcting twice is correcting once exactly when no explicit correction leads to a corrected word |
| Spelling.StemsCorrectOnce | scripts/typos_rollout.py:126-147 | For stems alone, correcting twice is correcting once |
| Spelling.StemsAreCorrected | scripts/typos_rollout.py:141-147 | Whatever else a dictionary holds, each British form of a stem is corrected to its Oxford form, which stays |
| Framing.CrlfBuffer.PushLine | src/framing.rs:19-24 | The buffer grows by the line, its own endings trimmed, and one CRLF |
| Framing.AsBytes | src/user.rs:116-123 | The bytes are the framed lines and fit the requested capacity |
| Framing.EncodingKeepsCrlf | src/framing.rs:22-23 | UTF-8 neither makes nor hides a CRLF |
| Framing.Utf8Spells | src/framing.rs:22 | The bytes of every character spell its number by the table of section 3 of RFC 3629 |
| Framing.EndingsAreTrimmed | src/framing.rs:33-35 | All carriage returns and line feeds at the end of a line are trimmed, in any mix, and nothing else |
| Framing.CrlfCuts | src/framing.rs:19-24 | A CRLF always ends a line for the reader, whatever surrounds it |
| Framing.FrameFitsTheEstimate | src/user.rs:117-118 | A frame never outgrows the estimate, and fills it exactly when no line brings an ending |
| Framing.FramingRoundTrips | src/framing.rs:19-35 | Splitting a frame at CRLF returns exactly its lines if and only if no line contains a CRLF or ends in CR or LF |
| Framing.FramesEndInCrlf | src/framing.rs:19-24 | A frame is its pieces with CRLF between them, and ends in CRLF |
| Profile.NormaliseKey | src/user.rs:135-145 | The loop upper-cases the first character and turns later underscores into spaces |
| Profile.KeyIsShown | src/user.rs:135-145 | A shown key has its first letter raised, spaces for later underscores, and all else kept |
| Profile.Render | src/user.rs:74-105 | The pushed lines are the rendered profile |
| Profile.SanitisedIsPrintable | src/user.rs:147-149 | A sanitised line is printable, and unchanged exactly when it was |
| Profile.SanitisedIsFiltered | src/user.rs:147-149 | A sanitised line is the characters from space to tilde of the input, in their order |
| Profile.LinesAreAsCleanAsKeys | src/user.rs:74-105 | All rendered lines are printable, or in one piece, exactly when all attribute keys are; no value and no plan can change that |
| Profile.ResponsesAreFramedExactly | src/user.rs:74-123 | The reader's lines are the rendered lines if and only if no key holds a CRLF, and then the byte count equals the estimate |
| Profile.CrlfInAKeyAddsLines | src/user.rs:135-145 | Every profile with a CRLF in a key is read with more lines than were rendered |
| Profile.ResponsesArePrintable | src/user.rs:74-123 | With printable keys, every byte between the CRLFs is printable ASCII |
| Profile.RenderingReadsBack | src/user.rs:74-105 | For every profile and plan the rendered lines can be taken apart again, and tell the name, each attribute in order as its shown key, a colon, a space and its filtered value, and the plan or that there is none |
| Profile.AttributesComeApart | src/user.rs:78-80 | Key and value come apart again at the first colon and space exactly when the key shows none of its own |
| Profile.ResponsesReadBack | src/user.rs:74-123 | With printable keys, all of that can be recovered from the bytes alone |
| Profile.PlansAreShownAsWritten | src/user.rs:95-105 | Printable plan lines, each ended by LF or CRLF, are shown as written; a blank plan is said to be empty |

## Left out

- Sockets, the accept loop, timeouts, shutdown and the metrics endpoint; the gauges of the limiter. A check's clock reading is a parameter.
- The inside of the concurrent map: an atomic step is one clock reading, one prune, the block under the entry's lock, one length test, one scan or one removal. A scan or prune that interleaves with other tasks entry by entry is not modelled.
- Times are whole nanoseconds without range limits; the fallback for a window too large for the time library is not modelled. A window of zero is allowed, though the configuration refuses it.
- The iteration order of the table is not fixed: ties between oldest windows are broken either way.
- TOML and YAML parsing, the object store and command-line parsing: a profile is an ordered list of keys and values, a workflow is its lines.
- Query.Parse: UTF-8 decoding is not modelled; a line is either not UTF-8 or text.
- Error texts: an error is a constructor that carries what the text names, or less.
- Framing.CrlfBuffer.PushLine: reserving capacity is not modelled, because it is not observable; the estimate is compared with the length instead.
- Spelling.GenerateWordMappings: the order of the resulting dictionary is not modelled, because it is a map.
- Spelling.MergeDictionaries: `sorted` and `dict` are functions of their contents; the sort itself is the library's.
- Shell.ShellCommands: conformance to a shell is not claimed; the splitter takes a backslash as an escape inside single quotes too.
- MakeVerdicts.ReadsTheQuotedValue: says nothing of a value with a quote inside, because the reader ends it there.
- The toolchain pin reader, the listed workflows' own check, the Python workflow contracts, the proxy and end-to-end tests: branch-by-branch checks or process plumbing.
- The dictionary cache, HTTP validators and atomic writes of the spelling scripts: I/O.
- `Display` of a response body, which ends lines in LF: the same lines without framing.
