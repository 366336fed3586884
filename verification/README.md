# Open CAS in Dafny

Open CAS is a block cache: a kernel driver, its block-device module, the `casadm` tool and the
`opencas.conf` scripts. This project models its self-contained algorithms and protocols and proves, for all
inputs and all runs, what they are for.

| files | what they model |
|---|---|
| `RefCount`, `RefCountObject` | the per-CPU freezable reference counter: a transition system over any number of CPUs and threads, and the counter as an object |
| `MemMove` | the word-wise overlap-safe memory move and fill of safeclib, and `memmove_s` over them |
| `HeapSort`, `EnvSort` | `env_sort`: element-indexed heapsort, and the byte-scaled loops that refine it |
| `ParallelSort`, `PsortLimit` | `psort`: threads over slices of one array and one temporary buffer, in every interleaving, and where it stops sorting |
| `RuleText`, `Classifier`, `NumericTests` | the I/O classifier: rule language, sorted rule list, short-circuit evaluation, classification, numeric conditions |
| `CStrings`, `Csv`, `CsvFile`, `RawCsv` | the in-place CSV reader and the raw CSV printer it undoes |
| `Table`, `LineBreak` | the growable text table and the line breaking of statistics views |
| `Stacking`, `Bitmap` | multilevel caching: the legality walk before a core is added, and the listing of cores from the id bitmap |
| `ExpObj`, `MinorSlots` | exported objects: modules, disks, minor slots, the unwinding of creation, the hand-over box; device numbers under concurrent creation and dismantling |
| `Basics` | optional values, digits, element sizes and counting without repetition, used throughout |
| `PyText`, `PyPath`, `Config`, `ConfigRoundTrip`, `ConfigDevices`, `ConfigLines`, `ConfigFile` | `opencas.conf`: which lines are accepted, reading, inserting, writing and reading again |

`dafny verify dfyconfig.toml` checks everything.

How the code is represented:

* Code that changes things in place is a class or a method on an `array`, proved against a function or a
  predicate of the old state. Where the original interleaves threads, the model is a transition system and
  theorems range over every legal run.
* Pointers into one buffer are indices; addresses matter only for alignment, so memory has an arbitrary base
  address. C integer widths and the size limits of safeclib are written out where they decide anything
  (`Narrow`, `ToInt64`, `ToInt32`, `Copies`); elsewhere integers are mathematical.
* What the code asks of the outside (comparators, condition tests, the file system, `pthread_create`, the
  kernel refusing a resource) is a parameter ranging over all answers.

Where the code and its documentation disagree, the model follows the code:

* `env_refcnt_freeze` is documented to make every later increment fail. A nested freeze returns at once while
  the first one may still be under way, so it does not (`NestedFreezeReturnsEarly`); `ShutIffAllCpusReached`
  says exactly when a returned freeze has shut the counter.
* A callback is documented to run with the counter at zero. A thread that has seen zero, or is about to look,
  but is not done when the last unfreeze disarms can take a callback of the next freeze and run it over a live
  reference. `CallOverLiveReference` is such a run from the start, by callers that keep the rules of the
  header; `UnsafeIffStraggler` proves that this is the only way.
* `psort` is meant to sort. Its merge copies back with `memcpy_s`, which does nothing above 256 MiB, and ignores
  that; `PsortSortsIff` proves that it sorts every array in every run exactly with fewer than four CPUs, fewer
  than 2048 elements, or up to that size, and `LeftUnmerged` gives the failing arrays.
* `env_sort` takes the element size as `size_t` and hands it on as `int`. Beyond 2^31 - 1 bytes elements are
  torn; `SortsIff` proves that below it, or with fewer than two elements, is exactly where it sorts.
* A rule reads as if its conditions were evaluated left to right. `cas_cls_process_rule` leaves at a failed
  "&" and never sees a later "|". `TextIsMeantIff` proves that, among rules of distinct conditions, exactly
  those without a "|" after an "&" mean what they say however their conditions may be answered;
  `RealIoIsSkipped` shows a rule and real I/Os for which it matters, and `ImpliedIsHarmless` one whose
  conditions depend on each other so that it never does.
* `core_id_bitmap_next` is documented to return a core id or `OCF_CORE_NUM`. Stray bits in the last word can
  make it return more (`StrayBitIsReturned`); `NextAsPromisedIff` gives the exact condition, and
  `WholeWordsKeepPromise` that a multiple of 64 ids is safe.
* `csv_read_line` is meant to take a last line that has no newline as it is. It refuses one that exactly fills
  its buffer, since the end of the file has not been noticed yet; `ReadLine` gives the exact condition and
  `LostLengths` the lengths.
* Device numbers are meant to be unique. Dismantling frees the minor slot before it removes the disk
  (`NumberIsReused`); `CollisionIffDismantling` proves that two registered disks can come to share a number
  exactly while an object is between these two steps.
* A configuration written by the scripts is meant to be read back. Device names are normalised when they are
  kept, and the kept name can fail a check the given name passed (`DotHidesRecursion`); `ReadBackIff` gives
  the exact condition.

## Model

| member | source | states |
|---|---|---|
| RefCount.StepKeepsInv | modules/cas_cache/ocf_env_refcnt.c:151-347 | Every step of every thread keeps the whole invariant: conservation, who may be about to fire, one-shot callbacks, no lost callback |
| RefCount.RunKeepsInv | modules/cas_cache/ocf_env_refcnt.c:151-347 | The invariant holds after every legal run, for any number of CPUs and any interleaving |
| RefCount.StepConserves | modules/cas_cache/ocf_env_refcnt.c:162-254 | Increments, both halves of a decrement, freezing and thawing one CPU at a time and folding the sum each keep the reference equation, also when a reference moves between CPUs |
| RefCount.ReferencesConserved | modules/cas_cache/ocf_env_refcnt.c:162-319 | In every reachable state unfrozen counters plus the sum collected so far plus countdown equal live references plus decrements that saw a frozen CPU and have not reached countdown; fully frozen, countdown alone does |
| RefCount.AssertionsHold | modules/cas_cache/ocf_env_refcnt.c:286-311 | The assertions of the code never fire: a thawed CPU was frozen, the freeze count stays non-negative, the last unfreeze finds the counter fully frozen |
| RefCount.CallFindsNoReference | modules/cas_cache/ocf_env_refcnt.c:151-188 | A callback called by a thread of the current freeze, the freezing thread included, finds no live reference, none on its way down, and none can be taken |
| RefCount.StrictCallsAreSafe | modules/cas_cache/ocf_env_refcnt.c:151-160 | If, when the last unfreeze disarms, no thread is between arming or seeing zero and its own call, every callback call is of this kind |
| RefCount.UnsafeIffStraggler | modules/cas_cache/ocf_env_refcnt.c:151-160 | At the last unfreeze: a callback over a live reference, registered after a freeze that has returned, can follow before the next one if and only if some thread is between arming or seeing zero and its own call |
| RefCount.CallOverLiveReference | modules/cas_cache/ocf_env_refcnt.c:151-319 | A whole run of this kind on one CPU from the initial state: a decrement is overtaken after its zero test by the unfreeze, and ends about to call a callback of the next freeze with one reference live |
| RefCount.EachCallbackAtMostOnce | modules/cas_cache/ocf_env_refcnt.c:155-159 | In no run is a registered callback called twice, and only registered ones are called |
| RefCount.CallbackNotLost | modules/cas_cache/ocf_env_refcnt.c:244-284 | Fully frozen, armed and without references, a decrementing, registering or freezing thread is committed to firing, and two or three further steps of it call exactly that callback |
| RefCount.QuietMeansFired | modules/cas_cache/ocf_env_refcnt.c:244-284 | With nobody registering or in the firing code, a fully frozen counter without references has called every callback ever registered, save those an unfreeze cancelled |
| RefCount.AllFiredByLastUnfreeze | modules/cas_cache/ocf_env_refcnt.c:297-319 | When the last unfreeze disarms, every registered callback has been called exactly once |
| RefCount.FreezeShuts | modules/cas_cache/ocf_env_refcnt.c:190-254 | Once a freeze has returned and initialization is over, until the last unfreeze every increment fails and live references only go away, whatever the run |
| RefCount.ZeroedIsFinal | modules/cas_cache/ocf_env_refcnt.c:333-347 | If env_refcnt_zeroed answers true, no reference is live and none will be in any run up to the last unfreeze |
| RefCount.ZeroedIff | modules/cas_cache/ocf_env_refcnt.c:333-347 | In every reachable state env_refcnt_zeroed answers true exactly if the counter is fully frozen and no reference is held or on its way down |
| RefCount.ShutIffAllCpusReached | modules/cas_cache/ocf_env_refcnt.c:221-254 | After a returned freeze, increments fail on every CPU exactly if the first freeze has reached every CPU |
| RefCount.NestedFreezeReturnsEarly | modules/cas_cache/ocf_env_refcnt.c:232-237 | A run in which a nested freeze has returned and a reference is still handed out |
| RefCountObject.EnvRefcnt.Inc | modules/cas_cache/ocf_env_refcnt.c:190-205 | Takes a reference exactly if the CPU is not frozen, on that CPU's counter only; as every method here it is a legal run of the transition system |
| RefCountObject.EnvRefcnt.Dec | modules/cas_cache/ocf_env_refcnt.c:162-188 | Drops on the CPU's counter or, frozen, on countdown, and calls the armed callback exactly when that reaches zero after initialization; the atomic sections run are listed |
| RefCountObject.EnvRefcnt.CallFreezeCb | modules/cas_cache/ocf_env_refcnt.c:151-160 | Calls the callback and disarms exactly if it is armed |
| RefCountObject.EnvRefcnt.Freeze | modules/cas_cache/ocf_env_refcnt.c:212-254 | From any reachable state a first freeze runs begin, every CPU, finish and, at zero, the call, and adds the sum of all counters, whatever their signs, to countdown; a nested one only counts |
| RefCountObject.EnvRefcnt.RegisterZeroCb | modules/cas_cache/ocf_env_refcnt.c:257-284 | Runs claim, store, arm and check; calls at once and stays disarmed if the counter is already down, arms otherwise |
| RefCountObject.EnvRefcnt.Unfreeze | modules/cas_cache/ocf_env_refcnt.c:286-319 | The last unfreeze runs begin, disarm, every CPU and finish, with every CPU found frozen; others only count |
| RefCountObject.EnvRefcnt.IsZeroed | modules/cas_cache/ocf_env_refcnt.c:333-347 | Answers true exactly if the counter is fully frozen and no reference is held or on its way down |
| RefCountObject.EnvRefcnt.IsFrozen | modules/cas_cache/ocf_env_refcnt.c:321-331 | Answers true exactly while a freeze is under way or in force |
| MemMove.MemPrimMove | casadm/safeclib/mem_primitives_lib.c:321-463 | For all addresses, overlaps, alignments and lengths above 0 the destination holds the source bytes as they were at entry and no other byte changes |
| MemMove.MoveForward | casadm/safeclib/mem_primitives_lib.c:336-396 | The upward copy (byte prologue, aligned words, byte tail) has that meaning whenever the destination is below the source |
| MemMove.MoveBackward | casadm/safeclib/mem_primitives_lib.c:397-460 | The downward copy has it whenever the destination is at or above the source |
| MemMove.HeadForward | casadm/safeclib/mem_primitives_lib.c:344-361 | The prologue is within the length and leaves either nothing to do or both pointers word-aligned |
| MemMove.HeadBackward | casadm/safeclib/mem_primitives_lib.c:413-426 | The same from the ends downwards |
| MemMove.CopyWord | casadm/safeclib/mem_primitives_lib.c:378-383 | A word is read whole before it is written, so an overlapping word is moved, not smeared; only aligned words are accessed |
| MemMove.NarrowingKeepsLowBits | casadm/safeclib/mem_primitives_lib.c:344 | Storing an address in a 32-bit variable keeps what decides alignment |
| MemMove.MemPrimSet | casadm/safeclib/mem_primitives_lib.c:67-145 | Exactly the len bytes at dest become value, through the unrolled and fall-through word stores |
| MemMove.StoreWords | casadm/safeclib/mem_primitives_lib.c:96-130 | An unrolled block or the chain entered at case n stores n words of the value |
| MemMove.SpreadBytes | casadm/safeclib/mem_primitives_lib.c:81 | The replicated word consists of four copies of the byte |
| MemMove.MemmoveS | casadm/safeclib/memmove_s.c:94-148 | Succeeds exactly on non-null pointers with 0 < smax <= dmax within the limit and then moves; each error has its exact condition; a violation clears dmax bytes where it may write, and nothing else |
| HeapSort.SiftMakesHeap | modules/cas_cache/ocf_env.c:281-289 | Sifting repairs a heap that is wrong only at one node |
| HeapSort.HeapifyMakesHeap | modules/cas_cache/ocf_env.c:279-291 | The first phase makes a heap of the same elements |
| HeapSort.RootIsMax | modules/cas_cache/ocf_env.c:294-295 | The element the second phase moves to the end is a largest one |
| HeapSort.UnheapSorts | modules/cas_cache/ocf_env.c:293-306 | The second phase sorts a heap and keeps the elements |
| HeapSort.HeapSortSorts | modules/cas_cache/ocf_env.c:263-307 | For every total preorder and every length, 0 and 1 included, the result is a sorted permutation |
| EnvSort.Sort | modules/cas_cache/ocf_env.c:263-307 | On bytes with pre-scaled 64-bit offsets env_sort computes heapsort with the exchanges its swap functions make; for element sizes that fit an int, or fewer than two elements, this is the element-indexed heapsort, hence a sorted permutation |
| EnvSort.SortsIff | modules/cas_cache/ocf_env.c:263-307 | It sorts every array of num elements exactly if the element size is below 2^31 or num is below 2 |
| EnvSort.TornIsNoPermutation | modules/cas_cache/ocf_env.c:252-261 | If exchanges move only part of an element, an array of any length from 2 up loses an element |
| EnvSort.HugeElementsAreTorn | modules/cas_cache/ocf_env.c:252-261 | At 2^32 bytes one byte is exchanged, and two such elements come out as neither |
| EnvSort.WholeIsHeapSort | modules/cas_cache/ocf_env.c:263-307 | With whole exchanges the result is that of the element-indexed heapsort |
| EnvSort.WholeIff | modules/cas_cache/ocf_env.c:252-261 | The exchange loop, whose size is an int, moves all bytes exactly for sizes below 2^31 |
| EnvSort.SiftDown | modules/cas_cache/ocf_env.c:281-289 | The inner loop on offsets that are multiples of size refines the element-indexed sift with those exchanges |
| EnvSort.ScaledTests | modules/cas_cache/ocf_env.c:281-285 | The scaled child, bound and sibling tests decide what the element-indexed ones decide |
| EnvSort.FirstOffset | modules/cas_cache/ocf_env.c:268 | The unsigned wrap-around for num 0 and 1 yields minus one element, so the first loop does nothing |
| EnvSort.Swap | modules/cas_cache/ocf_env.c:238-261 | Each of the three exchange functions exchanges the first bytes of the two elements, as many as the int size counts, and nothing else |
| EnvSort.GenericSwapLoop | modules/cas_cache/ocf_env.c:252-261 | The byte loop with its narrowed size exchanges exactly that many bytes of two disjoint blocks |
| ParallelSort.StepStaysInside | casadm/psort.c:96-152 | Whatever a sorting thread does, it writes only to its own slice of the array and of the shared temporary buffer |
| ParallelSort.StepReadsInside | casadm/psort.c:96-152 | And what it does depends on that slice alone |
| ParallelSort.ThreadsCommute | casadm/psort.c:107-128 | A step of the base part and a step of the child thread can be exchanged: same state, both still possible |
| ParallelSort.StepSound | casadm/psort.c:34-152 | Every step of any thread keeps: slices are permutations, and within the limit of memcpy_s returned slices are sorted and merges ordered prefixes |
| ParallelSort.RunSound | casadm/psort.c:34-152 | The same over every run in every order of threads |
| ParallelSort.PsortSorts | casadm/psort.c:157-198 | psort, with its number of threads limited by the CPUs and the elements, never loses an element; with one thread, or within the limit of memcpy_s, it leaves a sorted array, whichever thread creations and allocations fail |
| PsortLimit.PsortSortsIff | casadm/psort.c:34-198 | It leaves a sorted permutation of every array in every run exactly with fewer than two threads or at most 256 MiB; below 2^41 elements that is fewer than four CPUs, fewer than 2048 elements or at most 256 MiB |
| PsortLimit.LeftUnmerged | casadm/psort.c:77 | Beyond that, for every number of elements and CPUs that makes two threads, a run that reports success over two sorted halves in the wrong order |
| ParallelSort.StepMakesProgress | casadm/psort.c:103-128 | Every step but one inside qsort decreases a measure, as each half gets fewer threads |
| ParallelSort.WorkIsNatural | casadm/psort.c:103-128 | The measure never goes below zero, so the recursion ends |
| ParallelSort.NeverStuck | casadm/psort.c:124-151 | Until the sort returns some thread can move |
| ParallelSort.PickIsLeast | casadm/psort.c:52-64 | Each element the merge picks is no larger than anything left in either run |
| ParallelSort.MergeRanges | casadm/psort.c:46-78 | Within the limit of memcpy_s the merge leaves a sorted permutation of the two sorted runs, beyond it the array as it was; nothing else is touched |
| Classifier.ProcessRule | modules/cas_cache/classifier.c:1223-1257 | The accumulator loop with its two exits computes the short-circuit evaluation the lemmas below are about |
| Classifier.MatchIffFold | modules/cas_cache/classifier.c:1232-1251 | Without "done" a rule matches exactly if its left-to-right fold is true and no "and" met a false left side |
| Classifier.TextIsMeant | modules/cas_cache/classifier.c:1232-1251 | With no "or" operator after an "and" operator the result is the fold |
| Classifier.TextIsMeantIff | modules/cas_cache/classifier.c:1236-1246 | Among rules of distinct conditions those are the only ones for which the two agree under every way the conditions may be answered |
| Classifier.SkippingShows | modules/cas_cache/classifier.c:1236-1237 | For any other such rule, answers under which its text accepts and the code rejects |
| NumericTests.RealIoIsSkipped | modules/cas_cache/classifier.c:1223-1257 | With the numeric tests as they are, every I/O of one page at or after sector 8 is accepted by the text of lba:lt:8 and pid:1 or request_size:4096 and rejected by the code |
| NumericTests.ImpliedIsHarmless | modules/cas_cache/classifier.c:1223-1257 | A rule with "or" after "and" whose conditions imply each other is evaluated as it reads on every I/O |
| NumericTests.ComparisonParses | modules/cas_cache/classifier.c:127-191 | What stands before the first colon must be one of the six operators and all that follows a number; then they make the comparison they spell, otherwise the condition is refused |
| NumericTests.OperatorsMean | modules/cas_cache/classifier.c:147-173 | Each of the six operators compares as its name says |
| NumericTests.DecimalParses | modules/cas_cache/classifier.c:175-179 | Every number of 64 bits is accepted in decimal, and no larger one |
| Classifier.DoneStops | modules/cas_cache/classifier.c:37-44 | A rule that gets to "done" matches and stops; one that leaves before does neither |
| Classifier.StopImpliesMatch | modules/cas_cache/classifier.c:1244-1250 | For every rule stopping implies matching |
| Classifier.RuleList.Unlink | modules/cas_cache/classifier.c:1012-1024 | The walk from the tail removes the rule of the class, if any, and stops between the smaller and the larger classes |
| Classifier.RuleList.RuleApply | modules/cas_cache/classifier.c:1000-1040 | Afterwards the list is strictly ascending, answers the new rule for the class and the old ones for all others |
| Classifier.ListIsLastWrite | modules/cas_cache/classifier.c:1000-1040 | After any sequence of calls the list is ascending and answers, for each class, the last rule applied to it |
| Classifier.AscendingIsCanonical | modules/cas_cache/classifier.c:1012-1028 | Two ascending lists that answer alike are equal |
| Classifier.OrderDoesNotMatter | modules/cas_cache/classifier.c:1000-1040 | Two sequences of calls with the same last writes leave the same list |
| Classifier.Classify | modules/cas_cache/classifier.c:1299-1327 | Goes through the list up to the first rule that stops, each rule evaluated with the class found before it, which starts at 0 and becomes the class of each rule that matches; in an ascending list the answer is the largest class that matched |
| Classifier.TraceIsUnique | modules/cas_cache/classifier.c:1316-1323 | There is only one such pass |
| Classifier.FoundIsLargestMatch | modules/cas_cache/classifier.c:1316-1326 | In an ascending list the class found before any rule is the largest that matched, 0 if none did |
| Classifier.StopperWins | modules/cas_cache/classifier.c:1319-1322 | A rule that stops the scan decides the class |
| NumericTests.IoClassSeesLargest | modules/cas_cache/classifier.c:300-305 | In an ascending list a rule with the one condition io_class matches exactly if its number compares as asked with the largest class that matched before it, 0 if none did |
| RuleText.RenderUndoesParse | modules/cas_cache/classifier.c:822-907 | Every accepted rule text renders back unchanged |
| RuleText.ParseUndoesRender | modules/cas_cache/classifier.c:822-907 | Every well-formed condition list parses back to itself |
| RuleText.TextMeans | modules/cas_cache/classifier.c:822-907 | The text of one condition matches if it holds, two joined by an ampersand if both hold, two joined by a vertical bar if one does |
| RuleText.CreatedIff | modules/cas_cache/classifier.c:716-800 | A condition is created exactly if its token is one of the sixteen and its handler takes the operand; any other token is reported as unknown |
| RuleText.TrailingIsRefused | modules/cas_cache/classifier.c:864-871 | An operator at the end of the text is an error |
| RuleText.ParseCondition | modules/cas_cache/classifier.c:822-885 | Cuts token and operand out of the buffer in place, rejects a trailing operator, strictly advances, and leaves the rest of the text intact at the new position |
| RuleText.ParseConditions | modules/cas_cache/classifier.c:888-907 | The in-place loop computes the parse of the text as it was before anything was overwritten |
| RuleText.CutCondition | modules/cas_cache/classifier.c:838-862 | After the cuts token, operand and rest are strings of their own |
| RuleText.HandlerTokensArePlain | modules/cas_cache/classifier.c:716-747 | No handler name, that of the conditional handler included, holds a character of the rule syntax |
| Csv.ReadsBack | casadm/csvparse.c:226-309 | For every line of fields quoted with doubled inner quotes (section 2 of RFC 4180), or bare without outer blanks, the columns are exactly the fields |
| Csv.PaddedReadsBack | casadm/csvparse.c:226-309 | For every line of such fields with any white space around each, the columns are exactly the fields without it, empty where there is nothing else; a quote behind some text is part of the field |
| Csv.QuotedBody | casadm/csvparse.c:232-255 | Through a quoted field of any text the column start is shifted so that the column holds the undoubled text, and nothing outside the field's own column changes |
| Csv.BareBody | casadm/csvparse.c:276-288 | A bare field keeps its inner blanks and its place |
| Csv.LineBody | casadm/csvparse.c:231-291 | Field after field, earlier columns keep their text while later ones are read, and blanks around fields are erased |
| Csv.StepIsValid | casadm/csvparse.c:231-291 | On any line a turn keeps the column inside the line read so far and advances |
| Csv.OnlyBlanksErased | casadm/csvparse.c:257-288 | On any line whatever the carried-over count of trailing blanks never covers a character of a field |
| CsvFile.CsvFile.Fgets | casadm/csvparse.c:165-173 | At most the given number of characters, up to and including a newline, arrive behind the offset and are terminated |
| CsvFile.CsvFile.ReadLine | casadm/csvparse.c:159-210 | However often the buffer doubles, it then holds the whole first line, and the rest of the input is untouched; refused exactly if the line is too long or, on a last line without newline, if it fills the buffer to the last place; at the end of the file it fails |
| CsvFile.LostLengths | casadm/csvparse.c:165-198 | The lengths at which a new file refuses such a last line: 19, 39, 79 and so on up to 5119 |
| CsvFile.CsvFile.EnsureItems | casadm/csvparse.c:120-139 | Makes room for one more column without losing any, refused exactly past the limit |
| CsvFile.CsvFile.QuotedTurn | casadm/csvparse.c:232-255 | The in-place turn on the buffer and the column pointers, with its overlapping move, is the step of the machine the theorems are about |
| CsvFile.CsvFile.BareTurn | casadm/csvparse.c:256-290 | The same outside quotation marks, with the column limit |
| CsvFile.CsvFile.CloseColumns | casadm/csvparse.c:293-307 | Trailing blanks are erased and absent columns made empty |
| CsvFile.CsvFile.Read | casadm/csvparse.c:212-310 | csv_read leaves the columns of the first line, with or without newline, in place and consumes that line; it fails exactly where reading the line does, as at the end of the file, or on too many columns |
| CsvFile.ReadPadded | casadm/csvparse.c:212-310 | csv_read on a line of encoded fields with any blanks around them, whatever follows it, fails exactly if the line is too long or has too many columns, and otherwise has the fields without the blanks and the line consumed |
| CsvFile.ReadFields | casadm/csvparse.c:212-310 | The same without blanks |
| RawCsv.View.ProcessRow | casadm/statistics_view_raw_csv.c:16-34 | Prints the row with commas, quoting the fields that hold one, and nothing for records and data sets |
| RawCsv.RowIs | casadm/statistics_view_raw_csv.c:20-29 | A field is printed as it is, between quotes exactly if it has a comma, with commas between fields |
| RawCsv.RowIsLine | casadm/statistics_view_raw_csv.c:20-29 | A printed row of quote-free fields is an encoded line |
| RawCsv.RowReadsBack | casadm/statistics_view_raw_csv.c:16-34 | A printed row yields its fields, for fields without quotes and newlines that hold a comma or have no outer blanks |
| RawCsv.ReadRow | casadm/csvparse.c:212-310 | csv_read on a printed row, whatever follows it, fails exactly if the row is longer than a line may be or has too many columns, and otherwise has the fields back and the row consumed |
| RawCsv.PrintAndRead | casadm/statistics_view_raw_csv.c:16-34 | Printing a row and reading what was printed, with that exact condition |
| Table.Table.Set | casadm/table.c:122-206 | Stores the text, grows the grid, and leaves the text of every other cell as it was; fails exactly on a too long text |
| Table.Table.Overwrite | casadm/table.c:182-198 | The cell's memory is large enough for the text in every case |
| Table.Table.Cut | casadm/table.c:94-120 | Writing a NUL through the returned pointer shortens that text only |
| Table.Table.Reset | casadm/table.c:64-82 | Every cell reads empty afterwards although nothing is freed |
| LineBreak.TextView.BreakAt | casadm/statistics_view_text.c:919-936 | One break keeps: the pieces so far, joined, are the original text, each cut where the next begins |
| LineBreak.TextView.BreakCell | casadm/statistics_view_text.c:905-939 | The pieces of the cell join to its text and no cell of another column residue changes; every piece fits the column or has no place to break, every further piece begins at one, and no two neighbours would fit together |
| LineBreak.TextView.BreakAll | casadm/statistics_view_text.c:904-940 | So for every cell of the table, row by row |
| LineBreak.TextView.ReduceWidths | casadm/statistics_view_text.c:882-900 | Only above-average columns shrink, by equal parts up to one character, and together by exactly the excess |
| LineBreak.TextView.AdjustColumnWidths | casadm/statistics_view_text.c:859-945 | A table that fits is left alone. Otherwise every original cell is kept as a whole over columns j, j+w, j+2w and so on, broken as above at the reduced widths, and each column ends up as wide as its widest piece; the call does not fail |
| LineBreak.TextView.SetColumnWidths | casadm/statistics_view_text.c:831-852 | Each column is exactly as wide as the widest cell shown in it, enclosing brackets not counted |
| LineBreak.TextView.EntireCell | casadm/statistics_view_text.c:388-439 | Joins exactly the pieces of the cell, in order |
| LineBreak.NoTextLost | casadm/statistics_view_text.c:388-439 | Hence get_entire_cell after breaking returns the string the cell held before |
| LineBreak.OthersKept | casadm/statistics_view_text.c:922-932 | Pieces of different cells never share a column |
| Stacking.IllegalRecursiveCore | casadm/cas_lib.c:1816-1900 | On a sane configuration the walk ends within one round per cache and one more; it accepts exactly what rests on a disk, avoids the cache and can be looked up all the way down, which with complete lookups is all that rests on a disk and avoids the cache |
| Stacking.LookupCore | casadm/cas_lib.c:1879-1897 | Finds the record of the core, or reports the end exactly if there is none |
| Stacking.ChangeKeepsSane | casadm/cas_lib.c:1948-1953 | Starting, stopping, adding through the walk and removing what nothing rests on keep every stack grounded and free of repeated caches |
| Stacking.AdmitCore | casadm/cas_lib.c:1902-1990 | Adds a core exactly if the walk accepts it, its id is new in an existing cache and the driver takes it, so the configuration stays sane |
| Stacking.RunKeepsSane | casadm/cas_lib.c:1948-1953 | So does every run of them |
| Stacking.EachCacheAtMostOnce | casadm/cas_lib.c:1784-1808 | After any run from nothing, the stack under any exported device reaches a disk, visits each cache at most once and is no deeper than the number of caches |
| Stacking.RemovalRuleIsNeeded | casadm/cas_lib.c:1799-1808 | Removing a core from under a stack lets the walk accept a core after which a device goes through one cache twice |
| Bitmap.Next | casadm/cas_lib.h:34-53 | Masking the first word, skipping empty words and counting trailing zeros answers as a bit-by-bit scan |
| Bitmap.ClearedBit | casadm/cas_lib.h:46 | The mask keeps exactly the bits at or after the start |
| Bitmap.LowestBit | casadm/cas_lib.h:52 | Counting trailing zeros finds the lowest set bit |
| Bitmap.NextAsPromisedIff | casadm/cas_lib.h:34-53 | The answer is the next set core id, or OCF_CORE_NUM if there is none, exactly unless no id is left and a bit beyond OCF_CORE_NUM in the last word is set |
| Bitmap.StrayBitIsReturned | casadm/cas_lib.h:34-53 | A bitmap for which it is not |
| Bitmap.WholeWordsKeepPromise | casadm/cas_lib.h:39-44 | If OCF_CORE_NUM is a multiple of 64 it always is |
| Bitmap.ListCores | casadm/cas_lib.c:828-842 | On any bitmap, lists each set bit once, ascending and without gaps, until the count is reached, the bits end or a lookup fails; a stray bit beyond the last id is looked up too, and one at OCF_CORE_NUM ends the listing |
| Bitmap.ListingIsComplete | casadm/cas_lib.c:828-842 | Listings that got past the last core id give the legality walk all the lookups it needs |
| ExpObj.Driver.Create | modules/cas_bd/exp_obj.c:320-455 | Succeeds exactly if the name is short enough, a slot is free and nothing that is asked for is refused; then there is one complete object more, pinned by its owner, on its disk, with a slot nobody had; otherwise the same references, slots, objects and disks as before |
| ExpObj.Driver.RaiseOwned | modules/cas_bd/exp_obj.c:357-372 | Reports the error label that matches what the object then holds, and gets through exactly if neither step is refused |
| ExpObj.Driver.RaiseDevice | modules/cas_bd/exp_obj.c:374-427 | The same from the tag set to the holder link, where a slot must be free and the two hooks count only if there are any |
| ExpObj.Driver.Unwind | modules/cas_bd/exp_obj.c:430-448 | Entered at any label, the ladder gives back everything held at that label |
| ExpObj.Driver.Free | modules/cas_bd/exp_obj.c:214-220 | Objects are freed only when they hold nothing; no account changes |
| ExpObj.Driver.TakeSlot | modules/cas_bd/exp_obj.c:129-155 | Takes a slot no object has, fails exactly if refused or none is left |
| ExpObj.Driver.Dismantle | modules/cas_bd/exp_obj.c:458-474 | Gives back the slot and all kernel resources but the name; owner and disk stay |
| ExpObj.Driver.Destroy | modules/cas_bd/exp_obj.c:477-490 | The object is gone, its owner and disk have one reference less, and the disk is closed exactly if that was the last |
| ExpObj.Driver.Deposit | modules/cas_bd/exp_obj_box.c:18-26 | The object is last in the box and one pin moves from its owner to the block-device module |
| ExpObj.Driver.Claim | modules/cas_bd/exp_obj_box.c:29-54 | Exactly if the module can be pinned and some boxed object is on the disk, the first such leaves the box and one pin moves to the claimer; otherwise nothing at all changes |
| ExpObj.Driver.Delete | modules/cas_bd/exp_obj_box.c:57-77 | The first boxed object of the name is gone with its slot, pin and disk reference, or there is none of that name and nothing changes; no other object or disk does |
| ExpObj.Driver.DiskOpen | modules/cas_bd/disk.c:199-253 | A listed path gets one reference more, another path one new entry as it was found, unless it cannot be opened; paths stay unique |
| ExpObj.Driver.GetDisk | modules/cas_bd/disk.c:256-264 | One reference for one object |
| ExpObj.Driver.DropReference | modules/cas_bd/disk.c:267-289 | The last put takes the disk off the list with its partition flags and minors as they were found; no object is on it then |
| ExpObj.Driver.DiskPut | modules/cas_bd/disk.c:267-289 | The same for a reference held directly |
| ExpObj.Driver.UnpinnedOwnsNothing | modules/cas_bd/exp_obj_box.c:18-54 | In every state a module's references equal what others hold exactly if it owns no object |
| ExpObj.Driver.MinorsDisjoint | modules/cas_bd/exp_obj.c:144-149 | No device number belongs to two objects that have a minor slot |
| MinorSlots.StepKeepsSlots | modules/cas_bd/exp_obj.c:117-155 | In any interleaving of creating, failing to create and dismantling, the slots in use are those of the objects that have one, each of a different object |
| MinorSlots.SerialNumbersDiffer | modules/cas_bd/exp_obj.c:458-464 | If no create takes a slot while an object is between freeing its slot and removing its disk, registered disks have different device numbers in every reachable state |
| MinorSlots.CollisionIffDismantling | modules/cas_bd/exp_obj.c:458-464 | From any reachable state two registered disks can come to share a device number, without another dismantling, if and only if some object is between these two steps |
| MinorSlots.NumberIsReused | modules/cas_bd/exp_obj.c:458-464 | The shortest such run from the start |
| ExpObj.Disk.HideParts | modules/cas_bd/disk.c:131-168 | Saves exactly what it takes from the gendisk; fails only if partitions cannot be deleted, changing nothing |
| ExpObj.Disk.RestoreParts | modules/cas_bd/disk.c:170-185 | Gives flags and minors back as they were found |
| ExpObj.ExportedObject.Open | modules/cas_bd/exp_obj.c:162-180 | Opens exactly if not locked and the count fits; a locked object never has an opener |
| ExpObj.ExportedObject.Close | modules/cas_bd/exp_obj.c:182-192 | One opener less, keeping that |
| ExpObj.ExportedObject.Lock | modules/cas_bd/exp_obj.c:493-508 | Locks exactly if there is no opener |
| ExpObj.ExportedObject.Unlock | modules/cas_bd/exp_obj.c:511-520 | Unlocks, keeping that |
| PyText.SplitJoin | utils/opencas.py:236-237 | Splitting undoes joining when no part holds the separator |
| PyText.WordsJoin | utils/opencas.py:224 | split() undoes joining words with tabs |
| PyPath.AbsTwice | utils/opencas.py:189-195 | Making a path absolute and normal twice is doing it once |
| PyPath.ComponentsMean | utils/opencas.py:190 | In an absolute path empty components and single dots do not count, two dots take back the component before them, and nothing is above the root |
| PyPath.AbsDrawn | utils/opencas.py:190 | Normalising an absolute path brings in no new character |
| Config.ParamsParse | utils/opencas.py:234-240 | The parameter column of any plain parameters parses back to them, in order |
| ConfigLines.TypedWords | utils/opencas.py:222-232 | A line typed with any blanks between and around its columns and any comment behind has those columns |
| ConfigLines.CacheAcceptedIff | utils/opencas.py:222-326 | Among the caches such a line is accepted exactly if it has three or four columns, an id from 1 to 16384 that is new, one of the five modes in any case, valid parameters, a device of no other cache or core that is not its own export and, unless incomplete files are allowed, is there without partitions; the cache is then put in last |
| ConfigLines.CoreAcceptedIff | utils/opencas.py:355-415 | The same for a core, with an id from 0 to 4095 that is new in an existing cache |
| ConfigLines.ParamsAcceptedIff | utils/opencas.py:234-240 | A parameter column is accepted exactly if its pieces are pairs of a name and a value with no name twice, and yields them in order |
| ConfigLines.CacheParamIs | utils/opencas.py:259-317 | The parameters of a cache are these names with these values |
| ConfigLines.ExportedNameIs | utils/opencas.py:319-327 | A name /dev/casN-M is that of another cache exactly if N is |
| ConfigLines.OutsideIsIgnored | utils/opencas.py:450-469 | Lines before the first section do not count |
| ConfigLines.TagIsEnough | utils/opencas.py:443-448 | A file with any version tag and nothing else is an empty configuration |
| ConfigLines.ReadValues | utils/opencas.py:437-477 | Every file read starts with a version tag, and holds only ids and modes in range |
| ConfigLines.ReadDevices | utils/opencas.py:202-212 | Unless incomplete files are allowed, every device given is a block device or an absent export, and no cache device has partitions |
| ConfigRoundTrip.CacheLineReads | utils/opencas.py:222-245 | A cache line as written is one line and parses to the same cache |
| ConfigRoundTrip.CoreLineReads | utils/opencas.py:355-381 | A core line as written is one line and parses to the same core |
| ConfigRoundTrip.SettleTwice | utils/opencas.py:502-505 | A kept device name is kept as it is when inserted again |
| ConfigRoundTrip.ReadConfigIsKept | utils/opencas.py:437-477 | Every configuration read has valid fields, plain parameters, settled devices, unique ids and no core without its cache |
| ConfigRoundTrip.ReadBackIff | utils/opencas.py:437-566 | Writing a configuration that was read and reading it again gives the same tag, caches, cores, order and parameters if and only if the kept names pass the device checks themselves and resolve differently; otherwise it is refused |
| ConfigRoundTrip.BareTagReadsBack | utils/opencas.py:444-448 | A file that is only an unterminated version tag reads back empty, its tag with a newline |
| ConfigDevices.AbsoluteReadsBackIff | utils/opencas.py:437-566 | For absolute devices the condition of ReadBackIff is the only one |
| ConfigDevices.UnmovedReadsBack | utils/opencas.py:437-566 | A file whose devices are kept as given, as absolute normalised ones are, always reads back the same |
| ConfigDevices.NormalIsUnmoved | utils/opencas.py:188-195 | Absolute normalised names are kept as given, whether or not anything is there |
| ConfigDevices.ReadConfigIsApart | utils/opencas.py:479-544 | Inserting keeps all resolved devices pairwise different over a whole file, if normalising does not change what a name resolves to |
| ConfigDevices.GivenAdds | utils/opencas.py:450-469 | Reading a file amounts to inserting its entries in order, whatever the order of its sections |
| ConfigDevices.DotHidesRecursion | utils/opencas.py:407-415 | A file with an absolute device that is read, written, and then refused |
| ConfigFile.ReadParams | utils/opencas.py:234-240 | The parameter loop accepts exactly the columns of distinct name=value pieces |
| ConfigFile.CacheToLine | utils/opencas.py:329-343 | The line built piece by piece is the columns joined with tabs, parameters with commas |
| ConfigFile.CoreToLine | utils/opencas.py:417-425 | The same for a core |
| ConfigFile.CasConfig.CheckCache | utils/opencas.py:479-500 | The nested loops let a cache through exactly if its id is new and no cache or core resolves to its device; "already configured" means exactly that id with that device |
| ConfigFile.CasConfig.CheckCore | utils/opencas.py:509-536 | The nested loops let a core through exactly if its cache exists, its id is new there and nothing resolves to its device |
| ConfigFile.CasConfig.InsertCache | utils/opencas.py:479-507 | Inserts last with the settled device, or changes nothing |
| ConfigFile.CasConfig.InsertCore | utils/opencas.py:509-544 | Inserts last with the settled device, or changes nothing; while devices are apart "already configured" means that id with that device |
| ConfigFile.ReadFile | utils/opencas.py:437-477 | The line loop with its section flags yields the tag and configuration the theorems are about, or refuses |
| ConfigFile.WriteFile | utils/opencas.py:552-566 | The text written line by line is the one the theorems are about |

## Left out

- CPU hotplug, initialization and work-item allocation of the reference counter: the set of CPUs is fixed and all counters start at zero; 64-bit overflow of its counters needs more references than there can be.
- Memory ordering: the barriers of the reference counter and the join of `psort` are taken to make steps visible in the order the code gives.
- RefCount.UnsafeIffStraggler: callers are taken not to start the last unfreeze while a callback is claimed and not yet armed.
- RefCountObject.EnvRefcnt.Freeze: only this thread moves while a method of the object runs; interleavings are the subject of `RefCount`.
- EnvSort.Sort: covers `swap_fn` left to the function and arrays below 2^62 bytes, beyond which the scaled 64-bit offsets could overflow. What decrementing the least int gives, which matters at exactly 2^31 bytes, is left open, as C leaves it.
- ParallelSort.PsortSorts: takes a failed thread creation to report a non-zero `errno` and joins to succeed; `qsort` is any sequence of writes to its slice that ends in a sorted permutation. The int counters of the merge are unbounded; they cannot overflow within the limit of `memcpy_s`.
- Classifier: what a condition other than "done" answers is an arbitrary predicate of the I/O and the class found so far; `NumericTests` makes lba, request_size, pid and io_class concrete, the others read inodes, pages and tasks. Rule names with a special meaning in rule creation depend on constants of the OCF library, which is not part of this model.
- Csv.PaddedReadsBack: says nothing of a field that goes on behind a closing quote, which is no encoding of any text.
- CsvFile.CsvFile.ReadLine: says what is in the buffer only for lines without NUL characters; comments are never switched on in the code and are left out.
- Allocation failures in the CSV reader, the table and the text view.
- LineBreak.TextView.AdjustColumnWidths: a table without columns is left out.
- LineBreak.TextView.EntireCell: gives the string that is returned; the buffer it is built in, which is kept from call to call, is not modelled.
- Stacking takes the file system as fixed while a configuration exists, and starting, stopping and removing as single steps.
- ExpObj.Driver.Create: proved for one thread at a time. Each of the steps it is made of keeps all accounts by itself, but what other threads do between two of them is modelled only for device numbers, in `MinorSlots`; so it is for the other operations, and the lookup and the listing of a newly opened disk are one step.
- MinorSlots.CollisionIffDismantling: whether the kernel takes a second disk under a number in use is left open; a refusal is a create that fails.
- Request queues, bio submission, freezing of queues and the operations tables of exported objects: no account depends on them.
- PyText: lower-casing and digits are ASCII, and universal newline translation is taken as done.
- Config takes every exception that leaves `from_file` as a refusal; which kind it is is told apart only for insertions.
- Ioctl, netlink, sysfs, signal and progress code, `layer_cache_management.c`, resource pools, the volume layer, the remaining safeclib functions, help and table printing, the exporter, and `detach_core_recursive` and `stop` of the scripts: plumbing, presentation, or dependent on code that is not part of this model.
