# clice core, modelled in Dafny

This project models five pieces of the clice C++ language server and proves
properties of them.

- **The ready-queue scheduler** of the async runtime (`src/Async/Async.cpp`).
  - State: a FIFO queue of suspended tasks, the "idle trigger is armed" flag, whether the event loop exists, and the libuv handles.
  - Operations:
    - `schedule` enqueues a task and arms the trigger.
    - `each` drains one batch.
    - `init` and `run` start the loop, size the thread pool, drive the loop, tear it down and finalise the leftover tasks.
    - `stop` closes every handle.
  - Modelled as the class `AsyncRuntime.Runtime`.
    - Resuming a task is an abstract step, `spawns(t)`: the tasks that resuming `t` schedules.
    - Every resume, destroy, loop start and trigger start is logged in a ghost `trace`, so order and multiplicity can be stated.
- **Message framing** of the language server's base protocol (`src/Async/Network.cpp`).
  - `MessageBuffer` is a class whose `append`, `peek` and `consume` update the buffer and its cursor `pos`.
  - `write` produces the header: `Content-Length: ` + decimal size + `\r\n\r\n`.
  - `on_read` dispatches a complete, non-empty message that parses as JSON.
- **The enum helper** (`include/Support/Enum.h`):
  - extracting an enumerator's name from a compiler function signature;
  - `enum_max`, the name table and `enum_name(E)`;
  - the plain `Enum` and its invalid sentinel;
  - the bitmask `Enum`: construction, `|`, `&`, `|=`, `&=`, truth and `name()`;
  - the JSON `Serde` round trip.
- **The selection tree query** (`include/AST/Selection.h`): `hasValue`, `getRoot`, `operator bool` and `getFarestFullCoverageNode`.
- **The inlay-hint decision rules** (`src/Feature/InlayHint.cpp`):
  - 1-based to 0-based position conversion;
  - range filtering against the request's limit;
  - when an argument gets a parameter-name hint, and the label of that hint;
  - the argument-hint loop;
  - the simple-setter test;
  - the type-loc unwrapping loop for calls through function pointers;
  - the auto-declaration and return-type hint collectors.

The shared pieces are `Wrappers` (an `Option` type) and `Text`. `Text` holds the string helpers the source uses: LLVM's ASCII case folding and case-insensitive comparison, `contains`, `std::string_view`'s `find` and `rfind`, and removing a character.

Clang's AST is replaced by plain records:
- a parameter is its name, whether it is a mutable lvalue reference, and its source range;
- an argument is its kind, its spelled identifier, its source text and its range;
- a source manager is two functions, from locations to presumed line/column and to "in the main file".

## Model

| member | source | states |
|---|---|---|
| AsyncRuntime.PoolSize | src/Async/Async.cpp:56-60 | the pool size is the hardware concurrency, or 8 when that reports 0, so it is never 0 |
| AsyncRuntime.SpawnedAppend | src/Async/Async.cpp:23-27 | what a batch schedules is what its two halves schedule, in order: resuming is sequential |
| AsyncRuntime.FinalizeStep | src/Async/Async.cpp:75-81 | finalising one more leftover task extends the resumed list, the rescheduled tasks and the trace by exactly that task's contribution |
| AsyncRuntime.FinalizeEventsAt | src/Async/Async.cpp:75-81 | finalisation visits each leftover task once, in queue order: the k-th event resumes the k-th task if it is cancelled and destroys it otherwise |
| AsyncRuntime.FinalizeEventsLength | src/Async/Async.cpp:75-81 | finalisation produces exactly one event per leftover task |
| AsyncRuntime.FinalizeTally | src/Async/Async.cpp:75-81 | finalisation resumes exactly the cancelled tasks and destroys exactly the others |
| AsyncRuntime.CancelledTasks | src/Async/Async.cpp:75-81 | the tasks resumed by the final sweep are exactly the leftover tasks that are cancelled, and no more of them than were left over |
| AsyncRuntime.CancelledTasksSubMultiset | src/Async/Async.cpp:75-81 | the final sweep resumes each leftover task at most as often as it was left over |
| AsyncRuntime.FinalizeAdvance | src/Async/Async.cpp:75-81 | one more finalised task keeps the loop's account: the queue is the leftovers plus what the cancelled tasks so far scheduled, and the trace is their events |
| AsyncRuntime.NoLoopInitInFinalize | src/Async/Async.cpp:74-83 | finalisation never starts a loop |
| AsyncRuntime.NoLoopInitInClose | src/Async/Async.cpp:86-95 | closing handles never starts a loop |
| AsyncRuntime.Runtime.constructor | src/Async/Async.cpp:7-15 | the initial state: no loop, trigger not armed, empty queue, no handles |
| AsyncRuntime.Runtime.Schedule | src/Async/Async.cpp:32-39 | the task goes to the back of the queue and the queued tasks keep their order; the trigger is armed exactly when a loop exists, it was not armed and the queue was empty; the invariant "a loop and a non-empty queue mean an armed trigger" is kept |
| AsyncRuntime.Runtime.Resume | src/Async/Async.cpp:26 | resuming a task logs it and appends what it schedules to the queue, arming the trigger as `schedule` does |
| AsyncRuntime.Runtime.Each | src/Async/Async.cpp:17-28 | the trigger is disarmed only when the queue is empty on entry; the whole queue is taken as the batch before any resume; afterwards the queue holds exactly what the batch scheduled, in order |
| AsyncRuntime.Runtime.Init | src/Async/Async.cpp:41-49 | the loop exists, the trigger is armed and registered, the queue is untouched, and the trace logs the loop start and then the trigger start |
| AsyncRuntime.Runtime.Stop | src/Async/Async.cpp:86-95 | every handle not already closing is closed, in walk order; no handle already closing is closed again; nothing else changes |
| AsyncRuntime.Runtime.Finalize | src/Async/Async.cpp:74-81 | every leftover task is visited once in queue order, cancelled ones resumed and others destroyed; what the resumes schedule is appended to the queue |
| AsyncRuntime.Runtime.FinalizeOne | src/Async/Async.cpp:76-80 | one leftover task is resumed if cancelled and destroyed otherwise |
| AsyncRuntime.Runtime.Drive | src/Async/Async.cpp:66 | running the loop leaves the queue, the trigger and the events exactly as `DriveFrom` gives them (each iteration drains through `each` when armed, then I/O schedules), keeps the invariant, leaves the loop and handles in place and never starts a second loop |
| AsyncRuntime.Runtime.IdlePhase | src/Async/Async.cpp:17-28 | the idle phase of an iteration runs `each` exactly when the trigger is armed, with the effect `IdleStep` gives |
| AsyncRuntime.Runtime.ScheduleBatch | src/Async/Async.cpp:32-39 | the I/O callbacks of an iteration schedule their tasks in order, with the effect `ScheduleAll` gives |
| AsyncRuntime.DriveConserves | src/Async/Async.cpp:17-39 | a drive loses no task: each task queued at its start, scheduled by I/O, or spawned by a task it resumed, is either resumed or still queued at its end, counted with multiplicity |
| AsyncRuntime.Runtime.Teardown | src/Async/Async.cpp:68-83 | the handles are closed, then the leftover tasks are finalised, and the loop is cleared |
| AsyncRuntime.Runtime.Run | src/Async/Async.cpp:51-84 | `init` runs only when no loop exists; the pool size is `PoolSize`; the drive's events and the leftover queue are those `DriveFrom` gives from the starting queue (with the trigger armed by `init` when it ran); the handles the teardown closes are the existing ones or just the idle handle; after the run the loop is cleared, no handle is left and the leftover queue was finalised in order |
| AsyncRuntime.DeferralScenario | src/Async/Async.cpp:23-27 | a task scheduled while a batch is being resumed is not resumed in that batch but in the next one |
| AsyncRuntime.Drain | src/Async/Async.cpp:17-28 | one callback on a non-empty queue logs exactly the resumes of the queued batch, leaves what the batch scheduled in the queue, and keeps the trigger armed |
| MessageFraming.Decimal | src/Async/Network.cpp:241-242 | a size is written as at least one decimal digit |
| MessageFraming.DigitRun | src/Async/Network.cpp:28 | `consumeInteger` reads the longest run of leading digits: the run is all digits and the next character is not a digit |
| MessageFraming.ParseHeader | src/Async/Network.cpp:28-29 | a header is `Content-Length: `, at least one digit of a value that fits in `size_t`, then exactly `\r\n\r\n` |
| MessageFraming.PeekSpec | src/Async/Network.cpp:25-35 | a message is returned only after a well-formed header and only when the whole body is buffered; it is exactly the announced number of bytes after the header |
| MessageFraming.DecimalRoundTrip | src/Async/Network.cpp:241-242 | reading back the written decimal gives the size |
| MessageFraming.DigitRunOfDigits | src/Async/Network.cpp:28 | a digit string followed by a non-digit is read exactly up to the non-digit |
| MessageFraming.DecimalValuePrefix | src/Async/Network.cpp:28 | a longer prefix of a digit string never has a smaller value, so the overflow check on the whole run covers every prefix |
| MessageFraming.DigitRunIsMaximal | src/Async/Network.cpp:28 | any digit prefix is covered by the run, and a run ended by a non-digit or by the end of the input is exactly that prefix |
| MessageFraming.DigitRunAtLeast | src/Async/Network.cpp:28 | every all-digit prefix is no longer than the run |
| MessageFraming.HeaderAtCursor | src/Async/Network.cpp:28-29 | reading the header with a cursor as `peek` does decides the same header: a failed integer read means no header, and otherwise the header exists exactly when the blank line follows the digits |
| MessageFraming.WrittenHeaderFields | src/Async/Network.cpp:241-242 | in a written header the digit run is exactly the written size's digits, it reads back as the size, and the blank line follows it |
| MessageFraming.HeaderOf | src/Async/Network.cpp:28-29 | `Content-Length: ` + a written size + anything starting with the blank line parses to that size, with the header's exact length |
| MessageFraming.HeaderRoundTrip | src/Async/Network.cpp:241-242 | the header `write` produces parses back to the body's size, whatever bytes follow |
| MessageFraming.PeekFrame | src/Async/Network.cpp:25-35 | peeking a framed body followed by any bytes returns exactly the body and ends right after it |
| MessageFraming.EmptyFramePeeksEmpty | src/Async/Network.cpp:59 | a zero-length frame peeks as the empty message, which `on_read` treats as no message |
| MessageFraming.IncompleteBodyPeeksNothing | src/Async/Network.cpp:29 | while the body is incomplete, `peek` yields nothing |
| MessageFraming.HeaderOfPrefix | src/Async/Network.cpp:28-29 | the header already parses when only part of the body has arrived |
| MessageFraming.MessageBuffer.constructor | src/Async/Network.cpp:19 | a new buffer is empty and its cursor is not yet set |
| MessageFraming.MessageBuffer.Append | src/Async/Network.cpp:21-23 | the buffer is extended at the end by exactly the given bytes; the cursor is untouched |
| MessageFraming.MessageBuffer.Peek | src/Async/Network.cpp:25-35 | the buffer is not modified; on success the result is the message `PeekSpec` gives and the cursor is set just past it; otherwise the result is empty and the cursor unchanged |
| MessageFraming.MessageBuffer.Consume | src/Async/Network.cpp:37-40 | after a successful `peek`, exactly the first `pos` bytes are removed, the rest keep their order, and `pos` becomes 0 |
| MessageFraming.ConsumeInteger | src/Async/Network.cpp:28 | reading the size fails exactly when there is no digit or the value exceeds `size_t`; otherwise it reads the whole digit run and its value |
| MessageFraming.OnRead | src/Async/Network.cpp:51-78 | a positive read appends the bytes; a complete non-empty message that parses schedules the callback's task and is consumed; a dispatch arms the trigger exactly as `schedule` does and changes nothing else in the runtime; an empty or incomplete message and a parse failure leave the runtime unchanged and the cursor where `peek` puts it; a parse failure and a read error other than end-of-stream are fatal; a zero or negative read changes neither the buffer nor the runtime |
| MessageFraming.DeliverFrame | src/Async/Network.cpp:51-78 | a framed non-empty body arriving on an empty buffer is dispatched exactly, and only the trailing bytes stay buffered |
| EnumHelper.SizeAdd | include/Support/Enum.h:27 | `size_t` addition is the sum modulo 2^64 |
| EnumHelper.SizeSub | include/Support/Enum.h:35 | `size_t` subtraction is the difference modulo 2^64 |
| EnumHelper.StripQualifier | include/Support/Enum.h:36-37 | what follows the last `::` holds no `::` |
| EnumHelper.ExtractEnumName | include/Support/Enum.h:22-38 | the extraction fails exactly when the signature is empty or its first `=` is its last character; the name it gives holds no `::` |
| EnumHelper.WindowOfSignature | include/Support/Enum.h:27-35 | the window runs from two past the first `=` to just before the last character |
| EnumHelper.StripQualifiedName | include/Support/Enum.h:36-37 | a qualified identifier loses exactly its qualifier |
| EnumHelper.PrettyFunctionName | include/Support/Enum.h:22-38 | a signature of the form `... = Qualifier::Name]` gives `Name` |
| EnumHelper.EnumMax | include/Support/Enum.h:40-47 | the result is the first `N` from `n` on whose value, `N` cast to `uint8_t` and so wrapped past 255, is spelled with a `)`; it lies within one turn of the 256 underlying values from `n`; there is none, and the instantiation never ends, exactly when no underlying value is spelled with a `)` |
| EnumHelper.EnumMaxFrom | include/Support/Enum.h:40-47 | the recursion from `n + k` finds the first wrapped value spelled with a `)` within the turn, or reports that none of the rest of the turn has one |
| EnumHelper.EnumMaxWrapsToZero | include/Support/Enum.h:42-46 | with enumerators from `n` to 255 and no enumerator 0, the cast of 256 wraps to the undeclared 0, so `enum_max` gives 256 |
| EnumHelper.AsWrittenShiftsByBegin | include/Support/Enum.h:57-60 | as written, `enum_name(E)` gives the name of `value - begin`, which is the right name only when `begin` is 0 |
| EnumHelper.AsWrittenMisnamesWhenBeginIsNotZero | include/Support/Enum.h:57-60 | for an enum starting at 1, the value 1 is given the spelling of the undeclared value 0 |
| EnumHelper.EnumName | include/Support/Enum.h:57-60 | the corrected table names a value exactly when it lies in `[begin, end)` |
| EnumHelper.EnumNameIsSpelling | include/Support/Enum.h:57-60 | the corrected table names every value of the range by its own enumerator |
| EnumHelper.EnumInfo.NameOf | include/Support/Enum.h:223-237 | with the bitmask's `std::size_t` bounds (`begin()` is `FirstEnum` or 0; `end()` is `LastEnum`, or `enum_max` from `begin()`), a value has a name exactly when it lies in `[begin(), end())`, and the name is its own (through the corrected table) |
| EnumHelper.EnumInfo.PlainNameOf | include/Support/Enum.h:106-120 | with the plain enum's bounds narrowed to `uint8_t`, a value has a name exactly when it lies in `[begin(), end())`, and the name is its own (through the corrected table); only declarations with `begin() <= end()` after narrowing are accepted |
| EnumHelper.PlainNameOfAgrees | include/Support/Enum.h:106-120 | when both bounds are below 256 the narrowing changes nothing: the plain enum is accepted and names values as the `std::size_t` bounds do |
| EnumHelper.PlainWrapIsRejected | include/Support/Enum.h:114-119 | enumerators `n..255` with no enumerator 0 make the plain `end()` narrow `enum_max`'s 256 to 0, below `begin()`, so the plain enum's `name()` is rejected |
| EnumHelper.NameOfAgreesWhenBeginIsZero | include/Support/Enum.h:57-60 | when the values start at 0, as `ErrorKind`'s do, the corrected table and the table as written name every value alike |
| EnumHelper.DerivedEndNamesDeclared | include/Support/Enum.h:114-119 | when `end()` comes from `enum_max`, every `uint8_t` value in range is a declared enumerator |
| EnumHelper.PlainEnumNameAndTruth | include/Support/Enum.h:90-97 | a plain enum is true exactly when it is not `InvalidEnum`; `name()` is its own enumerator's name inside the narrowed `[begin(), end())` and nothing outside it |
| EnumHelper.BitsDetermineMask | include/Support/Enum.h:194 | two masks with the same bits are equal, so `==` on masks is equality of bit sets |
| EnumHelper.SetBit | include/Support/Enum.h:199 | OR-ing in `1 << k` sets bit k and leaves every other bit as it was |
| EnumHelper.KeepBit | include/Support/Enum.h:205 | AND-ing with `1 << k` gives bit k alone if it was set, and 0 otherwise |
| EnumHelper.KindsMask | include/Support/Enum.h:149 | the constructor from kinds sets exactly the bits of the given kinds |
| EnumHelper.NoBitsNoNames | include/Support/Enum.h:167-172 | a mask with no bit set contributes no name |
| EnumHelper.EmptyMaskName | include/Support/Enum.h:164-184 | the name of the empty mask is the empty string |
| EnumHelper.OneBitNames | include/Support/Enum.h:167-181 | a mask with one bit set names just that kind |
| EnumHelper.SingleKindName | include/Support/Enum.h:164-184 | the name of a single-kind mask is that kind's name, with no separator |
| EnumHelper.BitmaskEnum.FromValue | include/Support/Enum.h:144 | the mask holds exactly the given value |
| EnumHelper.BitmaskEnum.FromKinds | include/Support/Enum.h:147-152 | the mask holds exactly the bits of the given kinds |
| EnumHelper.BitmaskEnum.Or | include/Support/Enum.h:196-200 | a new mask with bit k set and the receiver unchanged |
| EnumHelper.BitmaskEnum.And | include/Support/Enum.h:202-206 | a new mask holding bit k alone if it was set, else 0 |
| EnumHelper.BitmaskEnum.OrAssign | include/Support/Enum.h:208-213 | bit k is set in place and every other bit is unchanged |
| EnumHelper.BitmaskEnum.AndAssign | include/Support/Enum.h:215-220 | the value becomes bit k alone if it was set, and 0 otherwise |
| EnumHelper.BitmaskEnum.Name | include/Support/Enum.h:164-184 | the names of the set bits, lowest first, separated by a space, a vertical bar and a space |
| EnumHelper.BitmaskTruth | include/Support/Enum.h:190-192 | a mask is true exactly when some bit is set |
| EnumHelper.SetBitLaws | include/Support/Enum.h:208-213 | setting a bit twice is setting it once, and bits can be set in either order |
| EnumHelper.Truncate | include/Support/Enum.h:262 | converting a JSON number to an integer truncates toward zero |
| EnumHelper.SerdeRoundTrip | include/Support/Enum.h:256-263 | deserialising a serialised enum gives the same underlying value |
| EnumHelper.ByteRoundTrip | include/Support/Enum.h:262 | a value of 0 .. 255 survives conversion to `uint8_t` |
| EnumHelper.DeserializeSerialize | include/Support/Enum.h:256-263 | serialising a deserialised whole number of 0 .. 255 gives the same JSON number |
| SelectionTree.TruthIsRoot | include/AST/Selection.h:78-86 | `operator bool`, `hasValue` and a non-null `getRoot` agree |
| SelectionTree.FarthestFullOnChain | include/AST/Selection.h:100-103 | the answer lies on the first-child chain; every node before it covers fully and has children; the walk cannot go on from the answer |
| SelectionTree.FullDepthIsFirstStop | include/AST/Selection.h:100-103 | the answer is the first node on the chain where the walk must stop, and no other depth qualifies |
| SelectionTree.FarthestFullCoverageNode | include/AST/Selection.h:96-106 | the result is null exactly when there is no root; otherwise it is the farthest node of the full-coverage first-child walk |
| SelectionTree.FarthestMayBePartial | include/AST/Selection.h:96-106 | the answer may be a node that covers only partly, although the doc comment says it covers fully |
| InlayHint.LspPositionRoundTrip | src/Feature/InlayHint.cpp:19-25 | a valid presumed position maps to line - 1, column - 1; conversion is a bijection; an invalid (0, 0) position wraps to the largest value |
| InlayHint.LspRangeRoundTrip | src/Feature/InlayHint.cpp:27-32 | both ends of a range are converted independently |
| InlayHint.NeedFilterIsOverlap | src/Feature/InlayHint.cpp:67-80 | for valid ranges, a range is kept exactly when it shares a location with the limit and both ends are in the main file |
| InlayHint.CommentedArgumentNeedsNoHint | src/Feature/InlayHint.cpp:126-132 | an argument whose text holds `/*` and `*/` gets no hint |
| InlayHint.PlainArgumentNeedsHint | src/Feature/InlayHint.cpp:117-135 | a named parameter with an argument that is not a single name and whose text does not hold both `/*` and `*/` gets a hint |
| InlayHint.SlashFreeTextHasNoComment | src/Feature/InlayHint.cpp:130-131 | a text without any `/` holds no `/*` |
| InlayHint.ParamLabel | src/Feature/InlayHint.cpp:153-156 | the label is the parameter name, then `&` exactly when the parameter is a mutable lvalue reference, then `:` |
| InlayHint.ArgumentHintsShape | src/Feature/InlayHint.cpp:142-169 | at most one hint per index below min(params, args); each is a Parameter hint whose label ends with `:` |
| InlayHint.StopsAtFirstTailArgument | src/Feature/InlayHint.cpp:144-148 | nothing from the first pack-expansion or default argument on is hinted |
| InlayHint.EveryArgumentHinted | src/Feature/InlayHint.cpp:144-168 | when every argument is plain and needs a hint, the hints are one per pair, in order, each at its argument |
| InlayHint.InlayHintCollector.constructor | src/Feature/InlayHint.cpp:47-61 | a collector starts with no hints and keeps its source manager, limit and document |
| InlayHint.InlayHintCollector.CollectAutoDeclHint | src/Feature/InlayHint.cpp:85-102 | one Type hint is appended at the end of the identifier, linked to the declaration when there is one; earlier hints are kept |
| InlayHint.InlayHintCollector.CollectArgumentHint | src/Feature/InlayHint.cpp:142-170 | the hints appended are exactly those of the argument-hint rule, after the earlier ones |
| InlayHint.InlayHintCollector.CollectReturnTypeHint | src/Feature/InlayHint.cpp:361-376 | one hint with the `-> ` label is appended at the given location, linked to the declaration, with the kind Parameter as in the code |
| InlayHint.IsSimpleSetter | src/Feature/InlayHint.cpp:311-334 | a method is a simple setter exactly when it has one parameter, its name starts with `set` ignoring case, and the rest of its name without `_` equals the parameter name without `_`, ignoring case |
| InlayHint.CopyWithoutUnderscores | src/Feature/InlayHint.cpp:325-331 | each copying loop keeps exactly the characters other than `_`, in order |
| InlayHint.CompareInsensitive | src/Feature/InlayHint.cpp:333 | the comparison holds exactly when the two names are equal ignoring ASCII case |
| InlayHint.SetterOfItsOwnField | src/Feature/InlayHint.cpp:319-333 | a name `set` + field, with "set" in any case, whose field matches the parameter name ignoring case and underscores, is a simple setter |
| InlayHint.SetXIsSimple | src/Feature/InlayHint.cpp:319-333 | `setX(x)` is a simple setter |
| InlayHint.UnderscoresDoNotCount | src/Feature/InlayHint.cpp:323-333 | underscores around the field part of the name do not matter |
| InlayHint.LongerParamIsNotSimple | src/Feature/InlayHint.cpp:319-333 | a parameter whose name differs in length from the rest of the method's name, underscores aside, makes no simple setter |
| InlayHint.Unwrap | src/Feature/InlayHint.cpp:242-252 | unwrapping leaves no pointer, attributed or paren layer |
| InlayHint.UnwrapIdempotent | src/Feature/InlayHint.cpp:242-252 | unwrapping twice is unwrapping once, and a pointer to a parenthesised type unwraps like the type |
| InlayHint.DetectCallViaFnPointer | src/Feature/InlayHint.cpp:239-257 | a prototype is found exactly when there is a type loc and what remains after unwrapping is a function prototype; its parameters are that prototype's |
| Text.Remove | src/Feature/InlayHint.cpp:325-331 | the result never holds the removed character, and holds every other character of the input |
| Text.RemoveCounts | src/Feature/InlayHint.cpp:325-331 | removal keeps every other character with its multiplicity, drops every copy of the removed one, and leaves a string without it unchanged |
| Text.RemoveAppend | src/Feature/InlayHint.cpp:325-331 | removal distributes over concatenation |
| Text.Find | include/Support/Enum.h:27 | `find` gives the first occurrence, or nothing exactly when the character is absent |
| Text.RFind | include/Support/Enum.h:36 | `rfind` gives the last occurrence, or nothing exactly when the pattern is absent |

## Left out

- libuv itself is not part of this model: the internals of `uv_run`, `uv_idle_*`, `uv_walk`, `uv_loop_close`, and checking their return codes.
  - `uv_run` is the abstract `Drive`: each iteration drains the queue if the trigger is armed, then lets I/O schedule tasks. Timers, the order of libuv's other phases within an iteration and when the loop decides to return are not modelled; the number of iterations and what I/O schedules in each are parameters.
  - The `UV_THREADPOOL_SIZE` environment string is not modelled.
- Coroutine frames are not modelled. A resume is the list of tasks it schedules; a destroy is a logged event.
- AsyncRuntime.Runtime.Drive: the resume oracle `spawns(t)` depends on the task only, so every resume of the same task schedules the same tasks. A coroutine that suspends several times and does something different after each suspension (starts an operation, then wakes its awaiting parent; yields once, then finishes) is not expressed, and nothing is stated about such tasks.
- AsyncRuntime.Runtime.Run: inherits the same history-free resume oracle through `Drive`.
- AsyncRuntime.DriveConserves: holds for the same history-free resume oracle only.
- Finalisation in `run` iterates the live queue while a resumed task may still append to it, which is undefined for a deque. The model finalises a snapshot of the queue and appends what the resumes schedule after it.
- The queue is never cleared after finalisation in the source, and the model keeps it that way.
- `AsyncRuntime.Runtime.Register` stands for handles that code outside this model opens (streams, timers). It exists so that `stop` has handles to close.
- `init` has no guard against a second call. The model follows the code: calling it again re-creates the loop.
- `listen`, `spawn`, `on_alloc` and the `uv_write` awaiter are not modelled.
  - From `write`, only the header and the framing are modelled.
  - JSON parsing in `on_read` is the oracle `parses`.
  - The callback is a task id.
  - `log::fatal` aborts the process; the model returns `ParseFailed` or `ReadFailed` instead.
  - Closing the stream at end-of-stream is reported as `EndOfStream`; the stream handle itself is not modelled.
- `MessageBuffer`'s `pos` starts uninitialised. The model tracks, in a ghost flag, whether a `peek` has set it, and `consume` requires that flag.
- `src/Server/Scheduler.cpp` and `src/Server/Lifecycle.cpp` are not part of this model. They coordinate concurrent requests and do file I/O.
- The MSVC branch of `enum_name<value>` is not modelled; only the GCC/Clang `function_name()` layout is.
  - A compiler signature is a string parameter.
  - The spelling of each value is a function parameter, because it comes from the compiler.
- `all()` returns the name table, which `EnumHelper.EnumTable` models as written. No separate member models it.
- EnumHelper.EnumInfo.NameOf: uses the corrected table of the Enum.h:57-60 finding, so a value is named `spelling(value)`; the code names it `spelling(value - begin)`. The two agree when `begin()` is 0 (`EnumHelper.NameOfAgreesWhenBeginIsZero`), which is the case for the one enum that uses the helper.
- EnumHelper.EnumInfo.PlainNameOf: uses the same corrected table over the narrowed bounds.
- EnumHelper.PlainEnum.Name: goes through `PlainNameOf`, so it uses the corrected table of the Enum.h:57-60 finding.
- EnumHelper.PlainEnumNameAndTruth: its `name()` half states the corrected naming of the Enum.h:57-60 finding, not the code's.
- EnumHelper.BitmaskEnum.Name: names each set bit through the corrected table of the Enum.h:57-60 finding.
- EnumHelper.OneBitNames: names the bit through the corrected table of the Enum.h:57-60 finding.
- EnumHelper.SingleKindName: names the kind through the corrected table of the Enum.h:57-60 finding.
- EnumHelper.Nameable: bitmask `name()` requires every set bit to be a named kind. A mask built with `FromValue` can have a bit at or above `end()`, and then the code reads past the name table, which is undefined behaviour; the model does not cover that case.
- `==` on both enums is default member-wise equality.
  - The plain enum is a datatype, so it gets value equality.
  - For the bitmask, equality is on `value`, and `EnumHelper.BitsDetermineMask` shows that equal bits mean equal values.
- The bitmask's default constructor leaves `m_Value` uninitialised. It is not modelled.
- Serde: the underlying type is fixed to `uint8_t`, the template's default.
  - JSON values other than numbers are a single `Other` case.
  - `deserialize`'s `assert` becomes a precondition.
  - Converting a number outside -1 .. 256 to `uint8_t` is undefined behaviour, so the model excludes it.
  - `EnumHelper.DeserializeSerialize` holds for whole numbers only, because deserialising truncates a fraction.
- The selection tree's node storage (a deque), parent pointers, the clang node and `dump` are not modelled. A node is a value that holds its children.
  - The default constructor's `root` has no initialiser. The model's empty tree has no root, which is what the source's null check assumes.
  - The building of the tree (`selectOffsetRange` and friends) is not shown and is not modelled.
- Clang's AST traversal is not modelled:
  - `TraverseDecl`, `VisitVarDecl`, `VisitCallExpr`, `VisitCXXOperatorCallExpr`, `VisitCXXMemberCallExpr`, `VisitFunctionDecl` and `VisitLambdaExpr`;
  - which arguments they drop in front;
  - `isBuiltinFnCall`, `takeExprIdentifier` and type printing (`getAsString`).
  - The collectors receive the parameter, argument, type text and locations those visitors compute.
- Where the typedef or variable type loc comes from in `detectCallViaFnPointer` is not modelled. The loop starts from an optional type loc.
- `needHintArgument` reads the argument text from its source range; the model takes that text as a field of the argument.
- PlainArgumentNeedsHint: covers arguments that are not a single name. An argument naming a different variable is hinted by the same rule (`NeedHintArgument`), but no separate lemma states that case.
- The hint tooltip (always blank), the configuration, and the `inlayHint` entry point with its capability are not modelled.
- Positions are unsigned 32-bit. Only the wrap of `- 1` at 0 matters; `InlayHint.Pred32` makes it explicit and `InlayHint.LspPositionRoundTrip` states it.

## Findings

| source | as written | input that shows it | evidently intended | confidence | as-written member | corrected member |
|---|---|---|---|---|---|---|
| include/Support/Enum.h:57-60 | `enum_table<E, end - begin>` holds the names of the values 0 .. end-begin-1, but `enum_name(E)` looks up `table[value - begin]` | an enum with `FirstEnum = 1` and enumerators 1 and 2: the value 1 is given the spelling of the value 0, such as `(Kind)0` | the table holds the names of `begin .. end-1`, so that each value is named by its own enumerator | not executed | EnumHelper.AsWrittenMisnamesWhenBeginIsNotZero | EnumHelper.EnumNameIsSpelling |

Two other places where the code and its comments disagree are modelled as the code behaves:

- `getFarestFullCoverageNode` can return a node that covers only partly (`SelectionTree.FarthestMayBePartial`).
- `collectReturnTypeHint` marks the return-type hint as a Parameter hint, not a Type hint.
