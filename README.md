# Ackermann build command of llbuild, modelled in Dafny

The `buildengine ack M N` command of llbuild computes the Ackermann function
through the build engine. It registers one rule per key `ack(i,j)` that the
computation can need. Each rule creates an `AckermannTask`. The task asks
the engine for its recursive inputs through `start` and `provideValue`, and
`finish` combines them. In debug builds, when `N < 10`, the command compares
the result with a memoized reference computation.

This project models the three parts that `BuildEngineCommand.cpp`
implements:

- **The reference computation `ack`** (`memo.dfy`, module `AckMemo`). It is a
  recursive method over a table of growable rows (`MemoTable.rows`), where 0
  means "not computed yet". It is proved against the pure function
  `Ackermann.Ack`. Every non-zero entry equals `Ack` of its position. Rows
  only grow. Computed entries never change. The entry for `(m, n)` is
  filled on return.
- **The task `AckermannTask`** (`task.dfy`, module `AckTask`). It is a class
  with the source's fields. The engine is reduced to `Engine`, a recorder of
  the `taskNeedsInput` calls made to it. A key `ack(m,n)` is the datatype
  `Key(m, n)`. `Start` and `ProvideValue` state exactly which requests they
  issue and which fields they change. This includes the slot-1 key computed
  from the value delivered on slot 0. `Finish` returns `Ack(m, n)` whenever
  every input holds the Ackermann value of the key it answered.
  `ExpectedRequests` lists the requests a task makes when its inputs are
  correct. `Build` is a small synchronous recursive driver of the protocol.
  It proves that the protocol yields `Ack(m, n)` and issues exactly
  `ExpectedRequests`. `Build` is a harness, not a model of the engine.
- **Rule enumeration and key names** (`rules.dfy`, module `AckRules`, and
  `keys.dfy`, module `AckKeys`). `EnumerateRules` runs the command's two
  nested loops. It registers exactly the keys within the per-row bounds,
  each key once and under distinct names. It counts them in `numRules`.
  `RequestedKeysRegistered` proves the comment "rules for each of the
  necessary results": every key requested transitively from `ack(M,N)` has
  a rule. `KeyNameInjective` and `KeyNameFitsBuffer` are about the
  `"ack(%d,%d)"` text. Distinct keys get distinct names. The name of any
  pair of 32-bit ints fits the 32-byte buffers.

`ackermann.dfy` (module `Ackermann`) holds the mathematical function and
its facts. These are the lower bound `Ack(m, n) >= n + 1`, monotonicity in
`n`, and the closed forms of rows 1 to 3. The row-3 form `Ack(3, n) =
2^(n+3) - 3` is where the command's `pow` bounds come from.

## Model

| member | source | states |
|---|---|---|
| `Ackermann.Ack` | lib/Commands/BuildEngineCommand.cpp:43-49 | the three cases of the recurrence; the result is at least `n + 1`, so never 0 |
| `Ackermann.AckMonotone` | lib/Commands/BuildEngineCommand.cpp:43-49 | `Ack(m, ·)` is non-decreasing in its second argument |
| `Ackermann.AckRow1` | lib/Commands/BuildEngineCommand.cpp:124-125 | `Ack(1, n) = n + 2` |
| `Ackermann.AckRow2` | lib/Commands/BuildEngineCommand.cpp:126-127 | `Ack(2, n) = 2n + 3` |
| `Ackermann.AckRow3` | lib/Commands/BuildEngineCommand.cpp:125 | `Ack(3, n) = 2^(n+3) - 3`, the quantity the row bounds are built from |
| `AckMemo.GrowRow` | lib/Commands/BuildEngineCommand.cpp:36-38 | resizing a row with zeros keeps every computed entry correct and changes none |
| `AckMemo.Record` | lib/Commands/BuildEngineCommand.cpp:51 | storing `Ack(m, n)` at `(m, n)` keeps the table correct and changes no computed entry |
| `AckMemo.MemoTable.constructor` | lib/Commands/BuildEngineCommand.cpp:31 | a table of `m + 1` empty rows, trivially correct |
| `AckMemo.MemoTable.AckInternal` | lib/Commands/BuildEngineCommand.cpp:34-53 | returns `Ack(m, n)`; the table stays correct; the number of rows is unchanged; rows only grow; computed entries are unchanged; afterwards entry `(m, n)` holds the result and is non-zero |
| `AckMemo.AckMemoized` | lib/Commands/BuildEngineCommand.cpp:29-56 | the reference `ack(m, n)` returns `Ack(m, n)` |
| `AckKeys.NatDecimal` | lib/Commands/BuildEngineCommand.cpp:134 | the decimal text of a natural number is non-empty, all digits, and one character long exactly when the number is below 10 |
| `AckKeys.Decimal` | lib/Commands/BuildEngineCommand.cpp:134 | the `%d` text starts with `-` exactly for negative numbers and otherwise has only digits |
| `AckKeys.KeyNameInjective` | lib/Commands/BuildEngineCommand.cpp:133-136 | two keys have the same `"ack(%d,%d)"` name if and only if they are equal |
| `AckKeys.KeyNameFitsBuffer` | lib/Commands/BuildEngineCommand.cpp:74-75 | for 32-bit arguments the name has at most 28 characters, so with its NUL it fits `char[32]` |
| `AckTask.Engine.TaskNeedsInput` | lib/Commands/BuildEngineCommand.cpp:76 | a request is appended to the recorded requests, in call order |
| `AckTask.ExpectedRequests` | lib/Commands/BuildEngineCommand.cpp:69-96 | with correct inputs a task requests at most two keys; request i is on slot i; every requested key is lexicographically below the task's own key; there is no request exactly when `m = 0` |
| `AckTask.AckermannTask.constructor` | lib/Commands/BuildEngineCommand.cpp:61-65 | a task for `(M, N)` with both recursive results 0 |
| `AckTask.AckermannTask.Start` | lib/Commands/BuildEngineCommand.cpp:84-96 | no request for `M = 0`; else exactly one request on slot 0, for `(M-1, 1)` when `N = 0` and for `(M, N-1)` otherwise; no field of the task changes |
| `AckTask.AckermannTask.ProvideValue` | lib/Commands/BuildEngineCommand.cpp:67-82 | slot 0 sets only `recursiveResultA` and requests `(M-1, value)` on slot 1 exactly when `M != 0 && N != 0`; slot 1 sets only `recursiveResultB` and requests nothing; any other slot is refused |
| `AckTask.AckermannTask.Finish` | lib/Commands/BuildEngineCommand.cpp:99-107 | its asserts are preconditions; when every input holds `Ack` of the key it answered, the result is `Ack(M, N)` |
| `AckTask.Build` | lib/Commands/BuildEngineCommand.cpp:59-111 | a task driven by the protocol, with each input built recursively and delivered on its slot, finishes with `Ack(m, n)` and issues exactly `ExpectedRequests` |
| `AckRules.UpperBound` | lib/Commands/BuildEngineCommand.cpp:123-131 | each row bound is at least `N + 1`, so the key `(M, N)` is always registered; its body proves the source's `assert(i == M)` in the `else` branch |
| `AckRules.RuleCountClosedForm` | lib/Commands/BuildEngineCommand.cpp:121-139 | `NumRules` is `2^(N+3) - 1`, `2^(N+4) - 2`, `2^(N+4) + 2^(N+2) - 3`, or `2^(N+4) + 2^(N+2) + N - 1` for `M = 0, 1, 2, 3` |
| `AckRules.RuleCountFitsInt` | lib/Commands/BuildEngineCommand.cpp:121-139 | for `N <= 26` and every `M < 4`, `int(pow(2, N+3) - 3) + 1` and the rule count `NumRules` fit a 32-bit `int` |
| `AckRules.Int32Boundary` | lib/Commands/BuildEngineCommand.cpp:121-139 | both fit exactly when `N <= 28` for `M = 0` (beyond, the cast overflows), `N <= 27` for `M = 1` (beyond, the counter overflows) and `N <= 26` for `M = 2, 3` (beyond, the counter overflows) |
| `AckRules.EnumerateRules` | lib/Commands/BuildEngineCommand.cpp:119-139 | `numRules` equals the number of rules registered and the sum over rows of `UpperBound + 1`; the rules are exactly the keys `(i, j)` with `i <= M` and `j <= UpperBound(i)`; no key repeats; no two rules share a name |
| `AckRules.RegionClosed` | lib/Commands/BuildEngineCommand.cpp:119 | the region of keys a build of `ack(M,N)` can reach contains every key its keys request |
| `AckRules.LimitWithinUpperBound` | lib/Commands/BuildEngineCommand.cpp:122-131 | in every row, the largest key the build reaches is within the registered bound |
| `AckRules.RequestedKeysRegistered` | lib/Commands/BuildEngineCommand.cpp:119-139 | every key on a chain of requests starting at `ack(M, N)` has a registered rule |
| `AckRules.RunAckermannBuild` | lib/Commands/BuildEngineCommand.cpp:114-152 | the command's flow yields `Ack(M, N)` and the rule count; its body proves that the key built and every input the top task asks for have rules, and that the comparison with the reference for `N < 10` holds |

## Left out

- The build engine itself (`addRule`, `registerTask`, `taskNeedsInput`, `build`) is not part of this model. Its implementation lies outside `lib/Commands/BuildEngineCommand.cpp`. The engine's memoization, sharing of keys between tasks, cycle detection and scheduling are not modelled. `Engine` only records requests.
- `AckTask.Build` is a synchronous driver without memoization. It rebuilds a shared key every time it is requested, and it does not claim to reproduce the engine. `AckRules.RunAckermannBuild` uses it in place of `engine.build`. That method's `rules` are not consulted by the driver.
- `AckTask.AckermannTask.ProvideValue`: the `assert(InputID == 1 && "invalid input ID")` is a precondition. The release-build behaviour, where any non-zero slot stores into `RecursiveResultB`, is not modelled.
- `AckTask.AckermannTask.Finish`: the `assert(RecursiveResultA != 0)` and `assert(RecursiveResultB != 0)` are preconditions. `Build` discharges them from `Ack >= 1`.
- `AckRules.EnumerateRules` requires `FitsInt32(M, N)`: `int(pow(2, N+3) - 3) + 1` and the final `NumRules` fit a 32-bit `int`. The command's own guard `N < 1024` lets larger `N` through. `AckRules.Int32Boundary` shows for which `N` each row fits: `N <= 28` for `M = 0`, `N <= 27` for `M = 1`, `N <= 26` for `M = 2, 3`; beyond these the cast (`M = 0`) or the counter (`M >= 1`) overflows. Signed overflow is undefined behaviour in C++, so nothing is claimed for those `N`.
- `AckRules.RunAckermannBuild` requires `FitsInt32(M, N)` for the same reason, since it calls `EnumerateRules`. Its `0 <= M < 4` and `0 <= N` are the asserts at `lib/Commands/BuildEngineCommand.cpp:116-117`. `ExecuteAckermannCommand` does not check the sign, so in a build with `NDEBUG` a negative argument reaches `engine.build` with no rule for `ack(M,N)`. That path is not modelled.
- `pow` works in floating point and its result is cast with `int(...)`. It is modelled by the exact integer `Pow2`, which agrees with it for the exponents allowed here.
- `AckMemo.MemoTable.AckInternal` and `AckMemo.AckMemoized` use unbounded integers. The source stores `int` entries and returns `uint64_t`. For the inputs it checks (`M < 4`, `N < 10`) every value is below 4094.
- Task fields, keys and values are unbounded integers. The source's `int` and `core::ValueType` widths are not modelled, apart from the 32-bit range of `AckKeys.KeyNameFitsBuffer`.
- Key names are modelled as structured `Key` values. Their text is given by `AckKeys.KeyName`. The raw `sprintf` into stack buffers is represented only by the length bound.
- Command-line handling is I/O and library calls, and is not modelled. This covers `ExecuteAckermannCommand` (`strtol` parsing, the `M >= 4` and `N >= 1024` checks, `fprintf` messages), `usage()` with `exit(1)`, the subcommand dispatch in `ExecuteBuildEngineCommand`, and the `std::cout` reports.
- The `#ifndef NDEBUG` switch, heap allocation with `new`, and the task name `"ack()"` are not modelled.
