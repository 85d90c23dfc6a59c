# handbook core, modelled in Dafny

This project models four pieces of the handbook repository and proves what they promise:

- **Majority vote** (`majority.dfy`, module `Majority`). `Hand39` is the Boyer–Moore vote: one pass over the numbers with one candidate `itm` and one counter `cnt`. The method works on a `seq<int>`, which it never writes. `cnt` is a `nat`, so every decrement in the loop carries the proof that the counter is positive at that point. The loop invariants bound the occurrences of the candidate and of every other value in the prefix read so far. From them the method proves three things: whenever some value fills more than half of the input, the result is that value; for a non-empty input the result is one of its elements; for an empty input it is Go's zero value 0.
- **Stair climbing** (`climb_stairs.dfy`, module `ClimbStairs`). `Hand10_2` counts the ways to climb `n` stairs with steps of 1 or 2, modulo 1000000007. `Ways` is the recurrence the program evaluates. `Climbs` is an independent enumeration of all step sequences, and lemmas prove it sound, complete and free of repeats, with `|Climbs(n)| == Ways(n)`. The loop is proved to keep `a` and `b` equal to the reduced counts for `i - 2` and `i - 1` stairs, both below the modulus. So the result is `Ways(n) % 1000000007`: 1 for `n <= 0`, and `n` for one or two stairs.
- **Wrapped errors** (`gerror.dfy`, module `GError`). An `Error` is one level of a chain: its text, an optional code, and the error it wraps.
  - The wrapped error is another `*Error`, which may be nil, or a foreign error with a message and possibly its own `Cause()`.
  - `ErrorString` is `Error()`; it is proved to be the ": "-join of the levels' messages, where every empty message except the innermost is dropped.
  - `Cause` walks the chain in a loop and is proved equal to the recursive `RootCause`.
  - `Current` and `Next` split a level into its own part and the wrapped error; putting the two back together gives the level back.
  - `SetCode` updates a level held as a heap object (`ErrorNode`), and a code is proved to show only where the text is empty.
  - `MarshalJSON` puts the message between double quotes.
- **First-occurrence search** (`kmp.dfy`, module `StringSearch`). The tests of `StringKMP` are consistent with a search for the first occurrence of a pattern in a text: a 0-based offset, or -1 when there is none. `StringKMP` is specified as that search, and both tested cases are proved. `KmpSearch` is an imperative Knuth–Morris–Pratt matcher. It builds a prefix table in an `array<int>` (`PrefixTable`), then reads the text once, falling back through the table on a mismatch (`Step`). It is proved to return exactly `StringKMP(text, pattern)`.

Go's nil is `None` of an `Option`. A nil `*Error` is `Option<Error>.None`. A nil `error` interface is `Option<GoError>.None`. A non-nil interface holding a nil `*Error` is `Internal(None)`.

## Model

| member | source | states |
|---|---|---|
| Majority.Hand39 | algorithm/offer/four/39.go:8-23 | If some value occurs in more than half of `nums`, the vote returns it. A non-empty input yields one of its elements, and an empty one yields 0. The counter never goes below zero, and the input is read and never written. |
| Majority.MajorityUnique | algorithm/offer/four/39.go:3-6 | The assumed majority element is unique: two values that both fill more than half of the input are equal. |
| Majority.CountsDisjoint | algorithm/offer/four/39.go:3-6 | Two different values together occur at most as often as there are elements. This is the step behind `MajorityUnique`. |
| ClimbStairs.Hand10_2 | algorithm/offer/one/10-2.go:15-27 | The result is `Ways(n)` reduced modulo 1000000007 and lies in `[0, 1000000007)`. It is 1 for `n <= 0` and `n` for one or two stairs. |
| ClimbStairs.ReducedStep | algorithm/offer/one/10-2.go:22-25 | The reduced count for `i` stairs follows from the reduced counts for `i - 2` and `i - 1`, so the update `a, b = b, (a+b)%p` keeps the loop invariant. |
| ClimbStairs.AddMod | algorithm/offer/one/10-2.go:24 | Reducing the two summands before adding does not change the reduced sum. |
| ClimbStairs.ClimbsSound | algorithm/offer/one/10-2.go:4 | Every listed step sequence climbs exactly `n` stairs with steps of 1 or 2. |
| ClimbStairs.ClimbsComplete | algorithm/offer/one/10-2.go:4 | Every sequence of 1- and 2-steps that climbs `n` stairs is listed, and none climbs a negative height. |
| ClimbStairs.ClimbsDistinct | algorithm/offer/one/10-2.go:4 | No way of climbing is listed twice. |
| ClimbStairs.ClimbsCount | algorithm/offer/one/10-2.go:4-6 | The recurrence counts the listed climbs, so `Ways(n)` is the number of distinct ways to climb `n` stairs. |
| GError.ErrorString | Golang/cookbook/gerror/gerror_error.go:43-58 | A nil receiver gives "". The level's own message (its text, or its code's message when the text is empty) starts the result, and with nothing wrapped it is the whole result. |
| GError.ErrorStringJoinsLevels | Golang/cookbook/gerror/gerror_error.go:43-58 | The message of a chain is its levels' messages joined by ": ", outermost first. Empty messages are dropped, except the innermost. |
| GError.GoErrorStringJoinsLevels | Golang/cookbook/gerror/gerror_error.go:51-56 | The same join law for a wrapped error reached through the `error` interface. |
| GError.Cause | Golang/cookbook/gerror/gerror_error.go:73-96 | The loop returns the root cause, as follows. It follows wrapped `*Error` levels. At the first foreign error it returns that error's `Cause()` if it has one, else the foreign error itself. At a level that wraps nothing it returns a new plain error with that level's text. At a nil `*Error` it returns nil. |
| GError.RootCauseEndsMessage | Golang/cookbook/gerror/gerror_error.go:77-93 | When no foreign error in the chain has its own `Cause()`, the root cause is nil or a plain foreign error, and its message ends the chain's message. |
| GError.Current | Golang/cookbook/gerror/gerror_error.go:156-168 | A nil receiver gives nil. Otherwise the result is a new non-nil level with the same stack, text and code and nothing wrapped. |
| GError.Next | Golang/cookbook/gerror/gerror_error.go:170-177 | A nil receiver gives nil. |
| GError.CurrentNextRebuild | Golang/cookbook/gerror/gerror_error.go:158-177 | Putting `Next()` back into the level `Current()` returns gives the original level. So `Next()` is exactly the wrapped error, and the split loses nothing. |
| GError.CurrentAndNextMessages | Golang/cookbook/gerror/gerror_error.go:158-177 | The current level alone shows the level's own message. The whole message starts with it and, when something is wrapped, ends with the next error's message. |
| GError.ErrorNode.constructor | Golang/cookbook/gerror/gerror_error.go:19-24 | A heap level holds exactly the given text, code, stack and wrapped error. |
| GError.SetCode | Golang/cookbook/gerror/gerror_error.go:179-185 | On a nil receiver nothing changes. Otherwise only the code field changes, to the given code. |
| GError.CodeOnlyFillsEmptyText | Golang/cookbook/gerror/gerror_error.go:47-50 | A code set on a level with a non-empty text leaves the message unchanged. On a level with an empty text, the code's message starts the message. The root cause never changes. |
| GError.MarshalJSON | Golang/cookbook/gerror/gerror_error.go:187-191 | The result is the message between two double quotes, two units longer, and the error result is always nil. |
| StringSearch.FirstMatchFrom | Golang/algorithm/pattern_test.go:19-26 | The result is -1 when the pattern occurs at no offset from `from` on. Otherwise it is an offset from `from` on where the pattern occurs, and no earlier such offset has it. |
| StringSearch.StringKMP | Golang/algorithm/pattern_test.go:19-26 | The result is -1 exactly when the pattern occurs nowhere. Otherwise the pattern occurs at the result, and at no smaller offset. |
| StringSearch.KmpTestCases | Golang/algorithm/pattern_test.go:19-26 | Both tested searches answer 5, and the text at offset 5 spells the pattern. That is the only occurrence in each text. The partial match "cde" at offset 2 of the second text is not reported. |
| StringSearch.PrefixTable | Golang/algorithm/pattern_test.go:19-26 | Entry `i` of the table is the length of the longest proper border of the pattern's first `i + 1` units. The first entry is 0, and entry `i` is at most `i`. |
| StringSearch.Step | Golang/algorithm/pattern_test.go:19-26 | One text unit: from the longest pattern prefix ending the text read so far, the fallback loop and the extension give the longest prefix ending the text plus that unit. |
| StringSearch.KmpSearch | Golang/algorithm/pattern_test.go:19-26 | The imperative matcher returns exactly the first-occurrence result `StringKMP(text, pattern)`. |

## Left out

- StringSearch.StringKMP: the implementation of `StringKMP` is not part of this model, only the two tests that call it. The model specifies it as a first-occurrence search. The tests check only two texts, in each of which the pattern occurs exactly once. So three rules are the model's choices, not fixed by the tests: the answer -1 when the pattern occurs nowhere, the first offset when it occurs more than once, and 0 for an empty pattern (a match at offset 0).
- StringSearch.PrefixTable: the model's own prefix table for its KMP matcher. The cited test lines fix only the search result, and the repository's table code is not part of this model.
- StringSearch.Step: the model's own fallback-and-extend step for its KMP matcher. The cited test lines fix only the search result, and the repository's matcher code is not part of this model.
- StringSearch.KmpSearch: written as a KMP matcher with the same contract as `StringKMP`, not as a transcription of the repository's code, which is not part of this model.
- `LongestSubStr`, `SundaySearch` and `Manacher` (also called in the test file): their implementations are not part of this model. The test only prints the results of `SundaySearch` and `Manacher`, and asserts nothing about them. The one result it asserts for `LongestSubStr` cannot be derived without its code.
- Strings are sequences of `char`. Go strings are byte sequences, and no encoding is modelled.
- GError.ErrorNode: `SetCode` updates a single heap level. Levels shared between chains (aliasing of `*Error` pointers) are not modelled. The other operations work on chain values.
- GError.MarshalJSON: quotes and other special characters in the message are not escaped, as in the source. Go's conversion to `[]byte` is the identity on the model's strings.
- `Stack()`, `formatSubStack`, `Format`, `init` and `goRootForFilter`: they are runtime introspection (program counters, `runtime.FuncForPC`, GOROOT) and formatter I/O. The recorded stack is only copied as `seq<nat>`.
- `Code()`: it relies on a package-level `Code` function and a `CodeNil` value, which are not part of this model.
- Foreign errors: `Error()` and `Cause()` of errors from elsewhere, and `Message()` of an error code, are foreign calls. They are modelled as fields (`Foreign(message, causer)`, `ErrorCode(code, message)`). The `errors.New` value returned by `Cause()` is a `Foreign` error with no `Cause()`.
- ClimbStairs.Hand10_2: Go's fixed-width `int` (32 or 64 bits, depending on the platform) is not modelled. `a` and `b` are proved to stay below 1000000007, so `a + b` stays below 2 * 1000000007 < 2^31 and cannot wrap around at either width. The loop counter can: for `n == 2^31 - 1` (32-bit `int`) or `n == 2^63 - 1` (64-bit `int`), `i++` wraps after `i` reaches `n`, `i <= n` stays true and the Go function never returns, while the model, with unbounded integers, returns `Ways(n) % 1000000007`.
- Majority.Hand39: the single pass is the model's one `for` loop over the input, and running time is not stated. When no value fills more than half of the input, the result is only proved to be an element (or 0 when the input is empty), as the source promises nothing more.
- `components/mongodb/index_test.go` and the supervisor middleware example: a database driver and an HTTP server with wall-clock time, all I/O.
