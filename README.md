# Santa Claus workshop: start-up argument validation

The program `proj2` simulates Santa, his elves and his reindeer. It takes four numeric
arguments: the number of elves (1 to 1000), the number of reindeer (1 to 19), the
longest time an elf works before asking for help (0 to 1000 ms) and the longest
reindeer holiday (0 to 1000 ms). This project models how those arguments are checked
and stored:

- `parseInputArg` accepts an argument only if every character is a decimal digit. It then
  converts it and returns the value if it lies in `[min, max]`. Otherwise it returns the
  sentinel `BAD_INPUT` (-1). This is module `ArgParse` in `arg_parse.dfy`.
- `loadConfigurations` parses `argv[1..4]` against their ranges. It stores each result in
  the global `configs` record of four `short` fields, in order, and stops at the first
  rejected argument. By then the rejected argument's field already holds -1. This is
  class `Configuration.Configs` in `configuration.dfy`.
- `main` exits with 1 when `argc < 5` or an argument is rejected, and with 0 otherwise.
  This is `Configuration.ExitCode` (the decision) and `Configuration.Run` (the flow).

The command line is a `seq<string>` whose first entry is the program name, so `argc` is
its length. The C integer casts are written out: `(int)` keeps the low 32 bits and
`(short)` keeps the low 16 bits, each read as two's complement (gcc's behaviour).
`strtol` on a 64-bit `long` saturates at `LONG_MAX`. These C types and library calls
appear only in `ParseInputArgAsWritten`, `StrtolLP64`, `ToInt32` and `ToShort`.

The code as written accepts two kinds of argument that it evidently means to reject
(see "## Findings"). `ParseInputArgAsWritten` models the code exactly. The intended
behaviour is `Parsed`: a non-empty digit string whose mathematical value lies in the
range. The method `ParseInputArg` computes `Parsed`, and the loader uses it. The two
agree on every non-empty argument whose value, when it is all digits, is below 2^31
(`AsWrittenAgrees`); every argument of one to nine characters is such an argument.
`FieldParseMatchesCode` lifts this to the loader: on a command line whose four
arguments are all such arguments, each field's parse result is the code's own, so the
loaded fields, the result of loading and the exit status are the program's.

## Model

| member | source | states |
|---|---|---|
| `ArgParse.ParseInputArg` | proj2.c:66-86 | Scans for a non-digit with a loop, then converts and range-checks. The result is exactly `Parsed(s, min, max)`: BadInput, or a value within `[min, max]`. |
| `ArgParse.Parsed` | proj2.c:66-86 | Intended parse. The result is BadInput or the decimal value of a non-empty all-digit argument within `[min, max]`. Any non-digit character gives BadInput. |
| `ArgParse.ParsedRejectsIff` | proj2.c:68-85 | The result is BadInput exactly when the argument is empty, holds a non-digit, or has a value outside the range. So the sentinel is unambiguous for every range. |
| `ArgParse.AcceptsInRange` | proj2.c:74-85 | Every number in range, written with any number of leading zeros, is accepted with its value ("007" gives 7). |
| `ArgParse.AcceptedIsDecimal` | proj2.c:66-86 | Every accepted argument is zeros followed by the canonical decimal form of the result, and the result is in range. Together with `AcceptsInRange`, this characterises the accepted arguments in both directions. |
| `ArgParse.ParseInputArgAsWritten` | proj2.c:66-86 | The code as written on LP64 with glibc. The result is BadInput or within `[min, max]` for an all-digit argument. Any non-digit gives BadInput. |
| `ArgParse.AsWrittenSentinelUnambiguous` | proj2.c:80-85 | When `min >= 0` (every call site), the as-written result is BadInput exactly when the argument is rejected. |
| `ArgParse.AsWrittenSentinelAmbiguousBelowZero` | proj2.c:80-85 | With a range containing -1, the valid argument "4294967295" wraps to -1 and cannot be told apart from a rejection. |
| `ArgParse.AsWrittenAgrees` | proj2.c:66-86 | On every non-empty argument whose value, when it is all digits, is below 2^31 (leading zeros allowed, "0000000007" and "2147483647" included), the code as written and the intended parse give the same result. |
| `ArgParse.ShortArgumentsFit` | proj2.c:76 | Every argument of 1 to 9 characters is non-empty and, when all digits, has a value below 2^31. |
| `ArgParse.AsWrittenAgreesOnShort` | proj2.c:66-86 | Corollary: on arguments of 1 to 9 characters, the code as written and the intended parse give the same result. |
| `ArgParse.WrapAroundAccepted` | proj2.c:76-85 | As written, "4294967297" is accepted as 1 in `[1, 1000]`. The intended parse rejects it. |
| `ArgParse.EmptyAccepted` | proj2.c:68-78 | As written, "" is accepted as 0 in `[0, 1000]`. The intended parse rejects it. |
| `ArgParse.StrtolLP64` | proj2.c:76 | strtol on digits: the value when it fits in a 64-bit `long`, otherwise `LONG_MAX`. |
| `ArgParse.ToInt32` | proj2.c:76 | The `(int)` cast gives a 32-bit value congruent to its input modulo 2^32. |
| `ArgParse.DecimalRoundTrip` | proj2.c:76 | Converting the canonical decimal form of `n` gives back `n`. |
| `ArgParse.Decimal` | proj2.c:76 | The canonical decimal form is a non-empty digit string whose first digit is '0' only for 0. |
| `ArgParse.LeadingZeros` | proj2.c:76 | Leading zeros do not change the converted value. |
| `ArgParse.CanonicalForm` | proj2.c:76 | Every non-empty digit string is some zeros followed by the canonical form of its value. |
| `ArgParse.DecimalValueBound` | proj2.c:76 | A string of `n` digits has a value below 10^n. So nine digits never overflow an `int`. |
| `Configuration.ToShort` | proj2.c:95-104 | The `(short)` cast is congruent modulo 2^16, and it is the identity on values that fit in a `short`. |
| `Configuration.FieldParse` | proj2.c:95-104 | Field k's result is BadInput exactly when argument k+1 is invalid for field k's range. Otherwise it is the argument's value within that range. Every result lies in `[-1, 1000]`, so every `short` cast is lossless. |
| `Configuration.FirstFailureFrom` | proj2.c:94-109 | The first rejected field from k on. All fields before it are valid, and it is invalid unless it is 4 (no failure). |
| `Configuration.Configs.constructor` | proj2.c:12-17 | The global record starts with all four fields zero. |
| `Configuration.Configs.LoadConfigurations` | proj2.c:94-109 | Returns true exactly when all four arguments are valid. The new fields are `Loaded(old fields, args)`: parse results up to and including the first rejected field, and the old values after it. |
| `Configuration.LoadSucceedsIff` | proj2.c:94-109 | Loading succeeds if and only if argv[1] is in [1,1000], argv[2] in [1,19], argv[3] in [0,1000] and argv[4] in [0,1000]. |
| `Configuration.LoadedOnSuccess` | proj2.c:95-108 | After success, each field holds its argument's value within its range. |
| `Configuration.LoadedOnFailure` | proj2.c:95-105 | After failure at field f: earlier fields hold their values, field f holds -1, and later fields are unchanged. |
| `Configuration.ExitCode` | proj2.c:41-57 | The exit status is 0 or 1. It is 0 exactly when there are at least five argv entries and loading succeeds. |
| `Configuration.Run` | proj2.c:41-57 | Returns `ExitCode(args)`. With fewer than five entries the configuration is untouched; otherwise it is loaded as `LoadConfigurations` states. |
| `Configuration.FieldParseMatchesCode` | proj2.c:95-104 | When argv[1..4] are all non-empty and their values (when all digits) fit in an `int`, each field's parse result equals what the code as written computes for it. |
| `Configuration.ExtraArgumentsIgnored` | proj2.c:43-56 | Arguments after the fourth change neither the exit status nor the loaded fields. |
| `Configuration.SampleAccepted` | proj2.c:41-57 | `proj2 3 1 0 0` exits with 0. |
| `Configuration.SampleLeadingZerosAndExtraArgument` | proj2.c:41-57 | `proj2 007 19 1000 1000 extra` exits with 0. |
| `Configuration.SampleRejected` | proj2.c:41-57 | Too few arguments, 20 reindeer, "-3" elves and a letter as a time argument all exit with 1. |

## Left out

- The `printf` messages of `main` (proj2.c:44, proj2.c:51) are output only. Just the exit status is modelled.
- The `errno == EINVAL` test after `strtol` (proj2.c:76) is dropped. `errno` is never reset, but a base-10 `strtol` on a digit string never sets `EINVAL`. So for strings that reach the test it never fires.
- `isdigit` on a negative `char` is undefined in C. The digit test is modelled as `'0' <= c <= '9'`, which is `isdigit` in the C locale.
- The C platform is fixed to LP64 with gcc and glibc: 64-bit `long`, modular integer casts, and `strtol("")` giving 0. Other platforms may differ on the two Findings inputs only.
- The Santa, elf and reindeer coordination (shared counters, semaphores, process spawning, random sleeps, the numbered log file) is not part of this model. None of it is in proj2.c, and it is concurrent.
- `ArgParse.ParseInputArg` computes the intended parse, not the code as written. It differs from the code only on an empty argument and on an all-digit argument whose value is 2^31 or more, as recorded under "## Findings".
- `Configuration.Configs.LoadConfigurations` uses the intended parse. Its fields and result differ from the code's only when one of argv[1..4] is empty or has a value of 2^31 or more.
- `Configuration.ExitCode` is stated over the intended parse. On an empty argument or a value of 2^31 or more it can give 1 where the code as written exits with 0.
- `Configuration.Run` inherits the intended parse from `LoadConfigurations`, with the same differences from the code as written.

## Findings

| source | as written | input that shows it | evidently intended | confidence | as-written member | corrected member |
|---|---|---|---|---|---|---|
| proj2.c:76 | `(int)strtol(...)` keeps only the low 32 bits of the converted value before the range check | `proj2 4294967297 1 0 0`: the elf count becomes 1 and is accepted | reject any value outside the range, however many digits | not executed; follows from LP64 `long` and gcc's modular cast | `ArgParse.WrapAroundAccepted` | `ArgParse.ParseInputArg` |
| proj2.c:68-78 | the digit loop accepts the empty string, and `strtol("")` returns 0 without setting `EINVAL` in glibc | `proj2 3 1 "" ""`: both times become 0 and are accepted | reject an argument with no digit | not executed; depends on glibc leaving `errno` unset | `ArgParse.EmptyAccepted` | `ArgParse.ParseInputArg` |
