# A verified model of a small tape-machine interpreter

This project models the interpreter of `src/brainfuck_interpreter.rs`, an
interpreter for the eight-symbol tape language with one extension (`?`
prints the current cell in decimal). The interpreter object holds an `i32`
tape that grows to the right, a cursor, an append-only output buffer and a
marker for the last executed instruction. It scans program text left to
right. For a `[` it finds the matching `]` by counting nesting depth and
runs the text between them as a loop body, through a recursive call.

Modules:

- `Wrappers`: the `Option` type.
- `Cells`: `i32` wrap-around, the `as u8 as char` conversion used by `.`, and
  the decimal text used by `?`, with a parser that reads it back.
- `Brackets`: nesting depth, balanced text, the matching `]` of a `[`
  (`IsMatch`, an independent definition, and `MatchEnd`, the scan), and the
  facts that a match is unique and that balanced text has all its `[`
  matched.
- `Semantics`: the interpreter state as a value (`Machine`) with `Step`
  (one symbol) and `Run` (the recursive executor). This is the specification.
- `Interpreter`: the `BrainFuck` class. Its fields are updated in place. Its
  methods are proved against `Semantics`: `InterpretSlice` ends in exactly
  the state and status that `Run` gives.
- `Properties`: lemmas about `Run` for all programs.
- `Comments`: characters other than the eight symbols are comments.
  Deleting them changes neither the status of a run nor its tape, cursor
  and output.
- `ExampleRuns`: small programs run on a fresh interpreter.

Behaviour captured as the code has it:

- A loop is do-while. A `[` runs its body at once, without testing the
  cell. The cell is tested only when the body's text is used up, and the
  body restarts while the cell is non-zero. So `[>]` on a fresh tape moves
  the cursor to cell 1 (`ExampleRuns.BodyRunsBeforeTest`).
- The offset stored with the last instruction counts from the start of the
  slice being scanned. Inside a loop body that is the body's text, not the
  whole program.
- A `]` that the scan meets by itself (one that closes no open `[`) is
  skipped, like any other character that is not an instruction.
- Every other character is a comment. Removing all comments from a program
  leaves what it does unchanged (`Comments.CommentsIgnored`). Only the
  offsets in the last-instruction marker move, because they count
  characters of the text that is scanned.
- Wherever `Run` reaches a `[`, the whole body is run before anything
  after the matching `]`. If the body does not finish, the outer run does
  not finish either.

Fault policy. The model has two faults. It returns a `Faulted` status for
each and keeps the state reached before the fault:

- `UnmatchedBracket`: `slice_bracket` runs off the end of the text, where
  `unwrap` panics in every build.
- `LeftOfOrigin`: `<` with the cursor on cell 0. Here `pos -= 1` underflows
  a `usize`. That is a panic in a debug build only; a release build wraps
  the cursor instead (see "Left out").

A debug build also panics on `i32` overflow of a cell. The model does not
fault there: it wraps the cell, as a release build does (see "Left out").

Non-termination. A program may loop forever. Each call of the executor
takes `fuel`: the number of times it may still restart its loop body. A
nested body receives whatever its caller has left. A run that would restart
once more with no fuel left ends with `OutOfFuel`. `Properties.FuelMonotone`
shows that fuel never changes a run that ends: with more fuel it ends the
same way. `ExampleRuns.EmptyLoopRunsForever` shows a program that runs out
of fuel whatever the fuel.

Program text is a sequence of characters addressed by index, not by UTF-8
byte offset.

## Model

| member | source | states |
|---|---|---|
| `Interpreter.BrainFuck.constructor` | src/brainfuck_interpreter.rs:13-21 | a new interpreter has tape `[0]`, cursor 0, no last instruction, empty output, so the cursor is on the tape |
| `Interpreter.BrainFuck.CurrentVal` | src/brainfuck_interpreter.rs:34-36 | reads the cell under the cursor, which is always an `i32` |
| `Interpreter.BrainFuck.AddToCurrent` | src/brainfuck_interpreter.rs:38-40 | adds to the cell under the cursor with `i32` wrap-around; nothing else changes and the cursor stays on the tape |
| `Interpreter.BrainFuck.MoveRight` | src/brainfuck_interpreter.rs:42-47 | cursor up by one; the old tape is a prefix of the new one, which is at most one cell longer; the cursor stays on the tape |
| `Interpreter.BrainFuck.MoveLeft` | src/brainfuck_interpreter.rs:49-51 | needs a cursor above 0; cursor down by one, tape, marker and output unchanged |
| `Interpreter.BrainFuck.SliceBracket` | src/brainfuck_interpreter.rs:58-75 | finds a result exactly when the `[` has a matching `]`; the result is the text strictly between the two, which is balanced, and the scan stops just past the `]` |
| `Interpreter.BrainFuck.RunLoopBody` | src/brainfuck_interpreter.rs:88-92 | slices out the body of a `[` and runs it; a fault or unfinished body ends the outer scan with the run's outcome; a finished body leaves exactly the state `Run` gives for the body text, and the outer scan resumes just past the `]` that `MatchEnd` finds |
| `Interpreter.BrainFuck.Execute` | src/brainfuck_interpreter.rs:94-122 | one non-`[` symbol changes the fields exactly as `Semantics.Step` says |
| `Interpreter.BrainFuck.InterpretSlice` | src/brainfuck_interpreter.rs:77-134 | the in-place executor ends in the status and state that `Semantics.Run` gives from the old state |
| `Interpreter.BrainFuck.Interpret` | src/brainfuck_interpreter.rs:53-56 | runs the whole text at top level and returns the output buffer |
| `Cells.Wrap32` | src/brainfuck_interpreter.rs:102-109 | the result is an `i32` congruent to the input mod 2^32, and equals the input when that is already an `i32` |
| `Cells.WrapPastMax` | src/brainfuck_interpreter.rs:102-109 | one above the `i32` maximum wraps to the minimum, and one below the minimum wraps to the maximum |
| `Cells.ByteChar` | src/brainfuck_interpreter.rs:118 | `.` emits one character below 256 that is congruent to the cell mod 256 |
| `Cells.Decimal` | src/brainfuck_interpreter.rs:119 | `?` text is non-empty, starts with `-` exactly for negative cells, and is digits otherwise; it has no leading zero unless the cell is 0, and a negative value has at least one digit after the `-` |
| `Cells.Digits` | src/brainfuck_interpreter.rs:119 | digit text of a natural number: non-empty, all digits, no leading zero |
| `Cells.DecimalRoundTrip` | src/brainfuck_interpreter.rs:119 | the `?` text reads back as the cell value, so no information is lost |
| `Brackets.MatchEnd` | src/brainfuck_interpreter.rs:62-71 | the depth-counting scan finds an index exactly when a matching `]` exists, and the index it finds is a match |
| `Brackets.MatchUnique` | src/brainfuck_interpreter.rs:62-71 | a `[` has at most one matching `]`, so the first `]` at depth zero is the match |
| `Brackets.BalancedOpensMatched` | src/brainfuck_interpreter.rs:64-74 | in balanced text every `[` has its `]`, so no sliced loop body holds an unmatched bracket |
| `Semantics.Right` | src/brainfuck_interpreter.rs:42-47 | `>` moves the cursor up by one and keeps every existing cell; new cells are zero, and the tape grows only as far as the cursor needs |
| `Semantics.Bump` | src/brainfuck_interpreter.rs:38-40 | `+`/`-` change only the cell under the cursor, by the amount mod 2^32; cursor, length, marker and output unchanged |
| `Semantics.Step` | src/brainfuck_interpreter.rs:94-122 | one instruction keeps the cursor on an `i32` tape; the tape grows by at most one cell; output only grows; `+ - < >` set the marker and leave output alone; `. ?` change only the output; other characters change nothing |
| `Semantics.Run` | src/brainfuck_interpreter.rs:77-134 | the recursive executor keeps the cursor on an `i32` tape, and a loop body that finishes leaves the current cell at zero |
| `Semantics.RunAtEnd` | src/brainfuck_interpreter.rs:124-132 | at the end of the text a loop body restarts while the cell is non-zero, spending fuel; a top-level run stops without testing the cell |
| `Semantics.RunAtSymbol` | src/brainfuck_interpreter.rs:94-122 | a non-`[` symbol takes one step and the scan goes on at the next offset; `<` on cell 0 faults |
| `Semantics.RunAtOpen` | src/brainfuck_interpreter.rs:88-92 | a `[` runs its body at once, with no test of the cell; when the body finishes, the scan resumes just past the matching `]` |
| `Semantics.Interpret` | src/brainfuck_interpreter.rs:53-56 | a top-level run starting in a valid state ends in a valid state |
| `Properties.RunExtends` | src/brainfuck_interpreter.rs:118-119 | earlier output is a prefix of the final output, and the tape never shrinks |
| `Properties.FuelMonotone` | src/brainfuck_interpreter.rs:124-128 | a run that ends within some fuel ends the same way with more fuel |
| `Properties.MatchedTextNeverUnmatched` | src/brainfuck_interpreter.rs:88-92 | when every `[` of the text has its `]`, no run faults on bracket matching |
| `Properties.EmptyBodyNeverEnds` | src/brainfuck_interpreter.rs:124-128 | an empty body entered on a non-zero cell runs out of any fuel, with the state unchanged |
| `Properties.RightsAppendZeros` | src/brainfuck_interpreter.rs:110-113 | a run of `>` from the last cell appends one zero cell per symbol and moves the cursor by that many |
| `Properties.RightsGrowFreshTape` | src/brainfuck_interpreter.rs:42-47 | `n` times `>` on a fresh interpreter gives a tape of `n + 1` zero cells with the cursor at `n` |
| `Properties.FuelMonotoneAtOpen` | src/brainfuck_interpreter.rs:88-92 | at a `[`, a run that ends within some fuel ends the same way with more fuel |
| `Properties.IncrementInRange` | src/brainfuck_interpreter.rs:102-105 | one `+` below the `i32` maximum adds exactly one and sets the marker to that `+` |
| `Properties.IncrementsAdd` | src/brainfuck_interpreter.rs:102-105 | the `+` symbols from offset `i` up to `j` add `j - i` to the cell when nothing wraps, and the marker points at the last of them |
| `Properties.DecrementsClear` | src/brainfuck_interpreter.rs:124-128 | the body `-` on a positive cell runs once per unit and leaves the cell at zero; this needs one restart fewer than the cell's value |
| `Properties.Transfer` | src/brainfuck_interpreter.rs:124-128 | the body `>+<-` on a positive cell with a right neighbour adds the cell to the neighbour and zeroes the cell, restarting once per unit |
| `Properties.TransferGrows` | src/brainfuck_interpreter.rs:42-47 | on the last cell, `>+<-` runs as if a zero cell were already there |
| `ExampleRuns.ClearLoopClears` | src/brainfuck_interpreter.rs:124-128 | `n` times `+` then `[-]` ends with tape `[0]`, cursor 0 and no output after `n - 1` restarts |
| `ExampleRuns.ClearLoop` | src/brainfuck_interpreter.rs:88-92 | `+++[-]` ends with tape `[0]`, cursor 0, no output |
| `ExampleRuns.MoveLoop` | src/brainfuck_interpreter.rs:124-128 | `n` times `+` then `[>+<-]` ends with tape `[0, n]` and cursor 0 after `n - 1` restarts |
| `ExampleRuns.MoveThree` | src/brainfuck_interpreter.rs:124-128 | `+++[>+<-]` ends with tape `[0, 3]` and cursor 0 |
| `ExampleRuns.NestedMatch` | src/brainfuck_interpreter.rs:62-71 | brackets match through two levels of nesting |
| `ExampleRuns.DecimalOutput` | src/brainfuck_interpreter.rs:119 | `+++?` prints `3`, and `-?` prints `-1` |
| `ExampleRuns.PrintsLowByte` | src/brainfuck_interpreter.rs:118 | `n` times `+` then `.` prints exactly one character, the low eight bits of `n` |
| `ExampleRuns.ByteOutput` | src/brainfuck_interpreter.rs:118 | 321 times `+` then `.` prints `A`: only the low eight bits of the cell reach the output |
| `ExampleRuns.NegativeByteOutput` | src/brainfuck_interpreter.rs:118 | `-.` prints the character with code 255 |
| `ExampleRuns.CommentsSkipped` | src/brainfuck_interpreter.rs:121 | letters and spaces in the text change nothing |
| `ExampleRuns.BodyRunsBeforeTest` | src/brainfuck_interpreter.rs:88-92 | on a zero cell `[>]` still moves right and `[?]` still prints `0` |
| `ExampleRuns.UnmatchedOpenFaults` | src/brainfuck_interpreter.rs:65 | `+[` faults on bracket matching, after the `+` has run |
| `ExampleRuns.LeftAtOriginFaults` | src/brainfuck_interpreter.rs:49-51 | `<` on a fresh interpreter faults, as the debug build's `usize` underflow panics |
| `ExampleRuns.StrayCloseSkipped` | src/brainfuck_interpreter.rs:121 | a `]` with nothing open is skipped |
| `ExampleRuns.EmptyLoopRunsForever` | src/brainfuck_interpreter.rs:124-128 | `+[]` runs out of fuel whatever the fuel |
| `Comments.SymbolsIdempotent` | src/brainfuck_interpreter.rs:101-122 | the text left after deleting comments holds only the eight symbols, so deleting again changes nothing |
| `Comments.FindCloseStripped` | src/brainfuck_interpreter.rs:62-71 | the depth-counting scan for `]` finds the same bracket in the text without comments, at its shifted offset, and finds none there when it finds none in the original |
| `Comments.MatchEndStripped` | src/brainfuck_interpreter.rs:62-71 | a `[` has its matching `]` in the text exactly when it has it in the text without comments, and the two matches are the same bracket |
| `Comments.StrippedRunAlike` | src/brainfuck_interpreter.rs:77-134 | running any slice and its comment-free form, from states that differ at most in the marker, ends with the same status in states that differ at most in the marker |
| `Comments.CommentsIgnored` | src/brainfuck_interpreter.rs:121 | deleting every comment character from a program leaves its status, tape, cursor and output unchanged |

## Left out

- The observer hook (`callback`, `run_callback`, `callback_fn`, src/brainfuck_interpreter.rs:23-32 and the calls at 84, 98): it calls a foreign closure whose effects cannot be seen and which cannot change the interpreter's state. The model neither calls it nor counts its calls.
- The `Debug` rendering (src/brainfuck_interpreter.rs:137-145): diagnostic formatting only, with no effect on state.
- `src/main.rs`: it prompts for a path, reads the file and prints the result. This is console and file I/O. The text it reads is a parameter here.
- `Semantics.Bump`: models the release-build wrap-around of `i32` `+=` and `-=`. A debug build panics on overflow instead; that panic is not modelled.
- `Brackets.MatchEnd`: the nesting depth is an unbounded natural number. The source counts in a `u8`, which overflows past 255 open brackets inside one loop body; that case is not modelled.
- `Semantics.Run`: non-termination is bounded by fuel, as described above. A run that needs more restarts than its fuel allows ends with `OutOfFuel` instead of going on forever.
- `Semantics.Run`: `LeftOfOrigin` follows the debug-build panic when `pos -= 1` underflows. A release build instead wraps `pos` to `usize::MAX`. It panics only at a later cell access, and a `>` right after wraps `pos + 1` back to 0 without growing the tape. So in a release build `<>`, and a top-level `<` alone, end normally with tape `[0]`, while the model faults on both. The wrapped `usize` cursor is not modelled.
- UTF-8: the text is a sequence of characters. Byte offsets from `char_indices` and byte slicing are character indices here. The last-instruction offset therefore counts characters, not bytes.
- Output after a fault: the model keeps the state reached before a panic. The source aborts instead, and that output is never returned.
