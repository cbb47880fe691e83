# Turing machine simulator engine, in Dafny

This project models the engine of `jsturing.js`, a browser Turing machine simulator. The engine has four parts.

- **The sparse tape.** The tape is a string of visited cells plus the tape position of its first cell. Every other position reads as the blank `_`.
- **The line parser and compiler.** Each program line reads `<state> <symbol> <new symbol> <l|r|*> <new state> [!]`. A `;` starts a comment. The compiler builds a table from (state, symbol) keys to lists of instructions and reports syntax errors and conflicting definitions.
- **Instruction resolution.** A lookup tries four keys in a fixed order: the exact key, then the state with the wildcard symbol, then the wildcard state with the symbol, then both wildcards.
- **Step, bounded undo and reset.** These act on the module-level machine state. That state is gathered here in one class, `Interpreter.Machine`.

The model has six modules.

- `Strings` models the JavaScript string operations the engine relies on: `indexOf`, `split` on one character, `split(/\s+/)` with empty pieces filtered out, `$.trim`, global single-character `replace`, ASCII `toLowerCase`, and decimal rendering of line numbers.
- `Tape` holds the buffer, reads, the write as the source has it, and the write as evidently intended. It also holds `repeat`.
- `Parser` covers `ParseLine`, its error messages, and a renderer that serves as its inverse.
- `Program` covers the compiler. `Compile` is a loop method, proved equal to a fold `Build` over the parsed lines. `Build` is then characterised against an independent per-key list of definitions `Defs`. This module also holds `GetNextInstructions`, as `Resolve`, and `createTuringInstructionFromTuple`, as `InstructionOf`. The instructions `InstructionOf` builds are what `Program.CompileLine` and `Program.BuildTable` put in the table.
- `Engine` states what a step, an undo and the tape/state part of a reset do, as functions on a `Config` value, and proves the engine's properties about them.
- `Interpreter` holds the `Machine` class. Its fields mirror the source's globals, and its methods `SetTapeSymbol`, `Step`, `Undo`, `Reset` and `Recompile` change them in place. `Step`, `Undo` and `Reset`'s tape and run state are proved against the `Engine` functions; `SetTapeSymbol` against `Tape.Write` and `Tape.WriteIntended`; `Recompile` and `Reset`'s table against `Program.Build`.

The program text is a parameter of `Reset` and `Recompile`; `Compile` returns the table together with structured diagnostics. The initial tape and initial state are parameters of `Reset`. The random pick among nondeterministic candidates is a `choice` index parameter. The undo limit (`nMaxUndo`, the constant 10 in the source) is a constructor parameter.

A few points of the code that are easy to misread:

- Compiling the program does not clear the undo list (jsturing.js:245-307). Of the operations modelled here, only `Reset` does (jsturing.js:221); loading a snapshot, which is not part of this model, also does (jsturing.js:498).
- The comment marker is simply the first `;` on a line (jsturing.js:313). There is no escaping.
- The step count goes up on every step from a state that does not halt (jsturing.js:108). That includes the step that enters a halting state, whether through a rule whose new state is `halt` or through the implicit halt when no rule matches (jsturing.js:87-95).

## Model

| member | source | states |
|---|---|---|
| Strings.IndexOf | jsturing.js:195-196 | the result is the first position holding the character, or the length when there is none |
| Strings.Lower | jsturing.js:53 | lower-casing keeps the length and maps every character through ASCII lower-casing |
| Strings.Replace | jsturing.js:199 | the global single-character replace keeps the length and swaps exactly the matching characters |
| Strings.Remove | jsturing.js:199 | removing a character leaves none of it, keeps every other character as often as it occurs, and never lengthens the string |
| Strings.RemoveAppend | jsturing.js:199 | removal works piece by piece, so the characters kept stay in their order |
| Strings.RemoveKeepsPrefix | jsturing.js:195-199 | removing `*` keeps intact everything before the first `*` |
| Strings.JoinSplitOn | jsturing.js:258 | splitting on a separator and joining the pieces with it gives back the original string |
| Strings.Tokens | jsturing.js:316-317 | every token of a line is non-empty and contains no whitespace |
| Strings.FilteredSplitIsWords | jsturing.js:316-317 | splitting on whitespace runs and dropping empty pieces equals an independent left-to-right word scanner |
| Strings.TokensOfJoin | jsturing.js:316-317 | tokenising words joined by single spaces gives back exactly those words |
| Strings.FirstPieceOfTrim | jsturing.js:206 | the first piece of the trimmed, whitespace-split text is the first token, or empty when there is none |
| Strings.DecimalRoundTrip | jsturing.js:336 | a rendered line number reads back as the same number |
| Tape.Normalize | jsturing.js:428-439 | a space becomes a blank and every other symbol is kept |
| Tape.Read | jsturing.js:421-432 | a read never gives a space; outside the buffer it gives the blank, inside it gives the stored symbol, with a stored space read as blank |
| Tape.Copies | jsturing.js:991-996 | `repeat` gives exactly `n` copies, and nothing when `n` is not positive |
| Tape.Repeat | jsturing.js:991-996 | the counting-down loop builds exactly `n` copies, and nothing when `n` is not positive |
| Tape.Write | jsturing.js:436-449 | as written, a write moves the offset to `n` when `n` is left of the buffer, grows the buffer by at most the cells needed, and puts the symbol at `n`, or at the old right end when `n` lies beyond it |
| Tape.WriteReadBack | jsturing.js:436-449 | for a position at or before the right end, the written symbol (a space as blank) reads back, every other position is unchanged, a left write moves the offset to `n`, and the buffer grows only to cover `n` |
| Tape.WriteBeyondEndMisplaced | jsturing.js:444-446 | as written, a write beyond the right end appends the symbol at the old end, and position `n` still reads blank |
| Tape.WriteBeyondEndExample | jsturing.js:444-446 | writing `x` at position 3 of the one-cell tape `a` yields `ax`, and position 3 reads blank |
| Tape.WriteIntended | jsturing.js:436-449 | the intended write agrees with the write as written up to the right end, and always puts the symbol at `n` |
| Tape.WriteIntendedReadBack | jsturing.js:436-449 | the intended write reads back at every position, far right included, and changes nothing else |
| Parser.StripComment | jsturing.js:313 | the kept text is the part of the line before its first `;`, and contains no `;` |
| Parser.DirectionOf | jsturing.js:363-368 | a direction is accepted exactly for `l`, `L`, `r`, `R` and `*`; `l`/`L` move left and `r`/`R` move right |
| Parser.LineTokens | jsturing.js:313-317 | the tokens of a line are words |
| Parser.ParseLine | jsturing.js:309-396 | a line is skipped exactly when it has no tokens, and accepted exactly when it has 5 or 6 tokens, single-character symbols, a valid direction and, as a sixth token, only `!`; an accepted line yields its tokens as the rule, with a breakpoint exactly when there are 6 tokens |
| Parser.ErrorMessage | jsturing.js:336-387 | a syntax error message names its 0-based line as the 1-based number, which reads back, and ends with the error's own text |
| Parser.ErrorMessageIdentifies | jsturing.js:336-387 | two syntax error messages are equal only for the same error on the same line |
| Parser.ParseRender | jsturing.js:309-396 | parsing the rendering of any renderable rule gives back that rule |
| Program.ParseAll | jsturing.js:258-261 | each source line is parsed on its own |
| Program.InstructionOf | jsturing.js:228-237 | the instruction keeps every field of the rule except its key, and records the source line |
| Program.AddLine | jsturing.js:262-286 | one line adds at most one diagnostic and keeps the earlier ones; a valid line puts its instruction under its key and changes no other key; any other line leaves the table as it is |
| Program.Build | jsturing.js:260-287 | compiling reports at most one diagnostic per line, and every list in the table is non-empty |
| Program.Compile | jsturing.js:245-287 | the loop over the source lines builds exactly the table and diagnostics of the fold `Build` over the parsed lines |
| Program.CompileLine | jsturing.js:262-286 | one turn of the loop adds a valid rule to its key's list, overwrites the first entry and reports a conflict outside the nondeterministic variant, and reports a syntax error for an invalid line |
| Program.BuildStep | jsturing.js:260-287 | compiling one more line is one more turn of the loop |
| Program.DefsAreDefinitions | jsturing.js:262-279 | the per-key definitions are exactly the valid lines for that key, in strictly increasing line order |
| Program.BuildTable | jsturing.js:260-287 | the table has an entry exactly for the keys some valid line defines: every definition in source order in the nondeterministic variant, otherwise only the last one |
| Program.BuildWellFormed | jsturing.js:264-279 | every list in the table is non-empty, and outside the nondeterministic variant it holds one instruction |
| Program.BuildDiagnostics | jsturing.js:260-287 | every invalid line gets its syntax error; outside the nondeterministic variant every pair of successive definitions of a key gets a conflict naming both lines; no other diagnostic is reported |
| Program.Message | jsturing.js:272-284 | a syntax error's message is its `ParseLine` message and names its line; a conflict warning is never read as a syntax error and ends with the 1-based number of the overwriting line |
| Program.ErrorLines | jsturing.js:273-285 | the lines marked are the diagnostic's own line and, for a conflict, the earlier definition's line, and no others |
| Program.CompileMarksSourceLines | jsturing.js:260-287 | every line `Compile` marks is a line of the program |
| Program.Resolve | jsturing.js:400-418 | resolution answers with the list of the first present key among the exact key, the state with `*`, `*` with the symbol, and `*` with `*` |
| Program.FirstPresentAt | jsturing.js:400-418 | the first-present lookup answers with the list of the first key present, skipping only absent keys |
| Program.FirstPresentNone | jsturing.js:400-418 | the first-present lookup is empty when no key is present |
| Program.ResolveOrder | jsturing.js:400-418 | an exact entry wins over any wildcard entry, each fallback answers only when every earlier probe is absent, and the answer is empty when no probe is present |
| Engine.IsHalt | jsturing.js:53 | a state halts exactly when it begins with `halt` in any mix of cases |
| Engine.Choose | jsturing.js:67-78 | there is no instruction exactly when there is no candidate; the chosen one is always a candidate, and outside the nondeterministic variant it is the first |
| Engine.Delta | jsturing.js:81-86 | the head moves right for `r`, left for `l` unless the left-bounded variant holds it at cell 0, and otherwise stays |
| Engine.Record | jsturing.js:98-101 | with undo on, the new entry goes last and the oldest entry is dropped exactly when the list is full; with undo off nothing changes |
| Engine.StepSpec | jsturing.js:48-130 | a halted step changes nothing and reports a stop; any other step counts one, writes the chosen symbol (the one read for `*` or without a rule) at the head, saves undo information, enters the rule's new state (the old one for `*`, `halt` without a rule), moves the head by the clamped move, and may go on exactly when the new state does not halt and the rule has no breakpoint |
| Engine.UndoSpec | jsturing.js:133-149 | with nothing saved nothing changes; otherwise the newest entry is popped, its state and position come back with one step less, its symbol reads again at that position and every other position reads as before |
| Engine.InitialHead | jsturing.js:195-196 | the head starts on the first `*` of the initial tape, or on cell 0 when there is none |
| Engine.InitialCells | jsturing.js:199-201 | the initial cells are the input without `*` marks, with spaces as blanks; a single space when nothing is left |
| Engine.InitialState | jsturing.js:206-208 | the initial state is the first whitespace-separated word of the text, or `0` when it has none |
| Engine.ResetSpec | jsturing.js:195-221 | after a reset the tape reads the input without `*` marks, spaces as blanks, from cell 0 on and blank everywhere else; the head is on the first mark, the state is the initial one, and there are no steps and nothing to undo |
| Engine.InitialHeadOnTape | jsturing.js:195-201 | the initial head lies inside the initial buffer or just past its right end |
| Engine.ResetReach | jsturing.js:190-221 | a reset configuration has no saved entries and its head is at or before the right end and not left of cell 0 |
| Engine.StepReach | jsturing.js:48-130 | a step keeps the head at or before the buffer's right end and every saved position inside the buffer |
| Engine.UndoReach | jsturing.js:133-149 | an undo keeps the head at or before the buffer's right end and every saved position inside the buffer |
| Engine.StepLeftBounded | jsturing.js:81-86 | in the left-bounded variant a step never takes the head, or any saved position, left of cell 0 |
| Engine.UndoLeftBounded | jsturing.js:133-141 | an undo never takes the head left of cell 0 when no saved position is |
| Engine.StepNoRule | jsturing.js:87-120 | a step with no matching rule keeps every tape symbol and the head, enters `halt`, counts the step and reports a stop |
| Engine.StepThenUndo | jsturing.js:98-141 | a step followed by an undo restores the state, head, step count and every tape symbol, and the undo list unless the step dropped its oldest entry |
| Engine.StepUndoBound | jsturing.js:98-101 | a step never takes the undo list beyond its limit |
| Engine.StepDeterministic | jsturing.js:67-78 | outside the nondeterministic variant the choice plays no part in a step |
| Interpreter.Machine.constructor | jsturing.js:20-33 | the machine starts with an empty tape at offset 0, the head at 0, state `0`, no steps, no undo entries, no program and the standard variant |
| Interpreter.Machine.SetTapeSymbol | jsturing.js:436-449 | the tape buffer becomes exactly the as-written write, which is the intended write whenever the position is at or before the right end |
| Interpreter.Machine.NextInstruction | jsturing.js:62-78 | the symbol read is the tape symbol at the head and never a space; there is no instruction exactly when resolution finds nothing, and otherwise the instruction is a resolved candidate |
| Interpreter.Machine.Decide | jsturing.js:80-96 | the new state and symbol are the instruction's, the old ones for `*`; without an instruction they are `halt` and the symbol read; the head move is the clamped move |
| Interpreter.Machine.SaveUndo | jsturing.js:98-101 | the undo list becomes the bounded record of the entry |
| Interpreter.Machine.Step | jsturing.js:48-130 | the new machine state and the answer are exactly those of the step specification; the program and variant are unchanged; validity is kept |
| Interpreter.Machine.Advance | jsturing.js:61-129 | a step from a state that does not halt matches the step specification and keeps validity |
| Interpreter.Machine.Apply | jsturing.js:98-108 | the undo entry is recorded, the new symbol is written under the old head, and the state, head and step count take their new values |
| Interpreter.Machine.Undo | jsturing.js:133-149 | the new machine state is exactly that of the undo specification, and validity is kept |
| Interpreter.Machine.Initialize | jsturing.js:195-221 | the tape, head, state, step count and undo list become those of the reset specification, which satisfies the reachability invariant |
| Interpreter.Machine.Reset | jsturing.js:190-221 | the machine state becomes the reset specification, the variant is the chosen one, and the table and diagnostics are those of compiling the program text |
| Interpreter.StepKeepsValid | jsturing.js:48-130 | a step from a state meeting the machine's invariant (writes within reach, undo list within its limit, nothing left of cell 0 in the left-bounded variant) leads to a state meeting it |
| Interpreter.Machine.Recompile | jsturing.js:245-307 | the table and diagnostics become those of compiling the new text, and the run state, undo list included, is kept |

## Left out

- The user interface is not modelled: rendering, status and syntax messages, error-line marks, control enabling and the run timer (`Run`, `RunStep`, `StopTimer`). The message texts are kept as the `Parser.ErrorMessage` and `Program.Message` functions, and the marked lines as `Program.ErrorLines`. The source shows only the last message of a compile, while `Compile` here returns every diagnostic in order, so the last one is the message shown.
- The edit flag `bIsDirty` is not modelled. `Step` does not recompile on its own; a caller that changed the program text calls `Recompile` first.
- `oPrevInstruction` and `bIsReset` are not modelled. They only feed the display.
- The `$DEBUG` comment scan in `Compile`, the `debug` function and `isArray` are not modelled. They only affect logging.
- Loading and saving machines (network and snapshot code), `save.php` and `polyfills.js` are not part of this model.
- `Math.random` is replaced by the `choice` parameter. In the nondeterministic variant it must index the candidate list.
- Strings are sequences of Unicode characters, while JavaScript measures and indexes strings in UTF-16 code units. So a character outside the Basic Multilingual Plane is one character here but two units in the source. As the current or new symbol of a rule it is a syntax error in the source (jsturing.js:339, :351); inside a state name both the source and the model accept it. On the initial tape it fills two cells in the source, and every such character before the first `*` moves the head position `indexOf` gives by one more cell (jsturing.js:195-201).
- `toLowerCase` is modelled on ASCII letters only. It is applied only to compare with `halt`, `l`, `r` and `*`, and no other character lower-cases to one of those letters.
- The table is a map from (state, symbol) pairs. State names that collide with JavaScript's inherited object properties, such as `constructor` or `__proto__`, are not modelled.
- Parser.ParseLine: the contract characterises acceptance and the accepted rule. Which of the eight error kinds a rejected line gets follows the source's order of checks and is stated only by the function's definition.
- Engine.StepThenUndo: the undo list comes back only when the step did not drop an entry. The step count and state come back only when undo is enabled (`maxUndo > 0`), as in the source.

## Findings

| source | as written | input that shows it | evidently intended | confidence | as-written member | corrected member |
|---|---|---|---|---|---|---|
| jsturing.js:444-446 | a write more than one cell beyond the buffer's right end computes a negative blank count, so `repeat` gives nothing and the symbol lands at the old right end | tape `a` at offset 0, write `x` at position 3: the buffer becomes `ax`, and position 3 still reads `_` | pad the gap with blanks so that the symbol lands at position `n` | not executed; `Step`, `Undo` and `Reset` never make such a write, since `Engine.StepReach`, `Engine.UndoReach` and `Engine.ResetReach` keep every write at or before the right end; it can be reached only after loading a saved machine, which is not part of this model | Tape.WriteBeyondEndExample, Tape.WriteBeyondEndMisplaced | Tape.WriteIntended, Tape.WriteIntendedReadBack |

`Engine` specifies steps and undos with the intended write `Tape.WriteIntended`. `Interpreter.Machine.SetTapeSymbol` performs the write as the source has it, `Tape.Write`. `Interpreter.Machine.Step` and `Interpreter.Machine.Undo` meet the specification because the machine's validity invariant keeps every write at or before the right end, where the two writes agree.
