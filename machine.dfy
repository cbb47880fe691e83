/** The simulator's machine: the tape, head, state, step count, undo list,
    compiled program and variant that the source keeps as module-level
    variables, gathered in one object whose methods change them in place. */
module Interpreter {
  import opened Strings
  import opened Tape
  import opened Parser
  import opened Program
  import opened Engine

  class Machine {
    /** `sTape`: every cell the head has visited. */
    var tape: string
    /** `nTapeOffset`: the tape position of `tape[0]`. */
    var tapeOffset: int
    /** `nHeadPosition`. */
    var head: int
    /** `sState`. */
    var state: string
    /** `nSteps`. */
    var steps: int
    /** `aUndoList`, oldest entry first. */
    var undoList: seq<UndoEntry>
    /** `aProgram`: the instruction lists by state and symbol. */
    var program: Table
    /** `nVariant`. */
    var variant: Variant
    /** `nMaxUndo`: how many steps can be undone; 0 turns undo off. */
    const maxUndo: nat

    /** The run state as a value. */
    function Snapshot(): Config
      reads this
    {
      Config(Buffer(tape, tapeOffset), head, state, steps, undoList)
    }

    /** What every machine state the engine reaches satisfies: no write lands
        beyond the tape's right end, the undo list keeps to its limit, and in
        the left-bounded variant nothing lies left of cell 0. */
    ghost predicate Valid()
      reads this
    {
      && Reach(Snapshot())
      && |undoList| <= maxUndo
      && (variant == LeftBounded ==> LeftOfZeroUnused(Snapshot()))
    }

    /** The machine as the page first loads it: an empty tape, state `0`, no
        program, the standard variant. */
    constructor(maxUndo: nat)
      ensures Valid() && this.maxUndo == maxUndo
      ensures Snapshot() == Config(Buffer("", 0), 0, "0", 0, [])
      ensures program == map[] && variant == Standard
    {
      tape := "";
      tapeOffset := 0;
      head := 0;
      state := "0";
      steps := 0;
      undoList := [];
      program := map[];
      variant := Standard;
      this.maxUndo := maxUndo;
    }

    /** `SetTapeSymbol(n, c)`: write `c` (a space as a blank) at position `n`,
        growing the buffer to the left when `n` lies left of it. */
    method SetTapeSymbol(n: int, c: char)
      modifies this`tape, this`tapeOffset
      ensures Buffer(tape, tapeOffset) == Write(old(Buffer(tape, tapeOffset)), n, c)
      ensures n <= old(tapeOffset + |tape|) ==> Buffer(tape, tapeOffset) == WriteIntended(old(Buffer(tape, tapeOffset)), n, c)
    {
      var d := c;
      if d == ' ' {
        d := Blank;
      }
      if n < tapeOffset {
        var pad := Repeat(Blank, tapeOffset - n - 1);
        assert pad == Copies(Blank, tapeOffset - n - 1);
        tape := [d] + pad + tape;
        tapeOffset := n;
      } else if n > tapeOffset + |tape| {
        var pad := Repeat(Blank, tapeOffset + |tape| - n - 1);
        assert pad == Copies(Blank, tapeOffset + |tape| - n - 1);
        tape := tape + pad + [d];
      } else {
        var k := n - tapeOffset;
        tape := tape[..k] + [d] + (if k + 1 <= |tape| then tape[k + 1..] else []);
      }
    }

    /** The first part of `Step()`: read the symbol under the head and pick
        the instruction to follow among those `GetNextInstructions` finds. */
    method NextInstruction(choice: nat) returns (symbol: char, instruction: Option<Instruction>)
      requires ChoiceFits(Snapshot(), program, variant, choice)
      ensures symbol == Read(Buffer(tape, tapeOffset), head) && symbol != ' '
      ensures instruction == Selected(Snapshot(), program, variant, choice)
      ensures instruction.None? <==> Resolve(program, state, symbol) == []
      ensures instruction.Some? ==> instruction.value in Resolve(program, state, symbol)
    {
      symbol := Read(Buffer(tape, tapeOffset), head);
      var candidates := Resolve(program, state, symbol);
      if |candidates| == 0 {
        instruction := None;
      } else if variant == Nondeterministic {
        instruction := Some(candidates[choice]);
      } else {
        instruction := Some(candidates[0]);
      }
    }

    /** Save undo information, dropping the oldest entry when the list is full. */
    method SaveUndo(entry: UndoEntry)
      modifies this`undoList
      ensures undoList == Record(old(undoList), maxUndo, entry)
    {
      if maxUndo > 0 {
        if |undoList| >= maxUndo {
          undoList := undoList[1..];
        }
        undoList := undoList + [entry];
      }
    }

    /** The middle of `Step()`: what the step writes, which state it enters
        and how far the head moves. Without an instruction the machine halts
        and writes back what it read. */
    method Decide(symbol: char, instruction: Option<Instruction>)
      returns (newState: string, newSymbol: char, action: int)
      ensures newState == if instruction.None? then "halt"
                          else if instruction.value.newState == "*" then state else instruction.value.newState
      ensures newSymbol == if instruction.None? || instruction.value.newSymbol == '*' then symbol
                           else instruction.value.newSymbol
      ensures action == if instruction.None? then 0 else Delta(instruction.value.action, variant, head)
    {
      if instruction.Some? {
        var ins := instruction.value;
        newState := if ins.newState == "*" then state else ins.newState;
        newSymbol := if ins.newSymbol == '*' then symbol else ins.newSymbol;
        action := match ins.action case Right => 1 case Left => -1 case Stay => 0;
        if variant == LeftBounded && head == 0 && action == -1 {
          action := 0;
        }
      } else {
        newState := "halt";
        newSymbol := symbol;
        action := 0;
      }
    }

    /** `Step()`: run the machine for one step; answers whether it may go on. */
    method Step(choice: nat) returns (running: bool)
      requires Valid() && ChoiceFits(Snapshot(), program, variant, choice)
      modifies this
      ensures program == old(program) && variant == old(variant)
      ensures StepResult(Snapshot(), running) == StepSpec(old(Snapshot()), program, variant, maxUndo, choice)
      ensures Valid()
    {
      if IsHalt(state) {
        return false;
      }
      running := Advance(choice);
    }

    /** `Step()` from a state that does not halt. */
    method Advance(choice: nat) returns (running: bool)
      requires Valid() && ChoiceFits(Snapshot(), program, variant, choice) && !IsHalt(state)
      modifies this
      ensures program == old(program) && variant == old(variant)
      ensures StepResult(Snapshot(), running) == StepSpec(old(Snapshot()), program, variant, maxUndo, choice)
      ensures Valid()
    {
      ghost var before := Snapshot();
      var symbol, instruction := NextInstruction(choice);
      var newState, newSymbol, action := Decide(symbol, instruction);
      running := !IsHalt(newState) && !instruction.value.breakpoint;
      Apply(UndoEntry(state, head, symbol), newSymbol, newState, action);
      StepParts(before, program, variant, maxUndo, choice, instruction, newState, newSymbol, action);
      StepKeepsValid(before, program, variant, maxUndo, choice);
    }

    /** The changing half of `Step()`: save the undo entry, write the new
        symbol under the head, enter the new state, move and count the step. */
    method Apply(entry: UndoEntry, newSymbol: char, newState: string, action: int)
      requires head <= tapeOffset + |tape|
      modifies this`tape, this`tapeOffset, this`head, this`state, this`steps, this`undoList
      ensures Snapshot() == Config(WriteIntended(old(Buffer(tape, tapeOffset)), old(head), newSymbol), old(head) + action,
                                   newState, old(steps) + 1, Record(old(undoList), maxUndo, entry))
    {
      SaveUndo(entry);
      SetTapeSymbol(head, newSymbol);
      state := newState;
      head := head + action;
      steps := steps + 1;
    }

    /** `Undo()`: take back the most recent saved step, if there is one. */
    method Undo()
      requires Valid()
      modifies this
      ensures Valid()
      ensures Snapshot() == UndoSpec(old(Snapshot()))
      ensures program == old(program) && variant == old(variant)
    {
      ghost var before := Snapshot();
      if |undoList| > 0 {
        var entry := undoList[|undoList| - 1];
        undoList := undoList[..|undoList| - 1];
        steps := steps - 1;
        state := entry.state;
        head := entry.position;
        SetTapeSymbol(head, entry.symbol);
      }
      UndoReach(before);
      if variant == LeftBounded {
        UndoLeftBounded(before);
      }
    }

    /** The tape and state part of `Reset()`: the initial tape with the head
        on its first `*` mark, the initial state, no steps and no undo list. */
    method Initialize(input: string, stateText: string)
      modifies this`tape, this`tapeOffset, this`head, this`state, this`steps, this`undoList
      ensures Snapshot() == ResetSpec(input, stateText)
      ensures Reach(Snapshot()) && LeftOfZeroUnused(Snapshot()) && undoList == []
    {
      var h := IndexOf(input, '*');
      head := if h == |input| then 0 else h;
      var cells := Replace(Remove(input, '*'), ' ', Blank);
      if cells == [] {
        cells := " ";
      }
      tape := cells;
      tapeOffset := 0;
      var words := SplitOnSpaces(Trim(stateText));
      state := if words[0] == [] then "0" else words[0];
      steps := 0;
      undoList := [];
      ResetReach(input, stateText);
    }

    /** `Reset()`: set up the initial tape and state, choose the variant,
        compile the program and clear the undo list. */
    method Reset(input: string, stateText: string, variant: Variant, source: string)
      returns (diagnostics: seq<Diagnostic>)
      modifies this
      ensures Valid()
      ensures Snapshot() == ResetSpec(input, stateText) && this.variant == variant
      ensures Compiled(program, diagnostics) == Build(ParseAll(SourceLines(source)), variant)
    {
      this.variant := variant;
      program, diagnostics := Compile(source, variant);
      Initialize(input, stateText);
    }

    /** `Compile()` on its own, as the source runs it after the program text
        changes: the table is rebuilt and the run state, undo list included,
        is left as it is. */
    method Recompile(source: string) returns (diagnostics: seq<Diagnostic>)
      requires Valid()
      modifies this
      ensures Valid() && Snapshot() == old(Snapshot()) && variant == old(variant)
      ensures Compiled(program, diagnostics) == Build(ParseAll(SourceLines(source)), variant)
    {
      program, diagnostics := Compile(source, variant);
    }
  }

  /** A step from a valid machine state leads to a valid one. */
  lemma StepKeepsValid(c: Config, table: Table, variant: Variant, maxUndo: nat, choice: nat)
    requires ChoiceFits(c, table, variant, choice) && Reach(c) && |c.undo| <= maxUndo
    requires variant == LeftBounded ==> LeftOfZeroUnused(c)
    ensures var r := StepSpec(c, table, variant, maxUndo, choice).config;
      && Reach(r) && |r.undo| <= maxUndo
      && (variant == LeftBounded ==> LeftOfZeroUnused(r))
  {
    StepReach(c, table, variant, maxUndo, choice);
    StepUndoBound(c, table, variant, maxUndo, choice);
    if variant == LeftBounded {
      StepLeftBounded(c, table, maxUndo, choice);
    }
  }
}
