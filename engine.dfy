/** What one step, one undo and a reset do to the machine, stated on values:
    the tape, the head position, the current state, the step count and the
    undo list. The `Machine` class carries out these specifications in place. */
module Engine {
  import opened Strings
  import opened Tape
  import opened Parser
  import opened Program

  /** What `Step` saves so that `Undo` can take the step back: the state,
      the head position and the symbol under the head before the step. */
  datatype UndoEntry = UndoEntry(state: string, position: int, symbol: char)

  /** The run state of the machine. */
  datatype Config = Config(tape: Buffer, head: int, state: string, steps: int, undo: seq<UndoEntry>)

  /** What `Step` reports besides the new configuration: whether the machine
      may go on running (it has neither halted nor stopped at a breakpoint). */
  datatype StepResult = StepResult(config: Config, running: bool)

  /** A state is a halting state when its first four characters, lower-cased,
      read `halt`: it is spelt `halt` in any mix of cases, followed by anything. */
  function IsHalt(s: string): (r: bool)
    ensures r <==>
      && |s| >= 4
      && (s[0] == 'h' || s[0] == 'H') && (s[1] == 'a' || s[1] == 'A')
      && (s[2] == 'l' || s[2] == 'L') && (s[3] == 't' || s[3] == 'T')
  {
    var p := Lower(Prefix(s, 4));
    assert |s| >= 4 ==> Prefix(s, 4) == s[..4];
    assert p == "halt" <==> |p| == 4 && p[0] == 'h' && p[1] == 'a' && p[2] == 'l' && p[3] == 't';
    p == "halt"
  }

  /** The instruction a step follows among the candidates: none when there is
      no candidate, the one at `choice` in the nondeterministic variant (the
      source draws it at random), and otherwise the first and only one. */
  function Choose(cands: seq<Instruction>, variant: Variant, choice: nat): (r: Option<Instruction>)
    requires variant == Nondeterministic && cands != [] ==> choice < |cands|
    ensures r.None? <==> cands == []
    ensures r.Some? ==> r.value in cands
    ensures r.Some? && variant != Nondeterministic ==> r.value == cands[0]
  {
    if cands == [] then None
    else if variant == Nondeterministic then Some(cands[choice])
    else Some(cands[0])
  }

  /** How far the head moves: one cell right or left, or not at all; in the
      left-bounded variant a move left from cell 0 stays put. */
  function Delta(m: Move, variant: Variant, head: int): (d: int)
    ensures -1 <= d <= 1
    ensures d == 1 <==> m == Right
    ensures d == -1 <==> m == Left && !(variant == LeftBounded && head == 0)
  {
    match m
    case Right => 1
    case Left => if variant == LeftBounded && head == 0 then 0 else -1
    case Stay => 0
  }

  /** The undo list after saving entry `e`: nothing is saved when the limit is
      0; otherwise the oldest entry is dropped when the list is full and `e`
      goes at the end. */
  function Record(undo: seq<UndoEntry>, maxUndo: nat, e: UndoEntry): (r: seq<UndoEntry>)
    ensures maxUndo == 0 ==> r == undo
    ensures maxUndo > 0 ==> r != [] && r[|r| - 1] == e
    ensures maxUndo > 0 && |undo| < maxUndo ==> r == undo + [e]
    ensures maxUndo > 0 && |undo| >= maxUndo ==> |undo| >= 1 && r == undo[1..] + [e]
  {
    if maxUndo == 0 then undo
    else (if |undo| >= maxUndo then undo[1..] else undo) + [e]
  }

  /** The nondeterministic choice fits the candidates of the step from `c`. */
  predicate ChoiceFits(c: Config, table: Table, variant: Variant, choice: nat)
  {
    var cands := Resolve(table, c.state, Read(c.tape, c.head));
    variant == Nondeterministic && cands != [] ==> choice < |cands|
  }

  /** The instruction the step from `c` follows, if any. */
  function Selected(c: Config, table: Table, variant: Variant, choice: nat): Option<Instruction>
    requires ChoiceFits(c, table, variant, choice)
  {
    Choose(Resolve(table, c.state, Read(c.tape, c.head)), variant, choice)
  }

  /** The symbol a step writes: the instruction's, or the one read for `*` and when there is no instruction. */
  function Written(c: Config, ins: Option<Instruction>): char
  {
    if ins.None? || ins.value.newSymbol == '*' then Read(c.tape, c.head) else ins.value.newSymbol
  }

  /** `Step()`: in a halting state nothing changes and the machine reports it
      has stopped. Otherwise the symbol under the head selects the candidate
      instructions, and the machine saves undo information, writes the new
      symbol (the old one for `*`), enters the new state (the old one for `*`),
      moves the head and counts the step. With no instruction it writes the
      symbol back, enters `halt` and stays. It may go on running unless the new
      state halts or the instruction carries a breakpoint. */
  function StepSpec(c: Config, table: Table, variant: Variant, maxUndo: nat, choice: nat): (r: StepResult)
    requires ChoiceFits(c, table, variant, choice)
    ensures IsHalt(c.state) ==> r == StepResult(c, false)
    ensures !IsHalt(c.state) ==> r.config.steps == c.steps + 1 && -1 <= r.config.head - c.head <= 1
    ensures !IsHalt(c.state) ==> r.config.tape == WriteIntended(c.tape, c.head, Written(c, Selected(c, table, variant, choice)))
    ensures !IsHalt(c.state) ==> r.config.undo == Record(c.undo, maxUndo, UndoEntry(c.state, c.head, Read(c.tape, c.head)))
    ensures !IsHalt(c.state) ==>
      var ins := Selected(c, table, variant, choice);
      && r.config.state == (if ins.None? then "halt" else if ins.value.newState == "*" then c.state else ins.value.newState)
      && r.config.head == c.head + (if ins.None? then 0 else Delta(ins.value.action, variant, c.head))
      && (r.running <==> !IsHalt(r.config.state) && !(ins.Some? && ins.value.breakpoint))
    ensures r.running ==> !IsHalt(r.config.state)
  {
    if IsHalt(c.state) then StepResult(c, false)
    else
      var sym := Read(c.tape, c.head);
      var ins := Selected(c, table, variant, choice);
      var newState := if ins.None? then "halt" else if ins.value.newState == "*" then c.state else ins.value.newState;
      var delta := if ins.None? then 0 else Delta(ins.value.action, variant, c.head);
      var undo := Record(c.undo, maxUndo, UndoEntry(c.state, c.head, sym));
      var next := Config(WriteIntended(c.tape, c.head, Written(c, ins)), c.head + delta, newState, c.steps + 1, undo);
      StepResult(next, !IsHalt(newState) && !(ins.Some? && ins.value.breakpoint))
  }

  /** A step from a state that does not halt, as one configuration built from its parts. */
  lemma StepParts(c: Config, table: Table, variant: Variant, maxUndo: nat, choice: nat,
                  ins: Option<Instruction>, newState: string, newSymbol: char, delta: int)
    requires ChoiceFits(c, table, variant, choice) && !IsHalt(c.state)
    requires ins == Selected(c, table, variant, choice)
    requires newState == if ins.None? then "halt" else if ins.value.newState == "*" then c.state else ins.value.newState
    requires newSymbol == Written(c, ins)
    requires delta == if ins.None? then 0 else Delta(ins.value.action, variant, c.head)
    ensures StepSpec(c, table, variant, maxUndo, choice)
      == StepResult(Config(WriteIntended(c.tape, c.head, newSymbol), c.head + delta, newState, c.steps + 1,
                           Record(c.undo, maxUndo, UndoEntry(c.state, c.head, Read(c.tape, c.head)))),
                    !IsHalt(newState) && !(ins.Some? && ins.value.breakpoint))
  {
  }

  /** `Undo()`: take back the most recent saved step, restoring its state, head
      position and symbol; with nothing saved, nothing changes. */
  function UndoSpec(c: Config): (r: Config)
    ensures c.undo == [] ==> r == c
    ensures c.undo != [] ==> r.undo == c.undo[..|c.undo| - 1] && r.steps == c.steps - 1
    ensures c.undo != [] ==> r.state == c.undo[|c.undo| - 1].state && r.head == c.undo[|c.undo| - 1].position
    ensures c.undo != [] ==>
      var e := c.undo[|c.undo| - 1];
      && Read(r.tape, e.position) == Normalize(e.symbol)
      && forall m :: m != e.position ==> Read(r.tape, m) == Read(c.tape, m)
  {
    if c.undo == [] then c
    else
      var e := c.undo[|c.undo| - 1];
      WriteIntendedReadBack(c.tape, e.position, e.symbol);
      Config(WriteIntended(c.tape, e.position, e.symbol), e.position, e.state, c.steps - 1, c.undo[..|c.undo| - 1])
  }

  /** The head starts on the first `*` of the initial tape, or on cell 0. */
  function InitialHead(input: string): (h: nat)
    ensures '*' in input ==> h < |input| && input[h] == '*' && forall i :: 0 <= i < h ==> input[i] != '*'
    ensures '*' !in input ==> h == 0
  {
    var k := IndexOf(input, '*');
    if k == |input| then 0 else k
  }

  /** The initial tape without its `*` marks and with spaces turned to blanks;
      a single space when nothing is left. */
  function InitialCells(input: string): (cells: string)
    ensures cells != [] && '*' !in cells
    ensures Remove(input, '*') == [] ==> cells == " "
    ensures Remove(input, '*') != [] ==> |cells| == |Remove(input, '*')|
    ensures Remove(input, '*') != [] ==>
      forall i :: 0 <= i < |cells| ==> cells[i] == Normalize(Remove(input, '*')[i])
  {
    var s := Replace(Remove(input, '*'), ' ', Blank);
    if s == [] then " " else s
  }

  /** The initial state: the first word of the given text, or `0` when it has none. */
  function InitialState(text: string): (r: string)
    ensures r == if Tokens(text) == [] then "0" else Tokens(text)[0]
    ensures IsWord(r)
  {
    FirstPieceOfTrim(text);
    var w := SplitOnSpaces(Trim(text))[0];
    if w == [] then "0" else w
  }

  /** The tape and state part of `Reset()`: a fresh tape at offset 0, the head
      on the marked cell, the initial state, no steps and nothing to undo. The
      tape reads the input without its `*` marks, spaces as blanks, from cell 0
      on, and blank everywhere else. */
  function ResetSpec(input: string, stateText: string): (r: Config)
    ensures forall n :: Read(r.tape, n) == (if 0 <= n < |Remove(input, '*')| then Normalize(Remove(input, '*')[n]) else Blank)
    ensures r.head == InitialHead(input) && r.state == InitialState(stateText)
    ensures r.steps == 0 && r.undo == []
  {
    Config(Buffer(InitialCells(input), 0), InitialHead(input), InitialState(stateText), 0, [])
  }

  /** The head starts inside the initial buffer or just past its right end:
      no cell before the first mark is removed. */
  lemma InitialHeadOnTape(input: string)
    ensures InitialHead(input) <= |Remove(input, '*')|
    ensures InitialHead(input) <= |InitialCells(input)|
  {
    var h := IndexOf(input, '*');
    if h < |input| {
      RemoveKeepsPrefix(input, '*', h);
      assert |input[..h]| <= |Remove(input, '*')|;
    }
  }

  /** What every configuration the engine reaches satisfies: the head is at
      most one cell beyond the buffer's right end, and every saved position is
      inside the buffer. So every write the engine makes is at or before the
      right end, where the source's `SetTapeSymbol` and the intended write agree. */
  ghost predicate Reach(c: Config)
  {
    && c.head <= c.tape.End()
    && forall i :: 0 <= i < |c.undo| ==> c.undo[i].position < c.tape.End()
  }

  /** In the left-bounded variant the head and every saved position stay at or right of cell 0. */
  ghost predicate LeftOfZeroUnused(c: Config)
  {
    && c.head >= 0
    && forall i :: 0 <= i < |c.undo| ==> c.undo[i].position >= 0
  }

  /** A reset configuration meets both invariants. */
  lemma ResetReach(input: string, stateText: string)
    ensures Reach(ResetSpec(input, stateText))
    ensures LeftOfZeroUnused(ResetSpec(input, stateText))
  {
    InitialHeadOnTape(input);
  }

  /** A step keeps `Reach`. */
  lemma StepReach(c: Config, table: Table, variant: Variant, maxUndo: nat, choice: nat)
    requires ChoiceFits(c, table, variant, choice) && Reach(c)
    ensures Reach(StepSpec(c, table, variant, maxUndo, choice).config)
  {
    if !IsHalt(c.state) {
      var r := StepSpec(c, table, variant, maxUndo, choice).config;
      WriteIntendedReadBack(c.tape, c.head, Written(c, Selected(c, table, variant, choice)));
      RecordFrom(c.undo, maxUndo, UndoEntry(c.state, c.head, Read(c.tape, c.head)));
    }
  }

  /** Every entry of the list after `Record` is the new entry or an old one. */
  lemma RecordFrom(undo: seq<UndoEntry>, maxUndo: nat, e: UndoEntry)
    ensures forall i :: 0 <= i < |Record(undo, maxUndo, e)| ==>
      Record(undo, maxUndo, e)[i] == e || Record(undo, maxUndo, e)[i] in undo
  {
  }

  /** An undo keeps `Reach`. */
  lemma UndoReach(c: Config)
    requires Reach(c)
    ensures Reach(UndoSpec(c))
  {
    if c.undo != [] {
      var e := c.undo[|c.undo| - 1];
      WriteIntendedReadBack(c.tape, e.position, e.symbol);
    }
  }

  /** In the left-bounded variant a step never takes the head left of cell 0. */
  lemma StepLeftBounded(c: Config, table: Table, maxUndo: nat, choice: nat)
    requires ChoiceFits(c, table, LeftBounded, choice) && LeftOfZeroUnused(c)
    ensures LeftOfZeroUnused(StepSpec(c, table, LeftBounded, maxUndo, choice).config)
  {
    if !IsHalt(c.state) {
      RecordFrom(c.undo, maxUndo, UndoEntry(c.state, c.head, Read(c.tape, c.head)));
    }
  }

  /** An undo never takes the head left of cell 0 when nothing saved is. */
  lemma UndoLeftBounded(c: Config)
    requires LeftOfZeroUnused(c)
    ensures LeftOfZeroUnused(UndoSpec(c))
  {
    if c.undo != [] {
      assert c.undo[|c.undo| - 1].position >= 0;
    }
  }

  /** A step that finds no instruction halts where it is: the tape reads the
      same everywhere, the state becomes `halt`, the head stays, the step is
      counted and the machine reports it has stopped. */
  lemma StepNoRule(c: Config, table: Table, variant: Variant, maxUndo: nat, choice: nat)
    requires !IsHalt(c.state)
    requires Resolve(table, c.state, Read(c.tape, c.head)) == []
    ensures var r := StepSpec(c, table, variant, maxUndo, choice);
      && SameTape(r.config.tape, c.tape)
      && r.config.state == "halt" && r.config.head == c.head && r.config.steps == c.steps + 1
      && !r.running
  {
    var sym := Read(c.tape, c.head);
    WriteIntendedReadBack(c.tape, c.head, sym);
    assert IsHalt("halt");
  }

  /** A step followed by an undo gives back the state, the head position, the
      step count and every symbol on the tape; the undo list comes back too
      unless the step had to drop its oldest entry. */
  lemma StepThenUndo(c: Config, table: Table, variant: Variant, maxUndo: nat, choice: nat)
    requires ChoiceFits(c, table, variant, choice)
    requires !IsHalt(c.state) && maxUndo > 0
    ensures var u := UndoSpec(StepSpec(c, table, variant, maxUndo, choice).config);
      && u.state == c.state && u.head == c.head && u.steps == c.steps
      && SameTape(u.tape, c.tape)
      && u.undo == (if |c.undo| < maxUndo then c.undo else c.undo[1..])
  {
    var s := StepSpec(c, table, variant, maxUndo, choice).config;
    var e := UndoEntry(c.state, c.head, Read(c.tape, c.head));
    assert s.undo == Record(c.undo, maxUndo, e);
    assert s.undo[..|s.undo| - 1] == (if |c.undo| < maxUndo then c.undo else c.undo[1..]);
    WriteTwice(c.tape, c.head, Written(c, Selected(c, table, variant, choice)));
  }

  /** Writing at a position and then writing back what it held leaves every
      position reading as before. */
  lemma WriteTwice(t: Buffer, n: int, x: char)
    ensures SameTape(WriteIntended(WriteIntended(t, n, x), n, Read(t, n)), t)
  {
    var t1 := WriteIntended(t, n, x);
    WriteIntendedReadBack(t, n, x);
    WriteIntendedReadBack(t1, n, Read(t, n));
    forall m
      ensures Read(WriteIntended(t1, n, Read(t, n)), m) == Read(t, m)
    {
    }
  }

  /** With at most `maxUndo` saved steps, a step keeps at most `maxUndo`. */
  lemma StepUndoBound(c: Config, table: Table, variant: Variant, maxUndo: nat, choice: nat)
    requires ChoiceFits(c, table, variant, choice) && |c.undo| <= maxUndo
    ensures |StepSpec(c, table, variant, maxUndo, choice).config.undo| <= maxUndo
  {
  }

  /** Outside the nondeterministic variant the choice plays no part in a step. */
  lemma StepDeterministic(c: Config, table: Table, variant: Variant, maxUndo: nat, choice: nat, choice': nat)
    requires variant != Nondeterministic
    ensures StepSpec(c, table, variant, maxUndo, choice) == StepSpec(c, table, variant, maxUndo, choice')
  {
  }
}
