/** `Compile` and `GetNextInstructions`: the program table built from the
    source text, and the four-probe lookup with wildcard fallback. */
module Program {
  import opened Strings
  import opened Parser

  /** The machine variants: 0 standard, 1 tape infinite to the right only,
      2 nondeterministic. */
  datatype Variant = Standard | LeftBounded | Nondeterministic

  /** An entry of the program table, as `createTuringInstructionFromTuple` builds it. */
  datatype Instruction = Instruction(
    newSymbol: char,
    action: Move,
    newState: string,
    sourceLine: nat,
    breakpoint: bool)

  /** A table key: a state and a symbol, either of which may be the wildcard `*`. */
  type Key = (string, char)

  /** The source's `aProgram[state][symbol]`, keyed by the pair. */
  type Table = map<Key, seq<Instruction>>

  /** What `Compile` reports: a syntax error on a line, or a second definition
      for a key outside the nondeterministic variant. Lines are 0-based. */
  datatype Diagnostic =
    | SyntaxDiagnostic(line: nat, error: SyntaxError)
    | Conflict(state: string, symbol: char, earlierLine: nat, line: nat)

  datatype Compiled = Compiled(table: Table, diagnostics: seq<Diagnostic>)

  /** `createTuringInstructionFromTuple(tuple, line)`. */
  function InstructionOf(t: Tuple, line: nat): (r: Instruction)
    ensures r.sourceLine == line
    ensures Tuple(KeyOf(t).0, KeyOf(t).1, r.newSymbol, r.action, r.newState, r.breakpoint) == t
  {
    Instruction(t.newSymbol, t.action, t.newState, line, t.breakpoint)
  }

  function KeyOf(t: Tuple): Key
  {
    (t.currentState, t.currentSymbol)
  }

  /** The message text `Compile` shows for a diagnostic (lines shown 1-based):
      a syntax error message names its line, and a conflict warning is never
      read as one and ends with the number of the overwriting line. */
  function Message(d: Diagnostic): (r: string)
    ensures d.SyntaxDiagnostic? ==> r == ErrorMessage(d.error, d.line) && MessageLine(r) == Some(d.line)
    ensures d.Conflict? ==> MessageLine(r) == None
    ensures d.Conflict? ==> var n := Decimal(d.line + 1); |r| >= |n| && r[|r| - |n|..] == n
  {
    match d
    case SyntaxDiagnostic(line, e) => ErrorMessage(e, line)
    case Conflict(s, c, earlier, line) =>
      var warning := "Warning: Multiple definitions for state '";
      var r := warning + (s + "' symbol '" + [c] + "' on lines " + Decimal(earlier + 1) + " and " + Decimal(line + 1));
      assert r[0] == warning[0] == 'W' && SyntaxPrefix[0] == 'S';
      r
  }

  /** The lines `Compile` marks as in error for a diagnostic: the line it is
      reported on and, for a conflict, the earlier definition's line. */
  function ErrorLines(d: Diagnostic): (r: seq<nat>)
    ensures d.line in r
    ensures d.Conflict? ==> d.earlierLine in r
    ensures forall l :: l in r ==> l == d.line || (d.Conflict? && l == d.earlierLine)
  {
    match d
    case SyntaxDiagnostic(line, _) => [line]
    case Conflict(_, _, earlier, line) => [line, earlier]
  }

  /** `source.replace(/\r/g, "").split("\n")`. */
  function SourceLines(source: string): seq<string>
  {
    SplitOn(Remove(source, '\r'), '\n')
  }

  /** The parse of each source line. */
  function ParseAll(lines: seq<string>): (r: seq<Parsed>)
    ensures |r| == |lines|
    ensures forall i :: 0 <= i < |lines| ==> r[i] == ParseLine(lines[i])
  {
    seq(|lines|, i requires 0 <= i < |lines| => ParseLine(lines[i]))
  }

  /** One turn of `Compile`'s loop: line `i` of the source, parsed as `parsed`, added to `c`. */
  function AddLine(c: Compiled, variant: Variant, i: nat, parsed: Parsed): (r: Compiled)
    ensures c.diagnostics <= r.diagnostics && |r.diagnostics| <= |c.diagnostics| + 1
    ensures parsed.Valid? ==> KeyOf(parsed.tuple) in r.table && InstructionOf(parsed.tuple, i) in r.table[KeyOf(parsed.tuple)]
    ensures parsed.Valid? ==> r.table == c.table[KeyOf(parsed.tuple) := r.table[KeyOf(parsed.tuple)]]
    ensures !parsed.Valid? ==> r.table == c.table
  {
    match parsed
    case Empty => c
    case Invalid(e) => Compiled(c.table, c.diagnostics + [SyntaxDiagnostic(i, e)])
    case Valid(t) =>
      var k := KeyOf(t);
      var present := if k in c.table then c.table[k] else [];
      if |present| > 0 && variant != Nondeterministic then
        Compiled(c.table[k := [InstructionOf(t, i)] + present[1..]],
                 c.diagnostics + [Conflict(k.0, k.1, present[0].sourceLine, i)])
      else
        Compiled(c.table[k := present + [InstructionOf(t, i)]], c.diagnostics)
  }

  /** The table and diagnostics after compiling the parsed lines in order. */
  function Build(lines: seq<Parsed>, variant: Variant): (r: Compiled)
    ensures |r.diagnostics| <= |lines|
    ensures forall k :: k in r.table ==> r.table[k] != []
    decreases |lines|
  {
    if lines == [] then Compiled(map[], [])
    else
      var n := |lines| - 1;
      AddLine(Build(lines[..n], variant), variant, n, lines[n])
  }

  /** `Compile()`: parse every line and fill the table. */
  method Compile(source: string, variant: Variant) returns (table: Table, diagnostics: seq<Diagnostic>)
    ensures Compiled(table, diagnostics) == Build(ParseAll(SourceLines(source)), variant)
  {
    table, diagnostics := map[], [];
    var lines := SourceLines(source);
    ghost var all := ParseAll(lines);
    for i := 0 to |lines|
      invariant Compiled(table, diagnostics) == Build(all[..i], variant)
    {
      var parsed := ParseLine(lines[i]);
      BuildStep(all, variant, i);
      table, diagnostics := CompileLine(table, diagnostics, variant, i, parsed);
    }
    assert all[..|lines|] == all;
  }

  /** Compiling one more line is one more `AddLine`. */
  lemma BuildStep(lines: seq<Parsed>, variant: Variant, i: nat)
    requires i < |lines|
    ensures Build(lines[..i + 1], variant) == AddLine(Build(lines[..i], variant), variant, i, lines[i])
  {
    assert lines[..i + 1][..i] == lines[..i];
  }

  /** The body of `Compile`'s loop for line `i`: a valid rule goes into the
      table, overwriting an earlier one outside the nondeterministic variant; a
      syntax error is reported. */
  method CompileLine(table: Table, diagnostics: seq<Diagnostic>, variant: Variant, i: nat, parsed: Parsed)
    returns (table': Table, diagnostics': seq<Diagnostic>)
    ensures Compiled(table', diagnostics') == AddLine(Compiled(table, diagnostics), variant, i, parsed)
  {
    table', diagnostics' := table, diagnostics;
    if parsed.Valid? {
      var t := parsed.tuple;
      var key := (t.currentState, t.currentSymbol);
      if key !in table' {
        table' := table'[key := []];
      }
      var ins := InstructionOf(t, i);
      if |table'[key]| > 0 && variant != Nondeterministic {
        diagnostics' := diagnostics' + [Conflict(t.currentState, t.currentSymbol, table'[key][0].sourceLine, i)];
        table' := table'[key := [ins] + table'[key][1..]];
      } else {
        table' := table'[key := table'[key] + [ins]];
      }
      assert table' == table[key := table'[key]];
    } else if parsed.Invalid? {
      diagnostics' := diagnostics' + [SyntaxDiagnostic(i, parsed.error)];
    }
  }

  /** The instruction line `j` defines for key `k`, if it defines one. */
  function DefAt(lines: seq<Parsed>, j: nat, k: Key): seq<Instruction>
    requires j < |lines|
  {
    match lines[j]
    case Valid(t) => if KeyOf(t) == k then [InstructionOf(t, j)] else []
    case _ => []
  }

  /** Every instruction the valid lines of `lines` define for key `k`, in source order. */
  function Defs(lines: seq<Parsed>, k: Key): seq<Instruction>
    decreases |lines|
  {
    if lines == [] then []
    else Defs(lines[..|lines| - 1], k) + DefAt(lines, |lines| - 1, k)
  }

  /** `Defs` holds exactly the instructions of the valid lines for `k`, with
      strictly increasing source lines. */
  lemma {:induction false} DefsAreDefinitions(lines: seq<Parsed>, k: Key)
    ensures forall j :: 0 <= j < |Defs(lines, k)| ==>
      var ins := Defs(lines, k)[j];
      && ins.sourceLine < |lines|
      && DefAt(lines, ins.sourceLine, k) == [ins]
    ensures forall j :: 0 <= j < |lines| && DefAt(lines, j, k) != [] ==> DefAt(lines, j, k)[0] in Defs(lines, k)
    ensures forall i, j :: 0 <= i < j < |Defs(lines, k)| ==> Defs(lines, k)[i].sourceLine < Defs(lines, k)[j].sourceLine
    decreases |lines|
  {
    if lines != [] {
      var n := |lines| - 1;
      var p := lines[..n];
      DefsAreDefinitions(p, k);
      assert forall j :: 0 <= j < n ==> DefAt(p, j, k) == DefAt(lines, j, k);
    }
  }

  /** What the table holds for a key with definitions `defs`: all of them in
      the nondeterministic variant, otherwise the last one. */
  function Entry(defs: seq<Instruction>, variant: Variant): seq<Instruction>
    requires defs != []
  {
    if variant == Nondeterministic then defs else [defs[|defs| - 1]]
  }

  /** `table` has an entry exactly for the keys that `lines` define, holding `Entry` of their definitions. */
  ghost predicate TableMatches(table: Table, lines: seq<Parsed>, variant: Variant)
  {
    forall k :: KeyMatches(table, lines, variant, k)
  }

  /** What the table holds for one key `k`, given the lines. */
  ghost predicate KeyMatches(table: Table, lines: seq<Parsed>, variant: Variant, k: Key)
  {
    Holds(table, Defs(lines, k), variant, k)
  }

  /** The table has an entry for `k` exactly when `defs` is non-empty, and it is `Entry(defs)`. */
  predicate Holds(table: Table, defs: seq<Instruction>, variant: Variant, k: Key)
  {
    && (k in table <==> defs != [])
    && (k in table ==> defs != [] && table[k] == Entry(defs, variant))
  }

  /** The table `Compile` builds holds, for every key some valid line defines
      and for no other key: in the nondeterministic variant every definition in
      source order, and otherwise only the last one. */
  lemma {:induction false} BuildTable(lines: seq<Parsed>, variant: Variant)
    ensures TableMatches(Build(lines, variant).table, lines, variant)
    decreases |lines|
  {
    if lines != [] {
      var n := |lines| - 1;
      var p := lines[..n];
      BuildTable(p, variant);
      var c := Build(p, variant);
      var after := Build(lines, variant).table;
      assert after == AddLine(c, variant, n, lines[n]).table;
      forall k
        ensures KeyMatches(after, lines, variant, k)
      {
        assert KeyMatches(c.table, p, variant, k);
        assert Defs(lines, k) == Defs(p, k) + DefAt(lines, n, k);
        AddLineKey(c, after, Defs(p, k), Defs(lines, k), lines[n], n, variant, k);
      }
    }
  }

  /** The induction step of `BuildTable` for one key: adding line `n`. */
  lemma AddLineKey(c: Compiled, after: Table, defs: seq<Instruction>, defs': seq<Instruction>,
                   line: Parsed, n: nat, variant: Variant, k: Key)
    requires Holds(c.table, defs, variant, k)
    requires defs' == defs + (if line.Valid? && KeyOf(line.tuple) == k then [InstructionOf(line.tuple, n)] else [])
    requires after == AddLine(c, variant, n, line).table
    ensures Holds(after, defs', variant, k)
  {
    match line
    case Empty =>
    case Invalid(_) =>
    case Valid(t) =>
      if KeyOf(t) == k {
        AddDefinition(c, after, defs, variant, t, n);
      } else {
        assert after == c.table[KeyOf(t) := after[KeyOf(t)]];
      }
  }

  /** Adding a definition for key `KeyOf(t)` from line `n` extends what the table holds for it. */
  lemma AddDefinition(c: Compiled, after: Table, defs: seq<Instruction>, variant: Variant, t: Tuple, n: nat)
    requires Holds(c.table, defs, variant, KeyOf(t))
    requires after == AddLine(c, variant, n, Valid(t)).table
    ensures KeyOf(t) in after
    ensures after[KeyOf(t)] == Entry(defs + [InstructionOf(t, n)], variant)
  {
    var k := KeyOf(t);
    var ins := InstructionOf(t, n);
    var present := if k in c.table then c.table[k] else [];
    if variant == Nondeterministic {
      assert after[k] == present + [ins];
    } else if |present| > 0 {
      assert present[1..] == [];
      assert after[k] == [ins] + present[1..];
    } else {
      assert after[k] == present + [ins];
    }
  }

  /** The reason a diagnostic may be reported for `lines`: a syntax error is
      reported for a line that does not parse, and a conflict, outside the
      nondeterministic variant, for two successive definitions of one key. */
  ghost predicate Justified(lines: seq<Parsed>, variant: Variant, d: Diagnostic)
  {
    match d
    case SyntaxDiagnostic(i, e) => i < |lines| && lines[i] == Invalid(e)
    case Conflict(s, c, a, b) =>
      variant != Nondeterministic && Successive(Defs(lines, (s, c)), a, b)
  }

  /** Lines `a` and `b` hold two successive definitions in `defs`. */
  ghost predicate Successive(defs: seq<Instruction>, a: nat, b: nat)
  {
    exists j :: 1 <= j < |defs| && defs[j - 1].sourceLine == a && defs[j].sourceLine == b
  }

  lemma SuccessiveExtends(defs: seq<Instruction>, more: seq<Instruction>, a: nat, b: nat)
    requires Successive(defs, a, b)
    ensures Successive(defs + more, a, b)
  {
    var j :| 1 <= j < |defs| && defs[j - 1].sourceLine == a && defs[j].sourceLine == b;
    assert (defs + more)[j - 1] == defs[j - 1] && (defs + more)[j] == defs[j];
  }

  /** Every diagnostic in `ds` has a reason in `lines`. */
  ghost predicate AllJustified(ds: seq<Diagnostic>, lines: seq<Parsed>, variant: Variant)
  {
    forall d :: d in ds ==> Justified(lines, variant, d)
  }

  /** Every line of `lines` that fails to parse is reported in `ds`. */
  ghost predicate SyntaxReported(ds: seq<Diagnostic>, lines: seq<Parsed>)
  {
    forall i :: 0 <= i < |lines| && lines[i].Invalid? ==> SyntaxDiagnostic(i, lines[i].error) in ds
  }

  /** Outside the nondeterministic variant, every pair of successive definitions
      of a key in `lines` is reported in `ds`. */
  ghost predicate ConflictsReported(ds: seq<Diagnostic>, lines: seq<Parsed>, variant: Variant)
  {
    variant != Nondeterministic ==>
      forall k: Key, j :: 1 <= j < |Defs(lines, k)| ==>
        Conflict(k.0, k.1, Defs(lines, k)[j - 1].sourceLine, Defs(lines, k)[j].sourceLine) in ds
  }

  /** `Compile` reports every syntax error and, outside the nondeterministic
      variant, every overwrite with the overwritten and the overwriting line;
      and it reports nothing else. */
  lemma {:induction false} BuildDiagnostics(lines: seq<Parsed>, variant: Variant)
    ensures AllJustified(Build(lines, variant).diagnostics, lines, variant)
    ensures SyntaxReported(Build(lines, variant).diagnostics, lines)
    ensures ConflictsReported(Build(lines, variant).diagnostics, lines, variant)
    decreases |lines|
  {
    if lines != [] {
      var n := |lines| - 1;
      var p := lines[..n];
      BuildDiagnostics(p, variant);
      BuildTable(p, variant);
      var c := Build(p, variant);
      forall d | d in c.diagnostics
        ensures Justified(lines, variant, d)
      {
        JustifiedExtends(lines, variant, d);
      }
      AddLineDiagnostics(lines, variant);
    }
  }

  /** Every line `Compile` marks is a line of the program. */
  lemma CompileMarksSourceLines(lines: seq<Parsed>, variant: Variant)
    ensures forall d, l :: d in Build(lines, variant).diagnostics && l in ErrorLines(d) ==> l < |lines|
  {
    BuildDiagnostics(lines, variant);
    forall d, l | d in Build(lines, variant).diagnostics && l in ErrorLines(d)
      ensures l < |lines|
    {
      assert Justified(lines, variant, d);
      if d.Conflict? {
        var k := (d.state, d.symbol);
        var j :| 1 <= j < |Defs(lines, k)| && Defs(lines, k)[j - 1].sourceLine == d.earlierLine
                 && Defs(lines, k)[j].sourceLine == d.line;
        DefsAreDefinitions(lines, k);
      }
    }
  }

  /** The definitions of a key grow by at most the last line's. */
  lemma DefsExtend(lines: seq<Parsed>, k: Key)
    requires lines != []
    ensures Defs(lines, k) == Defs(lines[..|lines| - 1], k) + DefAt(lines, |lines| - 1, k)
  {
  }

  /** A reason found in a prefix of the lines remains a reason in all of them. */
  lemma JustifiedExtends(lines: seq<Parsed>, variant: Variant, d: Diagnostic)
    requires lines != []
    requires Justified(lines[..|lines| - 1], variant, d)
    ensures Justified(lines, variant, d)
  {
    var p := lines[..|lines| - 1];
    if d.Conflict? {
      var k := (d.state, d.symbol);
      DefsExtend(lines, k);
      SuccessiveExtends(Defs(p, k), DefAt(lines, |lines| - 1, k), d.earlierLine, d.line);
    }
  }

  /** The induction step of `BuildDiagnostics`: what the last line adds. */
  lemma AddLineDiagnostics(lines: seq<Parsed>, variant: Variant)
    requires lines != []
    requires TableMatches(Build(lines[..|lines| - 1], variant).table, lines[..|lines| - 1], variant)
    requires SyntaxReported(Build(lines[..|lines| - 1], variant).diagnostics, lines[..|lines| - 1])
    requires ConflictsReported(Build(lines[..|lines| - 1], variant).diagnostics, lines[..|lines| - 1], variant)
    requires AllJustified(Build(lines[..|lines| - 1], variant).diagnostics, lines, variant)
    ensures AllJustified(Build(lines, variant).diagnostics, lines, variant)
    ensures SyntaxReported(Build(lines, variant).diagnostics, lines)
    ensures ConflictsReported(Build(lines, variant).diagnostics, lines, variant)
  {
    var n := |lines| - 1;
    var p := lines[..n];
    var c := Build(p, variant);
    var ds := Build(lines, variant).diagnostics;
    assert Build(lines, variant) == AddLine(c, variant, n, lines[n]);
    assert c.diagnostics <= ds;
    forall i | 0 <= i < |lines| && lines[i].Invalid?
      ensures SyntaxDiagnostic(i, lines[i].error) in ds
    {
      if i < n {
        assert p[i] == lines[i];
      }
    }
    if lines[n].Valid? && KeyOf(lines[n].tuple) in c.table && variant != Nondeterministic {
      NewConflict(lines, variant, lines[n].tuple);
    } else {
      if lines[n].Invalid? {
        assert ds == c.diagnostics + [SyntaxDiagnostic(n, lines[n].error)];
      } else {
        assert ds == c.diagnostics;
      }
      NoNewConflicts(lines, variant);
    }
  }

  /** When the last line overwrites nothing, the conflicts already reported
      still cover every overwrite. */
  lemma NoNewConflicts(lines: seq<Parsed>, variant: Variant)
    requires lines != []
    requires TableMatches(Build(lines[..|lines| - 1], variant).table, lines[..|lines| - 1], variant)
    requires ConflictsReported(Build(lines[..|lines| - 1], variant).diagnostics, lines[..|lines| - 1], variant)
    requires Build(lines[..|lines| - 1], variant).diagnostics <= Build(lines, variant).diagnostics
    requires lines[|lines| - 1].Valid? && variant != Nondeterministic
             ==> KeyOf(lines[|lines| - 1].tuple) !in Build(lines[..|lines| - 1], variant).table
    ensures ConflictsReported(Build(lines, variant).diagnostics, lines, variant)
  {
    var n := |lines| - 1;
    var p := lines[..n];
    var c := Build(p, variant);
    if variant != Nondeterministic {
      forall k: Key, j | 1 <= j < |Defs(lines, k)|
        ensures Conflict(k.0, k.1, Defs(lines, k)[j - 1].sourceLine, Defs(lines, k)[j].sourceLine)
                  in Build(lines, variant).diagnostics
      {
        DefsExtend(lines, k);
        assert KeyMatches(c.table, p, variant, k);
        assert j < |Defs(p, k)|;
        assert Defs(lines, k)[j - 1] == Defs(p, k)[j - 1] && Defs(lines, k)[j] == Defs(p, k)[j];
      }
    }
  }

  /** When the last line redefines a key outside the nondeterministic variant,
      its conflict names the previous definition, so it is justified, and with
      it every overwrite is reported. */
  lemma NewConflict(lines: seq<Parsed>, variant: Variant, t: Tuple)
    requires lines != [] && lines[|lines| - 1] == Valid(t) && variant != Nondeterministic
    requires TableMatches(Build(lines[..|lines| - 1], variant).table, lines[..|lines| - 1], variant)
    requires ConflictsReported(Build(lines[..|lines| - 1], variant).diagnostics, lines[..|lines| - 1], variant)
    requires AllJustified(Build(lines[..|lines| - 1], variant).diagnostics, lines, variant)
    requires KeyOf(t) in Build(lines[..|lines| - 1], variant).table
    ensures AllJustified(Build(lines, variant).diagnostics, lines, variant)
    ensures ConflictsReported(Build(lines, variant).diagnostics, lines, variant)
  {
    var n := |lines| - 1;
    var p := lines[..n];
    var c := Build(p, variant);
    var k := KeyOf(t);
    assert KeyMatches(c.table, p, variant, k);
    var m := |Defs(p, k)|;
    DefsExtend(lines, k);
    assert DefAt(lines, n, k) == [InstructionOf(t, n)];
    assert c.table[k] == [Defs(p, k)[m - 1]];
    var d := Conflict(k.0, k.1, Defs(p, k)[m - 1].sourceLine, n);
    assert Build(lines, variant) == AddLine(c, variant, n, lines[n]);
    assert Build(lines, variant).diagnostics == c.diagnostics + [d];
    assert Defs(lines, k)[m - 1] == Defs(p, k)[m - 1] && Defs(lines, k)[m].sourceLine == n;
    assert Successive(Defs(lines, k), Defs(p, k)[m - 1].sourceLine, n);
    ConflictsCovered(lines, variant, t, c.diagnostics, d);
  }

  /** The conflicts reported for all lines but the last, together with the
      conflict the last line's definition of key `KeyOf(t)` raises, are all
      the conflicts of `lines`. */
  lemma ConflictsCovered(lines: seq<Parsed>, variant: Variant, t: Tuple, ds: seq<Diagnostic>, d: Diagnostic)
    requires lines != [] && lines[|lines| - 1] == Valid(t) && variant != Nondeterministic
    requires ConflictsReported(ds, lines[..|lines| - 1], variant)
    requires var m := |Defs(lines[..|lines| - 1], KeyOf(t))|;
      && m >= 1
      && d == Conflict(KeyOf(t).0, KeyOf(t).1, Defs(lines[..|lines| - 1], KeyOf(t))[m - 1].sourceLine, |lines| - 1)
    ensures ConflictsReported(ds + [d], lines, variant)
  {
    var n := |lines| - 1;
    var p := lines[..n];
    var k := KeyOf(t);
    var m := |Defs(p, k)|;
    forall k': Key, j | 1 <= j < |Defs(lines, k')|
      ensures Conflict(k'.0, k'.1, Defs(lines, k')[j - 1].sourceLine, Defs(lines, k')[j].sourceLine) in ds + [d]
    {
      DefsExtend(lines, k');
      assert DefAt(lines, n, k') == if k' == k then [InstructionOf(t, n)] else [];
      if k' != k || j < m {
        assert Defs(lines, k')[j - 1] == Defs(p, k')[j - 1] && Defs(lines, k')[j] == Defs(p, k')[j];
      }
    }
  }

  /** Every list in a table `Compile` builds is non-empty, and outside the
      nondeterministic variant holds one instruction. */
  lemma BuildWellFormed(lines: seq<Parsed>, variant: Variant)
    ensures forall k :: k in Build(lines, variant).table ==> Build(lines, variant).table[k] != []
    ensures variant != Nondeterministic ==>
      forall k :: k in Build(lines, variant).table ==> |Build(lines, variant).table[k]| == 1
  {
    BuildTable(lines, variant);
  }

  /** The four keys `GetNextInstructions` probes, in order. */
  function Probes(state: string, symbol: char): seq<Key>
  {
    [(state, symbol), (state, '*'), ("*", symbol), ("*", '*')]
  }

  /** The list at the first of `keys` present in the table; empty when none is. */
  function FirstPresent(table: Table, keys: seq<Key>): seq<Instruction>
  {
    if keys == [] then []
    else if keys[0] in table then table[keys[0]]
    else FirstPresent(table, keys[1..])
  }

  /** No key of `keys` before index `i` is present in the table. */
  ghost predicate AbsentBefore(table: Table, keys: seq<Key>, i: int)
    requires i <= |keys|
  {
    forall j :: 0 <= j < i ==> keys[j] !in table
  }

  /** `FirstPresent` answers with the first key present, skipping only absent ones. */
  lemma {:induction false} FirstPresentAt(table: Table, keys: seq<Key>, i: nat)
    requires i < |keys| && keys[i] in table && AbsentBefore(table, keys, i)
    ensures FirstPresent(table, keys) == table[keys[i]]
    decreases i
  {
    if i > 0 {
      assert keys[0] !in table;
      assert keys[1..][i - 1] == keys[i];
      assert AbsentBefore(table, keys[1..], i - 1) by {
        forall j | 0 <= j < i - 1 ensures keys[1..][j] !in table {
          assert keys[1..][j] == keys[j + 1];
        }
      }
      FirstPresentAt(table, keys[1..], i - 1);
    }
  }

  /** `FirstPresent` is empty when no key is present. */
  lemma {:induction false} FirstPresentNone(table: Table, keys: seq<Key>)
    requires AbsentBefore(table, keys, |keys|)
    ensures FirstPresent(table, keys) == []
    decreases |keys|
  {
    if keys != [] {
      assert keys[0] !in table;
      assert AbsentBefore(table, keys[1..], |keys| - 1) by {
        forall j | 0 <= j < |keys| - 1 ensures keys[1..][j] !in table {
          assert keys[1..][j] == keys[j + 1];
        }
      }
      FirstPresentNone(table, keys[1..]);
    }
  }

  /** `GetNextInstructions(state, symbol)`. */
  function Resolve(table: Table, state: string, symbol: char): (r: seq<Instruction>)
    ensures r == FirstPresent(table, Probes(state, symbol))
  {
    var keys := Probes(state, symbol);
    assert keys[1..][1..] == keys[2..] && keys[2..][1..] == keys[3..] && keys[3..][1..] == [];
    assert FirstPresent(table, keys[3..]) == if ("*", '*') in table then table[("*", '*')] else [];
    assert FirstPresent(table, keys[2..]) == if ("*", symbol) in table then table[("*", symbol)] else FirstPresent(table, keys[3..]);
    assert FirstPresent(table, keys[1..]) == if (state, '*') in table then table[(state, '*')] else FirstPresent(table, keys[2..]);
    if (state, symbol) in table then table[(state, symbol)]
    else if (state, '*') in table then table[(state, '*')]
    else if ("*", symbol) in table then table[("*", symbol)]
    else if ("*", '*') in table then table[("*", '*')]
    else []
  }

  /** Resolution tries exact state and symbol, then the state with any symbol,
      then any state with the symbol, then any state and symbol, and answers
      with the first entry present: an exact entry wins whatever wildcard
      entries exist, and the answer is empty only when no probe is present. */
  lemma ResolveOrder(table: Table, state: string, symbol: char)
    ensures AbsentBefore(table, Probes(state, symbol), 4) ==> Resolve(table, state, symbol) == []
    ensures forall i :: 0 <= i < 4 && Probes(state, symbol)[i] in table
                        && AbsentBefore(table, Probes(state, symbol), i)
                        ==> Resolve(table, state, symbol) == table[Probes(state, symbol)[i]]
  {
    var keys := Probes(state, symbol);
    if AbsentBefore(table, keys, 4) {
      FirstPresentNone(table, keys);
    }
    forall i | 0 <= i < 4 && keys[i] in table && AbsentBefore(table, keys, i)
      ensures FirstPresent(table, keys) == table[keys[i]]
    {
      FirstPresentAt(table, keys, i);
    }
  }
}
