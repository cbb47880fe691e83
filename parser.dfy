/** `ParseLine`: one source line to a rule tuple, a syntax error, or nothing
    (a blank or comment-only line). A rule line reads
    `<current state> <current symbol> <new symbol> <direction> <new state> [!]`. */
module Parser {
  import opened Strings

  /** The head movement of a rule: `l`, `r` or `*`. */
  datatype Move = Left | Right | Stay

  /** A valid rule line. */
  datatype Tuple = Tuple(
    currentState: string,
    currentSymbol: char,
    newSymbol: char,
    action: Move,
    newState: string,
    breakpoint: bool)

  /** The syntax errors `ParseLine` reports, in the order it checks for them. */
  datatype SyntaxError =
    | MissingCurrentSymbol
    | LongCurrentSymbol
    | MissingNewSymbol
    | LongNewSymbol
    | MissingDirection
    | BadDirection
    | MissingNewState
    | TooManyEntries

  datatype Parsed = Empty | Invalid(error: SyntaxError) | Valid(tuple: Tuple)

  /** `line.split(";", 1)[0]`: the line up to its first `;`. */
  function StripComment(line: string): (r: string)
    ensures r <= line && ';' !in r
    ensures |r| < |line| ==> line[|r|] == ';'
  {
    SplitOn(line, ';')[0]
  }

  /** The direction a token names, compared lower-cased with `l`, `r` and `*`:
      exactly `l`, `L`, `r`, `R` and `*` are accepted. */
  function DirectionOf(token: string): (m: Option<Move>)
    ensures m.Some? <==> token in ["l", "L", "r", "R", "*"]
    ensures m == Some(Left) <==> token in ["l", "L"]
    ensures m == Some(Right) <==> token in ["r", "R"]
  {
    var t := Lower(token);
    assert |token| == 1 ==> token == [token[0]] && t == [LowerChar(token[0])];
    if t == "l" then Some(Left)
    else if t == "r" then Some(Right)
    else if t == "*" then Some(Stay)
    else None
  }

  /** The tokens `ParseLine` works on: the whitespace-separated words before the first `;`. */
  function LineTokens(line: string): (ts: seq<string>)
    ensures forall k :: 0 <= k < |ts| ==> IsWord(ts[k])
  {
    Tokens(StripComment(line))
  }

  /** The shape of an acceptable rule line: five or six tokens, one-character
      symbols, a known direction, and `!` as the only allowed sixth token. */
  predicate WellShaped(ts: seq<string>)
  {
    && 5 <= |ts| <= 6
    && |ts[1]| == 1
    && |ts[2]| == 1
    && DirectionOf(ts[3]).Some?
    && (|ts| == 6 ==> ts[5] == "!")
  }

  /** `ParseLine(line)`. A line without tokens is skipped; a line is accepted
      exactly when its tokens are well shaped, and then the tuple holds those
      tokens and a breakpoint exactly when there is a sixth token. */
  function ParseLine(line: string): (p: Parsed)
    ensures p == Empty <==> LineTokens(line) == []
    ensures p.Valid? <==> WellShaped(LineTokens(line))
    ensures p.Valid? ==>
      var ts := LineTokens(line);
      p.tuple == Tuple(ts[0], ts[1][0], ts[2][0], DirectionOf(ts[3]).value, ts[4], |ts| == 6)
  {
    var ts := LineTokens(line);
    if |ts| == 0 then Empty
    else if |ts| < 2 then Invalid(MissingCurrentSymbol)
    else if |ts[1]| > 1 then Invalid(LongCurrentSymbol)
    else if |ts| < 3 then Invalid(MissingNewSymbol)
    else if |ts[2]| > 1 then Invalid(LongNewSymbol)
    else if |ts| < 4 then Invalid(MissingDirection)
    else if DirectionOf(ts[3]).None? then Invalid(BadDirection)
    else if |ts| < 5 then Invalid(MissingNewState)
    else if |ts| > 6 then Invalid(TooManyEntries)
    else if |ts| == 6 && ts[5] != "!" then Invalid(TooManyEntries)
    else
      Valid(Tuple(ts[0], ts[1][0], ts[2][0], DirectionOf(ts[3]).value, ts[4], |ts| == 6))
  }

  /** The text after "Syntax error on line N: " for each error. */
  function ErrorText(e: SyntaxError): string
  {
    match e
    case MissingCurrentSymbol => "missing <current symbol>!"
    case LongCurrentSymbol => "<current symbol> should be a single character!"
    case MissingNewSymbol => "missing <new symbol>!"
    case LongNewSymbol => "<new symbol> should be a single character!"
    case MissingDirection => "missing <direction>!"
    case BadDirection => "<direction> should be 'l', 'r' or '*'!"
    case MissingNewState => "missing <new state>!"
    case TooManyEntries => "too many entries!"
  }

  /** How every syntax error message begins. */
  const SyntaxPrefix: string := "Syntax error on line "

  /** The message for a syntax error on the 0-based line `line`: it names the
      line 1-based and ends with the error's text. */
  function ErrorMessage(e: SyntaxError, line: nat): (r: string)
    ensures MessageLine(r) == Some(line)
    ensures |r| >= |ErrorText(e)| && r[|r| - |ErrorText(e)|..] == ErrorText(e)
  {
    var digits := Decimal(line + 1);
    var r := SyntaxPrefix + digits + ": " + ErrorText(e);
    assert r[|SyntaxPrefix|..] == digits + (": " + ErrorText(e));
    DigitRunOf(digits, ": " + ErrorText(e));
    assert r[|SyntaxPrefix|..][..|digits|] == digits;
    DecimalRoundTrip(line + 1);
    r
  }

  /** The 0-based line a syntax error message names, read back from the
      digits after its prefix; nothing when it is no such message. */
  function MessageLine(m: string): Option<nat>
  {
    if !(SyntaxPrefix <= m) then None
    else
      var rest := m[|SyntaxPrefix|..];
      var v := DecimalValue(rest[..DigitRun(rest)]);
      if v == 0 then None else Some(v - 1)
  }

  /** Different errors have different texts. */
  lemma ErrorTextDistinct(e: SyntaxError, e': SyntaxError)
    requires ErrorText(e) == ErrorText(e')
    ensures e == e'
  {
    var t, t' := ErrorText(e), ErrorText(e');
    assert |t| == |t'| && t[0] == t'[0] && t[9] == t'[9] && t[1] == t'[1];
  }

  /** A syntax error message tells which error it reports and on which line. */
  lemma ErrorMessageIdentifies(e: SyntaxError, line: nat, e': SyntaxError, line': nat)
    requires ErrorMessage(e, line) == ErrorMessage(e', line')
    ensures e == e' && line == line'
  {
    var m := ErrorMessage(e, line);
    var head := SyntaxPrefix + Decimal(line + 1) + ": ";
    assert m == head + ErrorText(e);
    assert m == head + ErrorText(e');
    assert ErrorText(e) == m[|head|..] == ErrorText(e');
    ErrorTextDistinct(e, e');
  }

  /** The canonical spelling of a direction. */
  function DirectionToken(m: Move): string
  {
    match m
    case Left => "l"
    case Right => "r"
    case Stay => "*"
  }

  /** The tokens of a tuple written out as a rule line. */
  function RenderTokens(t: Tuple): seq<string>
  {
    [t.currentState, [t.currentSymbol], [t.newSymbol], DirectionToken(t.action), t.newState]
      + (if t.breakpoint then ["!"] else [])
  }

  /** A tuple written out as a rule line, tokens separated by single spaces. */
  function Render(t: Tuple): string
  {
    Join(RenderTokens(t), ' ')
  }

  /** A tuple that a rule line can spell: its states are tokens and its symbols
      are single non-whitespace characters, none of them a comment mark. */
  predicate Renderable(t: Tuple)
  {
    && IsWord(t.currentState) && ';' !in t.currentState
    && IsWord(t.newState) && ';' !in t.newState
    && !IsSpace(t.currentSymbol) && t.currentSymbol != ';'
    && !IsSpace(t.newSymbol) && t.newSymbol != ';'
  }

  /** Joining pieces that avoid `c` with a separator other than `c` avoids `c`. */
  lemma {:induction false} JoinAvoids(pieces: seq<string>, sep: char, c: char)
    requires c != sep
    requires forall p :: p in pieces ==> c !in p
    ensures c !in Join(pieces, sep)
  {
    if |pieces| > 1 {
      assert pieces[0] in pieces;
      assert forall p :: p in pieces[1..] ==> p in pieces;
      JoinAvoids(pieces[1..], sep, c);
    } else if |pieces| == 1 {
      assert pieces[0] in pieces;
    }
  }

  /** A rendered tuple has no comment mark, so nothing of it is stripped. */
  lemma RenderUncommented(t: Tuple)
    requires Renderable(t)
    ensures StripComment(Render(t)) == Render(t)
  {
    var ts := RenderTokens(t);
    assert forall p :: p in ts ==> ';' !in p;
    JoinAvoids(ts, ' ', ';');
  }

  /** The tokens of a rendered tuple are its rendered tokens. */
  lemma RenderTokenized(t: Tuple)
    requires Renderable(t)
    ensures LineTokens(Render(t)) == RenderTokens(t)
  {
    var ts := RenderTokens(t);
    assert forall p :: p in ts ==> IsWord(p);
    RenderUncommented(t);
    TokensOfJoin(ts);
  }

  /** A line is parsed from its tokens alone. */
  lemma ParseFromTokens(line: string, ts: seq<string>)
    requires LineTokens(line) == ts
    requires WellShaped(ts)
    ensures ParseLine(line) == Valid(Tuple(ts[0], ts[1][0], ts[2][0], DirectionOf(ts[3]).value, ts[4], |ts| == 6))
  {
  }

  /** Parsing inverts rendering: a renderable tuple, written out, parses back to itself. */
  lemma ParseRender(t: Tuple)
    requires Renderable(t)
    ensures ParseLine(Render(t)) == Valid(t)
  {
    var ts := RenderTokens(t);
    RenderTokenized(t);
    assert DirectionOf(ts[3]) == Some(t.action);
    ParseFromTokens(Render(t), ts);
  }
}
