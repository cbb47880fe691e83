/** The sparse tape: a buffer of cells (the source's `sTape`) whose first cell
    sits at tape position `offset` (`nTapeOffset`). Every position outside the
    buffer holds a blank. The buffer only ever grows. */
module Tape {

  /** The blank symbol. */
  const Blank: char := '_'

  datatype Buffer = Buffer(cells: string, offset: int) {
    /** One past the last tape position the buffer covers. */
    function End(): int { offset + |cells| }
  }

  /** A space that reaches the tape stands for a blank. */
  function Normalize(c: char): (r: char)
    ensures r != ' '
    ensures c == ' ' ==> r == Blank
    ensures c != ' ' ==> r == c
  {
    if c == ' ' then Blank else c
  }

  /** `GetTapeSymbol(n)`: the symbol at position `n`; blank outside the buffer
      and never a space. */
  function Read(t: Buffer, n: int): (c: char)
    ensures c != ' '
    ensures (n < t.offset || n >= t.End()) ==> c == Blank
    ensures t.offset <= n < t.End() ==> c == Normalize(t.cells[n - t.offset])
  {
    if n < t.offset || n >= t.End() then Blank else Normalize(t.cells[n - t.offset])
  }

  /** Two buffers that hold the same symbol at every position. */
  ghost predicate SameTape(t: Buffer, u: Buffer)
  {
    forall n :: Read(t, n) == Read(u, n)
  }

  /** `repeat(c, n)`: `n` copies of `c`, and nothing when `n` is not positive. */
  function Copies(c: char, n: int): (r: string)
    ensures |r| == if n > 0 then n else 0
    ensures forall i :: 0 <= i < |r| ==> r[i] == c
  {
    if n <= 0 then [] else [c] + Copies(c, n - 1)
  }

  /** `repeat(c, n)` as the source computes it, one character per turn of a
      counting-down loop. */
  method Repeat(c: char, n: int) returns (s: string)
    ensures |s| == if n > 0 then n else 0
    ensures forall i :: 0 <= i < |s| ==> s[i] == c
  {
    s := [];
    var k := n;
    while k > 0
      invariant k <= 0 ==> |s| == if n > 0 then n else 0
      invariant k > 0 ==> k <= n && |s| == n - k
      invariant forall i :: 0 <= i < |s| ==> s[i] == c
    {
      k := k - 1;
      s := s + [c];
    }
  }

  /** `SetTapeSymbol(n, c)` as written. A write left of the buffer prepends the
      symbol and the blanks between, and moves the offset to `n`; a write inside
      the buffer or just past its right end overwrites or appends. A write
      further right computes a negative blank count, so `repeat` yields nothing
      and the symbol lands just past the old right end instead of at `n`. */
  function Write(t: Buffer, n: int, c: char): (r: Buffer)
    ensures r.offset == if n < t.offset then n else t.offset
    ensures r.End() == if n < t.End() then t.End() else t.End() + 1
    ensures Read(r, if n <= t.End() then n else t.End()) == Normalize(c)
  {
    var d := Normalize(c);
    if n < t.offset then
      Buffer([d] + Copies(Blank, t.offset - n - 1) + t.cells, n)
    else if n > t.End() then
      Buffer(t.cells + Copies(Blank, t.End() - n - 1) + [d], t.offset)
    else
      var k := n - t.offset;
      Buffer(t.cells[..k] + [d] + (if k + 1 <= |t.cells| then t.cells[k + 1..] else []), t.offset)
  }

  /** Writing at any position up to the buffer's right end and reading it back
      gives the written symbol (a space read as blank); no other position
      changes; the buffer grows just enough to cover `n` and never shrinks. */
  lemma WriteReadBack(t: Buffer, n: int, c: char)
    requires n <= t.End()
    ensures Read(Write(t, n, c), n) == Normalize(c)
    ensures forall m :: m != n ==> Read(Write(t, n, c), m) == Read(t, m)
    ensures Write(t, n, c).offset == if n < t.offset then n else t.offset
    ensures Write(t, n, c).End() == if n < t.End() then t.End() else n + 1
  {
    var u := Write(t, n, c);
    var d := Normalize(c);
    if n < t.offset {
      var pad := Copies(Blank, t.offset - n - 1);
      assert u.cells == [d] + pad + t.cells;
      forall m | m != n
        ensures Read(u, m) == Read(t, m)
      {
        if n < m < t.offset {
          assert u.cells[m - n] == pad[m - n - 1];
        } else if t.offset <= m < t.End() {
          assert u.cells[m - n] == t.cells[m - t.offset];
        }
      }
    } else {
      var k := n - t.offset;
      var rest := if k + 1 <= |t.cells| then t.cells[k + 1..] else [];
      assert u.cells == t.cells[..k] + [d] + rest;
      forall m | m != n
        ensures Read(u, m) == Read(t, m)
      {
        if t.offset <= m < n {
          assert u.cells[m - t.offset] == t.cells[m - t.offset];
        } else if n < m < t.End() {
          assert u.cells[m - t.offset] == rest[m - n - 1];
        }
      }
    }
  }

  /** The source as written misplaces a write beyond the buffer's right end:
      the symbol goes just past the old end and position `n` still reads blank. */
  lemma WriteBeyondEndMisplaced(t: Buffer, n: int, c: char)
    requires n > t.End()
    ensures Write(t, n, c) == Buffer(t.cells + [Normalize(c)], t.offset)
    ensures Read(Write(t, n, c), n) == Blank
    ensures Read(Write(t, n, c), t.End()) == Normalize(c)
  {
    assert Copies(Blank, t.End() - n - 1) == [];
    assert t.cells + [] + [Normalize(c)] == t.cells + [Normalize(c)];
    assert (t.cells + [Normalize(c)])[|t.cells|] == Normalize(c);
  }

  /** A concrete instance: writing `x` at position 3 of the one-cell tape `a`. */
  lemma WriteBeyondEndExample()
    ensures Write(Buffer("a", 0), 3, 'x') == Buffer("ax", 0)
    ensures Read(Write(Buffer("a", 0), 3, 'x'), 3) == Blank
  {
    WriteBeyondEndMisplaced(Buffer("a", 0), 3, 'x');
  }

  /** `SetTapeSymbol` as evidently intended: a write beyond the right end pads
      the gap with blanks up to `n`. */
  function WriteIntended(t: Buffer, n: int, c: char): (r: Buffer)
    ensures n <= t.End() ==> r == Write(t, n, c)
    ensures Read(r, n) == Normalize(c)
  {
    if n > t.End() then
      var pad := Copies(Blank, n - t.End());
      assert (t.cells + pad + [Normalize(c)])[n - t.offset] == Normalize(c);
      Buffer(t.cells + pad + [Normalize(c)], t.offset)
    else Write(t, n, c)
  }

  /** The intended write reads back at every position, far right included, and
      changes nothing else. */
  lemma WriteIntendedReadBack(t: Buffer, n: int, c: char)
    ensures Read(WriteIntended(t, n, c), n) == Normalize(c)
    ensures forall m :: m != n ==> Read(WriteIntended(t, n, c), m) == Read(t, m)
    ensures WriteIntended(t, n, c).offset == if n < t.offset then n else t.offset
    ensures WriteIntended(t, n, c).End() == if n < t.End() then t.End() else n + 1
  {
    if n > t.End() {
      var u := WriteIntended(t, n, c);
      var pad := Copies(Blank, n - t.End());
      assert u.cells == t.cells + pad + [Normalize(c)];
      assert u.cells[n - t.offset] == Normalize(c);
      forall m | m != n
        ensures Read(u, m) == Read(t, m)
      {
        if t.offset <= m < t.End() {
          assert u.cells[m - t.offset] == t.cells[m - t.offset];
        } else if t.End() <= m < n {
          assert u.cells[m - t.offset] == pad[m - t.End()];
        }
      }
    } else {
      WriteReadBack(t, n, c);
    }
  }
}
