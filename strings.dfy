/** The string operations the engine borrows from JavaScript, with the meaning
    JavaScript gives them: the `\s` whitespace class, `toLowerCase` on the
    characters the engine compares, `indexOf`, `split` (on one character and on
    runs of whitespace), `trim`, global `replace` of one character, and decimal
    rendering of line numbers. Strings are sequences of characters. */
module Strings {

  datatype Option<T> = None | Some(value: T)

  /** JavaScript's `\s` class, which `split(/\s+/)` and `trim` treat as whitespace. */
  predicate IsSpace(c: char)
  {
    || c == ' ' || c == '\t' || c == '\n' || c == '\r' || c == '\U{000B}' || c == '\U{000C}'
    || c == '\U{00A0}' || c == '\U{1680}' || ('\U{2000}' <= c <= '\U{200A}')
    || c == '\U{2028}' || c == '\U{2029}' || c == '\U{202F}' || c == '\U{205F}'
    || c == '\U{3000}' || c == '\U{FEFF}'
  }

  /** A token: non-empty and free of whitespace. */
  predicate IsWord(t: string)
  {
    t != [] && forall i :: 0 <= i < |t| ==> !IsSpace(t[i])
  }

  /** `toLowerCase` of one character, on the ASCII letters. */
  function LowerChar(c: char): (r: char)
    ensures 'A' <= c <= 'Z' ==> 'a' <= r <= 'z' && r as int - c as int == 32
    ensures !('A' <= c <= 'Z') ==> r == c
  {
    if 'A' <= c <= 'Z' then (c as int + 32) as char else c
  }

  /** `s.toLowerCase()`, character by character. */
  function Lower(s: string): (r: string)
    ensures |r| == |s|
    ensures forall i :: 0 <= i < |s| ==> r[i] == LowerChar(s[i])
  {
    seq(|s|, i requires 0 <= i < |s| => LowerChar(s[i]))
  }

  /** `s.substring(0, n)`: the first `n` characters, or all of `s` when it is shorter. */
  function Prefix(s: string, n: nat): (r: string)
    ensures |r| == if |s| < n then |s| else n
    ensures r <= s
  {
    if |s| < n then s else s[..n]
  }

  /** Position of the first `c` in `s`; `|s|` when there is none (JavaScript's -1). */
  function IndexOf(s: string, c: char): (k: nat)
    ensures k <= |s|
    ensures forall i :: 0 <= i < k ==> s[i] != c
    ensures k < |s| ==> s[k] == c
  {
    if s == [] || s[0] == c then 0 else 1 + IndexOf(s[1..], c)
  }

  /** `s.split(sep)` for a one-character separator: the pieces between the separators. */
  function SplitOn(s: string, sep: char): (r: seq<string>)
    ensures |r| >= 1
    ensures forall i :: 0 <= i < |r| ==> sep !in r[i]
    decreases |s|
  {
    var k := IndexOf(s, sep);
    if k == |s| then [s] else [s[..k]] + SplitOn(s[k + 1..], sep)
  }

  /** `pieces.join(sep)`. */
  function Join(pieces: seq<string>, sep: char): string
  {
    if pieces == [] then []
    else if |pieces| == 1 then pieces[0]
    else pieces[0] + [sep] + Join(pieces[1..], sep)
  }

  /** Splitting on a separator loses nothing: joining the pieces back gives the string. */
  lemma {:induction false} JoinSplitOn(s: string, sep: char)
    ensures Join(SplitOn(s, sep), sep) == s
    decreases |s|
  {
    var k := IndexOf(s, sep);
    if k == |s| {
      assert SplitOn(s, sep) == [s];
    } else {
      var rest := SplitOn(s[k + 1..], sep);
      var pieces := [s[..k]] + rest;
      assert SplitOn(s, sep) == pieces;
      assert |pieces| > 1 && pieces[1..] == rest;
      assert Join(pieces, sep) == s[..k] + [sep] + Join(rest, sep);
      JoinSplitOn(s[k + 1..], sep);
      assert s == s[..k] + [sep] + s[k + 1..];
    }
  }

  /** Length of the whitespace-free prefix of `s`. */
  function WordEnd(s: string): (k: nat)
    ensures k <= |s|
    ensures forall i :: 0 <= i < k ==> !IsSpace(s[i])
    ensures k < |s| ==> IsSpace(s[k])
  {
    if s == [] || IsSpace(s[0]) then 0 else 1 + WordEnd(s[1..])
  }

  /** Length of the whitespace prefix of `s`. */
  function SpaceEnd(s: string): (k: nat)
    ensures k <= |s|
    ensures forall i :: 0 <= i < k ==> IsSpace(s[i])
    ensures k < |s| ==> !IsSpace(s[k])
  {
    if s == [] || !IsSpace(s[0]) then 0 else 1 + SpaceEnd(s[1..])
  }

  /** `s.split(/\s+/)`: the pieces between maximal runs of whitespace. A leading or
      trailing run leaves an empty piece at that end. */
  function SplitOnSpaces(s: string): (r: seq<string>)
    ensures |r| >= 1
    decreases |s|
  {
    var i := WordEnd(s);
    if i == |s| then [s]
    else
      var j := i + SpaceEnd(s[i..]);
      [s[..i]] + SplitOnSpaces(s[j..])
  }

  /** `pieces.filter(p => p != "")`. */
  function NonEmpty(pieces: seq<string>): seq<string>
  {
    if pieces == [] then []
    else (if pieces[0] == [] then [] else [pieces[0]]) + NonEmpty(pieces[1..])
  }

  /** The whitespace-separated tokens of `s`, computed as the engine does:
      `s.split(/\s+/).filter(t => t != "")`. */
  function Tokens(s: string): (r: seq<string>)
    ensures forall k :: 0 <= k < |r| ==> IsWord(r[k])
  {
    FilteredSplitIsWords(s);
    NonEmpty(SplitOnSpaces(s))
  }

  /** An independent definition of the tokens: scan left to right, skip a
      whitespace character, or take a maximal whitespace-free word. */
  function Words(s: string): (r: seq<string>)
    ensures forall k :: 0 <= k < |r| ==> IsWord(r[k])
    decreases |s|
  {
    if s == [] then []
    else if IsSpace(s[0]) then Words(s[1..])
    else
      var k := WordEnd(s);
      [s[..k]] + Words(s[k..])
  }

  /** The only `k` with a whitespace-free prefix of length `k` followed by whitespace or the end is `WordEnd(s)`. */
  lemma WordEndUnique(s: string, k: nat)
    requires k <= |s|
    requires forall i :: 0 <= i < k ==> !IsSpace(s[i])
    requires k < |s| ==> IsSpace(s[k])
    ensures WordEnd(s) == k
  {
  }

  /** Leading whitespace contributes no word. */
  lemma {:induction false} WordsSkipSpaces(s: string, j: nat)
    requires j <= |s|
    requires forall i :: 0 <= i < j ==> IsSpace(s[i])
    ensures Words(s) == Words(s[j..])
    decreases j
  {
    if j > 0 {
      assert IsSpace(s[0]);
      WordsSkipSpaces(s[1..], j - 1);
      assert s[1..][j - 1..] == s[j..];
    }
  }

  /** `NonEmpty` distributes over concatenation. */
  lemma {:induction false} NonEmptyAppend(a: seq<string>, b: seq<string>)
    ensures NonEmpty(a + b) == NonEmpty(a) + NonEmpty(b)
    decreases |a|
  {
    if a != [] {
      NonEmptyAppend(a[1..], b);
      assert (a + b)[1..] == a[1..] + b;
    } else {
      assert a + b == b;
    }
  }

  /** The engine's split-and-filter tokenizer agrees with the word scanner. */
  lemma TokensAreWords(s: string)
    ensures Tokens(s) == Words(s)
  {
    FilteredSplitIsWords(s);
  }

  /** Filtering the pieces of `split(/\s+/)` leaves exactly the words. */
  lemma {:induction false} FilteredSplitIsWords(s: string)
    ensures NonEmpty(SplitOnSpaces(s)) == Words(s)
    decreases |s|
  {
    var i := WordEnd(s);
    if i == |s| {
      WordsOfWord(s);
      assert SplitOnSpaces(s) == [s];
      assert NonEmpty([s]) == (if s == [] then [] else [s]) + NonEmpty([]);
    } else {
      var j := i + SpaceEnd(s[i..]);
      FilteredSplitIsWords(s[j..]);
      FilteredSplitStep(s, i, j);
      WordsAfterWord(s, i, j);
    }
  }

  /** One step of the split: the first piece, kept when non-empty, then the rest. */
  lemma FilteredSplitStep(s: string, i: nat, j: nat)
    requires i == WordEnd(s) < |s| && j == i + SpaceEnd(s[i..])
    ensures NonEmpty(SplitOnSpaces(s)) == (if i == 0 then [] else [s[..i]]) + NonEmpty(SplitOnSpaces(s[j..]))
  {
    var rest := SplitOnSpaces(s[j..]);
    SplitOnSpacesStep(s, i, j);
    NonEmptyAppend([s[..i]], rest);
    NonEmptySingle(s[..i]);
  }

  lemma SplitOnSpacesStep(s: string, i: nat, j: nat)
    requires i == WordEnd(s) < |s| && j == i + SpaceEnd(s[i..])
    ensures SplitOnSpaces(s) == [s[..i]] + SplitOnSpaces(s[j..])
  {
  }

  lemma NonEmptySingle(x: string)
    ensures NonEmpty([x]) == if x == [] then [] else [x]
  {
    assert NonEmpty([x]) == (if x == [] then [] else [x]) + NonEmpty([]);
  }

  /** A whitespace-free string is its only word. */
  lemma WordsOfWord(s: string)
    requires WordEnd(s) == |s|
    ensures Words(s) == if s == [] then [] else [s]
  {
    if s != [] {
      assert s[..|s|] == s && s[|s|..] == [];
      assert Words(s) == [s] + Words([]);
    }
  }

  /** The words of `s` are its whitespace-free prefix of length `i`, when
      non-empty, followed by the words after the whitespace run `s[i..j]`. */
  lemma WordsAfterWord(s: string, i: nat, j: nat)
    requires i == WordEnd(s) < j <= |s|
    requires forall m :: i <= m < j ==> IsSpace(s[m])
    ensures Words(s) == (if i == 0 then [] else [s[..i]]) + Words(s[j..])
  {
    assert s[i..][j - i..] == s[j..];
    WordsSkipSpaces(s[i..], j - i);
    if i == 0 {
      WordsSkipSpaces(s, j);
    } else {
      assert Words(s) == [s[..i]] + Words(s[i..]);
    }
  }

  /** Re-tokenizing words joined by single spaces gives the words back. */
  lemma {:induction false} WordsOfJoin(ts: seq<string>)
    requires forall t :: t in ts ==> IsWord(t)
    ensures Words(Join(ts, ' ')) == ts
  {
    if |ts| == 1 {
      var t := ts[0];
      assert t in ts;
      WordEndUnique(t, |t|);
      assert t[..|t|] == t && t[|t|..] == [];
    } else if |ts| > 1 {
      var t := ts[0];
      assert t in ts;
      var tail := Join(ts[1..], ' ');
      var s := t + [' '] + tail;
      assert s[|t|] == ' ';
      WordEndUnique(s, |t|);
      assert s[..|t|] == t;
      assert s[|t|..][1..] == tail;
      assert forall u :: u in ts[1..] ==> u in ts;
      WordsOfJoin(ts[1..]);
    }
  }

  /** The engine's tokenizer inverts joining with single spaces. */
  lemma TokensOfJoin(ts: seq<string>)
    requires forall t :: t in ts ==> IsWord(t)
    ensures Tokens(Join(ts, ' ')) == ts
  {
    TokensAreWords(Join(ts, ' '));
    WordsOfJoin(ts);
  }

  /** `s` without its trailing whitespace. */
  function TrimEnd(s: string): (r: string)
    ensures r <= s
    ensures r == [] || !IsSpace(r[|r| - 1])
    ensures forall i :: |r| <= i < |s| ==> IsSpace(s[i])
    decreases |s|
  {
    if s != [] && IsSpace(s[|s| - 1]) then TrimEnd(s[..|s| - 1]) else s
  }

  /** jQuery's `$.trim(s)`: `s` without leading and trailing whitespace. */
  function Trim(s: string): string
  {
    TrimEnd(s[SpaceEnd(s)..])
  }

  /** Trailing whitespace does not change where the first word ends. */
  lemma WordEndOfTrimEnd(u: string)
    requires TrimEnd(u) != []
    ensures WordEnd(u) == WordEnd(TrimEnd(u))
  {
    var t := TrimEnd(u);
    var k := WordEnd(t);
    assert forall i :: 0 <= i < k ==> u[i] == t[i];
    if k < |t| {
      assert u[k] == t[k];
    }
    WordEndUnique(u, k);
  }

  /** The first piece of `split(/\s+/)` on a string that starts with a word is that word. */
  lemma FirstPiece(t: string)
    ensures SplitOnSpaces(t)[0] == t[..WordEnd(t)]
  {
    if WordEnd(t) == |t| {
      assert t[..|t|] == t;
    }
  }

  /** The first piece of `split(/\s+/)` after trimming `u`, which has no leading
      whitespace, is `u`'s first word. */
  lemma FirstPieceOfTrimEnd(u: string)
    requires u == [] || !IsSpace(u[0])
    ensures SplitOnSpaces(TrimEnd(u))[0] == if Words(u) == [] then [] else Words(u)[0]
  {
    var t := TrimEnd(u);
    if t == [] {
      WordsSkipSpaces(u, |u|);
      assert u[|u|..] == [];
      assert SplitOnSpaces(t) == [[]];
    } else {
      assert u[0] == t[0];
      WordEndOfTrimEnd(u);
      assert Words(u) == [u[..WordEnd(u)]] + Words(u[WordEnd(u)..]);
      assert u[..WordEnd(u)] == t[..WordEnd(t)];
      FirstPiece(t);
    }
  }

  /** The first piece of `$.trim(s).split(/\s+/)` is the first token of `s`, or
      empty when `s` holds no token. */
  lemma FirstPieceOfTrim(s: string)
    ensures SplitOnSpaces(Trim(s))[0] == if Tokens(s) == [] then [] else Tokens(s)[0]
  {
    var u := s[SpaceEnd(s)..];
    TokensAreWords(s);
    WordsSkipSpaces(s, SpaceEnd(s));
    FirstPieceOfTrimEnd(u);
  }

  /** `s.replace(/c/g, "")`: `s` with every `c` removed. */
  function Remove(s: string, c: char): (r: string)
    ensures c !in r
    ensures |r| <= |s|
    ensures forall x :: x != c ==> multiset(r)[x] == multiset(s)[x]
  {
    if s == [] then []
    else
      assert s == [s[0]] + s[1..];
      (if s[0] == c then [] else [s[0]]) + Remove(s[1..], c)
  }

  /** Removal works piece by piece, so the characters kept stay in their order. */
  lemma {:induction false} RemoveAppend(a: string, b: string, c: char)
    ensures Remove(a + b, c) == Remove(a, c) + Remove(b, c)
    decreases |a|
  {
    if a != [] {
      assert (a + b)[1..] == a[1..] + b;
      RemoveAppend(a[1..], b, c);
    } else {
      assert a + b == b;
    }
  }

  /** Removing a character keeps the part before its first occurrence intact. */
  lemma {:induction false} RemoveKeepsPrefix(s: string, c: char, k: nat)
    requires k <= |s|
    requires forall i :: 0 <= i < k ==> s[i] != c
    ensures s[..k] <= Remove(s, c)
    decreases k
  {
    if k > 0 {
      RemoveKeepsPrefix(s[1..], c, k - 1);
      assert s[..k] == [s[0]] + s[1..][..k - 1];
    }
  }

  /** `s.replace(/a/g, b)` for single characters `a` and `b`. */
  function Replace(s: string, a: char, b: char): (r: string)
    ensures |r| == |s|
    ensures forall i :: 0 <= i < |s| ==> r[i] == if s[i] == a then b else s[i]
  {
    seq(|s|, i requires 0 <= i < |s| => if s[i] == a then b else s[i])
  }

  /** The decimal digit for `d`. */
  function DigitChar(d: nat): (c: char)
    requires d < 10
    ensures '0' <= c <= '9' && c as int - '0' as int == d
  {
    ('0' as int + d) as char
  }

  /** JavaScript's `String(n)` for a natural number: its decimal digits. */
  function Decimal(n: nat): (r: string)
    ensures |r| >= 1
    ensures forall i :: 0 <= i < |r| ==> '0' <= r[i] <= '9'
  {
    if n < 10 then [DigitChar(n)] else Decimal(n / 10) + [DigitChar(n % 10)]
  }

  /** The length of the run of decimal digits `s` starts with. */
  function DigitRun(s: string): (k: nat)
    ensures k <= |s|
    ensures forall i :: 0 <= i < k ==> '0' <= s[i] <= '9'
    ensures k < |s| ==> !('0' <= s[k] <= '9')
  {
    if s == [] || !('0' <= s[0] <= '9') then 0 else 1 + DigitRun(s[1..])
  }

  /** A run of digits followed by a non-digit is read in full. */
  lemma {:induction false} DigitRunOf(digits: string, rest: string)
    requires forall i :: 0 <= i < |digits| ==> '0' <= digits[i] <= '9'
    requires rest != [] && !('0' <= rest[0] <= '9')
    ensures DigitRun(digits + rest) == |digits|
    decreases |digits|
  {
    if digits != [] {
      assert (digits + rest)[1..] == digits[1..] + rest;
      DigitRunOf(digits[1..], rest);
    }
  }

  /** The number a string of decimal digits denotes. */
  function DecimalValue(s: string): nat
    requires forall i :: 0 <= i < |s| ==> '0' <= s[i] <= '9'
  {
    if s == [] then 0 else 10 * DecimalValue(s[..|s| - 1]) + (s[|s| - 1] as int - '0' as int)
  }

  /** Rendering a line number loses nothing: its digits denote it. */
  lemma {:induction false} DecimalRoundTrip(n: nat)
    ensures DecimalValue(Decimal(n)) == n
  {
    if n >= 10 {
      DecimalRoundTrip(n / 10);
      var r := Decimal(n);
      assert r[..|r| - 1] == Decimal(n / 10);
    }
  }
}
