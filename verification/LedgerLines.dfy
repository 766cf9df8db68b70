/** Bytes of UTF-8 and the lines `str.splitlines` finds in them. */
module LedgerLines {

  newtype byte = x: int | 0 <= x < 256

  const NEWLINE: byte := 10

  type Bytes = seq<byte>

  /**
   Length of the line separator that `b` starts with: one of the control characters that end a line, or
   U+0085, U+2028 or U+2029 as UTF-8. 0 when there is none.
   */
  function SepLen(b: Bytes): (n: nat)
    ensures n <= |b|
  {
    if b == [] then 0
    else if b[0] == 13 then (if |b| > 1 && b[1] == NEWLINE then 2 else 1)
    else if 10 <= b[0] <= 12 || 28 <= b[0] <= 30 then 1
    else if |b| > 1 && b[0] == 0xC2 && b[1] == 0x85 then 2
    else if |b| > 2 && b[0] == 0xE2 && b[1] == 0x80 && (b[2] == 0xA8 || b[2] == 0xA9) then 3
    else 0
  }

  predicate EndsAt(b: Bytes, n: nat)
    requires n <= |b|
  {
    SepLen(b[n..]) > 0
  }

  /** Where the first separator stands, or the length. */
  function LineLen(b: Bytes): (n: nat)
    ensures n <= |b| && (n < |b| ==> EndsAt(b, n)) && (forall j :: 0 <= j < n ==> !EndsAt(b, j))
  {
    if b == [] then 0
    else if SepLen(b) > 0 then assert b[0..] == b; 0
    else
      var n := 1 + LineLen(b[1..]);
      assert forall j :: 0 < j <= |b| ==> b[j..] == b[1..][j - 1..];
      assert forall j :: 0 < j <= |b| ==> EndsAt(b, j) == EndsAt(b[1..], j - 1);
      assert b[0..] == b;
      n
  }

  function Piece(b: Bytes, n: nat): seq<Bytes>
    requires n <= |b|
  {
    if n > 0 then [b[..n]] else []
  }

  /** What is behind the first line and its separator. */
  function AfterLine(b: Bytes): (r: Bytes)
    ensures b != [] ==> |r| < |b|
  {
    var n := LineLen(b);
    b[n + SepLen(b[n..])..]
  }

  /** `splitlines`, without the empty lines. */
  function Lines(b: Bytes): seq<Bytes>
    decreases |b|
  {
    if b == [] then [] else Piece(b, LineLen(b)) + Lines(AfterLine(b))
  }

  /** One line, and no more. */
  predicate Unbroken(b: Bytes) { forall j :: 0 <= j < |b| ==> !EndsAt(b, j) }

  predicate NoControls(b: Bytes) { forall c <- b :: c >= 32 }

  lemma LineLenUnique(b: Bytes, n: nat)
    requires n <= |b| && (n < |b| ==> EndsAt(b, n)) && forall j :: 0 <= j < n ==> !EndsAt(b, j)
    ensures LineLen(b) == n
  {
    assert !(LineLen(b) < n);
    assert !(n < LineLen(b));
  }

  lemma UnbrokenIsOneLine(b: Bytes)
    requires Unbroken(b) && b != []
    ensures Lines(b) == [b]
  {
    hide EndsAt;
    LineLenUnique(b, |b|);
    assert b[..|b|] == b;
  }

  /** A newline after text without controls ends its last line and nothing else. */
  lemma SameEnds(e: Bytes, rest: Bytes, j: nat)
    requires NoControls(e) && j < |e|
    ensures var t := e + ([NEWLINE] + rest); SepLen(t[j..]) == SepLen(e[j..]) && EndsAt(t, j) == EndsAt(e, j)
  {
    var t := e + ([NEWLINE] + rest);
    assert t[j..] == e[j..] + ([NEWLINE] + rest);
    assert e[j] in e;
  }

  lemma SameLineLen(e: Bytes, rest: Bytes)
    requires NoControls(e)
    ensures var t, n := e + ([NEWLINE] + rest), LineLen(e);
            LineLen(t) == n && t[..n] == e[..n] && SepLen(t[n..]) == if n < |e| then SepLen(e[n..]) else 1
  {
    hide SepLen, EndsAt, NoControls, LineLen;
    var t, n := e + ([NEWLINE] + rest), LineLen(e);
    NewlineEnds(e, rest);
    if n < |e| {
      SameEnds(e, rest, n);
    }
    forall j | 0 <= j < n
      ensures !EndsAt(t, j)
    {
      SameEnds(e, rest, j);
    }
    LineLenUnique(t, n);
  }

  lemma NewlineEnds(e: Bytes, rest: Bytes)
    ensures var t := e + ([NEWLINE] + rest); SepLen(t[|e|..]) == 1 && EndsAt(t, |e|)
  {
    assert (e + ([NEWLINE] + rest))[|e|..] == [NEWLINE] + rest;
  }

  /** The newline ends the last line of `e`, and only that. */
  lemma SameAfter(e: Bytes, rest: Bytes)
    requires NoControls(e)
    ensures var t := e + ([NEWLINE] + rest);
            && Piece(t, LineLen(t)) == Piece(e, LineLen(e))
            && AfterLine(t) == if LineLen(e) < |e| then AfterLine(e) + ([NEWLINE] + rest) else rest
  {
    hide SepLen, LineLen, EndsAt, NoControls;
    SameLineLen(e, rest);
    var n := LineLen(e);
    if n < |e| {
      DropFront(e, [NEWLINE] + rest, n + SepLen(e[n..]));
    } else {
      DropFront(e, [NEWLINE] + rest, n);
      DropFront(e + [NEWLINE], rest, n + 1);
      assert e + ([NEWLINE] + rest) == (e + [NEWLINE]) + rest;
    }
  }

  lemma DropFront(a: Bytes, b: Bytes, k: nat)
    requires k <= |a|
    ensures (a + b)[k..] == a[k..] + b
  {
  }

  lemma LinesEnd(b: Bytes)
    requires b != [] && LineLen(b) == |b|
    ensures Lines(b) == [b]
  {
    hide LineLen;
    assert b[..|b|] == b && [b] + [] == [b];
    assert b[|b|..] == [];
    assert AfterLine(b) == [];
  }

  lemma {:induction false} LinesOfLine(e: Bytes, rest: Bytes)
    requires NoControls(e)
    ensures Lines(e + ([NEWLINE] + rest)) == Lines(e) + Lines(rest)
    decreases |e|
  {
    hide SepLen, EndsAt, NoControls, LineLen, AfterLine, Piece;
    SameAfter(e, rest);
    if LineLen(e) < |e| {
      AfterHasNoControls(e);
      LinesOfLine(AfterLine(e), rest);
      Join(Piece(e, LineLen(e)), Lines(AfterLine(e)), Lines(rest));
    } else if e == [] {
      NothingAfter(rest);
    } else {
      LinesEnd(e);
      OnePiece(e);
    }
  }

  lemma OnePiece(e: Bytes)
    requires e != []
    ensures Piece(e, |e|) == [e]
  {
    assert e[..|e|] == e;
  }

  lemma NothingAfter(rest: Bytes)
    ensures Piece([], LineLen([])) == [] && [] + Lines(rest) == Lines(rest)
  {
  }

  lemma AfterHasNoControls(e: Bytes)
    requires NoControls(e)
    ensures NoControls(AfterLine(e))
  {
    assert forall c <- AfterLine(e) :: c in e;
  }

  /** No line holds a separator. */
  lemma {:induction false} LinesAreUnbroken(b: Bytes)
    ensures forall i :: 0 <= i < |Lines(b)| ==> Unbroken(Lines(b)[i]) && Lines(b)[i] != []
    decreases |b|
  {
    hide SepLen, EndsAt, LineLen, AfterLine, Unbroken;
    if b != [] {
      FrontIsUnbroken(b, LineLen(b));
      LinesAreUnbroken(AfterLine(b));
    }
  }

  lemma FrontIsUnbroken(b: Bytes, n: nat)
    requires n <= |b| && forall j :: 0 <= j < n ==> !EndsAt(b, j)
    ensures Unbroken(b[..n])
  {
    forall j | 0 <= j < n
      ensures !EndsAt(b[..n], j)
    {
      assert b[..n][j..] == b[j..][..n - j];
      assert !EndsAt(b, j);
    }
  }

  // ----- The loop -----

  method SeparatorAt(b: Bytes, i: nat) returns (n: nat)
    requires i < |b|
    ensures n == SepLen(b[i..])
  {
    if b[i] == 13 {
      return if i + 1 < |b| && b[i + 1] == NEWLINE then 2 else 1;
    }
    if 10 <= b[i] <= 12 || 28 <= b[i] <= 30 {
      return 1;
    }
    if i + 1 < |b| && b[i] == 0xC2 && b[i + 1] == 0x85 {
      return 2;
    }
    if i + 2 < |b| && b[i] == 0xE2 && b[i + 1] == 0x80 && (b[i + 2] == 0xA8 || b[i + 2] == 0xA9) {
      return 3;
    }
    return 0;
  }

  method ReadLines(b: Bytes) returns (lines: seq<Bytes>)
    ensures lines == Lines(b)
  {
    hide Lines, SepLen, EndsAt;
    lines := [];
    var start, i := 0, 0;
    assert b[0..] == b;
    while i < |b|
      invariant 0 <= start <= i <= |b| && forall j :: start <= j < i ==> !EndsAt(b, j)
      invariant lines + Lines(b[start..]) == Lines(b)
    {
      var n := SeparatorAt(b, i);
      assert EndsAt(b, i) <==> n > 0 by { EndIs(b, i); }
      if n == 0 {
        i := i + 1;
      } else {
        LineStep(b, start, i);
        Join(lines, if i > start then [b[start..i]] else [], Lines(b[i + n..]));
        if i > start {
          lines := lines + [b[start..i]];
        }
        start := i + n;
        i := start;
      }
    }
    LastLine(b, start);
    if start < |b| {
      lines := lines + [b[start..]];
    }
  }

  lemma EndIs(b: Bytes, n: nat)
    requires n <= |b|
    ensures EndsAt(b, n) <==> SepLen(b[n..]) > 0
  {
  }

  lemma Join(a: seq<Bytes>, b: seq<Bytes>, c: seq<Bytes>)
    ensures a + (b + c) == (a + b) + c && a + [] == a
  {
  }

  lemma EndsInside(b: Bytes, start: nat, i: nat)
    requires start <= i <= |b|
    ensures EndsAt(b[start..], i - start) == EndsAt(b, i)
  {
    assert b[start..][i - start..] == b[i..];
  }

  lemma LastLine(b: Bytes, start: nat)
    requires start <= |b| && forall j :: start <= j < |b| ==> !EndsAt(b, j)
    ensures Lines(b[start..]) == if start < |b| then [b[start..]] else []
  {
    if start < |b| {
      forall j | 0 <= j < |b| - start
        ensures !EndsAt(b[start..], j)
      {
        EndsInside(b, start, start + j);
      }
      UnbrokenIsOneLine(b[start..]);
    }
  }

  lemma LineStep(b: Bytes, start: nat, i: nat)
    requires start <= i < |b| && EndsAt(b, i) && forall j :: start <= j < i ==> !EndsAt(b, j)
    ensures i + SepLen(b[i..]) <= |b|
    ensures Lines(b[start..]) == (if i > start then [b[start..i]] else []) + Lines(b[i + SepLen(b[i..])..])
  {
    hide SepLen, EndsAt, LineLen;
    var s := b[start..];
    forall j | 0 <= j <= i - start
      ensures EndsAt(s, j) == EndsAt(b, start + j)
    {
      EndsInside(b, start, start + j);
    }
    LineLenUnique(s, i - start);
    SliceSlice(b, start, i);
    SliceSlice(b, start, i + SepLen(b[i..]));
    assert AfterLine(s) == b[i + SepLen(b[i..])..];
  }

  lemma SliceSlice(b: Bytes, start: nat, i: nat)
    requires start <= i <= |b|
    ensures b[start..][i - start..] == b[i..] && b[start..][..i - start] == b[start..i]
  {
  }
}
