/**
 Taking comments and trailing commas out of a JSON text, so that a strict parser can read it.

 `Strict` says what is left of a text; the lemmas say what it does to each kind of token in front of any
 text, and that brackets, literals and scalars come out as one value again.
 */
module JsoncStrict {
  import opened Text
  import opened JsoncScanner
  import opened JsonDump

  function Emit(x: string, r: Result<string>): Result<string> {
    match r case Ok(o) => Ok(x + o) case Err(e) => Err(e)
  }

  predicate CommentStart(s: string) { "//" <= s || "/*" <= s }

  /** Whether the comma in front of `rest` stays, when so much of `rest` is no token. */
  predicate CommaStays(rest: string, skipped: nat) { skipped >= |rest| || !Closes(rest[skipped]) }

  lemma CommentIsSkipped(s: string)
    requires CommentStart(s)
    ensures TriviaLen(s).Ok? ==> TriviaLen(s).value > 0
  {
  }

  /** `_strip_jsonc` */
  function Strict(s: string): Result<string>
    decreases |s|
  {
    if s == [] then Ok([])
    else if s[0] == '"' then
      match LiteralLen(s)
      case Err(e) => Err(e)
      case Ok(n) => Emit(s[..n], Strict(s[n..]))
    else if CommentStart(s) then
      match TriviaLen(s)
      case Err(e) => Err(e)
      case Ok(n) => CommentIsSkipped(s); Strict(s[n..])
    else if s[0] == ',' then
      match TriviaLen(s[1..])
      case Err(e) => Err(e)
      case Ok(n) => Emit(if CommaStays(s[1..], n) then "," else "", Strict(s[1..]))
    else Emit([s[0]], Strict(s[1..]))
  }

  /** What is left of a gap: its white space up to the first comment. */
  function Bare(g: string): string {
    if g == [] || CommentStart(g) then [] else [g[0]] + Bare(g[1..])
  }

  predicate IsBlank(c: char) { Ws(c) || c == BOM }

  lemma EmitEmit(x: string, y: string, r: Result<string>)
    ensures Emit(x, Emit(y, r)) == Emit(x + y, r) && Emit("", r) == r
  {
    if r.Ok? {
      Assoc(x, y, r.value);
      assert "" + r.value == r.value;
    }
  }

  // ----- Token by token -----

  lemma StrictLiteral(lit: string, r: string)
    requires IsLiteral(lit)
    ensures Strict(lit + r) == Emit(lit, Strict(r))
  {
    LiteralLocal(lit, r);
    Cut(lit, r);
  }

  /** A character that is copied whatever follows it. */
  predicate Copied(c: char) { c != '"' && c != ',' && c != '/' }

  lemma StrictChar(c: char, r: string)
    requires Copied(c) || (c == '/' && !CommentStart([c] + r))
    ensures Strict([c] + r) == Emit([c], Strict(r))
  {
    Cut([c], r);
  }

  lemma StrictComment(g: string, s: string)
    requires IsGap(g) && CommentStart(g) && !TriviaStart(s)
    ensures Strict(g + s) == Strict(s)
  {
    assert (g + s)[0] == g[0] && (g + s)[1] == g[1];
    TriviaIsGap(g, s);
    Cut(g, s);
  }

  lemma BlankHead(g: string)
    requires IsGap(g) && g != [] && !CommentStart(g)
    ensures IsBlank(g[0]) && IsGap(g[1..])
  {
  }

  lemma {:induction false} StrictGap(g: string, s: string)
    requires IsGap(g) && !TriviaStart(s)
    ensures Strict(g + s) == Emit(Bare(g), Strict(s))
  {
    hide Strict, IsGap, TriviaStart;
    if g == [] {
      assert g + s == s;
      EmitEmit("", "", Strict(s));
    } else if CommentStart(g) {
      StrictComment(g, s);
      EmitEmit("", "", Strict(s));
    } else {
      BlankHead(g);
      StrictGap(g[1..], s);
      MarkFirst(g, s);
      StrictChar(g[0], g[1..] + s);
      EmitEmit([g[0]], Bare(g[1..]), Strict(s));
    }
  }

  lemma MarkFirst(g: string, s: string)
    requires g != []
    ensures g + s == [g[0]] + (g[1..] + s)
  {
  }

  /** A gap at the end of the text, which may end in an open line comment. */
  lemma {:induction false} StrictEnd(g: string)
    requires TriviaLen(g) == Ok(|g|)
    ensures Strict(g) == Ok(Bare(g))
  {
    if g != [] {
      if CommentStart(g) {
        assert g[|g|..] == [];
        assert Strict([]) == Ok([]);
      } else {
        assert ItemLen(g) == 1;
        StrictEnd(g[1..]);
      }
    }
  }

  lemma StrictComma(g: string, s: string)
    requires IsGap(g) && s != [] && !TriviaStart(s)
    ensures Strict("," + (g + s)) == Emit(if Closes(s[0]) then "" else ",", Emit(Bare(g), Strict(s)))
  {
    hide IsGap, TriviaStart;
    TriviaIsGap(g, s);
    Cut(",", g + s);
    StrictGap(g, s);
  }

  lemma {:induction false} BareIsGap(g: string)
    requires TriviaLen(g) == Ok(|g|) || IsGap(g)
    ensures IsGap(Bare(g)) && (forall c <- Bare(g) :: IsBlank(c))
    ensures Bare(g) != [] ==> g != [] && Bare(g)[0] == g[0]
  {
    if g != [] && !CommentStart(g) {
      assert ItemLen(g) == 1 && IsBlank(g[0]);
      BareIsGap(g[1..]);
      assert Bare(g)[1..] == Bare(g[1..]);
    }
  }

  // ----- Scalars -----

  lemma {:induction false} StrictScalar(v: string, r: string)
    requires (forall j :: 0 <= j < |v| ==> !Stops(v[j])) && Strict(v).Ok?
    ensures Strict(v) == Ok(v) && Strict(v + r) == Emit(v, Strict(r))
    decreases |v|
  {
    if v == [] {
      assert v + r == r;
      EmitEmit("", "", Strict(r));
    } else if v[0] == '"' {
      var n := LiteralLen(v).value;
      LiteralCut(v);
      StrictLiteral(v[..n], v[n..] + r);
      StrictScalar(v[n..], r);
      assert v == v[..n] + v[n..];
      Assoc(v[..n], v[n..], r);
      EmitEmit(v[..n], v[n..], Strict(r));
    } else {
      assert Copied(v[0]);
      MarkFirst(v, r);
      StrictChar(v[0], v[1..] + r);
      StrictScalar(v[1..], r);
      EmitEmit([v[0]], v[1..], Strict(r));
      assert v == [v[0]] + v[1..];
    }
  }

  // ----- Brackets -----

  /** What is left of the token that `s` starts with. */
  function TurnText(s: string): string
    requires s != []
  {
    if s[0] == '"' then (match LiteralLen(s) case Ok(n) => s[..n] case Err(_) => "")
    else if s[0] == ',' then (match TriviaLen(s[1..]) case Ok(n) => if CommaStays(s[1..], n) then "," else "" case Err(_) => "")
    else [s[0]]
  }

  lemma StrictTurn(s: string, depth: int)
    requires s != [] && !TriviaStart(s) && Turn(s, depth).Ok? && (s[0] == ',' ==> TriviaLen(s[1..]).Ok?)
    ensures Strict(s) == Emit(TurnText(s), Strict(s[Turn(s, depth).value.len..]))
  {
    if s[0] != '"' && s[0] != ',' {
      assert !CommentStart(s);
    }
  }

  lemma {:induction false} NestRest(s: string, depth: int) returns (g: string, rest: string)
    requires NestLen(s, depth) == Ok(|s|)
    ensures s == g + rest && IsGap(g) && rest != [] && !TriviaStart(rest) && Turn(rest, depth).Ok?
    ensures var turn := Turn(rest, depth).value;
            if turn.done then turn.len == |rest| && rest[0] != '"'
            else NestLen(rest[turn.len..], turn.depth) == Ok(|rest| - turn.len)
    ensures |rest| == 1 ==> Closes(rest[0])
  {
    hide NestRound, Turn, IsGap, TriviaStart;
    g, rest := RoundSplits(s, depth);
    var turn := Turn(rest, depth).value;
    DoneIsBracket(rest, depth);
    CutAt(g, rest, |g| + turn.len);
    LastOf(s, g, rest, depth);
  }

  lemma LastOf(s: string, g: string, rest: string, depth: int)
    requires NestLen(s, depth) == Ok(|s|) && s == g + rest && rest != []
    ensures Closes(rest[|rest| - 1])
  {
    hide NestLen;
    NestEndsInBracket(s, depth);
    assert s[|s| - 1] == rest[|rest| - 1];
  }

  lemma DoneIsBracket(s: string, depth: int)
    requires s != [] && Turn(s, depth).Ok?
    ensures Turn(s, depth).value.done ==> Closes(s[0]) && Turn(s, depth).value.len == 1
    ensures 0 < Turn(s, depth).value.len <= |s|
  {
  }

  /** What the comma looks ahead to lies inside the brackets. */
  lemma LookAhead(s: string, depth: int, r: string)
    requires NestLen(s, depth) == Ok(|s|)
    ensures TriviaLen(s).Ok? && TriviaLen(s).value < |s| && TriviaLen(s + r) == TriviaLen(s)
    ensures (s + r)[TriviaLen(s).value] == s[TriviaLen(s).value]
  {
    hide NestLen, Turn, TriviaLen, IsGap;
    var g, rest := NestRest(s, depth);
    TriviaIsGap(g, rest);
    SlashStays(rest, r);
    Assoc(g, rest, r);
    TriviaIsGap(g, rest + r);
  }

  lemma SlashStays(rest: string, r: string)
    requires rest != [] && !TriviaStart(rest) && (|rest| == 1 ==> Closes(rest[0]))
    ensures !TriviaStart(rest + r)
  {
    assert |rest| > 1 ==> (rest + r)[1] == rest[1];
  }

  /** The token that brackets go on with is treated the same whatever follows the brackets. */
  lemma TurnTextLocal(s: string, depth: int, r: string)
    requires s != [] && !TriviaStart(s) && Turn(s, depth).Ok? && !Turn(s, depth).value.done
    requires var turn := Turn(s, depth).value; NestLen(s[turn.len..], turn.depth) == Ok(|s| - turn.len)
    requires |s| == 1 ==> Closes(s[0])
    ensures !TriviaStart(s + r) && Turn(s + r, depth) == Turn(s, depth)
    ensures s[0] == ',' ==> TriviaLen(s[1..]).Ok? && TriviaLen((s + r)[1..]).Ok?
    ensures TurnText(s + r) == TurnText(s)
    ensures (s + r)[Turn(s, depth).value.len..] == s[Turn(s, depth).value.len..] + r
  {
    hide NestLen, TriviaLen, TriviaStart;
    TurnLocal(s, depth, r);
    SlashStays(s, r);
    var turn := Turn(s, depth).value;
    CutFront(s, r, turn.len);
    if s[0] == ',' {
      LookAhead(s[1..], turn.depth, r);
    } else if s[0] == '"' {
      LiteralStable(s, r);
      CutFront(s, r, turn.len);
    }
  }

  lemma CutFront(a: string, b: string, k: nat)
    requires k <= |a|
    ensures (a + b)[k..] == a[k..] + b && (a + b)[..k] == a[..k]
  {
  }

  /** Brackets that close are stripped the same whatever follows them. */
  lemma {:induction false} StrictNest(v: string, depth: int, r: string)
    requires NestLen(v, depth) == Ok(|v|)
    ensures Strict(v).Ok? && Strict(v + r) == Emit(Strict(v).value, Strict(r))
    decreases |v|
  {
    hide NestLen, Strict, TriviaStart, IsGap, Turn, TurnText, TriviaLen;
    var g, rest := NestRest(v, depth);
    var turn := Turn(rest, depth).value;
    StrictGap(g, rest);
    Assoc(g, rest, r);
    if turn.done {
      DoneIsBracket(rest, depth);
      SlashStays(rest, r);
      StrictGap(g, rest + r);
      StrictOne(rest, r);
      EmitEmit(Bare(g), rest, Strict(r));
      EmitEmit(Bare(g), rest, Ok([]));
      assert rest + [] == rest && Bare(g) + rest + [] == Bare(g) + rest;
    } else {
      TurnTextLocal(rest, depth, r);
      StrictGap(g, rest + r);
      StrictTurn(rest, depth);
      StrictTurn(rest + r, depth);
      var v' := rest[turn.len..];
      StrictNest(v', turn.depth, r);
      var o := Strict(v').value;
      var x, y := Bare(g), TurnText(rest);
      EmitEmit(y, o, Strict(r));
      EmitEmit(x, y + o, Strict(r));
    }
  }

  lemma StrictOne(s: string, r: string)
    requires |s| == 1 && Closes(s[0])
    ensures Strict(s + r) == Emit(s, Strict(r)) && Strict(s) == Ok(s)
  {
    StrictChar(s[0], r);
    StrictChar(s[0], "");
    assert s == [s[0]] && s + "" == s && s[..] == s;
    assert Strict("") == Ok("");
  }
}
