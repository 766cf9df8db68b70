/**
 The scanner of the comment-preserving editor: white space and comments, string literals, values.

 The specification functions measure what a text STARTS with, so that what they say of a text holds
 wherever that text stands. The methods below them run the original's index loops.
 */
module JsoncScanner {
  import opened Text

  datatype JsoncError =
    | UnterminatedComment
    | UnterminatedString
    | UnexpectedEnd
    | UnbalancedBrackets
    | UnexpectedCharacter
    | NotAnObject
    | UnterminatedObject
    | TrailingContent
    | ExpectedKey
    | BadKey
    | ExpectedColon
    | ExpectedCommaOrBrace

  datatype Result<+T> = Ok(value: T) | Err(error: JsoncError)

  function Plus(k: nat, r: Result<nat>): Result<nat> {
    match r case Ok(n) => Ok(k + n) case Err(e) => Err(e)
  }

  // ----- White space and comments -----

  predicate EndMarkAt(s: string, j: nat) { j + 1 < |s| && s[j] == '*' && s[j + 1] == '/' }

  /** Where the block comment's end mark starts, or the length. */
  function FindEndMark(s: string): (n: nat)
    ensures n <= |s| && (n < |s| ==> EndMarkAt(s, n)) && (forall j :: 0 <= j < n ==> !EndMarkAt(s, j))
  {
    if |s| < 2 then |s|
    else if EndMarkAt(s, 0) then 0
    else
      var n := 1 + FindEndMark(s[1..]);
      assert forall j :: 0 < j < |s| ==> EndMarkAt(s, j) == EndMarkAt(s[1..], j - 1);
      n
  }

  /** Length of the white space character or complete comment that `s` starts with, 0 when there is none. */
  function ItemLen(s: string): (n: nat)
    ensures n <= |s|
  {
    if s == [] then 0
    else if Ws(s[0]) || s[0] == BOM then 1
    else if "//" <= s then
      if Find(s, '\n') < |s| then Find(s, '\n') + 1 else 0
    else if "/*" <= s then
      if FindEndMark(s[2..]) < |s| - 2 then FindEndMark(s[2..]) + 4 else 0
    else 0
  }

  /** White space or a comment starts here, complete or not. */
  predicate TriviaStart(s: string) {
    s != [] && (Ws(s[0]) || s[0] == BOM || "//" <= s || "/*" <= s)
  }

  /** How much of `s` is skipped before the first token. */
  function TriviaLen(s: string): (r: Result<nat>)
    ensures r.Ok? ==> r.value <= |s|
  {
    var n := ItemLen(s);
    if n > 0 then Plus(n, TriviaLen(s[n..]))
    else if "//" <= s then Ok(|s|)
    else if "/*" <= s then Err(UnterminatedComment)
    else Ok(0)
  }

  /** A sequence of white space and complete comments: what may stand between two tokens. */
  predicate IsGap(g: string) {
    g == [] || (var n := ItemLen(g); n > 0 && IsGap(g[n..]))
  }

  lemma ItemLocal(s: string, r: string)
    ensures ItemLen(s) > 0 ==> ItemLen(s + r) == ItemLen(s)
    ensures 0 < ItemLen(s + r) <= |s| ==> ItemLen(s) == ItemLen(s + r)
  {
    var t := s + r;
    if s == [] {
    } else if Ws(s[0]) || s[0] == BOM {
    } else if "//" <= s {
      if Find(s, '\n') < |s| {
        FindUnique(t, '\n', Find(s, '\n'));
      }
      if Find(t, '\n') < |s| {
        FindUnique(s, '\n', Find(t, '\n'));
      }
    } else if "/*" <= s {
      assert t[2..] == s[2..] + r;
      EndMarkLocal(s[2..], r);
    }
  }

  lemma EndMarkUnique(s: string, n: nat)
    requires EndMarkAt(s, n) && forall j :: 0 <= j < n ==> !EndMarkAt(s, j)
    ensures FindEndMark(s) == n
  {
  }

  lemma EndMarkLocal(s: string, r: string)
    ensures FindEndMark(s) < |s| ==> FindEndMark(s + r) == FindEndMark(s)
    ensures FindEndMark(s + r) + 2 <= |s| ==> FindEndMark(s) == FindEndMark(s + r)
  {
    assert forall j :: 0 <= j < |s| - 1 ==> EndMarkAt(s, j) == EndMarkAt(s + r, j);
    var n := FindEndMark(s);
    if n < |s| {
      EndMarkUnique(s + r, n);
    }
    var m := FindEndMark(s + r);
    if m + 2 <= |s| {
      EndMarkUnique(s, m);
    }
  }

  lemma {:induction false} GapConcat(a: string, b: string)
    requires IsGap(a)
    ensures IsGap(a + b) <==> IsGap(b)
  {
    if a == [] {
      assert a + b == b;
    } else {
      var n := ItemLen(a);
      ItemLocal(a, b);
      assert (a + b)[n..] == a[n..] + b;
      GapConcat(a[n..], b);
    }
  }

  lemma WsGap(w: string)
    requires AllWs(w)
    ensures IsGap(w)
  {
    if w != [] {
      WsGap(w[1..]);
    }
  }

  lemma TriviaStep(g: string, s: string)
    requires ItemLen(g) > 0
    ensures TriviaLen(g + s) == Plus(ItemLen(g), TriviaLen(g[ItemLen(g)..] + s))
  {
    ItemLocal(g, s);
    assert (g + s)[ItemLen(g)..] == g[ItemLen(g)..] + s;
  }

  /** After a gap, the scanner is where it would be without it. */
  lemma {:induction false} TriviaAfterGap(g: string, s: string)
    requires IsGap(g)
    ensures TriviaLen(g + s) == Plus(|g|, TriviaLen(s))
  {
    hide ItemLen, TriviaLen;
    if g == [] {
      assert g + s == s;
    } else {
      TriviaStep(g, s);
      TriviaAfterGap(g[ItemLen(g)..], s);
    }
  }

  lemma NoTrivia(s: string)
    requires !TriviaStart(s)
    ensures TriviaLen(s) == Ok(0) && ItemLen(s) == 0
  {
  }

  /** What is skipped before a token is exactly the gap before it. */
  lemma TriviaIsGap(g: string, s: string)
    requires IsGap(g) && !TriviaStart(s)
    ensures TriviaLen(g + s) == Ok(|g|)
  {
    TriviaAfterGap(g, s);
    NoTrivia(s);
  }

  lemma NoItem(s: string)
    requires ItemLen(s) == 0 && TriviaLen(s).Ok? && TriviaLen(s).value < |s|
    ensures TriviaLen(s) == Ok(0) && !TriviaStart(s)
  {
  }

  lemma {:induction false} TriviaSplits(s: string)
    requires TriviaLen(s).Ok? && TriviaLen(s).value < |s|
    ensures var k := TriviaLen(s).value; IsGap(s[..k]) && !TriviaStart(s[k..])
  {
    var n := ItemLen(s);
    if n == 0 {
      NoItem(s);
    } else {
      hide ItemLen, TriviaStart;
      var k := TriviaLen(s).value;
      TriviaSplits(s[n..]);
      ItemLocal(s[..k], s[k..]);
      assert s[..k] + s[k..] == s;
      assert s[..k][n..] == s[n..][..k - n];
      Drops(s, n, k - n);
    }
  }

  // ----- String literals -----

  /** Length up to and including the closing quote, from just after the opening one. */
  function BodyLen(s: string): (r: Result<nat>)
    ensures r.Ok? ==> 0 < r.value <= |s|
  {
    if s == [] then Err(UnterminatedString)
    else if s[0] == '\\' then
      if |s| == 1 then Err(UnterminatedString) else Plus(2, BodyLen(s[2..]))
    else if s[0] == '"' then Ok(1)
    else Plus(1, BodyLen(s[1..]))
  }

  function LiteralLen(s: string): (r: Result<nat>)
    requires s != []
    ensures r.Ok? ==> 1 < r.value <= |s|
  {
    Plus(1, BodyLen(s[1..]))
  }

  predicate IsLiteral(s: string) {
    s != [] && s[0] == '"' && LiteralLen(s) == Ok(|s|)
  }

  lemma {:induction false} BodyLocal(s: string, r: string)
    requires BodyLen(s).Ok?
    ensures BodyLen(s + r) == BodyLen(s)
  {
    if s[0] == '\\' {
      assert (s + r)[2..] == s[2..] + r;
      BodyLocal(s[2..], r);
    } else if s[0] != '"' {
      assert (s + r)[1..] == s[1..] + r;
      BodyLocal(s[1..], r);
    }
  }

  lemma {:induction false} BodyCut(s: string)
    requires BodyLen(s).Ok?
    ensures BodyLen(s[..BodyLen(s).value]) == BodyLen(s)
  {
    var n := BodyLen(s).value;
    if s[0] == '\\' {
      BodyCut(s[2..]);
      assert s[..n][2..] == s[2..][..n - 2];
    } else if s[0] != '"' {
      BodyCut(s[1..]);
      assert s[..n][1..] == s[1..][..n - 1];
    }
  }

  lemma LiteralLocal(lit: string, r: string)
    requires IsLiteral(lit)
    ensures LiteralLen(lit + r) == Ok(|lit|)
  {
    assert (lit + r)[1..] == lit[1..] + r;
    BodyLocal(lit[1..], r);
  }

  lemma LiteralCut(s: string)
    requires s != [] && s[0] == '"' && LiteralLen(s).Ok?
    ensures IsLiteral(s[..LiteralLen(s).value])
  {
    var n := LiteralLen(s).value;
    BodyCut(s[1..]);
    assert s[..n][1..] == s[1..][..n - 1];
  }

  // ----- Values -----

  predicate Opens(c: char) { c == '{' || c == '[' }
  predicate Closes(c: char) { c == '}' || c == ']' }
  predicate Stops(c: char) { c == ',' || c == '}' || c == ']' || Ws(c) || c == '/' }

  /** One round of the bracket loop: how much it reads, the depth after it, whether that closed the value. */
  datatype Round = Round(len: nat, depth: int, done: bool)

  /** What the loop does with the token `s` starts with. */
  function Turn(s: string, depth: int): (r: Result<Round>)
    requires s != []
    ensures r.Ok? ==> 0 < r.value.len <= |s|
  {
    if s[0] == '"' then
      match LiteralLen(s)
      case Err(e) => Err(e)
      case Ok(n) => Ok(Round(n, depth, false))
    else if Opens(s[0]) then Ok(Round(1, depth + 1, false))
    else if Closes(s[0]) then Ok(Round(1, depth - 1, depth == 1))
    else Ok(Round(1, depth, false))
  }

  function After(k: nat, r: Result<Round>): Result<Round> {
    match r case Ok(turn) => Ok(Round(k + turn.len, turn.depth, turn.done)) case Err(e) => Err(e)
  }

  function NestRound(s: string, depth: int): (r: Result<Round>)
    ensures r.Ok? ==> 0 < r.value.len <= |s|
  {
    match TriviaLen(s)
    case Err(e) => Err(e)
    case Ok(k) => if k == |s| then Err(UnbalancedBrackets) else After(k, Turn(s[k..], depth))
  }

  /** Length up to the bracket that brings `depth` to zero. */
  function NestLen(s: string, depth: int): (r: Result<nat>)
    ensures r.Ok? ==> 0 < r.value <= |s|
    decreases |s|
  {
    match NestRound(s, depth)
    case Err(e) => Err(e)
    case Ok(step) => if step.done then Ok(step.len) else Plus(step.len, NestLen(s[step.len..], step.depth))
  }

  /** Length of the number or word `s` starts with. */
  function ScalarLen(s: string): (n: nat)
    ensures n <= |s| && (forall j :: 0 <= j < n ==> !Stops(s[j])) && (n < |s| ==> Stops(s[n]))
  {
    if s == [] || Stops(s[0]) then 0
    else
      assert forall j :: 0 < j < |s| ==> s[j] == s[1..][j - 1];
      1 + ScalarLen(s[1..])
  }

  function ValueLen(s: string): (r: Result<nat>)
    ensures r.Ok? ==> 0 < r.value <= |s|
  {
    if s == [] then Err(UnexpectedEnd)
    else if s[0] == '"' then LiteralLen(s)
    else if Opens(s[0]) then NestLen(s, 0)
    else if ScalarLen(s) == 0 then Err(UnexpectedCharacter)
    else Ok(ScalarLen(s))
  }

  /** One value and nothing else. */
  predicate IsValue(v: string) {
    v != [] && v[0] != BOM && ValueLen(v) == Ok(|v|)
  }

  predicate IsScalar(v: string) {
    v != [] && v[0] != '"' && !Opens(v[0])
  }

  /** The scanner stops at the end of `v` when `r` follows. */
  predicate Ends(v: string, r: string) {
    IsScalar(v) && r != [] ==> Stops(r[0])
  }

  lemma ScalarUnique(s: string, n: nat)
    requires n <= |s| && (forall j :: 0 <= j < n ==> !Stops(s[j])) && (n < |s| ==> Stops(s[n]))
    ensures ScalarLen(s) == n
  {
    var m := ScalarLen(s);
    assert !(m < n);
    assert !(n < m);
  }

  lemma RoundIs(g: string, s: string, depth: int)
    requires IsGap(g) && s != [] && !TriviaStart(s)
    ensures NestRound(g + s, depth) == After(|g|, Turn(s, depth))
  {
    TriviaIsGap(g, s);
    assert (g + s)[|g|..] == s;
  }

  lemma RoundSplits(s: string, depth: int) returns (g: string, rest: string)
    requires NestRound(s, depth).Ok?
    ensures s == g + rest && IsGap(g) && rest != [] && !TriviaStart(rest)
    ensures Turn(rest, depth).Ok? && NestRound(s, depth) == After(|g|, Turn(rest, depth))
  {
    hide TriviaLen, Turn, IsGap;
    var k := TriviaLen(s).value;
    TriviaSplits(s);
    g, rest := s[..k], s[k..];
    RoundIs(g, rest, depth);
  }

  lemma TurnLocal(s: string, depth: int, r: string)
    requires s != [] && Turn(s, depth).Ok?
    ensures Turn(s + r, depth) == Turn(s, depth)
  {
    if s[0] == '"' {
      LiteralStable(s, r);
    }
  }

  lemma TurnCut(s: string, depth: int, m: nat)
    requires s != [] && Turn(s, depth).Ok? && Turn(s, depth).value.len <= m <= |s|
    ensures Turn(s[..m], depth) == Turn(s, depth)
  {
    if s[0] == '"' {
      LiteralCut(s);
      var n := LiteralLen(s).value;
      assert s[..m] == s[..n] + s[n..m];
      LiteralLocal(s[..n], s[n..m]);
    }
  }

  /** A round depends on no more than the text up to the next bracket, and one character after a slash. */
  lemma RoundLocal(s: string, depth: int, r: string)
    requires NestRound(s, depth).Ok?
    requires var step := NestRound(s, depth).value; step.done || step.len < |s|
    ensures NestRound(s + r, depth) == NestRound(s, depth)
  {
    hide TriviaLen, LiteralLen, IsGap;
    var g, rest := RoundSplits(s, depth);
    Assoc(g, rest, r);
    TurnLocal(rest, depth, r);
    SlashLocal(rest, r);
    RoundIs(g, rest + r, depth);
  }

  lemma SlashLocal(s: string, r: string)
    requires s != [] && !TriviaStart(s) && (s[0] == '/' ==> |s| > 1)
    ensures !TriviaStart(s + r)
  {
    assert |s| > 1 ==> (s + r)[1] == s[1];
  }

  lemma LiteralStable(s: string, r: string)
    requires s != [] && s[0] == '"' && LiteralLen(s).Ok?
    ensures LiteralLen(s + r) == LiteralLen(s)
  {
    assert (s + r)[1..] == s[1..] + r;
    BodyLocal(s[1..], r);
  }

  lemma {:induction false} NestLocal(s: string, depth: int, r: string)
    requires NestLen(s, depth).Ok?
    ensures NestLen(s + r, depth) == NestLen(s, depth)
    decreases |s|
  {
    hide NestRound;
    RoundLocal(s, depth, r);
    var step := NestRound(s, depth).value;
    if !step.done {
      assert (s + r)[step.len..] == s[step.len..] + r;
      NestLocal(s[step.len..], step.depth, r);
    }
  }

  lemma RoundCut(s: string, depth: int, m: nat)
    requires NestRound(s, depth).Ok? && m <= |s|
    requires NestRound(s, depth).value.len <= m
    ensures NestRound(s[..m], depth) == NestRound(s, depth)
  {
    hide TriviaLen, LiteralLen, NestRound, Turn;
    var g, rest := RoundSplits(s, depth);
    TurnCut(rest, depth, m - |g|);
    RoundIs(g, rest[..m - |g|], depth);
    CutAt(g, rest, m);
  }

  lemma {:induction false} NestCut(s: string, depth: int)
    requires NestLen(s, depth).Ok?
    ensures NestLen(s[..NestLen(s, depth).value], depth) == NestLen(s, depth)
    decreases |s|
  {
    hide NestRound;
    var m := NestLen(s, depth).value;
    var step := NestRound(s, depth).value;
    RoundCut(s, depth, m);
    if !step.done {
      NestCut(s[step.len..], step.depth);
      assert s[..m][step.len..] == s[step.len..][..m - step.len];
    }
  }

  /** A value is measured the same whatever follows, as long as that ends a scalar. */
  lemma ValueLocal(v: string, r: string)
    requires IsValue(v) && Ends(v, r)
    ensures ValueLen(v + r) == Ok(|v|)
  {
    if v[0] == '"' {
      LiteralLocal(v, r);
    } else if Opens(v[0]) {
      NestLocal(v, 0, r);
    } else {
      ScalarUnique(v + r, |v|);
    }
  }

  /** What the scanner takes for a value is a value, and what follows ends it. */
  lemma ValueCut(s: string)
    requires ValueLen(s).Ok? && s[0] != BOM
    ensures var n := ValueLen(s).value; IsValue(s[..n]) && Ends(s[..n], s[n..])
  {
    var n := ValueLen(s).value;
    if s[0] == '"' {
      LiteralCut(s);
    } else if Opens(s[0]) {
      NestCut(s, 0);
    } else {
      ScalarUnique(s[..n], n);
    }
  }

  /** A value cannot end in white space, so trimming never reaches into one. */
  lemma {:induction false} NestEndsInBracket(s: string, depth: int)
    requires NestLen(s, depth) == Ok(|s|)
    ensures Closes(s[|s| - 1])
    decreases |s|
  {
    var step := NestRound(s, depth).value;
    if !step.done {
      NestEndsInBracket(s[step.len..], step.depth);
    }
  }

  lemma {:induction false} BodyEndsInQuote(s: string)
    requires BodyLen(s) == Ok(|s|)
    ensures s[|s| - 1] == '"'
  {
    if s[0] == '\\' {
      BodyEndsInQuote(s[2..]);
    } else if s[0] != '"' {
      BodyEndsInQuote(s[1..]);
    }
  }

  lemma ValueEndsDark(v: string)
    requires IsValue(v)
    ensures !Ws(v[|v| - 1])
  {
    if v[0] == '"' {
      BodyEndsInQuote(v[1..]);
    } else if Opens(v[0]) {
      NestEndsInBracket(v, 0);
    }
  }
}
