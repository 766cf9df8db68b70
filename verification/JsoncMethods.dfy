/** The scanner and the editor as the index loops they are, against their specification. */
module JsoncMethods {
  import opened Options
  import opened Text
  import opened JsoncScanner
  import opened JsoncDoc
  import opened JsonDump
  import opened JsoncEdit
  import opened JsoncSplice
  import opened JsoncSet
  import opened JsoncAppend
  import opened JsoncTheorems

  /** Offsets instead of lengths. */
  function From(i: nat, r: Result<nat>): Result<nat> { Plus(i, r) }

  lemma TriviaAt(text: string, i: nat)
    requires i <= |text|
    ensures var s := text[i..]; var n := ItemLen(s);
            n > 0 ==> i + n <= |text| && From(i, TriviaLen(s)) == From(i + n, TriviaLen(text[i + n..]))
  {
    var n := ItemLen(text[i..]);
    if n > 0 {
      hide ItemLen;
      Drops(text, i, n);
    }
  }

  /** The branches of the loop. */
  lemma ItemCases(s: string)
    requires s != []
    ensures Ws(s[0]) || s[0] == BOM ==> ItemLen(s) == 1
    ensures !(Ws(s[0]) || s[0] == BOM) && "//" <= s ==>
      if Find(s, '\n') == |s| then ItemLen(s) == 0 && TriviaLen(s) == Ok(|s|) else ItemLen(s) == Find(s, '\n') + 1
    ensures !(Ws(s[0]) || s[0] == BOM) && !("//" <= s) && "/*" <= s ==>
      if FindEndMark(s[2..]) == |s| - 2 then TriviaLen(s) == Err(UnterminatedComment) else ItemLen(s) == FindEndMark(s[2..]) + 4
    ensures !TriviaStart(s) ==> TriviaLen(s) == Ok(0)
  {
  }

  method SkipTrivia(text: string, i: nat) returns (r: Result<nat>)
    requires i <= |text|
    ensures r == From(i, TriviaLen(text[i..]))
  {
    hide ItemLen, TriviaLen;
    var j := i;
    while j < |text|
      invariant i <= j <= |text| && From(j, TriviaLen(text[j..])) == From(i, TriviaLen(text[i..]))
    {
      var rest := text[j..];
      TriviaAt(text, j);
      ItemCases(rest);
      if Ws(text[j]) || text[j] == BOM {
        j := j + 1;
      } else if "//" <= rest {
        var end := Find(rest, '\n');
        if end == |rest| {
          return Ok(|text|);
        }
        j := j + end + 1;
      } else if "/*" <= rest {
        var end := FindEndMark(rest[2..]);
        if end == |rest| - 2 {
          return Err(UnterminatedComment);
        }
        j := j + end + 4;
      } else {
        return Ok(j);
      }
    }
    NothingLeft();
    assert text[|text|..] == [];
    r := Ok(j);
  }

  lemma NothingLeft()
    ensures TriviaLen([]) == Ok(0) && BodyLen([]) == Err(UnterminatedString)
    ensures forall depth :: NestLen([], depth) == Err(UnbalancedBrackets)
  {
  }

  lemma BodyStep(text: string, j: nat)
    requires j < |text|
    ensures text[j] == '\\' ==>
      From(j, BodyLen(text[j..])) == if j + 2 <= |text| then From(j + 2, BodyLen(text[j + 2..])) else Err(UnterminatedString)
    ensures text[j] == '"' ==> From(j, BodyLen(text[j..])) == Ok(j + 1)
    ensures text[j] != '\\' && text[j] != '"' ==> From(j, BodyLen(text[j..])) == From(j + 1, BodyLen(text[j + 1..]))
  {
    Drops(text, j, 1);
    if j + 2 <= |text| {
      Drops(text, j, 2);
    }
  }

  method StringEnd(text: string, i: nat) returns (r: Result<nat>)
    requires i < |text|
    ensures r == From(i, LiteralLen(text[i..]))
  {
    hide BodyLen;
    var j := i + 1;
    Drops(text, i, 1);
    NothingLeft();
    while j < |text|
      invariant i < j <= |text| + 1
      invariant From(i, LiteralLen(text[i..])) == if j <= |text| then From(j, BodyLen(text[j..])) else Err(UnterminatedString)
    {
      BodyStep(text, j);
      if text[j] == '\\' {
        j := j + 2;
      } else if text[j] == '"' {
        return Ok(j + 1);
      } else {
        j := j + 1;
      }
    }
    assert text[|text|..] == [];
    r := Err(UnterminatedString);
  }

  method ValueEnd(text: string, i: nat) returns (r: Result<nat>)
    requires i <= |text|
    ensures r == From(i, ValueLen(text[i..]))
  {
    if i >= |text| {
      return Err(UnexpectedEnd);
    }
    if text[i] == '"' {
      r := StringEnd(text, i);
      return;
    }
    if Opens(text[i]) {
      r := BracketsEnd(text, i);
      return;
    }
    var j := i;
    while j < |text| && !Stops(text[j])
      invariant i <= j <= |text| && forall k :: i <= k < j ==> !Stops(text[k])
    {
      j := j + 1;
    }
    ScalarUnique(text[i..], j - i);
    r := if j == i then Err(UnexpectedCharacter) else Ok(j);
  }

  /** One round of the bracket loop, from `i` over white space to the token at `k`. */
  lemma NestStep(text: string, i: nat, k: nat, depth: int)
    requires i <= k < |text| && TriviaLen(text[i..]) == Ok(k - i)
    ensures var here := From(i, NestLen(text[i..], depth));
            && (text[k] == '"' ==>
                  match LiteralLen(text[k..])
                  case Err(e) => here == Err(e)
                  case Ok(n) => here == From(k + n, NestLen(text[k + n..], depth)))
            && (Opens(text[k]) ==> here == From(k + 1, NestLen(text[k + 1..], depth + 1)))
            && (Closes(text[k]) ==>
                  here == if depth == 1 then Ok(k + 1) else From(k + 1, NestLen(text[k + 1..], depth - 1)))
            && (text[k] != '"' && !Opens(text[k]) && !Closes(text[k]) ==> here == From(k + 1, NestLen(text[k + 1..], depth)))
  {
    hide TriviaLen, LiteralLen, NestLen, NestRound;
    var s := text[i..];
    NestUnfolds(s, k - i, depth);
    Drops(text, i, k - i);
    Drops(text, i, k + 1 - i);
    if text[k] == '"' && LiteralLen(text[k..]).Ok? {
      Drops(text, i, k + LiteralLen(text[k..]).value - i);
    }
  }

  lemma NestUnfolds(s: string, k: nat, depth: int)
    requires TriviaLen(s) == Ok(k) && k < |s|
    ensures NestLen(s, depth) ==
            match Turn(s[k..], depth)
            case Err(e) => Err(e)
            case Ok(turn) => if turn.done then Ok(k + turn.len) else Plus(k + turn.len, NestLen(s[k + turn.len..], turn.depth))
  {
    hide TriviaLen, Turn;
  }

  lemma NestEnd(s: string, depth: int)
    ensures TriviaLen(s).Err? ==> NestLen(s, depth) == Err(TriviaLen(s).error)
    ensures TriviaLen(s) == Ok(|s|) ==> NestLen(s, depth) == Err(UnbalancedBrackets)
  {
    hide TriviaLen, Turn;
  }

  method BracketsEnd(text: string, start: nat) returns (r: Result<nat>)
    requires start <= |text|
    ensures r == From(start, NestLen(text[start..], 0))
  {
    hide TriviaLen, LiteralLen, NestLen;
    var i, depth := start, 0;
    NothingLeft();
    while i < |text|
      invariant start <= i <= |text|
      invariant From(start, NestLen(text[start..], 0)) == From(i, NestLen(text[i..], depth))
      decreases |text| - i
    {
      NestEnd(text[i..], depth);
      var at := SkipTrivia(text, i);
      if at.Err? {
        return Err(at.error);
      }
      var k := at.value;
      if k >= |text| {
        return Err(UnbalancedBrackets);
      }
      NestStep(text, i, k, depth);
      if text[k] == '"' {
        var end := StringEnd(text, k);
        if end.Err? {
          return Err(end.error);
        }
        i := end.value;
        continue;
      }
      if Opens(text[k]) {
        depth := depth + 1;
      } else if Closes(text[k]) {
        depth := depth - 1;
        if depth == 0 {
          return Ok(k + 1);
        }
      }
      i := k + 1;
    }
    assert text[|text|..] == [];
    r := Err(UnbalancedBrackets);
  }

  // ----- Members -----

  function Onto(ms: seq<Member>, r: Result<Body>): Result<Body> {
    match r case Ok(b) => Ok(Body(b.close, ms + b.members)) case Err(e) => Err(e)
  }

  lemma OntoPrepend(ms: seq<Member>, m: Member, r: Result<Body>)
    ensures Onto(ms, Prepend(m, r)) == Onto(ms + [m], r)
  {
    if r.Ok? {
      assert ms + ([m] + r.value.members) == (ms + [m]) + r.value.members;
    }
  }

  lemma OntoEnds(ms: seq<Member>, i: nat, r: Result<Body>)
    ensures Onto([], r) == r && Onto(ms, Ok(Body(i, []))) == Ok(Body(i, ms))
  {
    if r.Ok? {
      assert [] + r.value.members == r.value.members;
    }
    assert ms + [] == ms;
  }

  lemma RestIs(text: string, i: nat, r: Result<nat>)
    requires i <= |text| && (r.Ok? ==> r.value <= |text[i..]|)
    ensures Rest(text[i..], r) == match From(i, r) case Ok(j) => (assert j <= |text|; Ok(text[j..])) case Err(e) => Err(e)
  {
    if r.Ok? {
      Drops(text, i, r.value);
    }
  }

  /** The three steps of a scan, as offsets: where the next token stands. */
  method After(text: string, i: nat) returns (r: Result<nat>)
    requires i <= |text|
    ensures r.Ok? ==> i <= r.value <= |text|
    ensures AfterTrivia(text[i..]) == match r case Ok(j) => Ok(text[j..]) case Err(e) => Err(e)
  {
    r := SkipTrivia(text, i);
    RestIs(text, i, TriviaLen(text[i..]));
  }

  /** A value, and the text after it. */
  method AfterTheValue(text: string, i: nat) returns (r: Result<nat>)
    requires i <= |text|
    ensures r.Ok? ==> i < r.value <= |text|
    ensures AfterValue(text[i..]) == match r case Ok(j) => Ok(text[j..]) case Err(e) => Err(e)
  {
    hide ValueLen;
    r := ValueEnd(text, i);
    RestIs(text, i, ValueLen(text[i..]));
  }

  method AfterKey(text: string, i: nat) returns (r: Result<nat>)
    requires i < |text|
    ensures r.Ok? ==> i < r.value <= |text|
    ensures AfterLiteral(text[i..]) == match r case Ok(j) => Ok(text[j..]) case Err(e) => Err(e)
  {
    hide LiteralLen;
    r := StringEnd(text, i);
    RestIs(text, i, LiteralLen(text[i..]));
  }

  method AfterTheColon(text: string, i: nat) returns (r: Result<nat>)
    requires i <= |text|
    ensures r.Ok? ==> i < r.value <= |text|
    ensures AfterColon(text[i..]) == match r case Ok(j) => Ok(text[j..]) case Err(e) => Err(e)
  {
    hide AfterTrivia;
    var colon := After(text, i);
    if colon.Err? {
      return Err(colon.error);
    }
    if colon.value >= |text| || text[colon.value] != ':' {
      return Err(ExpectedColon);
    }
    Drops(text, colon.value, 1);
    r := After(text, colon.value + 1);
  }

  /** One member: its key, the colon, its value. */
  method ReadOne(text: string, i: nat, loads: KeyReader) returns (r: Result<Member>)
    requires i < |text|
    ensures r.Ok? ==> i < r.value.valueEnd <= |text|
    ensures ReadMember(text[i..], |text|, loads)
            == match r case Ok(m) => Ok(Read(m, text[m.valueEnd..])) case Err(e) => Err(e)
  {
    hide AfterLiteral, AfterColon, AfterValue;
    var keyEnd := AfterKey(text, i);
    if keyEnd.Err? {
      return Err(keyEnd.error);
    }
    KeyText(text, i, keyEnd.value);
    var key := loads(text[i..keyEnd.value]);
    if key.None? {
      return Err(BadKey);
    }
    var valueStart := AfterTheColon(text, keyEnd.value);
    if valueStart.Err? {
      return Err(valueStart.error);
    }
    var valueEnd := AfterTheValue(text, valueStart.value);
    if valueEnd.Err? {
      return Err(valueEnd.error);
    }
    r := Ok(Member(key.value, i, valueStart.value, valueEnd.value));
  }

  lemma KeyText(text: string, i: nat, j: nat)
    requires i <= j <= |text|
    ensures text[i..][..|text[i..]| - |text[j..]|] == text[i..j]
  {
  }

  /** One round of the loop over the members. */
  lemma BodyRound(text: string, i: nat, loads: KeyReader)
    requires i < |text| && text[i] == '"'
    ensures var here := ReadBody(text[i..], |text|, loads);
            match ReadMember(text[i..], |text|, loads)
            case Err(e) => here == Err(e)
            case Ok(read) =>
              match AfterComma(read.rest)
              case Err(e) => here == Err(e)
              case Ok(rest) => here == Prepend(read.member, ReadBody(rest, |text|, loads))
  {
    hide AfterTrivia, ReadMember, AfterComma;
  }

  lemma BodyEnd(text: string, i: nat, loads: KeyReader)
    requires i <= |text|
    ensures i == |text| ==> ReadBody(text[i..], |text|, loads) == Err(UnterminatedObject)
    ensures i < |text| && text[i] != '}' && text[i] != '"' ==> ReadBody(text[i..], |text|, loads) == Err(ExpectedKey)
    ensures i < |text| && text[i] == '}' ==>
      ReadBody(text[i..], |text|, loads) ==
      match AfterTrivia(text[i + 1..])
      case Err(e) => Err(e)
      case Ok(post) => if post != [] then Err(TrailingContent) else Ok(Body(i, []))
  {
    hide AfterTrivia, ReadMember, AfterComma;
    if i < |text| {
      Drops(text, i, 1);
    }
  }

  /** The loop over the members, from the first key on. */
  method ReadAll(text: string, first: nat, loads: KeyReader) returns (r: Result<Body>)
    requires first <= |text|
    ensures r == ReadBody(text[first..], |text|, loads)
  {
    hide AfterTrivia, ReadMember, AfterComma, ReadBody, Prepend, Onto;
    var i, members := first, [];
    ghost var whole := ReadBody(text[i..], |text|, loads);
    OntoEnds([], 0, whole);
    while true
      invariant i <= |text| && Onto(members, ReadBody(text[i..], |text|, loads)) == whole
      decreases |text| - i
    {
      BodyEnd(text, i, loads);
      OntoErr(members, ReadBody(text[i..], |text|, loads));
      if i >= |text| {
        return Err(UnterminatedObject);
      }
      if text[i] == '}' {
        var end := After(text, i + 1);
        if end.Err? {
          return Err(end.error);
        }
        if end.value < |text| {
          return Err(TrailingContent);
        }
        OntoEnds(members, i, whole);
        return Ok(Body(i, members));
      }
      if text[i] != '"' {
        return Err(ExpectedKey);
      }
      BodyRound(text, i, loads);
      var one := ReadOne(text, i, loads);
      if one.Err? {
        return Err(one.error);
      }
      var next := NextKey(text, one.value.valueEnd);
      if next.Err? {
        return Err(next.error);
      }
      OntoPrepend(members, one.value, ReadBody(text[next.value..], |text|, loads));
      members := members + [one.value];
      i := next.value;
    }
  }

  lemma OntoErr(ms: seq<Member>, r: Result<Body>)
    ensures r.Err? ==> Onto(ms, r) == r
  {
  }

  /** `_members` */
  method Members(text: string, loads: KeyReader) returns (r: Result<Parsed>)
    ensures r == ParseMembers(text, loads)
  {
    hide AfterTrivia, ReadBody;
    var start := After(text, 0);
    assert text[0..] == text;
    if start.Err? {
      return Err(start.error);
    }
    if start.value >= |text| || text[start.value] != '{' {
      return Err(NotAnObject);
    }
    Drops(text, start.value, 1);
    var first := After(text, start.value + 1);
    if first.Err? {
      return Err(first.error);
    }
    var body := ReadAll(text, first.value, loads);
    r := match body case Ok(b) => Ok(Parsed(start.value, b.close, b.members)) case Err(e) => Err(e);
  }

  method NextKey(text: string, i: nat) returns (r: Result<nat>)
    requires i <= |text|
    ensures r.Ok? ==> i <= r.value <= |text|
    ensures AfterComma(text[i..]) == match r case Ok(j) => Ok(text[j..]) case Err(e) => Err(e)
  {
    hide AfterTrivia;
    r := After(text, i);
    if r.Err? {
      return;
    }
    var j := r.value;
    if j < |text| && text[j] == ',' {
      Drops(text, j, 1);
      r := After(text, j + 1);
    } else if j < |text| && text[j] != '}' {
      r := Err(ExpectedCommaOrBrace);
    }
  }

  // ----- The edits -----

  method TrimmedEnd(text: string, lo: nat, end: nat) returns (n: nat)
    requires lo <= end <= |text|
    ensures n == TrimBack(text, lo, end)
  {
    n := end;
    while n > lo && Ws(text[n - 1])
      invariant lo <= n <= end && forall k :: n <= k < end ==> Ws(text[k])
    {
      n := n - 1;
    }
    TrimBackUnique(text, lo, end, n);
  }

  method FindMember(members: seq<Member>, key: string) returns (i: nat)
    ensures i == IndexOfKey(members, key)
  {
    i := 0;
    while i < |members|
      invariant i <= |members| && forall j :: 0 <= j < i ==> members[j].key != key
    {
      if members[i].key == key {
        break;
      }
      i := i + 1;
    }
    IndexIsFirst(members, key, i);
  }

  lemma IndexIsFirst(ms: seq<Member>, key: string, i: nat)
    requires i <= |ms| && (i < |ms| ==> ms[i].key == key) && forall j :: 0 <= j < i ==> ms[j].key != key
    ensures IndexOfKey(ms, key) == i
  {
  }

  lemma SetCases(t: string, p: Parsed, key: string, v: Json)
    requires Within(t, p)
    ensures var ms, i := p.members, IndexOfKey(p.members, key);
            && (i < |ms| ==> SetAccepted(t, p, key, v) == t[..ms[i].valueStart] + NewValue(t, p, key, v) + t[ms[i].valueEnd..])
            && (i == |ms| && HollowText(t, p) ==>
                  SetAccepted(t, p, key, v)
                  == t[..p.open] + "{\n  " + Quote(key, true) + ": " + DumpValue(v, "  ") + "\n}" + t[p.close + 1..])
            && (i == |ms| && !HollowText(t, p) ==> SetAccepted(t, p, key, v) == Grown(t, p, MemberLine(t, p, key, v)))
            && (i < |ms| ==> PadFor(t, p, key) == IndentOf(t, ms[i].keyStart))
            && (i == |ms| ==> PadFor(t, p, key) == if ms == [] then "  " else IndentOf(t, ms[|ms| - 1].keyStart))
  {
    hide AfterTrivia, DumpValue, IndentOf, ReplaceNewlines, NewlineOf, AddAfter;
  }

  method GrowAfter(text: string, last: nat, tail: nat, entry: string) returns (r: string)
    requires last <= |text| && tail <= |text|
    ensures r == GrownAfter(text, last, tail, entry)
  {
    hide AfterTrivia, AddAfter, CommaFollows;
    var after := After(text, last);
    if after.Err? {
      return text;
    }
    RestAfter(text, after.value);
    if after.value < |text| && text[after.value] == ',' {
      return text[..tail] + entry + "," + text[tail..];
    }
    r := AddAfter(text, last, tail, entry);
  }

  method Grow(text: string, p: Parsed, entry: string) returns (r: string)
    requires Within(text, p)
    ensures r == Grown(text, p, entry)
  {
    hide GrownAfter;
    var ms := p.members;
    var tail := TrimmedEnd(text, p.open + 1, p.close);
    if ms == [] {
      return text[..tail] + entry + text[tail..];
    }
    assert MemberWithin(ms[|ms| - 1], p.close);
    r := GrowAfter(text, ms[|ms| - 1].valueEnd, tail, entry);
  }

  method SetIn(text: string, p: Parsed, key: string, v: Json) returns (r: string)
    requires Within(text, p)
    ensures r == SetAccepted(text, p, key, v)
  {
    hide SetAccepted, PadFor, Grown, DumpValue, IndentOf, NewlineOf, ReplaceNewlines, Blank;
    var ms, newline := p.members, NewlineOf(text);
    var i := FindMember(ms, key);
    SetCases(text, p, key, v);
    if i < |ms| {
      var dumped := ReplaceNewlines(DumpValue(v, IndentOf(text, ms[i].keyStart)), newline);
      return text[..ms[i].valueStart] + dumped + text[ms[i].valueEnd..];
    }
    if ms == [] && Blank(text[p.open + 1..p.close]) {
      return text[..p.open] + "{\n  " + Quote(key, true) + ": " + DumpValue(v, "  ") + "\n}" + text[p.close + 1..];
    }
    var pad := if ms == [] then "  " else IndentOf(text, ms[|ms| - 1].keyStart);
    var entry := ReplaceNewlines("\n" + pad + Quote(key, true) + ": " + DumpValue(v, pad), newline);
    r := Grow(text, p, entry);
  }

  /** `jsonc_set` */
  method Set(text: string, key: string, v: Json, loads: KeyReader) returns (r: Result<string>)
    ensures r == SetText(text, key, v, loads)
  {
    hide ParseMembers, SetAccepted, NewFile, WhiteText;
    if WhiteText(text) {
      return Ok(NewFile(text, key, v));
    }
    var parsed := Members(text, loads);
    if parsed.Err? {
      return Err(parsed.error);
    }
    ParsedWithin(text, loads);
    var done := SetIn(text, parsed.value, key, v);
    r := Ok(done);
  }

  predicate TakesLine(t: string, keyStart: nat, rest: string)
    requires keyStart <= |t|
  {
    var k := Blanks(rest);
    Blank(t[LineStart(t, keyStart)..keyStart]) && k < |rest| && (rest[k] == '\r' || rest[k] == '\n')
  }

  lemma InnerUnfolds(t: string, keyStart: nat, rest: string)
    requires keyStart <= |t|
    ensures TakesLine(t, keyStart, rest) ==>
      DeleteInner(t, keyStart, rest)
      == t[..LineStart(t, keyStart)] + rest[Blanks(rest) + (if CrLfAt(rest, Blanks(rest)) then 2 else 1)..]
    ensures !TakesLine(t, keyStart, rest) && AfterTrivia(rest).Ok? ==>
      DeleteInner(t, keyStart, rest) == t[..keyStart] + AfterTrivia(rest).value
    ensures !TakesLine(t, keyStart, rest) && AfterTrivia(rest).Err? ==> DeleteInner(t, keyStart, rest) == t
  {
    hide AfterTrivia, Blank;
  }

  /** Past the blanks at `i`. */
  method SkipBlanks(text: string, i: nat) returns (j: nat)
    requires i <= |text|
    ensures i <= j <= |text| && j == i + Blanks(text[i..])
  {
    j := i;
    while j < |text| && (text[j] == ' ' || text[j] == '\t')
      invariant i <= j <= |text| && forall k :: i <= k < j ==> text[k] == ' ' || text[k] == '\t'
    {
      j := j + 1;
    }
    BlanksUnique(text[i..], j - i);
  }

  /** The cut for a member that is not the last, whose comma stands in front of `rest`. */
  method CutInner(text: string, keyStart: nat, rest: nat) returns (r: string)
    requires keyStart <= |text| && rest <= |text|
    ensures r == DeleteInner(text, keyStart, text[rest..])
  {
    hide AfterTrivia, Blank, DeleteInner, Blanks, LineStart;
    InnerUnfolds(text, keyStart, text[rest..]);
    var end := SkipBlanks(text, rest);
    var lineStart := LineStart(text, keyStart);
    var startsLine := Blank(text[lineStart..keyStart]);
    if startsLine && end < |text| && (text[end] == '\r' || text[end] == '\n') {
      var crlf := CrLfAt(text, end);
      end := if crlf then end + 2 else end + 1;
      Drops(text, rest, end - rest);
      return text[..lineStart] + text[end..];
    }
    var next := After(text, rest);
    if next.Err? {
      return text;
    }
    r := text[..keyStart] + text[next.value..];
  }

  /** The previous member's comma, taken out with the member. */
  method CutWithComma(text: string, prevEnd: nat, begin: nat, tail: string) returns (r: string)
    requires prevEnd <= |text|
    ensures r == DeleteWithComma(text, prevEnd, begin, tail)
  {
    hide AfterTrivia;
    var comma := After(text, prevEnd);
    if comma.Err? {
      return text;
    }
    assert |text| - |text[comma.value..]| == comma.value;
    r := text[..comma.value] + Slice(text, comma.value + 1, begin) + tail;
  }

  lemma DeleteCases(t: string, p: Parsed, i: nat)
    requires Within(t, p) && i < |p.members| && MemberWithin(p.members[i], p.close)
    requires AfterTrivia(t[p.members[i].valueEnd..]).Ok?
    ensures i + 1 == |p.members| ==>
      var rest := AfterTrivia(t[p.members[i].valueEnd..]).value;
      DeleteAccepted(t, p, i) == DeletedLast(t, p, i, CommaFollows(rest),
        if CommaFollows(rest) then rest[1..] else t[p.members[i].valueEnd..])
    ensures i + 1 < |p.members| ==>
      var rest := AfterTrivia(t[p.members[i].valueEnd..]).value;
      DeleteAccepted(t, p, i) == DeleteInner(t, p.members[i].keyStart, if rest == [] then [] else rest[1..])
  {
    hide AfterTrivia, DeleteInner, DeleteWithComma, Blank;
  }

  method DeleteLast(text: string, p: Parsed, i: nat, hasComma: bool, tail: string) returns (r: string)
    requires Within(text, p) && i < |p.members| && p.open + 1 <= p.members[i].keyStart
    ensures r == DeletedLast(text, p, i, hasComma, tail)
  {
    hide Blank, DeleteWithComma, Slice;
    var m := p.members[i];
    assert MemberWithin(m, p.close);
    var begin := TrimmedEnd(text, p.open + 1, m.keyStart);
    if i == 0 && Blank(Slice(text, p.open + 1, begin)) && Blank(Slice(tail, 0, p.close - m.valueEnd)) {
      return text[..p.open + 1] + text[p.close..];
    }
    if i == 0 || hasComma {
      return text[..begin] + tail;
    }
    assert MemberWithin(p.members[i - 1], p.close);
    r := CutWithComma(text, p.members[i - 1].valueEnd, begin, tail);
  }

  method DeleteIn(text: string, p: Parsed, i: nat) returns (r: string)
    requires Within(text, p) && i < |p.members| && p.open + 1 <= p.members[i].keyStart
    ensures r == DeleteAccepted(text, p, i)
  {
    hide AfterTrivia, DeleteInner, DeletedLast, DeleteAccepted;
    var m := p.members[i];
    assert MemberWithin(m, p.close);
    var after := After(text, m.valueEnd);
    if after.Err? {
      Stays(text, p, i);
      return text;
    }
    DeleteCases(text, p, i);
    var comma := after.value;
    RestAfter(text, comma);
    var hasComma := comma < |text| && text[comma] == ',';
    var rest := if comma < |text| then comma + 1 else comma;
    if i + 1 < |p.members| {
      r := CutInner(text, m.keyStart, rest);
    } else {
      r := DeleteLast(text, p, i, hasComma, if hasComma then text[rest..] else text[m.valueEnd..]);
    }
  }

  lemma Stays(t: string, p: Parsed, i: nat)
    requires Within(t, p) && i < |p.members| && MemberWithin(p.members[i], p.close)
    requires AfterTrivia(t[p.members[i].valueEnd..]).Err?
    ensures DeleteAccepted(t, p, i) == t
  {
    hide AfterTrivia, DeleteInner, DeleteWithComma, Blank;
  }

  /** `jsonc_delete` */
  method Delete(text: string, key: string, loads: KeyReader) returns (r: Result<string>)
    ensures r == DeleteText(text, key, loads)
  {
    hide ParseMembers, DeleteAccepted;
    var parsed := Members(text, loads);
    if parsed.Err? {
      return Err(parsed.error);
    }
    ParsedWithin(text, loads);
    var p := parsed.value;
    var i := FindMember(p.members, key);
    if i == |p.members| {
      return Ok(text);
    }
    KeyIsInside(text, p, i, loads);
    var done := DeleteIn(text, p, i);
    r := Ok(done);
  }

  lemma RestAfter(text: string, comma: nat)
    requires comma <= |text|
    ensures var rest := text[comma..];
            && (CommaFollows(rest) <==> comma < |text| && text[comma] == ',')
            && (if rest == [] then [] else rest[1..]) == text[if comma < |text| then comma + 1 else comma..]
  {
  }

  /** Keys stand after the opening brace. */
  lemma KeyIsInside(text: string, p: Parsed, i: nat, loads: KeyReader)
    requires ParseMembers(text, loads) == Ok(p) && i < |p.members|
    ensures p.open + 1 <= p.members[i].keyStart
  {
    hide ParseMembers, DocText, Stem, GapAt, WellFormed;
    var d := ReadIsWritten(text, loads);
    SpanCount(d);
    EntrySpan(d, i, loads);
    StemStarts(d, i);
  }

  lemma StemStarts(d: Doc, i: nat)
    requires Place(d, i)
    ensures |Stem(d, i)| >= |d.pre| + 1
  {
  }
}
