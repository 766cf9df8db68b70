/**
 The top-level object of a JSON text with comments, as concrete syntax: every piece of text it is made
 of. `ParseMembers` reads spans off a text; a well-formed document is what it accepts, exactly.
 */
module JsoncDoc {
  import opened Options
  import opened Text
  import opened JsoncScanner

  /** `json.loads` on the text of a key: None when it raises. */
  type KeyReader = string -> Option<string>

  datatype Member = Member(key: string, keyStart: int, valueStart: int, valueEnd: int)
  datatype Parsed = Parsed(open: nat, close: int, members: seq<Member>)

  // ----- Reading spans: each step yields the text that is still to be read -----

  function Rest(s: string, r: Result<nat>): (rest: Result<string>)
    requires r.Ok? ==> r.value <= |s|
    ensures rest.Ok? ==> |rest.value| <= |s|
  {
    match r case Ok(k) => Ok(s[k..]) case Err(e) => Err(e)
  }

  function AfterTrivia(s: string): (r: Result<string>)
    ensures r.Ok? ==> |r.value| <= |s|
  {
    Rest(s, TriviaLen(s))
  }

  function AfterLiteral(s: string): (r: Result<string>)
    requires s != []
    ensures r.Ok? ==> |r.value| < |s|
  {
    Rest(s, LiteralLen(s))
  }

  function AfterValue(s: string): (r: Result<string>)
    ensures r.Ok? ==> |r.value| < |s|
  {
    Rest(s, ValueLen(s))
  }

  /** From the end of a key to its value. */
  function AfterColon(s: string): (r: Result<string>)
    ensures r.Ok? ==> |r.value| < |s|
  {
    match AfterTrivia(s)
    case Err(e) => Err(e)
    case Ok(s1) => if s1 == [] || s1[0] != ':' then Err(ExpectedColon) else AfterTrivia(s1[1..])
  }

  /** From the end of a value to the next key or closing brace. */
  function AfterComma(s: string): (r: Result<string>)
    ensures r.Ok? ==> |r.value| <= |s|
  {
    match AfterTrivia(s)
    case Err(e) => Err(e)
    case Ok(s1) =>
      if s1 != [] && s1[0] == ',' then AfterTrivia(s1[1..])
      else if s1 != [] && s1[0] != '}' then Err(ExpectedCommaOrBrace)
      else Ok(s1)
  }

  /** A member and the text after it. `n` is the length of the whole text, so an offset is `n` less what is left. */
  datatype Read = Read(member: Member, rest: string)

  function ReadMember(s: string, n: nat, loads: KeyReader): (r: Result<Read>)
    requires s != [] && |s| <= n
    ensures r.Ok? ==> |r.value.rest| < |s|
  {
    match AfterLiteral(s)
    case Err(e) => Err(e)
    case Ok(s1) =>
      match loads(s[..|s| - |s1|])
      case None => Err(BadKey)
      case Some(key) =>
        match AfterColon(s1)
        case Err(e) => Err(e)
        case Ok(s2) =>
          match AfterValue(s2)
          case Err(e) => Err(e)
          case Ok(s3) => Ok(Read(Member(key, n - |s|, n - |s2|, n - |s3|), s3))
  }

  datatype Body = Body(close: nat, members: seq<Member>)

  function Prepend(m: Member, r: Result<Body>): Result<Body> {
    match r case Ok(b) => Ok(Body(b.close, [m] + b.members)) case Err(e) => Err(e)
  }

  /** The rest of the object, from a key or the closing brace on. */
  function ReadBody(s: string, n: nat, loads: KeyReader): (r: Result<Body>)
    requires |s| <= n
    decreases |s|
  {
    if s == [] then Err(UnterminatedObject)
    else if s[0] == '}' then
      match AfterTrivia(s[1..])
      case Err(e) => Err(e)
      case Ok(post) => if post != [] then Err(TrailingContent) else Ok(Body(n - |s|, []))
    else if s[0] != '"' then Err(ExpectedKey)
    else
      match ReadMember(s, n, loads)
      case Err(e) => Err(e)
      case Ok(read) =>
        match AfterComma(read.rest)
        case Err(e) => Err(e)
        case Ok(rest) => Prepend(read.member, ReadBody(rest, n, loads))
  }

  /** The object's braces and members, as offsets. */
  function ParseMembers(t: string, loads: KeyReader): Result<Parsed> {
    match AfterTrivia(t)
    case Err(e) => Err(e)
    case Ok(s) =>
      if s == [] || s[0] != '{' then Err(NotAnObject)
      else
        match AfterTrivia(s[1..])
        case Err(e) => Err(e)
        case Ok(body) =>
          match ReadBody(body, |t|, loads)
          case Err(e) => Err(e)
          case Ok(b) => Ok(Parsed(|t| - |s|, b.close, b.members))
  }

  // ----- Concrete syntax -----

  /** `comma` is the gap after the comma, when there is one. */
  datatype Entry = Entry(key: string, literal: string, preColon: string, postColon: string,
                         value: string, postValue: string, comma: Option<string>)

  datatype Doc = Doc(pre: string, inner: string, entries: seq<Entry>, post: string)

  // Each piece of text is written in front of the text that follows it.

  function CommaThen(c: Option<string>, r: string): string {
    match c case None => r case Some(g) => "," + (g + r)
  }

  /** What follows the value. */
  function TailThen(e: Entry, r: string): string {
    e.postValue + CommaThen(e.comma, r)
  }

  function EntryThen(e: Entry, r: string): string {
    e.literal + (e.preColon + (":" + (e.postColon + (e.value + TailThen(e, r)))))
  }

  function EntriesThen(es: seq<Entry>, r: string): (s: string)
    ensures |s| == EntriesLen(es) + |r|
  {
    if es == [] then r else EntryThen(es[0], EntriesThen(es[1..], r))
  }

  function DocText(d: Doc): string {
    d.pre + ("{" + (d.inner + EntriesThen(d.entries, "}" + d.post)))
  }

  function HeadLen(e: Entry): nat { |e.literal| + |e.preColon| + 1 + |e.postColon| }
  function TailLen(e: Entry): nat { |e.postValue| + match e.comma case None => 0 case Some(g) => 1 + |g| }
  function EntryLen(e: Entry): nat { HeadLen(e) + |e.value| + TailLen(e) }
  function EntriesLen(es: seq<Entry>): nat { if es == [] then 0 else EntryLen(es[0]) + EntriesLen(es[1..]) }

  predicate WellFormedEntry(e: Entry, loads: KeyReader) {
    && IsLiteral(e.literal) && loads(e.literal) == Some(e.key)
    && IsGap(e.preColon) && IsGap(e.postColon)
    && IsValue(e.value) && IsGap(e.postValue) && !Swallows(e.value, e.postValue)
    && (e.comma.Some? ==> IsGap(e.comma.value))
  }

  /** A scalar runs on into a byte order mark: it is white space, but does not end a scalar. */
  predicate Swallows(value: string, gap: string) {
    IsScalar(value) && gap != [] && gap[0] == BOM
  }

  predicate WellFormedEntries(es: seq<Entry>, loads: KeyReader) {
    && (forall i :: 0 <= i < |es| ==> WellFormedEntry(es[i], loads))
    && (forall i :: 0 <= i < |es| - 1 ==> es[i].comma.Some?)
  }

  predicate WellFormed(d: Doc, loads: KeyReader) {
    && IsGap(d.pre) && IsGap(d.inner) && WellFormedEntries(d.entries, loads)
    && AfterTrivia(d.post) == Ok([])
  }

  function MemberOf(e: Entry, at: nat): Member {
    var v := at + HeadLen(e);
    Member(e.key, at, v, v + |e.value|)
  }

  function MembersOf(es: seq<Entry>, at: nat): (ms: seq<Member>)
    ensures |ms| == |es|
  {
    if es == [] then [] else [MemberOf(es[0], at)] + MembersOf(es[1..], at + EntryLen(es[0]))
  }

  function SpansOf(d: Doc): Parsed {
    var at := |d.pre| + 1 + |d.inner|;
    Parsed(|d.pre|, at + EntriesLen(d.entries), MembersOf(d.entries, at))
  }

  // ----- A well-formed document is accepted, with its own spans -----

  lemma GapRead(g: string, s: string)
    requires IsGap(g) && !TriviaStart(s)
    ensures AfterTrivia(g + s) == Ok(s)
  {
    TriviaIsGap(g, s);
    Cut(g, s);
  }

  lemma LiteralRead(lit: string, s: string)
    requires IsLiteral(lit)
    ensures lit + s != [] && AfterLiteral(lit + s) == Ok(s) && (lit + s)[..|lit|] == lit
  {
    LiteralLocal(lit, s);
    Cut(lit, s);
  }

  lemma ValueRead(v: string, s: string)
    requires IsValue(v) && Ends(v, s)
    ensures AfterValue(v + s) == Ok(s)
  {
    ValueLocal(v, s);
    Cut(v, s);
  }

  lemma MarkRead(c: char, s: string)
    ensures var t := [c] + s; t != [] && t[0] == c && t[1..] == s
    ensures !Ws(c) && c != BOM && c != '/' ==> !TriviaStart([c] + s)
  {
  }

  lemma ColonRead(a: string, b: string, s: string)
    requires IsGap(a) && IsGap(b) && !TriviaStart(s)
    ensures AfterColon(a + (":" + (b + s))) == Ok(s)
  {
    MarkRead(':', b + s);
    GapRead(a, ":" + (b + s));
    GapRead(b, s);
  }

  lemma CommaRead(e: Entry, loads: KeyReader, r: string)
    requires WellFormedEntry(e, loads)
    requires r != [] && !TriviaStart(r) && (e.comma.None? ==> r[0] == '}')
    ensures AfterComma(TailThen(e, r)) == Ok(r)
  {
    match e.comma
    case None =>
      GapRead(e.postValue, r);
    case Some(g) =>
      MarkRead(',', g + r);
      GapRead(e.postValue, "," + (g + r));
      GapRead(g, r);
  }

  lemma ValueIsToken(v: string, r: string)
    requires IsValue(v)
    ensures v + r != [] && !TriviaStart(v + r)
  {
  }

  lemma MemberRead(e: Entry, loads: KeyReader, r: string, n: nat)
    requires WellFormedEntry(e, loads) && Ends(e.value, r)
    requires n >= HeadLen(e) + |e.value| + |r|
    ensures var s := e.literal + (e.preColon + (":" + (e.postColon + (e.value + r))));
            ReadMember(s, n, loads) == Ok(Read(MemberOf(e, n - |s|), r))
  {
    hide AfterTrivia, AfterColon, AfterValue, AfterLiteral, IsGap, IsLiteral;
    var s2 := e.value + r;
    var s1 := e.preColon + (":" + (e.postColon + s2));
    ValueIsToken(e.value, r);
    LiteralRead(e.literal, s1);
    ColonRead(e.preColon, e.postColon, s2);
    ValueRead(e.value, r);
  }

  lemma TailEnds(e: Entry, loads: KeyReader, r: string)
    requires WellFormedEntry(e, loads) && (e.comma.None? ==> r != [] && r[0] == '}')
    ensures Ends(e.value, TailThen(e, r))
  {
    if e.postValue != [] {
      assert TailThen(e, r)[0] == e.postValue[0];
    } else {
      assert TailThen(e, r) == CommaThen(e.comma, r);
    }
  }

  /** A body starts with a key or with the closing brace. */
  lemma BodyIsToken(es: seq<Entry>, loads: KeyReader, post: string)
    requires WellFormedEntries(es, loads)
    ensures var s := EntriesThen(es, "}" + post);
            s != [] && !TriviaStart(s) && s[0] == if es == [] then '}' else '"'
  {
    if es != [] {
      assert WellFormedEntry(es[0], loads);
    }
  }

  lemma {:induction false} BodyRead(es: seq<Entry>, post: string, n: nat, loads: KeyReader)
    requires WellFormedEntries(es, loads) && AfterTrivia(post) == Ok([])
    requires n >= EntriesLen(es) + 1 + |post|
    ensures var s := EntriesThen(es, "}" + post);
            ReadBody(s, n, loads) == Ok(Body(n - 1 - |post|, MembersOf(es, n - |s|)))
    decreases |es|
  {
    hide AfterTrivia, AfterComma, ReadMember, TriviaStart, WellFormedEntry;
    BodyIsToken(es, loads, post);
    if es == [] {
      MarkRead('}', post);
    } else {
      var e, r := es[0], EntriesThen(es[1..], "}" + post);
      assert WellFormedEntry(e, loads) && WellFormedEntries(es[1..], loads);
      BodyIsToken(es[1..], loads, post);
      TailEnds(e, loads, r);
      MemberRead(e, loads, TailThen(e, r), n);
      CommaRead(e, loads, r);
      BodyRead(es[1..], post, n, loads);
    }
  }

  /** Whatever well-formed document is written out, the parser finds its members where they were put. */
  lemma WrittenIsRead(d: Doc, loads: KeyReader)
    requires WellFormed(d, loads)
    ensures ParseMembers(DocText(d), loads) == Ok(SpansOf(d))
  {
    hide AfterTrivia, ReadBody, TriviaStart, IsGap, WellFormedEntries, EntriesThen;
    var body := EntriesThen(d.entries, "}" + d.post);
    BodyIsToken(d.entries, loads, d.post);
    MarkRead('{', d.inner + body);
    GapRead(d.inner, body);
    GapRead(d.pre, "{" + (d.inner + body));
    BodyRead(d.entries, d.post, |DocText(d)|, loads);
  }

  // ----- What is accepted is a well-formed document -----

  lemma Glue(s: string, k: nat)
    requires k <= |s|
    ensures s == s[..k] + s[k..]
  {
  }

  lemma MarkGlue(s: string)
    requires s != []
    ensures s == [s[0]] + s[1..]
  {
  }

  lemma TriviaRead(s: string) returns (g: string)
    requires AfterTrivia(s).Ok? && AfterTrivia(s).value != []
    ensures s == g + AfterTrivia(s).value && IsGap(g) && !TriviaStart(AfterTrivia(s).value)
  {
    var k := TriviaLen(s).value;
    TriviaSplits(s);
    Glue(s, k);
    g := s[..k];
  }

  lemma ColonSplits(s: string) returns (a: string, b: string)
    requires AfterColon(s).Ok? && AfterColon(s).value != []
    ensures IsGap(a) && IsGap(b) && !TriviaStart(AfterColon(s).value)
    ensures s == a + (":" + (b + AfterColon(s).value))
  {
    var s1 := AfterTrivia(s).value;
    a := TriviaRead(s);
    MarkGlue(s1);
    b := TriviaRead(s1[1..]);
  }

  lemma MemberSplits(s: string, n: nat, loads: KeyReader) returns (e: Entry)
    requires s != [] && s[0] == '"' && |s| <= n && ReadMember(s, n, loads).Ok?
    ensures var Read(m, r) := ReadMember(s, n, loads).value;
            && IsLiteral(e.literal) && loads(e.literal) == Some(e.key)
            && IsGap(e.preColon) && IsGap(e.postColon) && IsValue(e.value) && Ends(e.value, r)
            && e.postValue == "" && e.comma == None
            && s == e.literal + (e.preColon + (":" + (e.postColon + (e.value + r))))
  {
    hide AfterColon, IsGap;
    var k := LiteralLen(s).value;
    LiteralCut(s);
    Glue(s, k);
    assert AfterColon(s[k..]).value != [];
    var a, b := ColonSplits(s[k..]);
    var v := AfterColon(s[k..]).value;
    var w := ValueLen(v).value;
    ValueCut(v);
    Glue(v, w);
    e := Entry(loads(s[..k]).value, s[..k], a, b, v[..w], "", None);
  }

  lemma CommaSplits(s: string) returns (postValue: string, comma: Option<string>)
    requires AfterComma(s).Ok? && AfterComma(s).value != []
    ensures IsGap(postValue) && (comma.Some? ==> IsGap(comma.value))
    ensures comma.None? ==> AfterComma(s).value[0] == '}'
    ensures s == postValue + CommaThen(comma, AfterComma(s).value)
  {
    var s1 := AfterTrivia(s).value;
    postValue := TriviaRead(s);
    if s1[0] == ',' {
      MarkGlue(s1);
      var g := TriviaRead(s1[1..]);
      comma := Some(g);
    } else {
      comma := None;
    }
  }

  lemma ConsWellFormed(e: Entry, es: seq<Entry>, loads: KeyReader)
    requires WellFormedEntry(e, loads) && WellFormedEntries(es, loads) && (es != [] ==> e.comma.Some?)
    ensures WellFormedEntries([e] + es, loads) && ([e] + es)[1..] == es
  {
    var all := [e] + es;
    assert forall i :: 0 < i < |all| ==> all[i] == es[i - 1];
  }

  lemma {:induction false} BodySplits(s: string, n: nat, loads: KeyReader) returns (es: seq<Entry>, post: string)
    requires |s| <= n && ReadBody(s, n, loads).Ok?
    ensures WellFormedEntries(es, loads) && AfterTrivia(post) == Ok([])
    ensures s == EntriesThen(es, "}" + post)
    ensures es == [] <==> s[0] == '}'
    decreases |s|
  {
    hide AfterTrivia, AfterComma, ReadMember, IsGap, IsLiteral, TriviaStart;
    if s[0] == '}' {
      MarkGlue(s);
      es, post := [], s[1..];
    } else {
      var e := MemberSplits(s, n, loads);
      var r1 := ReadMember(s, n, loads).value.rest;
      var r := AfterComma(r1).value;
      var postValue, comma := CommaSplits(r1);
      var es', post' := BodySplits(r, n, loads);
      var e' := e.(postValue := postValue, comma := comma);
      assert !Swallows(e.value, postValue) by {
        if postValue != [] {
          assert r1[0] == postValue[0];
        }
      }
      ConsWellFormed(e', es', loads);
      es, post := [e'] + es', post';
    }
  }

  /** Whatever the parser accepts is some well-formed document, written out. */
  lemma ReadIsWritten(t: string, loads: KeyReader) returns (d: Doc)
    requires ParseMembers(t, loads).Ok?
    ensures WellFormed(d, loads) && DocText(d) == t && ParseMembers(t, loads) == Ok(SpansOf(d))
  {
    var s := AfterTrivia(t).value;
    var pre := TriviaRead(t);
    MarkGlue(s);
    var body := AfterTrivia(s[1..]).value;
    var inner := TriviaRead(s[1..]);
    var es, post := BodySplits(body, |t|, loads);
    d := Doc(pre, inner, es, post);
    WrittenIsRead(d, loads);
  }
}
