/**
 Taking comments out, compared with blanking them: the same tokens are left, unless a comment stands
 directly between two characters of words or numbers, which then become one.
 */
module JsoncStrictTokens {
  import opened Text
  import opened JsoncScanner
  import opened JsonDump
  import opened JsoncStrict
  import opened JsoncStrictFacts
  import opened JsoncStrictLimits

  // ----- Blanking -----

  /** The text with a space for each comment, and without trailing commas. */
  function Blanked(s: string): Result<string>
    decreases |s|
  {
    if s == [] then Ok([])
    else if s[0] == '"' then
      match LiteralLen(s)
      case Err(e) => Err(e)
      case Ok(n) => Emit(s[..n], Blanked(s[n..]))
    else if CommentStart(s) then
      if ItemLen(s) > 0 then Emit(" ", Blanked(s[ItemLen(s)..]))
      else if "//" <= s then Ok(" ")
      else Err(UnterminatedComment)
    else if s[0] == ',' then
      match TriviaLen(s[1..])
      case Err(e) => Err(e)
      case Ok(n) => Emit(if CommaStays(s[1..], n) then "," else "", Blanked(s[1..]))
    else Emit([s[0]], Blanked(s[1..]))
  }

  // ----- Tokens -----

  predicate Mark(c: char) { Opens(c) || Closes(c) || c == ',' || c == ':' }

  /** A character of a word or a number. */
  predicate WordChar(c: char) { !IsBlank(c) && !Mark(c) && c != '"' }

  predicate InWord(s: string) { s != [] && WordChar(s[0]) }

  /** A word that the text starts with joins the character in front of it. */
  function Joined(c: char, s: string, tokens: seq<string>): seq<string> {
    if InWord(s) && tokens != [] then [[c] + tokens[0]] + tokens[1..] else [[c]] + tokens
  }

  /** The strings, marks and words of a text without comments. An open string is one token. */
  function Tokens(s: string): seq<string>
    decreases |s|
  {
    if s == [] then []
    else if s[0] == '"' then
      match LiteralLen(s)
      case Err(_) => [s]
      case Ok(n) => [s[..n]] + Tokens(s[n..])
    else if IsBlank(s[0]) then Tokens(s[1..])
    else if Mark(s[0]) then [[s[0]]] + Tokens(s[1..])
    else Joined(s[0], s[1..], Tokens(s[1..]))
  }

  // ----- Where two words meet -----

  /** A comment, and behind the white space and comments that begin with it a character of a word. */
  predicate HidesWord(s: string) { CommentStart(s) && TriviaLen(s).Ok? && InWord(s[TriviaLen(s).value..]) }

  /** Somewhere outside the strings a comment follows a character of a word directly, and hides another one. */
  predicate Joins(s: string)
    decreases |s|
  {
    if s == [] then false
    else if s[0] == '"' then LiteralLen(s).Ok? && Joins(s[LiteralLen(s).value..])
    else if CommentStart(s) then TriviaLen(s).Ok? && (CommentIsSkipped(s); Joins(s[TriviaLen(s).value..]))
    else (WordChar(s[0]) && HidesWord(s[1..])) || Joins(s[1..])
  }

  // ----- Both, in front of what follows -----

  predicate AllBlank(w: string) { forall c <- w :: IsBlank(c) }

  /** The comments and white space in front of a token come out as white space, a comment at their start as a space. */
  lemma {:induction false} BlankedGap(s: string) returns (w: string)
    requires TriviaLen(s).Ok?
    ensures AllBlank(w) && (s != [] && (CommentStart(s) || IsBlank(s[0])) ==> w != [])
    ensures Blanked(s) == Emit(w, Blanked(s[TriviaLen(s).value..]))
    decreases |s|
  {
    var n := ItemLen(s);
    if n > 0 {
      var w' := BlankedGap(s[n..]);
      var x := if CommentStart(s) then " " else [s[0]];
      BlankedItem(s);
      Drops(s, n, TriviaLen(s[n..]).value);
      EmitEmit(x, w', Blanked(s[TriviaLen(s).value..]));
      w := x + w';
    } else if "//" <= s {
      assert s[|s|..] == [] && Blanked([]) == Ok([]);
      assert " " + [] == " ";
      w := " ";
    } else {
      assert s[0..] == s;
      EmitEmit("", "", Blanked(s));
      w := "";
    }
  }

  lemma BlankedItem(s: string)
    requires ItemLen(s) > 0
    ensures Blanked(s) == Emit(if CommentStart(s) then " " else [s[0]], Blanked(s[ItemLen(s)..]))
    ensures !CommentStart(s) ==> IsBlank(s[0])
  {
  }

  lemma {:induction false} TokensOfBlank(w: string, s: string)
    requires AllBlank(w)
    ensures Tokens(w + s) == Tokens(s)
  {
    if w == [] {
      assert w + s == s;
    } else {
      assert w[0] in w;
      assert forall c <- w[1..] :: c in w;
      assert (w + s)[1..] == w[1..] + s;
      TokensOfBlank(w[1..], s);
    }
  }

  lemma TokensOfLiteral(lit: string, s: string)
    requires IsLiteral(lit)
    ensures Tokens(lit + s) == [lit] + Tokens(s)
  {
    LiteralLocal(lit, s);
    Cut(lit, s);
  }

  lemma TokensOfChar(c: char, s: string)
    requires c != '"'
    ensures Tokens([c] + s) == if IsBlank(c) then Tokens(s) else if Mark(c) then [[c]] + Tokens(s) else Joined(c, s, Tokens(s))
  {
    Cut([c], s);
  }

  lemma WordHasToken(s: string)
    requires InWord(s)
    ensures Tokens(s) != []
  {
  }

  // ----- The comparison -----

  /** What is left of the same text in the two ways: as many tokens, and the same, exactly when no words join. */
  predicate Agree(o: Result<string>, b: Result<string>, joins: bool) {
    && (o.Ok? <==> b.Ok?)
    && (o.Ok? ==>
          var s, t := Tokens(o.value), Tokens(b.value);
          |s| <= |t| && (s == t <==> !joins) && (|s| == |t| <==> !joins))
  }

  lemma AgreeLiteral(lit: string, o: Result<string>, b: Result<string>, joins: bool)
    requires IsLiteral(lit) && Agree(o, b, joins)
    ensures Agree(Emit(lit, o), Emit(lit, b), joins)
  {
    hide Tokens, IsLiteral;
    if o.Ok? {
      TokensOfLiteral(lit, o.value);
      TokensOfLiteral(lit, b.value);
      Front(lit, Tokens(o.value), Tokens(b.value));
    }
  }

  lemma Front(x: string, s: seq<string>, t: seq<string>)
    ensures [x] + s == [x] + t <==> s == t
  {
    assert ([x] + s)[1..] == s && ([x] + t)[1..] == t;
  }

  /** A character that is no part of a word. */
  lemma AgreeMark(c: char, o: Result<string>, b: Result<string>, joins: bool)
    requires c != '"' && !WordChar(c) && Agree(o, b, joins)
    ensures Agree(Emit([c], o), Emit([c], b), joins)
  {
    hide Tokens;
    if o.Ok? {
      TokensOfChar(c, o.value);
      TokensOfChar(c, b.value);
      Front([c], Tokens(o.value), Tokens(b.value));
    }
  }

  /** A character of a word: it joins what follows in both, in neither, or only where the comment is gone. */
  lemma AgreeWord(c: char, o: Result<string>, b: Result<string>, joins: bool)
    requires WordChar(c) && Agree(o, b, joins)
    requires o.Ok? ==> (InWord(b.value) ==> InWord(o.value))
    ensures Agree(Emit([c], o), Emit([c], b), joins || (o.Ok? && InWord(o.value) && !InWord(b.value)))
  {
    hide Tokens;
    if o.Ok? {
      TokensOfChar(c, o.value);
      TokensOfChar(c, b.value);
      var s, t := Tokens(o.value), Tokens(b.value);
      if InWord(o.value) {
        WordHasToken(o.value);
      }
      if InWord(b.value) {
        WordHasToken(b.value);
        FrontWord(c, s, t);
      } else if !InWord(o.value) {
        Front([c], s, t);
      }
    }
  }

  lemma FrontWord(c: char, s: seq<string>, t: seq<string>)
    requires s != [] && t != []
    ensures [[c] + s[0]] + s[1..] == [[c] + t[0]] + t[1..] <==> s == t
    ensures |[[c] + s[0]] + s[1..]| == |s|
  {
    var x, y := [[c] + s[0]] + s[1..], [[c] + t[0]] + t[1..];
    if x == y {
      assert x[0] == y[0] && x[1..] == s[1..] && y[1..] == t[1..];
      assert s[0] == ([c] + s[0])[1..] && t[0] == ([c] + t[0])[1..];
      assert s == [s[0]] + s[1..] && t == [t[0]] + t[1..];
    }
  }

  /** White space in front changes no tokens. */
  lemma AgreeBlank(w: string, o: Result<string>, b: Result<string>, joins: bool)
    requires AllBlank(w) && Agree(o, b, joins)
    ensures Agree(o, Emit(w, b), joins)
  {
    hide Tokens;
    if b.Ok? {
      TokensOfBlank(w, b.value);
    }
  }

  // ----- What comes first -----

  /** Behind a character of a word, the text without comments goes on with a word where its first token does. */
  lemma FirstOut(s: string)
    requires Strict(s).Ok?
    ensures s != [] && !CommentStart(s) ==> (InWord(Strict(s).value) <==> InWord(s))
    ensures CommentStart(s) ==> (InWord(Strict(s).value) <==> HidesWord(s))
  {
    if CommentStart(s) {
      hide Strict, TriviaLen;
      CommentOut(s);
      var r := s[TriviaLen(s).value..];
      if r == [] {
        StrictOfNothing();
      } else {
        BehindTrivia(s);
        TokenOutFirst(r);
      }
    } else if s != [] {
      TokenOutFirst(s);
    }
  }

  lemma CommentOut(s: string)
    requires CommentStart(s) && Strict(s).Ok?
    ensures TriviaLen(s).Ok? && TriviaLen(s).value <= |s| && Strict(s) == Strict(s[TriviaLen(s).value..])
  {
    CommentIsSkipped(s);
  }

  lemma BehindTrivia(s: string)
    requires TriviaLen(s).Ok? && TriviaLen(s).value < |s|
    ensures !TriviaStart(s[TriviaLen(s).value..])
  {
    TriviaSplits(s);
  }

  lemma TokenOutFirst(s: string)
    requires s != [] && !CommentStart(s) && Strict(s).Ok?
    ensures InWord(Strict(s).value) <==> InWord(s)
  {
    if s[0] == ',' && !CommaStays(s[1..], TriviaLen(s[1..]).value) {
      hide Strict, TriviaLen;
      var g, rest := StrictSplits(s[1..]);
      ClosingOut(rest);
      BareStarts(g, Strict(rest).value);
      assert Strict(s) == Strict(s[1..]) by { GoneComma(s); }
    }
  }

  lemma BlankedFirst(s: string)
    requires Blanked(s).Ok?
    ensures InWord(Blanked(s).value) <==> InWord(s) && !CommentStart(s)
  {
    if s != [] && s[0] == ',' && !CommaStays(s[1..], TriviaLen(s[1..]).value) {
      hide TriviaLen;
      var w := BlankedGap(s[1..]);
      var rest := s[1..][TriviaLen(s[1..]).value..];
      assert Closes(rest[0]);
      ClosingBlanked(rest);
      assert Blanked(s) == Blanked(s[1..]) by { GoneBlanked(s); }
      if w != [] {
        assert w[0] in w;
      }
    }
  }

  lemma ClosingBlanked(s: string)
    requires s != [] && Closes(s[0])
    ensures Blanked(s) == Emit([s[0]], Blanked(s[1..]))
  {
  }

  lemma GoneBlanked(s: string)
    requires s != [] && s[0] == ',' && TriviaLen(s[1..]).Ok? && !CommaStays(s[1..], TriviaLen(s[1..]).value)
    ensures Blanked(s) == Blanked(s[1..])
  {
    EmitEmit("", "", Blanked(s[1..]));
  }

  // ----- The theorem -----

  lemma AgreeComma(s: string)
    requires s != [] && s[0] == ',' && Agree(Strict(s[1..]), Blanked(s[1..]), Joins(s[1..]))
    ensures Agree(Strict(s), Blanked(s), Joins(s))
  {
    hide Tokens, TriviaLen;
    var r := TriviaLen(s[1..]);
    if r.Ok? {
      if CommaStays(s[1..], r.value) {
        AgreeMark(',', Strict(s[1..]), Blanked(s[1..]), Joins(s[1..]));
      } else {
        EmitEmit("", "", Strict(s[1..]));
        EmitEmit("", "", Blanked(s[1..]));
      }
    }
  }

  lemma AgreeComment(s: string)
    requires CommentStart(s)
    requires TriviaLen(s).Ok? ==> var r := s[TriviaLen(s).value..]; Agree(Strict(r), Blanked(r), Joins(r))
    ensures Agree(Strict(s), Blanked(s), Joins(s))
  {
    if TriviaLen(s).Ok? {
      CommentIsSkipped(s);
      hide Tokens, TriviaLen, Blanked, ItemLen;
      var w := BlankedGap(s);
      var r := s[TriviaLen(s).value..];
      AgreeBlank(w, Strict(r), Blanked(r), Joins(r));
    } else {
      NoEnd(s);
    }
  }

  /** A comment without an end stops both. */
  lemma {:induction false} NoEnd(s: string)
    requires TriviaLen(s).Err?
    ensures Blanked(s).Err?
    decreases |s|
  {
    var n := ItemLen(s);
    if n > 0 {
      NoEnd(s[n..]);
      BlankedItem(s);
    }
  }

  lemma AgreeChar(s: string)
    requires s != [] && s[0] != '"' && s[0] != ',' && !CommentStart(s)
    requires Agree(Strict(s[1..]), Blanked(s[1..]), Joins(s[1..]))
    ensures Agree(Strict(s), Blanked(s), Joins(s))
  {
    hide Tokens;
    var o, b, joins := Strict(s[1..]), Blanked(s[1..]), Joins(s[1..]);
    if WordChar(s[0]) {
      if o.Ok? {
        FirstOut(s[1..]);
        BlankedFirst(s[1..]);
        NothingFirst();
      }
      AgreeWord(s[0], o, b, joins);
    } else {
      AgreeMark(s[0], o, b, joins);
    }
  }

  lemma NothingFirst()
    ensures Strict("") == Ok("") && Blanked("") == Ok("")
  {
  }

  /**
   `_strip_jsonc` leaves the same tokens that blanking the comments would, exactly unless somewhere a comment
   stands directly behind a character of a word or number and in front of another one.
   */
  lemma {:induction false} StripsLikeBlanking(s: string)
    ensures Agree(Strict(s), Blanked(s), Joins(s))
    decreases |s|
  {
    if s == [] {
      assert Agree(Ok(""), Ok(""), false);
    } else if s[0] == '"' {
      hide Tokens;
      if LiteralLen(s).Ok? {
        var n := LiteralLen(s).value;
        StripsLikeBlanking(s[n..]);
        LiteralCut(s);
        AgreeLiteral(s[..n], Strict(s[n..]), Blanked(s[n..]), Joins(s[n..]));
      }
    } else if CommentStart(s) {
      hide Tokens, Strict, Blanked, Joins;
      if TriviaLen(s).Ok? {
        CommentIsSkipped(s);
        StripsLikeBlanking(s[TriviaLen(s).value..]);
      }
      AgreeComment(s);
    } else {
      hide Tokens, Strict, Blanked, Joins;
      StripsLikeBlanking(s[1..]);
      if s[0] == ',' {
        AgreeComma(s);
      } else {
        AgreeChar(s);
      }
    }
  }

  lemma CommentAlone()
    ensures IsGap("/**/") && TriviaLen("/**/2]") == Ok(4)
  {
    assert "/**/"[4..] == "" && "/**/"[2..] == "*/";
    assert EndMarkAt("*/", 0);
    assert FindEndMark("*/") == 0;
    assert ItemLen("/**/") == 4;
    assert IsGap("");
    assert IsGap("/**/");
    TriviaIsGap("/**/", "2]");
    assert "/**/" + "2]" == "/**/2]";
  }

  lemma TwelveIsOne()
    ensures Tokens("[12]") == ["[", "12", "]"]
  {
    hide Tokens;
    NothingLeft();
    TokensOfChar(']', "");
    TokensOfChar('2', "]");
    TokensOfChar('1', "2]");
    TokensOfChar('[', "12]");
    assert "]" + "" == "]" && "2" + "]" == "2]" && "1" + "2]" == "12]" && "[" + "12]" == "[12]" && ['1'] + "2" == "12";
  }

  /** The instance: the two numbers of `[1/**/2]` join. */
  lemma NumbersAreJoined()
    ensures Joins("[1/**/2]") && Strict("[1/**/2]") == Ok("[12]") && Tokens("[12]") == ["[", "12", "]"]
  {
    hide TriviaLen, Strict, Tokens;
    NumbersJoin();
    TwelveIsOne();
    CommentAlone();
    assert "/**/2]"[4..] == "2]";
    assert HidesWord("/**/2]");
    assert "[1/**/2]"[1..] == "1/**/2]" && "1/**/2]"[1..] == "/**/2]";
    assert Joins("1/**/2]");
  }

  lemma NothingLeft()
    ensures Tokens("") == []
  {
  }
}
