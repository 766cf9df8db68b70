/** What is left after stripping: no comment, no trailing comma, and every value still one value. */
module JsoncStrictFacts {
  import opened Text
  import opened JsoncScanner
  import opened JsonDump
  import opened JsoncStrict

  // ----- What comes out first -----

  lemma StrictSplits(s: string) returns (g: string, rest: string)
    requires TriviaLen(s).Ok? && TriviaLen(s).value < |s|
    ensures s == g + rest && |g| == TriviaLen(s).value && IsGap(g) && rest != [] && !TriviaStart(rest)
    ensures Strict(s) == Emit(Bare(g), Strict(rest))
  {
    hide Strict, TriviaLen, IsGap, TriviaStart;
    var n := TriviaLen(s).value;
    TriviaSplits(s);
    g, rest := s[..n], s[n..];
    assert s == g + rest;
    StrictGap(g, rest);
  }

  lemma BareStarts(g: string, o: string)
    requires IsGap(g)
    ensures Bare(g) != [] ==> (Bare(g) + o)[0] == Bare(g)[0] && IsBlank(Bare(g)[0])
    ensures Bare(g) == [] ==> Bare(g) + o == o
  {
    BareIsGap(g);
    if Bare(g) != [] {
      assert Bare(g)[0] in Bare(g);
    }
  }

  /** Whether the text may follow a slash without making a comment of it. */
  predicate NoMark(s: string) { s != [] ==> s[0] != '/' && s[0] != '*' }

  lemma ClosingOut(s: string)
    requires s != [] && Closes(s[0])
    ensures Strict(s) == Emit([s[0]], Strict(s[1..]))
  {
    StrictChar(s[0], s[1..]);
    assert s == [s[0]] + s[1..];
  }

  /** Nothing is left in front of the rest of a text that could make a comment with a slash before it. */
  lemma NoMarkOut(s: string)
    requires Strict(s).Ok? && NoMark(s)
    ensures NoMark(Strict(s).value)
  {
    if s != [] && s[0] == ',' && !CommaStays(s[1..], TriviaLen(s[1..]).value) {
      hide Strict, TriviaLen;
      var g, rest := StrictSplits(s[1..]);
      ClosingOut(rest);
      BareStarts(g, Strict(rest).value);
      assert Strict(s) == Strict(s[1..]) by { GoneComma(s); }
    }
  }

  lemma GoneComma(s: string)
    requires s != [] && s[0] == ',' && TriviaLen(s[1..]).Ok? && !CommaStays(s[1..], TriviaLen(s[1..]).value)
    ensures Strict(s) == Strict(s[1..])
  {
    EmitEmit("", "", Strict(s[1..]));
  }

  // ----- No comment is left -----

  /** Read as strings and single characters, the text has no comment. */
  predicate NoComment(s: string)
    decreases |s|
  {
    s == []
    || if s[0] == '"' then LiteralLen(s).Ok? && NoComment(s[LiteralLen(s).value..])
       else !CommentStart(s) && NoComment(s[1..])
  }

  lemma LiteralHasNoComment(lit: string, o: string)
    requires IsLiteral(lit) && NoComment(o)
    ensures NoComment(lit + o)
  {
    LiteralLocal(lit, o);
    Cut(lit, o);
  }

  lemma CharHasNoComment(c: char, o: string)
    requires c != '"' && NoComment(o) && (c == '/' ==> NoMark(o))
    ensures NoComment([c] + o)
  {
    Cut([c], o);
  }

  lemma SlashAlone(s: string)
    requires s != [] && s[0] == '/' && !CommentStart(s)
    ensures NoMark(s[1..])
  {
  }

  /** Whatever the text was: once stripped, it has no comment. */
  lemma {:induction false} StripsComments(s: string)
    requires Strict(s).Ok?
    ensures NoComment(Strict(s).value)
    decreases |s|
  {
    hide NoComment, LiteralLen, TriviaLen, CommentStart;
    if s == [] {
      assert NoComment("") by { EmptyHasNoComment(); }
    } else if s[0] == '"' {
      var n := LiteralLen(s).value;
      StripsComments(s[n..]);
      LiteralCut(s);
      LiteralHasNoComment(s[..n], Strict(s[n..]).value);
    } else if CommentStart(s) {
      CommentIsSkipped(s);
      StripsComments(s[TriviaLen(s).value..]);
    } else {
      StripsComments(s[1..]);
      if s[0] == '/' {
        SlashAlone(s);
        NoMarkOut(s[1..]);
      }
      CharHasNoComment(s[0], Strict(s[1..]).value);
      assert "" + Strict(s[1..]).value == Strict(s[1..]).value;
    }
  }

  lemma EmptyHasNoComment()
    ensures NoComment("")
  {
  }

  // ----- Brackets are left as brackets -----

  lemma GapRound(g: string, s: string, depth: int)
    requires IsGap(g)
    ensures NestLen(g + s, depth) == Plus(|g|, NestLen(s, depth))
  {
    hide IsGap, TriviaLen, Turn;
    TriviaAfterGap(g, s);
    if TriviaLen(s).Ok? {
      var k := TriviaLen(s).value;
      CutFront(g, s, |g|);
      Drops(g + s, |g|, k);
      SameRound(g, s, depth);
    }
  }

  lemma SameRound(g: string, s: string, depth: int)
    requires TriviaLen(s).Ok? && TriviaLen(g + s) == Plus(|g|, TriviaLen(s))
    requires (g + s)[|g| + TriviaLen(s).value..] == s[TriviaLen(s).value..]
    ensures NestRound(g + s, depth) == After(|g|, NestRound(s, depth))
    ensures NestLen(g + s, depth) == Plus(|g|, NestLen(s, depth))
  {
    hide TriviaLen, Turn;
    var r := NestRound(s, depth);
    assert NestRound(g + s, depth) == After(|g|, r);
    if r.Ok? && !r.value.done {
      assert (g + s)[|g| + r.value.len..] == s[r.value.len..];
    }
  }

  lemma CharOut(c: char, depth: int, turn: Round, o: string)
    requires !TriviaStart([c] + o) && Turn([c] + o, depth) == Ok(turn) && turn.len == 1 && !turn.done
    requires NestLen(o, turn.depth) == Ok(|o|)
    ensures NestLen([c] + o, depth) == Ok(|[c] + o|)
  {
    hide NestLen, Turn, TriviaStart;
    Cut([c], o);
    RunTurn([c] + o, depth, o);
  }

  lemma SameChar(rest: string, depth: int, o: string)
    requires rest != [] && rest[0] != '"' && !TriviaStart(rest) && (rest[0] == '/' ==> NoMark(o))
    ensures !TriviaStart([rest[0]] + o) && Turn([rest[0]] + o, depth) == Turn(rest, depth) && Turn(rest, depth).Ok?
    ensures Turn(rest, depth).value.len == 1
  {
    var s := [rest[0]] + o;
    assert s[0] == rest[0] && s[1..] == o;
    assert o != [] ==> s[1] == o[0];
  }

  lemma TurnKinds(rest: string, depth: int)
    requires rest != [] && Turn(rest, depth).Ok? && (rest[0] == ',' ==> TriviaLen(rest[1..]).Ok?)
    ensures rest[0] == '"' ==> IsLiteral(TurnText(rest)) && Turn(rest, depth).value.depth == depth
    ensures rest[0] != '"' ==> TurnText(rest) == [rest[0]] || (TurnText(rest) == "" && Turn(rest, depth).value.depth == depth)
  {
    hide TriviaLen, BodyLen;
    if rest[0] == '"' {
      LiteralCut(rest);
    }
  }

  lemma TurnOut(rest: string, depth: int, o: string)
    requires rest != [] && !TriviaStart(rest) && Turn(rest, depth).Ok? && !Turn(rest, depth).value.done
    requires (rest[0] == ',' ==> TriviaLen(rest[1..]).Ok?) && (rest[0] == '/' ==> NoMark(o))
    requires NestLen(o, Turn(rest, depth).value.depth) == Ok(|o|)
    ensures var x := TurnText(rest); NestLen(x + o, depth) == Ok(|x + o|)
  {
    hide NestLen, LiteralLen, TriviaLen, TriviaStart, Turn, TurnText, IsLiteral, NoMark;
    TurnKinds(rest, depth);
    if rest[0] == '"' {
      RunLiteral(TurnText(rest), o, depth);
    } else if TurnText(rest) == "" {
      assert "" + o == o;
    } else {
      SameChar(rest, depth, o);
      CharOut(rest[0], depth, Turn(rest, depth).value, o);
    }
  }

  lemma {:induction false} NestOut(v: string, depth: int)
    requires NestLen(v, depth) == Ok(|v|)
    ensures Strict(v).Ok? && NestLen(Strict(v).value, depth) == Ok(|Strict(v).value|)
    decreases |v|
  {
    hide NestLen, Strict, TriviaStart, IsGap, Turn, TurnText, TriviaLen;
    StrictNest(v, depth, "");
    var g, rest := NestRest(v, depth);
    var turn := Turn(rest, depth).value;
    StrictGap(g, rest);
    BareIsGap(g);
    if turn.done {
      DoneIsBracket(rest, depth);
      StrictOne(rest, "");
      GapRound(Bare(g), rest, depth);
      LastTurn(rest, depth);
    } else {
      TurnTextLocal(rest, depth, "");
      StrictTurn(rest, depth);
      var v' := rest[turn.len..];
      NestOut(v', turn.depth);
      var o := Strict(v').value;
      if rest[0] == '/' {
        SlashTurn(rest, depth);
        NoMarkOut(v');
      }
      TurnOut(rest, depth, o);
      GapRound(Bare(g), TurnText(rest) + o, depth);
    }
  }

  lemma SlashTurn(rest: string, depth: int)
    requires rest != [] && rest[0] == '/' && !TriviaStart(rest)
    ensures Turn(rest, depth) == Ok(Round(1, depth, false)) && NoMark(rest[1..])
  {
  }

  lemma LastTurn(s: string, depth: int)
    requires |s| == 1 && !TriviaStart(s) && Turn(s, depth).Ok? && Turn(s, depth).value.done
    ensures NestLen(s, depth) == Ok(1)
  {
    assert "" + s == s;
    assert IsGap("") by { WsGap(""); }
    RoundIs("", s, depth);
  }

  // ----- Values -----

  /** The quotes inside a scalar, if it has any, close. Whatever is JSON has none. */
  predicate Closed(v: string) { IsScalar(v) ==> Strict(v).Ok? }

  function StrictValue(v: string): string { match Strict(v) case Ok(o) => o case Err(_) => v }

  lemma StrictOfValue(v: string, r: string)
    requires IsValue(v) && Closed(v) && Ends(v, r)
    ensures Strict(v) == Ok(StrictValue(v)) && Strict(v + r) == Emit(StrictValue(v), Strict(r))
  {
    if v[0] == '"' {
      hide Strict;
      StrictLiteral(v, r);
      StrictLiteral(v, "");
      StrictOfNothing();
      assert v + "" == v;
    } else if Opens(v[0]) {
      hide Strict, NestLen;
      StrictNest(v, 0, r);
    } else {
      hide Strict;
      StrictScalar(v, r);
    }
  }

  lemma {:induction false} BodyStaysOpen(s: string)
    requires BodyLen(s).Err?
    ensures BodyLen(s + "}").Err?
  {
    if s == [] {
      assert "}"[1..] == "" && "" + "}" == "}";
      assert BodyLen("").Err?;
    } else if s[0] == '\\' {
      if |s| == 1 {
        assert (s + "}")[2..] == "";
        assert BodyLen("").Err?;
      } else {
        assert (s + "}")[2..] == s[2..] + "}";
        BodyStaysOpen(s[2..]);
      }
    } else if s[0] != '"' {
      assert (s + "}")[1..] == s[1..] + "}";
      BodyStaysOpen(s[1..]);
    }
  }

  lemma {:induction false} ScalarStaysOpen(v: string)
    requires (forall j :: 0 <= j < |v| ==> !Stops(v[j])) && Strict(v).Err?
    ensures Strict(v + "}").Err?
    decreases |v|
  {
    if v[0] == '"' {
      hide BodyLen;
      assert (v + "}")[1..] == v[1..] + "}";
      if LiteralLen(v).Ok? {
        var n := LiteralLen(v).value;
        LiteralStable(v, "}");
        assert (v + "}")[n..] == v[n..] + "}";
        ScalarStaysOpen(v[n..]);
      } else {
        BodyStaysOpen(v[1..]);
      }
    } else {
      assert Copied(v[0]);
      StrictChar(v[0], v[1..] + "}");
      StrictChar(v[0], v[1..]);
      assert v == [v[0]] + v[1..] && v + "}" == [v[0]] + (v[1..] + "}");
      ScalarStaysOpen(v[1..]);
    }
  }

  /** A value is stripped on its own, whatever ends it, exactly when it has no quote left open. */
  lemma AloneExactly(v: string)
    requires IsValue(v)
    ensures Closed(v) <==> forall r :: Ends(v, r) ==> Strict(v + r) == Emit(StrictValue(v), Strict(r))
  {
    hide Strict, BodyLen;
    if Closed(v) {
      forall r | Ends(v, r)
        ensures Strict(v + r) == Emit(StrictValue(v), Strict(r))
      {
        StrictOfValue(v, r);
      }
    } else {
      ScalarStaysOpen(v);
      StrictOne("}", "");
      assert Ends(v, "}") && Strict("}").Ok?;
    }
  }

  lemma StrictOfNothing()
    ensures Strict("") == Ok("")
  {
  }

  /** A value is still one value, of the same kind; a scalar or string is the same. */
  lemma StrictIsValue(v: string)
    requires IsValue(v) && Closed(v)
    ensures IsValue(StrictValue(v)) && (IsScalar(StrictValue(v)) <==> IsScalar(v))
    ensures v[0] == '"' || IsScalar(v) ==> StrictValue(v) == v
  {
    hide Strict, NestLen;
    if v[0] == '"' || IsScalar(v) {
      StrictOfValue(v, "");
      if IsScalar(v) {
        StrictScalar(v, "");
      } else {
        StrictLiteral(v, "");
        StrictOfNothing();
        assert v + "" == v;
      }
    } else {
      NestOut(v, 0);
      StrictChar(v[0], v[1..]);
      assert v == [v[0]] + v[1..];
      NestIsValue(StrictValue(v));
    }
  }
}
