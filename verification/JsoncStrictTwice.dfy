/** When stripping leaves nothing to strip: no comment, and no comma in front of a closing bracket. */
module JsoncStrictTwice {
  import opened Text
  import opened JsoncScanner
  import opened JsonDump
  import opened JsoncStrict
  import opened JsoncStrictFacts

  /** The comma in front of `rest` goes. */
  predicate CommaGoes(rest: string) { TriviaLen(rest).Ok? && !CommaStays(rest, TriviaLen(rest).value) }

  /** The next token of `rest` is a comma that goes. */
  predicate BeforeGoing(rest: string) {
    TriviaLen(rest).Ok?
    && (var n := TriviaLen(rest).value; n < |rest| && rest[n] == ',' && CommaGoes(rest[n + 1..]))
  }

  /** No comma that stays comes right before one that goes, as in `[1,,]`. */
  predicate Settled(s: string)
    decreases |s|
  {
    if s == [] then true
    else if s[0] == '"' then LiteralLen(s).Ok? ==> Settled(s[LiteralLen(s).value..])
    else if CommentStart(s) then TriviaLen(s).Ok? ==> (CommentIsSkipped(s); Settled(s[TriviaLen(s).value..]))
    else (s[0] == ',' ==> !BeforeGoing(s[1..])) && Settled(s[1..])
  }

  /** The second pass over `o` is done, leaves all of it exactly when `settled`, and never adds anything. */
  predicate Again(o: string, settled: bool) {
    Strict(o).Ok? && |Strict(o).value| <= |o| && (Strict(o).value == o <==> settled)
  }

  lemma AgainLiteral(lit: string, o: string, settled: bool)
    requires IsLiteral(lit) && Again(o, settled)
    ensures Again(lit + o, settled)
  {
    hide Strict, IsLiteral;
    StrictLiteral(lit, o);
    Front(lit, Strict(o).value, o);
  }

  lemma Front(x: string, a: string, b: string)
    ensures x + a == x + b <==> a == b
  {
    Cut(x, a);
    Cut(x, b);
  }

  lemma AgainChar(c: char, o: string, settled: bool)
    requires (Copied(c) || (c == '/' && NoMark(o))) && Again(o, settled)
    ensures Again([c] + o, settled)
  {
    hide Strict;
    if c == '/' {
      assert o != [] ==> ([c] + o)[1] == o[0];
    }
    StrictChar(c, o);
    Front([c], Strict(o).value, o);
  }

  // ----- What the second pass sees behind a comma -----

  lemma BareSplits(g: string, rest: string)
    requires IsGap(g) && !TriviaStart(rest)
    ensures TriviaLen(Bare(g) + rest) == Ok(|Bare(g)|)
  {
    BareIsGap(g);
    TriviaIsGap(Bare(g), rest);
  }

  /** A token that is not a comma is still the token there. */
  lemma TokenOut(rest: string)
    requires rest != [] && !TriviaStart(rest) && rest[0] != ',' && Strict(rest).Ok?
    ensures var o := Strict(rest).value; o != [] && o[0] == rest[0] && !TriviaStart(o)
  {
    if rest[0] == '/' {
      SlashAlone(rest);
      NoMarkOut(rest[1..]);
      var o := Strict(rest[1..]).value;
      assert Strict(rest).value == "/" + o;
      assert o != [] ==> ("/" + o)[1] == o[0];
    }
  }

  /** Behind the gap, the second pass sees the token that was there, or, when that was a comma that went, a closing bracket. */
  lemma NextOut(s: string)
    requires Strict(s).Ok? && TriviaLen(s).Ok?
    ensures TriviaLen(Strict(s).value).Ok?
    ensures var o, n := Strict(s).value, TriviaLen(s).value;
            CommaGoes(o) <==> n < |s| && (Closes(s[n]) || (s[n] == ',' && CommaGoes(s[n + 1..])))
  {
    hide Strict, TriviaLen, IsGap, TriviaStart;
    var n := TriviaLen(s).value;
    if n == |s| {
      StrictEnd(s);
      GapAlone(s);
    } else {
      var g, rest := StrictSplits(s);
      assert rest[0] == s[n] && rest[1..] == s[n + 1..];
      if rest[0] != ',' {
        TokenOut(rest);
        Shown(g, Strict(rest).value);
      } else {
        CommaIs(rest);
        if CommaGoes(rest[1..]) {
          GoingOut(g, rest);
        } else {
          var o := Strict(rest[1..]).value;
          CommaIsToken(o);
          Shown(g, "," + o);
        }
      }
    }
  }

  lemma GapAlone(s: string)
    requires TriviaLen(s) == Ok(|s|)
    ensures TriviaLen(Bare(s)) == Ok(|Bare(s)|)
  {
    BareIsGap(s);
    TriviaIsGap(Bare(s), "");
    assert Bare(s) + "" == Bare(s);
  }

  lemma CommaIsToken(o: string)
    ensures !TriviaStart("," + o) && ("," + o)[0] == ','
  {
  }

  lemma CommaIs(rest: string)
    requires rest != [] && rest[0] == ',' && Strict(rest).Ok?
    ensures TriviaLen(rest[1..]).Ok? && Strict(rest[1..]).Ok?
    ensures Strict(rest).value == if CommaGoes(rest[1..]) then Strict(rest[1..]).value else "," + Strict(rest[1..]).value
  {
    EmitEmit("", "", Strict(rest[1..]));
  }

  /** Behind a bare gap, the token is seen. */
  lemma Shown(g: string, o: string)
    requires IsGap(g) && o != [] && !TriviaStart(o)
    ensures TriviaLen(Bare(g) + o) == Ok(|Bare(g)|) && (Bare(g) + o)[|Bare(g)|] == o[0]
    ensures CommaGoes(Bare(g) + o) <==> Closes(o[0])
  {
    BareSplits(g, o);
  }

  lemma GoingOut(g: string, rest: string)
    requires IsGap(g) && rest != [] && rest[0] == ',' && Strict(rest).Ok? && CommaGoes(rest[1..])
    ensures TriviaLen(Bare(g) + Strict(rest).value).Ok? && CommaGoes(Bare(g) + Strict(rest).value)
  {
    hide Strict, TriviaLen, IsGap, TriviaStart;
    CommaIs(rest);
    var g2, last := StrictSplits(rest[1..]);
    assert last[0] == rest[1..][|g2|];
    ClosingOut(last);
    var o := Strict(last).value;
    TokenOut(last);
    Assoc(Bare(g), Bare(g2), o);
    BareIsGap(g);
    BareIsGap(g2);
    Shown(g2, o);
    TriviaAfterGap(Bare(g), Bare(g2) + o);
    assert (Bare(g) + (Bare(g2) + o))[|Bare(g)| + |Bare(g2)|] == o[0];
  }

  lemma AgainComma(s: string, settled: bool)
    requires s != [] && s[0] == ',' && Strict(s).Ok?
    requires Strict(s[1..]).Ok? ==> Again(Strict(s[1..]).value, settled)
    ensures Again(Strict(s).value, settled && !BeforeGoing(s[1..]))
  {
    hide Strict, TriviaLen;
    CommaIs(s);
    var rest := s[1..];
    var o := Strict(rest).value;
    NextOut(rest);
    if !CommaGoes(rest) {
      Cut(",", o);
      assert ("," + o)[1..] == o;
      StrictOfComma(o);
      if CommaGoes(o) {
        assert Strict("," + o) == Strict(o);
      } else {
        Front(",", Strict(o).value, o);
      }
    }
  }

  lemma StrictOfComma(o: string)
    requires TriviaLen(o).Ok?
    ensures Strict("," + o) == if CommaGoes(o) then Strict(o) else Emit(",", Strict(o))
  {
    Cut(",", o);
    EmitEmit("", "", Strict(o));
  }

  /** Stripping twice is stripping once exactly when no comma that stays comes right before one that goes. */
  lemma {:induction false} StrictTwice(s: string)
    requires Strict(s).Ok?
    ensures Again(Strict(s).value, Settled(s))
    decreases |s|
  {
    hide LiteralLen, TriviaLen, CommentStart, Again, BeforeGoing, NoMark;
    if s == [] {
      assert Again("", true) by { NothingAgain(); }
    } else if s[0] == '"' {
      var n := LiteralLen(s).value;
      StrictTwice(s[n..]);
      LiteralCut(s);
      AgainLiteral(s[..n], Strict(s[n..]).value, Settled(s[n..]));
    } else if CommentStart(s) {
      CommentIsSkipped(s);
      StrictTwice(s[TriviaLen(s).value..]);
    } else if s[0] == ',' {
      StrictTwice(s[1..]);
      AgainComma(s, Settled(s[1..]));
    } else {
      StrictTwice(s[1..]);
      if s[0] == '/' {
        SlashAlone(s);
        NoMarkOut(s[1..]);
      }
      AgainChar(s[0], Strict(s[1..]).value, Settled(s[1..]));
    }
  }

  lemma NothingAgain()
    ensures Again("", true)
  {
  }
}
