/** What `json.dumps` writes is strict already: stripping leaves it as it is. */
module JsoncStrictDump {
  import opened Text
  import opened JsoncScanner
  import opened JsonDump
  import opened JsoncStrict
  import opened JsoncStrictFacts

  /** What `s` has in front of `r` is left as it is. */
  predicate Stays(s: string, r: string) {
    |r| <= |s| && s[|s| - |r|..] == r && Strict(s) == Emit(s[..|s| - |r|], Strict(r))
  }

  lemma StaysTrans(s: string, m: string, r: string)
    requires Stays(s, m) && Stays(m, r)
    ensures Stays(s, r)
  {
    hide Strict;
    var a, b := s[..|s| - |m|], m[..|m| - |r|];
    assert s == a + m && m == b + r;
    Assoc(a, b, r);
    assert s == (a + b) + r;
    CutFront(a + b, r, |a + b|);
    EmitEmit(a, b, Strict(r));
  }

  lemma StaysPiece(x: string, r: string)
    requires Strict(x + r) == Emit(x, Strict(r))
    ensures Stays(x + r, r)
  {
    hide Strict;
    Cut(x, r);
  }

  lemma StaysChar(c: char, r: string)
    requires Copied(c)
    ensures Stays([c] + r, r)
  {
    hide Strict;
    StrictChar(c, r);
    StaysPiece([c], r);
  }

  lemma {:induction false} WsIsBare(w: string)
    requires AllWs(w)
    ensures Bare(w) == w
  {
    if w != [] {
      assert w[0] in w;
      assert forall c <- w[1..] :: c in w;
      WsIsBare(w[1..]);
    }
  }

  lemma StaysWs(w: string, r: string)
    requires AllWs(w) && !TriviaStart(r)
    ensures Stays(w + r, r)
  {
    hide Strict, TriviaStart;
    WsGap(w);
    WsIsBare(w);
    StrictGap(w, r);
    StaysPiece(w, r);
  }

  lemma {:induction false} StaysWord(word: string, r: string)
    requires forall c <- word :: Copied(c)
    ensures Stays(word + r, r)
  {
    hide Stays;
    if word == [] {
      assert word + r == r;
      StaysHere(r);
    } else {
      assert word[0] in word;
      assert forall c <- word[1..] :: c in word;
      assert word + r == [word[0]] + (word[1..] + r);
      StaysChar(word[0], word[1..] + r);
      StaysWord(word[1..], r);
      StaysTrans(word + r, word[1..] + r, r);
    }
  }

  lemma StaysHere(r: string)
    ensures Stays(r, r)
  {
    EmitEmit("", "", Strict(r));
    assert r[0..] == r && r[..0] == "";
  }

  lemma StaysLiteral(lit: string, r: string)
    requires IsLiteral(lit)
    ensures Stays(lit + r, r)
  {
    hide Strict, IsLiteral;
    StrictLiteral(lit, r);
    StaysPiece(lit, r);
  }

  // ----- Dumped values -----

  /** A dumped value does not start like the end of one. */
  predicate Starts(s: string) { s != [] && !TriviaStart(s) && !Closes(s[0]) }

  lemma DumpStarts(v: Json, nl: string, w: nat, r: string)
    requires Proper(v)
    ensures Starts(DumpThen(v, nl, w, r))
  {
    DumpIsToken(v, nl, w, r);
    if v.Number? {
      assert NumberChar(v.text[0]);
    }
  }

  lemma ItemStarts(items: seq<Json>, nl: string, w: nat, r: string)
    requires items != [] && Proper(items[0])
    ensures Starts(ItemsThen(items, nl, w, r))
  {
    hide DumpThen, Starts;
    DumpStarts(items[0], nl, w, if |items| == 1 then r else "," + (nl + ItemsThen(items[1..], nl, w, r)));
  }

  lemma FieldStarts(fields: seq<Field>, nl: string, w: nat, r: string)
    requires fields != []
    ensures Starts(FieldsThen(fields, nl, w, r))
  {
    assert Quote(fields[0].name, false)[0] == '"';
  }

  lemma StaysSeparator(nl: string, rest: string)
    requires AllWs(nl) && Starts(rest)
    ensures Stays("," + (nl + rest), rest)
  {
    hide Strict, TriviaStart;
    WsGap(nl);
    WsIsBare(nl);
    StrictComma(nl, rest);
    EmitEmit(",", nl, Strict(rest));
    Assoc(",", nl, rest);
    StaysPiece("," + nl, rest);
  }

  lemma NumberIsCopied(s: string)
    requires IsNumber(s)
    ensures forall c <- s :: Copied(c)
  {
  }

  lemma {:induction false} StaysDump(v: Json, nl: string, w: nat, r: string)
    requires Proper(v) && AllWs(nl)
    ensures Stays(DumpThen(v, nl, w, r), r)
    decreases v
  {
    hide Stays, Strict, Quote, IsLiteral;
    match v
    case Null => StaysWord("null", r);
    case Bool(b) => StaysWord(if b then "true" else "false", r);
    case Number(text) =>
      NumberIsCopied(text);
      StaysWord(text, r);
    case Str(text) =>
      QuoteIsLiteral(text, false);
      StaysLiteral(Quote(text, false), r);
    case Arr(items) =>
      var deeper, end := nl + Spaces(w), "]" + r;
      StaysChar(']', r);
      if items == [] {
        StaysChar('[', end);
        StaysTrans("[" + end, end, r);
      } else {
        var inside := ItemsThen(items, deeper, w, nl + end);
        ItemStarts(items, deeper, w, nl + end);
        StaysItems(items, deeper, w, nl + end);
        StaysBrackets('[', deeper, inside, nl, end, r);
      }
    case Obj(fields) =>
      var deeper, end := nl + Spaces(w), "}" + r;
      StaysChar('}', r);
      if fields == [] {
        StaysChar('{', end);
        StaysTrans("{" + end, end, r);
      } else {
        var inside := FieldsThen(fields, deeper, w, nl + end);
        FieldStarts(fields, deeper, w, nl + end);
        StaysFields(fields, deeper, w, nl + end);
        StaysBrackets('{', deeper, inside, nl, end, r);
      }
  }

  lemma StaysBrackets(open: char, deeper: string, inside: string, nl: string, end: string, r: string)
    requires Copied(open) && AllWs(deeper) && AllWs(nl) && Starts(inside) && Stays(inside, nl + end)
    requires end != [] && Closes(end[0]) && Stays(end, r)
    ensures Stays([open] + (deeper + inside), r)
  {
    hide Stays, Strict, IsGap;
    StaysChar(open, deeper + inside);
    StaysWs(deeper, inside);
    StaysWs(nl, end);
    StaysTrans([open] + (deeper + inside), deeper + inside, inside);
    StaysTrans([open] + (deeper + inside), inside, nl + end);
    StaysTrans([open] + (deeper + inside), nl + end, end);
    StaysTrans([open] + (deeper + inside), end, r);
  }

  lemma {:induction false} StaysItems(items: seq<Json>, nl: string, w: nat, r: string)
    requires items != [] && (forall i :: 0 <= i < |items| ==> Proper(items[i])) && AllWs(nl)
    ensures Stays(ItemsThen(items, nl, w, r), r)
    decreases items
  {
    hide Stays, DumpThen, Starts;
    if |items| == 1 {
      StaysDump(items[0], nl, w, r);
    } else {
      var rest := ItemsThen(items[1..], nl, w, r);
      ItemStarts(items[1..], nl, w, r);
      StaysDump(items[0], nl, w, "," + (nl + rest));
      StaysSeparator(nl, rest);
      StaysItems(items[1..], nl, w, r);
      StaysTrans(ItemsThen(items, nl, w, r), "," + (nl + rest), rest);
      StaysTrans(ItemsThen(items, nl, w, r), rest, r);
    }
  }

  lemma StaysFieldHead(name: string, value: string)
    requires Starts(value)
    ensures Stays(Quote(name, false) + (":" + (" " + value)), value)
  {
    hide Stays, Quote, IsLiteral;
    var s := Quote(name, false) + (":" + (" " + value));
    QuoteIsLiteral(name, false);
    StaysLiteral(Quote(name, false), ":" + (" " + value));
    StaysChar(':', " " + value);
    StaysWs(" ", value);
    StaysTrans(s, ":" + (" " + value), " " + value);
    StaysTrans(s, " " + value, value);
  }

  lemma {:induction false} StaysFields(fields: seq<Field>, nl: string, w: nat, r: string)
    requires fields != [] && (forall i :: 0 <= i < |fields| ==> Proper(fields[i].value)) && AllWs(nl)
    ensures Stays(FieldsThen(fields, nl, w, r), r)
    decreases fields
  {
    hide Stays, DumpThen, Starts, Quote;
    var s := FieldsThen(fields, nl, w, r);
    var rest := if |fields| == 1 then r else "," + (nl + FieldsThen(fields[1..], nl, w, r));
    var value := DumpThen(fields[0].value, nl, w, rest);
    DumpStarts(fields[0].value, nl, w, rest);
    StaysFieldHead(fields[0].name, value);
    StaysDump(fields[0].value, nl, w, rest);
    StaysTrans(s, value, rest);
    if |fields| > 1 {
      var more := FieldsThen(fields[1..], nl, w, r);
      FieldStarts(fields[1..], nl, w, r);
      StaysSeparator(nl, more);
      StaysFields(fields[1..], nl, w, r);
      StaysTrans(s, rest, more);
      StaysTrans(s, more, r);
    }
  }

  /** Stripping does not change a dumped value, whatever white space its lines are broken with. */
  lemma DumpIsStrict(v: Json, nl: string, w: nat)
    requires Proper(v) && AllWs(nl)
    ensures Strict(DumpThen(v, nl, w, "")) == Ok(DumpThen(v, nl, w, ""))
  {
    hide Strict, DumpThen;
    var s := DumpThen(v, nl, w, "");
    StaysDump(v, nl, w, "");
    StrictOfNothing();
    assert s[..|s|] == s && s + "" == s;
  }

  /** The same for the value as the editor indents it, with the line ending of the file. */
  lemma DumpValueIsStrict(v: Json, pad: string, newline: string)
    requires Proper(v) && AllWs(pad) && '\n' !in pad && AllWs(newline)
    ensures var x := ReplaceNewlines(DumpValue(v, pad), newline); Strict(x) == Ok(x)
    ensures Strict(DumpValue(v, pad)) == Ok(DumpValue(v, pad))
  {
    hide Strict, DumpThen;
    var w := Width(pad);
    ReplaceInDump(v, "\n", w, "", "\n" + pad);
    assert ReplaceNewlines("\n", "\n" + pad) == "\n" + pad;
    assert DumpValue(v, pad) == DumpThen(v, "\n" + pad, w, "");
    DumpIsStrict(v, "\n" + pad, w);
    ReplaceInDump(v, "\n" + pad, w, "", newline);
    ReplaceConcat("\n", pad, newline);
    ReplaceNothing(pad, newline);
    assert ReplaceNewlines("\n" + pad, newline) == newline + pad;
    DumpIsStrict(v, newline + pad, w);
  }
}
