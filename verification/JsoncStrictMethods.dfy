/** Stripping and reading a text as the index loops they are. */
module JsoncStrictMethods {
  import opened Options
  import opened Text
  import opened JsoncScanner
  import opened JsonDump
  import opened JsoncMethods
  import opened JsoncStrict
  import opened JsoncLoads
  import HookRules

  function CommaText(rest: string, skipped: nat): string { if CommaStays(rest, skipped) then "," else "" }

  lemma StrictCases(s: string)
    requires s != []
    ensures s[0] == '"' && LiteralLen(s).Err? ==> Strict(s) == Err(LiteralLen(s).error)
    ensures s[0] == '"' && LiteralLen(s).Ok? ==> Strict(s) == Emit(s[..LiteralLen(s).value], Strict(s[LiteralLen(s).value..]))
    ensures CommentStart(s) && TriviaLen(s).Err? ==> Strict(s) == Err(TriviaLen(s).error)
    ensures CommentStart(s) && TriviaLen(s).Ok? ==> TriviaLen(s).value > 0 && Strict(s) == Strict(s[TriviaLen(s).value..])
    ensures s[0] == ',' && TriviaLen(s[1..]).Err? ==> Strict(s) == Err(TriviaLen(s[1..]).error)
    ensures s[0] == ',' && TriviaLen(s[1..]).Ok? ==>
              Strict(s) == Emit(CommaText(s[1..], TriviaLen(s[1..]).value), Strict(s[1..]))
    ensures s[0] != '"' && !CommentStart(s) && s[0] != ',' ==> Strict(s) == Emit([s[0]], Strict(s[1..]))
  {
    if CommentStart(s) {
      CommentIsSkipped(s);
    }
  }

  lemma CommentAt(text: string, i: nat)
    requires i < |text|
    ensures CommentStart(text[i..])
            <==> text[i] == '/' && i + 1 < |text| && (text[i + 1] == '/' || text[i + 1] == '*')
  {
  }

  lemma StringStep(text: string, i: nat, n: nat)
    requires i < |text| && text[i] == '"' && LiteralLen(text[i..]) == Ok(n)
    ensures i + n <= |text| && n > 0 && Strict(text[i..]) == Emit(text[i..i + n], Strict(text[i + n..]))
  {
    hide Strict, LiteralLen;
    StrictCases(text[i..]);
    Drops(text, i, n);
    assert text[i..][..n] == text[i..i + n];
  }

  lemma CommentStep(text: string, i: nat, n: nat)
    requires i < |text| && CommentStart(text[i..]) && TriviaLen(text[i..]) == Ok(n)
    ensures i + n <= |text| && n > 0 && Strict(text[i..]) == Strict(text[i + n..])
  {
    hide Strict, TriviaLen, CommentStart;
    StrictCases(text[i..]);
    Drops(text, i, n);
  }

  lemma CommaStep(text: string, i: nat, n: nat)
    requires i < |text| && text[i] == ',' && TriviaLen(text[i + 1..]) == Ok(n)
    ensures i + 1 + n <= |text|
    ensures Strict(text[i..])
            == Emit(if i + 1 + n >= |text| || !Closes(text[i + 1 + n]) then "," else "", Strict(text[i + 1..]))
  {
    hide Strict, TriviaLen, CommentStart;
    StrictCases(text[i..]);
    Drops(text, i, 1);
  }

  lemma CharStep(text: string, i: nat)
    requires i < |text| && text[i] != '"' && text[i] != ',' && !CommentStart(text[i..])
    ensures Strict(text[i..]) == Emit([text[i]], Strict(text[i + 1..]))
  {
    hide Strict, CommentStart;
    StrictCases(text[i..]);
    Drops(text, i, 1);
  }

  lemma StopsHere(text: string, i: nat)
    requires i < |text|
    ensures text[i] == '"' && LiteralLen(text[i..]).Err? ==> Strict(text[i..]) == Err(LiteralLen(text[i..]).error)
    ensures CommentStart(text[i..]) && TriviaLen(text[i..]).Err? ==> Strict(text[i..]) == Err(TriviaLen(text[i..]).error)
    ensures text[i] == ',' && TriviaLen(text[i + 1..]).Err? ==> Strict(text[i..]) == Err(TriviaLen(text[i + 1..]).error)
  {
    hide Strict, TriviaLen, LiteralLen, CommentStart;
    StrictCases(text[i..]);
    Drops(text, i, 1);
  }

  /** `_strip_jsonc` */
  method StripJsonc(text: string) returns (r: Result<string>)
    ensures r == Strict(text)
  {
    hide Strict, LiteralLen, TriviaLen, CommentStart;
    var out, i := "", 0;
    assert text[0..] == text;
    EmitEmit("", "", Strict(text));
    while i < |text|
      invariant 0 <= i <= |text| && Strict(text) == Emit(out, Strict(text[i..]))
    {
      StopsHere(text, i);
      CommentAt(text, i);
      var c := text[i];
      if c == '"' {
        var end := StringEnd(text, i);
        if end.Err? {
          return Err(end.error);
        }
        StringStep(text, i, end.value - i);
        EmitEmit(out, text[i..end.value], Strict(text[end.value..]));
        out, i := out + text[i..end.value], end.value;
      } else if c == '/' && i + 1 < |text| && (text[i + 1] == '/' || text[i + 1] == '*') {
        var next := SkipTrivia(text, i);
        if next.Err? {
          return Err(next.error);
        }
        CommentStep(text, i, next.value - i);
        i := next.value;
      } else if c == ',' {
        var next := SkipTrivia(text, i + 1);
        if next.Err? {
          return Err(next.error);
        }
        CommaStep(text, i, next.value - i - 1);
        var kept := if next.value >= |text| || !Closes(text[next.value]) then "," else "";
        EmitEmit(out, kept, Strict(text[i + 1..]));
        out, i := out + kept, i + 1;
      } else {
        CharStep(text, i);
        EmitEmit(out, [c], Strict(text[i + 1..]));
        out, i := out + [c], i + 1;
      }
    }
    NothingStripped(text, out);
    r := Ok(out);
  }

  lemma NothingStripped(text: string, out: string)
    ensures text[|text|..] == [] && Strict([]) == Ok([]) && Emit(out, Ok([])) == Ok(out)
  {
    assert out + [] == out;
  }

  /** `text.lstrip("\ufeff")` */
  method WithoutMarks(t: string) returns (r: string)
    ensures r == StripMarks(t)
  {
    var i := 0;
    assert t[0..] == t;
    while i < |t| && t[i] == BOM
      invariant 0 <= i <= |t| && StripMarks(t[i..]) == StripMarks(t)
    {
      i := i + 1;
    }
    r := t[i..];
  }

  /** `jsonc_loads` */
  method Load(t: string, parse: Parser) returns (data: Option<HookRules.Dict>)
    ensures data == LoadData(t, parse)
  {
    hide Strict, StripMarks, Blank;
    var text := WithoutMarks(t);
    if Blank(text) {
      return Some([]);
    }
    var v := parse(text);
    if v.None? {
      var o := StripJsonc(text);
      if o.Err? {
        return None;
      }
      v := parse(o.value);
    }
    data := if v.Some? && v.value.Obj? then Some(v.value.fields) else None;
  }
}
