/**
 What `json.dumps(value, indent=n)` writes, and that the scanner reads it back as one value at every
 indentation and with every line ending.

 `XThen(.., r)` is the text of X in front of the text `r`.
 */
module JsonDump {
  import opened Text
  import opened JsoncScanner

  /** A number is kept as its text. */
  datatype Json =
    | Null
    | Bool(b: bool)
    | Number(text: string)
    | Str(text: string)
    | Arr(items: seq<Json>)
    | Obj(fields: seq<Field>)

  datatype Field = Field(name: string, value: Json)

  predicate NumberChar(c: char) {
    '0' <= c <= '9' || 'a' <= c <= 'z' || 'A' <= c <= 'Z' || c == '+' || c == '-' || c == '.'
  }

  predicate IsNumber(s: string) { s != [] && forall i :: 0 <= i < |s| ==> NumberChar(s[i]) }

  ghost predicate Proper(v: Json) {
    match v
    case Number(text) => IsNumber(text)
    case Arr(items) => forall i :: 0 <= i < |items| ==> Proper(items[i])
    case Obj(fields) => forall i :: 0 <= i < |fields| ==> Proper(fields[i].value)
    case _ => true
  }

  // ----- String literals -----

  function HexDigit(n: nat): char requires n < 16 { "0123456789abcdef"[n] }

  function Hex4(n: nat): string
    requires n < 0x10000
  {
    [HexDigit(n / 4096), HexDigit(n / 256 % 16), HexDigit(n / 16 % 16), HexDigit(n % 16)]
  }

  function Unicode(n: nat): string
    requires n < 0x10000
  {
    ['\\', 'u'] + Hex4(n)
  }

  /** One character inside a literal. `ascii` is `ensure_ascii`. */
  function EscapeChar(c: char, ascii: bool): string {
    var n := c as int;
    if c == '"' || c == '\\' then ['\\', c]
    else if c == '\n' then ['\\', 'n']
    else if c == '\r' then ['\\', 'r']
    else if c == '\t' then ['\\', 't']
    else if n == 8 then ['\\', 'b']
    else if n == 12 then ['\\', 'f']
    else if n < 32 || (ascii && 126 < n < 0x10000) then Unicode(n)
    else if ascii && n >= 0x10000 then
      var m := n - 0x10000;
      Unicode(0xD800 + m / 0x400) + Unicode(0xDC00 + m % 0x400)
    else [c]
  }

  function EscapeThen(s: string, ascii: bool, r: string): string {
    if s == [] then r else EscapeChar(s[0], ascii) + EscapeThen(s[1..], ascii, r)
  }

  function Quote(s: string, ascii: bool): string {
    "\"" + EscapeThen(s, ascii, "\"")
  }

  lemma HexIsPlain(n: nat)
    requires n < 0x10000
    ensures var h := Hex4(n); |h| == 4 && forall j :: 0 <= j < 4 ==> h[j] != '\\' && h[j] != '"' && h[j] != '\n'
  {
    assert forall j :: 0 <= j < 16 ==> var d := HexDigit(j); d != '\\' && d != '"' && d != '\n';
  }

  lemma HexInside(n: nat, r: string)
    requires n < 0x10000
    ensures var e := Unicode(n); BodyLen(e + r) == Plus(6, BodyLen(r)) && '\n' !in e && |e| == 6
  {
    HexIsPlain(n);
    var h := Hex4(n);
    Plain(h, r);
    Assoc(['\\', 'u'], h, r);
    assert (['\\', 'u'] + (h + r))[2..] == h + r;
  }

  lemma {:induction false} Plain(e: string, r: string)
    requires forall j :: 0 <= j < |e| ==> e[j] != '\\' && e[j] != '"'
    ensures BodyLen(e + r) == Plus(|e|, BodyLen(r))
  {
    if e == [] {
      assert e + r == r;
    } else {
      assert (e + r)[1..] == e[1..] + r;
      Plain(e[1..], r);
    }
  }

  lemma PairInside(m: nat, n: nat, r: string)
    requires m < 0x10000 && n < 0x10000
    ensures var e := Unicode(m) + Unicode(n);
            BodyLen(e + r) == Plus(12, BodyLen(r)) && '\n' !in e && |e| == 12
  {
    hide Unicode, BodyLen;
    HexInside(n, r);
    HexInside(m, Unicode(n) + r);
    Assoc(Unicode(m), Unicode(n), r);
  }

  lemma ShortInside(c: char, r: string)
    ensures BodyLen(['\\', c] + r) == Plus(2, BodyLen(r))
  {
    assert (['\\', c] + r)[2..] == r;
  }

  /** An escaped character neither ends the literal nor breaks the line. */
  lemma EscapeCharInside(c: char, ascii: bool, r: string)
    ensures var e := EscapeChar(c, ascii); BodyLen(e + r) == Plus(|e|, BodyLen(r)) && '\n' !in e
  {
    hide Unicode, BodyLen;
    var n := c as int;
    if n == 8 || n == 12 || n == 9 || n == 10 || n == 13 || c == '"' || c == '\\' {
      var e := EscapeChar(c, ascii);
      ShortInside(e[1], r);
      assert e == ['\\', e[1]];
    } else if n < 32 || (ascii && 126 < n < 0x10000) {
      HexInside(n, r);
    } else if ascii && n >= 0x10000 {
      var m := n - 0x10000;
      PairInside(0xD800 + m / 0x400, 0xDC00 + m % 0x400, r);
    } else {
      Plain([c], r);
    }
  }

  lemma {:induction false} EscapeInside(s: string, ascii: bool)
    ensures var t := EscapeThen(s, ascii, "\""); BodyLen(t) == Ok(|t|) && '\n' !in t
  {
    hide EscapeChar;
    if s != [] {
      EscapeInside(s[1..], ascii);
      EscapeCharInside(s[0], ascii, EscapeThen(s[1..], ascii, "\""));
    }
  }

  /** A dumped string is one literal, on one line. */
  lemma QuoteIsLiteral(s: string, ascii: bool)
    ensures IsLiteral(Quote(s, ascii)) && '\n' !in Quote(s, ascii)
  {
    EscapeInside(s, ascii);
    Cut("\"", EscapeThen(s, ascii, "\""));
  }

  // ----- Values -----

  function Spaces(n: nat): (s: string)
    ensures AllWs(s) && '\n' !in s
  {
    seq(n, _ => ' ')
  }

  /** `nl` is the line break with the current indentation, `w` what each level adds. */
  function DumpThen(v: Json, nl: string, w: nat, r: string): string
    decreases v
  {
    match v
    case Null => "null" + r
    case Bool(b) => (if b then "true" else "false") + r
    case Number(text) => text + r
    case Str(text) => Quote(text, false) + r
    case Arr(items) =>
      var deeper := nl + Spaces(w);
      if items == [] then "[" + ("]" + r)
      else "[" + (deeper + ItemsThen(items, deeper, w, nl + ("]" + r)))
    case Obj(fields) =>
      var deeper := nl + Spaces(w);
      if fields == [] then "{" + ("}" + r)
      else "{" + (deeper + FieldsThen(fields, deeper, w, nl + ("}" + r)))
  }

  function ItemsThen(items: seq<Json>, nl: string, w: nat, r: string): string
    requires items != []
    decreases items
  {
    DumpThen(items[0], nl, w, if |items| == 1 then r else "," + (nl + ItemsThen(items[1..], nl, w, r)))
  }

  function FieldsThen(fields: seq<Field>, nl: string, w: nat, r: string): string
    requires fields != []
    decreases fields
  {
    var rest := if |fields| == 1 then r else "," + (nl + FieldsThen(fields[1..], nl, w, r));
    Quote(fields[0].name, false) + (":" + (" " + DumpThen(fields[0].value, nl, w, rest)))
  }

  /** `json.dumps(v, indent=w, ensure_ascii=False)` */
  function Dumps(v: Json, w: nat): string { DumpThen(v, "\n", w, "") }

  // ----- The scanner over dumped text -----

  /** From `s` at depth `d` the bracket loop gets to `r` at depth `e`. */
  predicate Runs(s: string, d: int, r: string, e: int) {
    |r| <= |s| && NestLen(s, d) == Plus(|s| - |r|, NestLen(r, e))
  }

  lemma RunGap(g: string, s: string, d: int)
    requires IsGap(g) && s != [] && !TriviaStart(s)
    ensures Runs(g + s, d, s, d)
  {
    hide IsGap, TriviaStart, Turn, NestRound;
    RoundIs(g, s, d);
    assert "" + s == s;
    assert IsGap("") by { WsGap(""); }
    RoundIs("", s, d);
    if Turn(s, d).Ok? {
      CutAt(g, s, |g| + Turn(s, d).value.len);
    }
  }

  lemma RunTurn(s: string, d: int, r: string)
    requires s != [] && !TriviaStart(s) && Turn(s, d).Ok?
    requires var turn := Turn(s, d).value; !turn.done && s[turn.len..] == r
    ensures Runs(s, d, r, Turn(s, d).value.depth)
  {
    hide Turn, TriviaStart, NestRound;
    assert "" + s == s;
    assert IsGap("") by { WsGap(""); }
    RoundIs("", s, d);
  }

  lemma RunLiteral(lit: string, r: string, d: int)
    requires IsLiteral(lit)
    ensures Runs(lit + r, d, r, d)
  {
    LiteralLocal(lit, r);
    Cut(lit, r);
    hide NestLen, LiteralLen;
    RunTurn(lit + r, d, r);
  }

  /** A character that the loop only steps over. */
  predicate Dull(c: char) { !Ws(c) && c != BOM && c != '/' && c != '"' && !Opens(c) && !Closes(c) }

  lemma RunChar(c: char, r: string, d: int)
    requires Dull(c) || Opens(c) || (Closes(c) && d != 1)
    ensures Runs([c] + r, d, r, if Opens(c) then d + 1 else if Closes(c) then d - 1 else d)
  {
    Cut([c], r);
    hide NestLen;
    RunTurn([c] + r, d, r);
  }

  lemma RunLast(c: char, r: string)
    requires Closes(c)
    ensures NestLen([c] + r, 1) == Ok(1)
  {
    var s := [c] + r;
    assert "" + s == s;
    assert IsGap("") by { WsGap(""); }
    RoundIs("", s, 1);
  }

  lemma {:induction false} RunWord(word: string, r: string, d: int)
    requires forall c <- word :: Dull(c)
    ensures Runs(word + r, d, r, d)
  {
    hide NestLen, Dull;
    if word == [] {
      assert word + r == r;
    } else {
      assert word + r == [word[0]] + (word[1..] + r);
      assert Dull(word[0]);
      RunWord(word[1..], r, d);
      RunStep(word[0], word[1..] + r, d);
    }
  }

  lemma RunStep(c: char, r: string, d: int)
    requires Dull(c)
    ensures Runs([c] + r, d, r, d)
  {
    RunChar(c, r, d);
  }

  lemma DumpIsToken(v: Json, nl: string, w: nat, r: string)
    requires Proper(v)
    ensures var s := DumpThen(v, nl, w, r); s != [] && !TriviaStart(s)
  {
    if v.Number? {
      assert NumberChar(v.text[0]);
    }
  }

  lemma TokensAreDark(r: string)
    ensures !TriviaStart("]" + r) && !TriviaStart("}" + r) && !TriviaStart("," + r) && !TriviaStart(":" + r)
  {
  }

  /** At any depth inside brackets, the loop runs over a dumped value and is back at that depth. */
  lemma {:induction false} RunDump(v: Json, nl: string, w: nat, r: string, d: nat)
    requires Proper(v) && AllWs(nl) && d > 0
    ensures Runs(DumpThen(v, nl, w, r), d, r, d)
    decreases v
  {
    hide NestLen, TriviaStart, IsGap;
    match v
    case Null => RunWord("null", r, d);
    case Bool(b) => RunWord(if b then "true" else "false", r, d);
    case Number(text) => RunWord(text, r, d);
    case Str(text) =>
      QuoteIsLiteral(text, false);
      RunLiteral(Quote(text, false), r, d);
    case Arr(items) =>
      RunBody(v, nl, w, r, d);
      RunChar(']', r, d + 1);
    case Obj(fields) =>
      RunBody(v, nl, w, r, d);
      RunChar('}', r, d + 1);
  }

  function Closer(v: Json): string { if v.Arr? then "]" else "}" }

  /** From an opening bracket over what is inside to just before the closing one. */
  lemma RunBrackets(open: char, deeper: string, inside: string, nl: string, end: string, d: nat)
    requires Opens(open) && AllWs(deeper) && AllWs(nl)
    requires inside != [] && !TriviaStart(inside) && end != [] && !TriviaStart(end)
    requires Runs(inside, d + 1, nl + end, d + 1)
    ensures Runs([open] + (deeper + inside), d, end, d + 1)
  {
    hide NestLen, TriviaStart, IsGap;
    WsGap(nl);
    WsGap(deeper);
    RunChar(open, deeper + inside, d);
    RunGap(deeper, inside, d + 1);
    RunGap(nl, end, d + 1);
  }


  lemma {:induction false} RunBody(v: Json, nl: string, w: nat, r: string, d: nat)
    requires (v.Arr? || v.Obj?) && Proper(v) && AllWs(nl)
    ensures Runs(DumpThen(v, nl, w, r), d, Closer(v) + r, d + 1)
    decreases v, 0
  {
    hide NestLen, TriviaStart, IsGap, ItemsThen, FieldsThen, Runs;
    var deeper := nl + Spaces(w);
    var end := Closer(v) + r;
    TokensAreDark(r);
    if v.Arr? {
      if v.items == [] {
        RunChar('[', end, d);
      } else {
        ItemIsToken(v.items, deeper, w, nl + end);
        RunItems(v.items, deeper, w, nl + end, d + 1);
        RunBrackets('[', deeper, ItemsThen(v.items, deeper, w, nl + end), nl, end, d);
      }
    } else if v.fields == [] {
      RunChar('{', end, d);
    } else {
      FieldIsToken(v.fields, deeper, w, nl + end);
      RunFields(v.fields, deeper, w, nl + end, d + 1);
      RunBrackets('{', deeper, FieldsThen(v.fields, deeper, w, nl + end), nl, end, d);
    }
  }

  lemma ItemIsToken(items: seq<Json>, nl: string, w: nat, r: string)
    requires items != [] && Proper(items[0])
    ensures var s := ItemsThen(items, nl, w, r); s != [] && !TriviaStart(s)
  {
    DumpIsToken(items[0], nl, w, if |items| == 1 then r else "," + (nl + ItemsThen(items[1..], nl, w, r)));
  }

  lemma FieldIsToken(fields: seq<Field>, nl: string, w: nat, r: string)
    requires fields != []
    ensures var s := FieldsThen(fields, nl, w, r); s != [] && !TriviaStart(s)
  {
  }

  /** Over the comma and line break to the next item. */
  lemma RunSeparator(nl: string, rest: string, d: nat)
    requires AllWs(nl) && rest != [] && !TriviaStart(rest)
    ensures Runs("," + (nl + rest), d, rest, d)
  {
    hide NestLen, TriviaStart, IsGap;
    WsGap(nl);
    RunChar(',', nl + rest, d);
    RunGap(nl, rest, d);
  }

  lemma {:induction false} RunItems(items: seq<Json>, nl: string, w: nat, r: string, d: nat)
    requires items != [] && (forall i :: 0 <= i < |items| ==> Proper(items[i])) && AllWs(nl) && d > 0
    ensures Runs(ItemsThen(items, nl, w, r), d, r, d)
    decreases items
  {
    hide NestLen, TriviaStart, DumpThen;
    if |items| == 1 {
      RunDump(items[0], nl, w, r, d);
    } else {
      var rest := ItemsThen(items[1..], nl, w, r);
      ItemIsToken(items[1..], nl, w, r);
      RunDump(items[0], nl, w, "," + (nl + rest), d);
      RunSeparator(nl, rest, d);
      RunItems(items[1..], nl, w, r, d);
    }
  }

  lemma RunFieldHead(name: string, value: string, d: int)
    requires value != [] && !TriviaStart(value)
    ensures Runs(Quote(name, false) + (":" + (" " + value)), d, value, d)
  {
    hide NestLen, TriviaStart, Quote, IsGap, IsLiteral;
    QuoteIsLiteral(name, false);
    RunLiteral(Quote(name, false), ":" + (" " + value), d);
    RunChar(':', " " + value, d);
    WsGap(" ");
    RunGap(" ", value, d);
  }

  lemma {:induction false} RunFields(fields: seq<Field>, nl: string, w: nat, r: string, d: nat)
    requires fields != [] && (forall i :: 0 <= i < |fields| ==> Proper(fields[i].value)) && AllWs(nl) && d > 0
    ensures Runs(FieldsThen(fields, nl, w, r), d, r, d)
    decreases fields
  {
    hide NestLen, TriviaStart, IsGap, Quote, DumpThen;
    var rest := if |fields| == 1 then r else "," + (nl + FieldsThen(fields[1..], nl, w, r));
    var value := DumpThen(fields[0].value, nl, w, rest);
    DumpIsToken(fields[0].value, nl, w, rest);
    RunFieldHead(fields[0].name, value, d);
    RunDump(fields[0].value, nl, w, rest, d);
    if |fields| > 1 {
      FieldIsToken(fields[1..], nl, w, r);
      RunSeparator(nl, FieldsThen(fields[1..], nl, w, r), d);
      RunFields(fields[1..], nl, w, r, d);
    }
  }

  lemma WordIsValue(s: string)
    requires s != [] && s[0] != BOM && IsScalar(s) && forall i :: 0 <= i < |s| ==> !Stops(s[i])
    ensures IsValue(s)
  {
    ScalarUnique(s, |s|);
  }

  lemma NestIsValue(s: string)
    requires s != [] && Opens(s[0]) && NestLen(s, 0) == Ok(|s|)
    ensures IsValue(s)
  {
  }

  lemma BracketsOpen(v: Json, nl: string, w: nat)
    requires v.Arr? || v.Obj?
    ensures var s := DumpThen(v, nl, w, ""); s != [] && Opens(s[0])
  {
  }

  lemma BracketsAreValue(v: Json, nl: string, w: nat)
    requires (v.Arr? || v.Obj?) && Proper(v) && AllWs(nl)
    ensures IsValue(DumpThen(v, nl, w, ""))
  {
    hide NestLen, DumpThen, IsValue;
    BracketsOpen(v, nl, w);
    RunBody(v, nl, w, "", 0);
    RunLast(if v.Arr? then ']' else '}', "");
    NestIsValue(DumpThen(v, nl, w, ""));
  }

  /** Every dumped value is one value to the scanner, whatever white space its lines are broken with. */
  lemma DumpIsValue(v: Json, nl: string, w: nat)
    requires Proper(v) && AllWs(nl)
    ensures IsValue(DumpThen(v, nl, w, ""))
  {
    hide IsValue, Quote, IsLiteral;
    match v
    case Null =>
      assert DumpThen(v, nl, w, "") == "null";
      WordIsValue("null");
    case Bool(b) =>
      var word := if b then "true" else "false";
      assert DumpThen(v, nl, w, "") == word;
      WordIsValue(word);
    case Number(text) =>
      assert DumpThen(v, nl, w, "") == text;
      assert NumberChar(text[0]);
      WordIsValue(text);
    case Str(text) =>
      assert DumpThen(v, nl, w, "") == Quote(text, false);
      QuoteIsLiteral(text, false);
      LiteralIsValue(Quote(text, false));
    case _ => BracketsAreValue(v, nl, w);
  }

  lemma LiteralIsValue(lit: string)
    requires IsLiteral(lit)
    ensures IsValue(lit)
  {
  }

  // ----- Changing the line breaks of dumped text -----

  /** Replacing the newlines of a dump is dumping with other line breaks: it has none in its strings. */
  lemma {:induction false} ReplaceInDump(v: Json, nl: string, w: nat, r: string, x: string)
    requires Proper(v)
    ensures ReplaceNewlines(DumpThen(v, nl, w, r), x)
            == DumpThen(v, ReplaceNewlines(nl, x), w, ReplaceNewlines(r, x))
    decreases v
  {
    var deeper := nl + Spaces(w);
    ReplaceConcat(nl, Spaces(w), x);
    ReplaceNothing(Spaces(w), x);
    match v
    case Null => ReplacePlain("null", r, x);
    case Bool(b) => ReplacePlain(if b then "true" else "false", r, x);
    case Number(text) => ReplacePlain(text, r, x);
    case Str(text) =>
      QuoteIsLiteral(text, false);
      ReplacePlain(Quote(text, false), r, x);
    case Arr(items) =>
      ReplacePlain("]", r, x);
      if items == [] {
        ReplacePlain("[", "]" + r, x);
      } else {
        var end := nl + ("]" + r);
        ReplaceConcat(nl, "]" + r, x);
        ReplacePlain("[", deeper + ItemsThen(items, deeper, w, end), x);
        ReplaceConcat(deeper, ItemsThen(items, deeper, w, end), x);
        ReplaceInItems(items, deeper, w, end, x);
      }
    case Obj(fields) =>
      ReplacePlain("}", r, x);
      if fields == [] {
        ReplacePlain("{", "}" + r, x);
      } else {
        var end := nl + ("}" + r);
        ReplaceConcat(nl, "}" + r, x);
        ReplacePlain("{", deeper + FieldsThen(fields, deeper, w, end), x);
        ReplaceConcat(deeper, FieldsThen(fields, deeper, w, end), x);
        ReplaceInFields(fields, deeper, w, end, x);
      }
  }

  lemma ReplacePlain(s: string, r: string, x: string)
    requires '\n' !in s
    ensures ReplaceNewlines(s + r, x) == s + ReplaceNewlines(r, x)
  {
    ReplaceConcat(s, r, x);
    ReplaceNothing(s, x);
  }

  lemma {:induction false} ReplaceInItems(items: seq<Json>, nl: string, w: nat, r: string, x: string)
    requires items != [] && forall i :: 0 <= i < |items| ==> Proper(items[i])
    ensures ReplaceNewlines(ItemsThen(items, nl, w, r), x)
            == ItemsThen(items, ReplaceNewlines(nl, x), w, ReplaceNewlines(r, x))
    decreases items
  {
    if |items| == 1 {
      ReplaceInDump(items[0], nl, w, r, x);
    } else {
      var rest := ItemsThen(items[1..], nl, w, r);
      ReplaceInDump(items[0], nl, w, "," + (nl + rest), x);
      ReplacePlain(",", nl + rest, x);
      ReplaceConcat(nl, rest, x);
      ReplaceInItems(items[1..], nl, w, r, x);
    }
  }

  lemma {:induction false} ReplaceInFields(fields: seq<Field>, nl: string, w: nat, r: string, x: string)
    requires fields != [] && forall i :: 0 <= i < |fields| ==> Proper(fields[i].value)
    ensures ReplaceNewlines(FieldsThen(fields, nl, w, r), x)
            == FieldsThen(fields, ReplaceNewlines(nl, x), w, ReplaceNewlines(r, x))
    decreases fields
  {
    var rest := if |fields| == 1 then r else "," + (nl + FieldsThen(fields[1..], nl, w, r));
    var value := DumpThen(fields[0].value, nl, w, rest);
    QuoteIsLiteral(fields[0].name, false);
    ReplacePlain(Quote(fields[0].name, false), ":" + (" " + value), x);
    ReplacePlain(":", " " + value, x);
    ReplacePlain(" ", value, x);
    ReplaceInDump(fields[0].value, nl, w, rest, x);
    if |fields| > 1 {
      var more := FieldsThen(fields[1..], nl, w, r);
      ReplacePlain(",", nl + more, x);
      ReplaceConcat(nl, more, x);
      ReplaceInFields(fields[1..], nl, w, r, x);
    }
  }

  // ----- `_dump_value` -----

  /** Columns that `pad` takes with tabs four wide, but at least two. */
  function Width(pad: string): nat {
    var n := Columns(pad);
    if n < 2 then 2 else n
  }

  function Columns(pad: string): nat {
    if pad == [] then 0 else (if pad[0] == '\t' then 4 else 1) + Columns(pad[1..])
  }

  function DumpValue(v: Json, pad: string): string {
    ReplaceNewlines(Dumps(v, Width(pad)), "\n" + pad)
  }

  /** What the editor inserts, with the line ending of the file, is one value. */
  lemma DumpValueIsValue(v: Json, pad: string, newline: string)
    requires Proper(v) && AllWs(pad) && '\n' !in pad && AllWs(newline)
    ensures IsValue(ReplaceNewlines(DumpValue(v, pad), newline))
    ensures IsValue(DumpValue(v, pad))
  {
    var w := Width(pad);
    ReplaceInDump(v, "\n", w, "", "\n" + pad);
    assert ReplaceNewlines("\n", "\n" + pad) == "\n" + pad;
    assert DumpValue(v, pad) == DumpThen(v, "\n" + pad, w, "");
    DumpIsValue(v, "\n" + pad, w);
    ReplaceInDump(v, "\n" + pad, w, "", newline);
    ReplaceConcat("\n", pad, newline);
    ReplaceNothing(pad, newline);
    assert ReplaceNewlines("\n" + pad, newline) == newline + pad;
    DumpIsValue(v, newline + pad, w);
  }
}
