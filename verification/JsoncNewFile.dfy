/** Setting a key in a text that holds nothing but white space: a new object with that one member. */
module JsoncNewFile {
  import opened Options
  import opened Text
  import opened JsoncScanner
  import opened JsoncDoc
  import opened JsonDump
  import opened JsoncEdit
  import opened JsoncSet
  import opened JsoncAppend
  import opened JsoncTheorems
  import opened JsoncContents

  // ----- What follows a dump is not part of it -----

  lemma {:induction false} DumpCut(v: Json, nl: string, w: nat, a: string, b: string)
    ensures DumpThen(v, nl, w, a + b) == DumpThen(v, nl, w, a) + b
    decreases v, 0
  {
    hide Quote;
    match v {
      case Null => Assoc("null", a, b);
      case Bool(t) => Assoc(if t then "true" else "false", a, b);
      case Number(text) => Assoc(text, a, b);
      case Str(text) => Assoc(Quote(text, false), a, b);
      case Arr(items) =>
        Assoc("]", a, b);
        if items == [] {
          Assoc("[", "]" + a, b);
        } else {
          var deeper := nl + Spaces(w);
          Assoc(nl, "]" + a, b);
          ItemsCut(items, deeper, w, nl + ("]" + a), b);
          var inner := ItemsThen(items, deeper, w, nl + ("]" + a));
          Assoc(deeper, inner, b);
          Assoc("[", deeper + inner, b);
        }
      case Obj(fields) =>
        Assoc("}", a, b);
        if fields == [] {
          Assoc("{", "}" + a, b);
        } else {
          var deeper := nl + Spaces(w);
          Assoc(nl, "}" + a, b);
          FieldsCut(fields, deeper, w, nl + ("}" + a), b);
          var inner := FieldsThen(fields, deeper, w, nl + ("}" + a));
          Assoc(deeper, inner, b);
          Assoc("{", deeper + inner, b);
        }
    }
  }

  lemma {:induction false} ItemsCut(items: seq<Json>, nl: string, w: nat, a: string, b: string)
    requires items != []
    ensures ItemsThen(items, nl, w, a + b) == ItemsThen(items, nl, w, a) + b
    decreases items, 1
  {
    hide DumpThen;
    if |items| == 1 {
      DumpCut(items[0], nl, w, a, b);
    } else {
      ItemsCut(items[1..], nl, w, a, b);
      var more := ItemsThen(items[1..], nl, w, a);
      Assoc(nl, more, b);
      Assoc(",", nl + more, b);
      DumpCut(items[0], nl, w, "," + (nl + more), b);
    }
  }

  lemma {:induction false} FieldsCut(fields: seq<Field>, nl: string, w: nat, a: string, b: string)
    requires fields != []
    ensures FieldsThen(fields, nl, w, a + b) == FieldsThen(fields, nl, w, a) + b
    decreases fields, 1
  {
    hide DumpThen, Quote;
    var rest := a;
    if |fields| > 1 {
      FieldsCut(fields[1..], nl, w, a, b);
      var more := FieldsThen(fields[1..], nl, w, a);
      Assoc(nl, more, b);
      Assoc(",", nl + more, b);
      rest := "," + (nl + more);
    }
    var value := DumpThen(fields[0].value, nl, w, rest);
    DumpCut(fields[0].value, nl, w, rest, b);
    Assoc(" ", value, b);
    Assoc(":", " " + value, b);
    Assoc(Quote(fields[0].name, false), ":" + (" " + value), b);
  }

  // ----- The new object -----

  lemma {:induction false} StripIsWhite(t: string)
    requires WhiteText(t)
    ensures WhiteText(Strip(t))
  {
    var r := RTrim(t);
    assert forall i :: 0 <= i < |r| ==> r[i] == t[i];
    LTrimIsWhite(r);
  }

  lemma {:induction false} LTrimIsWhite(t: string)
    requires WhiteText(t)
    ensures WhiteText(LTrim(t))
  {
    if t != [] && Ws(t[0]) {
      assert forall i :: 0 <= i < |t[1..]| ==> t[1..][i] == t[i + 1];
      LTrimIsWhite(t[1..]);
    }
  }

  lemma {:induction false} WhiteGap(t: string)
    requires WhiteText(t)
    ensures IsGap(t)
  {
    if t != [] {
      assert forall i :: 0 <= i < |t[1..]| ==> t[1..][i] == t[i + 1];
      WhiteGap(t[1..]);
    }
  }

  function NewDoc(pre: string, key: string, x: string): Doc {
    Doc(pre, "\n  ", [Entry(key, Quote(key, false), "", " ", x, "\n", None)], "\n")
  }

  lemma NewDocText(pre: string, key: string, v: Json)
    ensures DocText(NewDoc(pre, key, DumpThen(v, "\n  ", 2, ""))) == pre + Dumps(Obj([Field(key, v)]), 2) + "\n"
  {
    hide Quote;
    var x, q, f := DumpThen(v, "\n  ", 2, ""), Quote(key, false), [Field(key, v)];
    var e := NewDoc(pre, key, x).entries[0];
    DumpInside(v, key);
    EntryText(e, x, q);
    assert NewDoc(pre, key, x).entries[1..] == [];
    assert EntriesThen(NewDoc(pre, key, x).entries, "}" + "\n") == EntryThen(e, EntriesThen([], "}" + "\n"));
    assert EntriesThen([], "}" + "\n") == "}" + "\n";
    var body := q + (":" + (" " + (x + "\n}")));
    assert (x + "\n}") + "\n" == x + "\n}\n";
    Assoc(" ", x + "\n}", "\n");
    Assoc(":", " " + (x + "\n}"), "\n");
    Assoc(q, ":" + (" " + (x + "\n}")), "\n");
    Assoc("\n  ", body, "\n");
    Assoc("{", "\n  " + body, "\n");
    Assoc(pre, "{" + ("\n  " + body), "\n");
  }

  lemma DumpInside(v: Json, key: string)
    ensures Dumps(Obj([Field(key, v)]), 2)
            == "{" + ("\n  " + (Quote(key, false) + (":" + (" " + (DumpThen(v, "\n  ", 2, "") + "\n}")))))
  {
    hide Quote;
    assert Spaces(2) == "  ";
    assert "\n" + "  " == "\n  ";
    assert "\n" + ("}" + "") == "" + "\n}";
    assert "" + "\n}" == "\n}";
    DumpCut(v, "\n  ", 2, "", "\n}");
    var f := [Field(key, v)];
    assert FieldsThen(f, "\n  ", 2, "\n}") == Quote(key, false) + (":" + (" " + DumpThen(v, "\n  ", 2, "\n}")));
    assert DumpThen(Obj(f), "\n", 2, "") == "{" + ("\n  " + FieldsThen(f, "\n  ", 2, "\n" + ("}" + "")));
  }

  lemma EntryText(e: Entry, x: string, q: string)
    requires e.literal == q && e.preColon == "" && e.postColon == " " && e.value == x && e.postValue == "\n" && e.comma == None
    ensures EntryThen(e, "}" + "\n") == q + (":" + (" " + (x + "\n}\n")))
  {
    assert "\n" + ("}" + "\n") == "\n}\n";
    assert "" + (":" + (" " + (x + "\n}\n"))) == ":" + (" " + (x + "\n}\n"));
  }

  lemma NewDocWellFormed(pre: string, key: string, x: string, loads: KeyReader)
    requires IsGap(pre) && IsValue(x) && Reads(loads, key)
    ensures WellFormed(NewDoc(pre, key, x), loads)
  {
    hide IsLiteral, IsValue, Quote;
    QuoteIsLiteral(key, false);
    WsGap("");
    WsGap(" ");
    WsGap("\n");
    WsGap("\n  ");
    LastBreak();
  }

  lemma LastBreak()
    ensures AfterTrivia("\n") == Ok([])
  {
    assert "\n"[1..] == "";
  }

  /** A text of white space and byte order marks becomes an object that holds the new key and nothing else. */
  lemma NewFileIsRead(t: string, key: string, v: Json, loads: KeyReader)
    requires WhiteText(t) && Proper(v) && Reads(loads, key)
    ensures SetText(t, key, v, loads).Ok?
    ensures var r := SetText(t, key, v, loads).value;
            && ParseMembers(r, loads).Ok? && Within(r, ParseMembers(r, loads).value)
            && Pairs(r, ParseMembers(r, loads).value) == [(key, DumpThen(v, "\n  ", 2, ""))]
  {
    hide WhiteText, ParseMembers, WellFormed, DocText, SpansOf, Within, Pairs, IsGap, IsValue, Strip, Dumps, Contents;
    var x := DumpThen(v, "\n  ", 2, "");
    StripIsWhite(t);
    WhiteGap(Strip(t));
    assert AllWs("\n  ") by { BreakIsWs(); }
    DumpIsValue(v, "\n  ", 2);
    var d := NewDoc(Strip(t), key, x);
    NewDocWellFormed(Strip(t), key, x, loads);
    NewDocText(Strip(t), key, v);
    ReadContents(d, loads);
    OneEntry(Strip(t), key, x);
  }

  lemma BreakIsWs()
    ensures AllWs("\n  ")
  {
  }

  lemma OneEntry(pre: string, key: string, x: string)
    ensures Contents(NewDoc(pre, key, x).entries) == [(key, x)]
  {
  }
}
