/** Inputs at which the editor does not do what it promises elsewhere. */
module JsoncLimits {
  import opened Options
  import opened Text
  import opened JsoncScanner
  import opened JsoncDoc
  import opened JsoncGaps
  import opened JsoncSplice
  import opened JsonDump
  import opened JsoncEdit
  import opened JsoncSet
  import opened JsoncAppend
  import opened JsoncDelete
  import opened JsoncDeleteSafe
  import opened JsoncTheorems
  import opened JsoncDeleteExact

  /** `json.loads` reads these two keys. */
  predicate ReadsAB(loads: KeyReader) { loads("\"a\"") == Some("a") && loads("\"b\"") == Some("b") }

  lemma KeyLiterals()
    ensures IsLiteral("\"a\"") && IsLiteral("\"b\"")
  {
    LetterLiteral('a');
    LetterLiteral('b');
  }

  lemma LetterLiteral(c: char)
    requires c != '"' && c != '\\'
    ensures IsLiteral("\"" + [c] + "\"")
  {
    var s := "\"" + [c] + "\"";
    assert s[1..] == [c] + "\"";
    assert ([c] + "\"")[1..] == "\"";
    assert BodyLen("\"") == Ok(1);
    assert BodyLen([c] + "\"") == Plus(1, BodyLen("\""));
  }

  lemma DigitValue(c: char)
    requires '0' <= c <= '9'
    ensures IsValue([c]) && IsScalar([c])
  {
    ScalarUnique([c], 1);
  }

  // ----- A line comment in front of the last member -----

  const SWALLOWING := Doc("", "", [
    Entry("a", "\"a\"", "", "", "1", "", Some(" // x\n")),
    Entry("b", "\"b\"", "", "", "2", "", None)], "")

  lemma CommentGap()
    ensures IsGap(" // x\n") && !IsGap(" // x") && RTrim(" // x\n") == " // x"
  {
    var g := "// x\n";
    FindUnique(g, '\n', 4);
    assert " // x\n"[1..] == g && g[5..] == "";
    assert ItemLen(g) == 5;
    assert IsGap("");
    assert IsGap(g[5..]);
    assert IsGap(g);
    var o := "// x";
    FindUnique(o, '\n', 4);
    assert " // x"[1..] == o;
    assert ItemLen(o) == 0;
    TrimBackUnique(" // x\n", 0, 6, 5);
  }

  lemma LetterEntry(e: Entry, c: char, loads: KeyReader)
    requires IsLiteral(e.literal) && loads(e.literal) == Some(e.key) && e.preColon == "" && e.postColon == "" && e.postValue == ""
    requires '0' <= c <= '9' && e.value == [c] && (e.comma.Some? ==> IsGap(e.comma.value))
    ensures WellFormedEntry(e, loads)
  {
    hide IsLiteral, IsValue;
    DigitValue(c);
    NoText();
  }

  lemma SwallowingIsWellFormed(loads: KeyReader)
    requires ReadsAB(loads)
    ensures WellFormed(SWALLOWING, loads)
  {
    hide IsLiteral, IsValue, WellFormedEntry, IsGap, AfterTrivia;
    KeyLiterals();
    CommentGap();
    LetterEntry(SWALLOWING.entries[0], '1', loads);
    LetterEntry(SWALLOWING.entries[1], '2', loads);
    NoText();
  }

  lemma NoText()
    ensures AfterTrivia("") == Ok("") && IsGap("")
  {
  }

  lemma UnsafeIsNotRead(d: Doc, i: nat, key: string, loads: KeyReader)
    requires WellFormed(d, loads) && i < |d.entries| && |SpansOf(d).members| == |d.entries|
    requires IndexOfKey(SpansOf(d).members, key) == i && Commas(d) && !Safe(d, i)
    ensures var t, p := DocText(d), SpansOf(d);
            && ParseMembers(t, loads) == Ok(p) && DeleteText(t, key, loads).Ok?
            && (var r := DeleteText(t, key, loads).value; ParseMembers(r, loads) != Ok(Removed(p, i, |t| - |r|)))
  {
    hide WellFormed, ParseMembers, DeleteText, DocText, SpansOf, DeletionIsSafe, Within, Removed, Safe;
    WrittenIsRead(d, loads);
    ParsedWithin(DocText(d), loads);
    DeleteRemoves(DocText(d), key, loads);
    SafeIsSafe(d, i, loads);
  }

  /** `{"a":1, // x⏎"b":2}` without "b": the comment's newline is trimmed away, and the closing brace is lost in it. */
  lemma CommentSwallows(loads: KeyReader) returns (t: string)
    requires ReadsAB(loads)
    ensures t == "{\"a\":1, // x\n\"b\":2}"
    ensures ParseMembers(t, loads).Ok? && DeleteText(t, "b", loads).Ok?
    ensures var p := ParseMembers(t, loads).value;
            && |p.members| == 2 && p.members[1].key == "b"
            && (var r := DeleteText(t, "b", loads).value; ParseMembers(r, loads) != Ok(Removed(p, 1, |t| - |r|)))
  {
    hide WellFormed, ParseMembers, DeleteText, DocText, SpansOf, Removed, Safe, IndexOfKey;
    t := DocText(SWALLOWING);
    SwallowingText();
    SwallowingIsWellFormed(loads);
    SwallowingKeys();
    SwallowingIsUnsafe();
    UnsafeIsNotRead(SWALLOWING, 1, "b", loads);
  }

  lemma FirstText(r: string)
    ensures EntryThen(SWALLOWING.entries[0], r) == "\"a\":1, // x\n" + r
  {
  }

  lemma SecondText(r: string)
    ensures EntryThen(SWALLOWING.entries[1], r) == "\"b\":2" + r
  {
  }

  lemma SwallowingText()
    ensures DocText(SWALLOWING) == "{\"a\":1, // x\n\"b\":2}"
  {
    hide EntryThen;
    var a, b := SWALLOWING.entries[0], SWALLOWING.entries[1];
    assert "}" + "" == "}";
    FirstText("\"b\":2}");
    SecondText("}");
    assert "\"b\":2" + "}" == "\"b\":2}";
    assert SWALLOWING.entries[1..] == [b] && [b][1..] == [];
    assert EntriesThen([b], "}") == EntryThen(b, EntriesThen([], "}"));
    assert EntriesThen(SWALLOWING.entries, "}") == EntryThen(a, EntriesThen([b], "}"));
    var body := "\"a\":1, // x\n" + "\"b\":2}";
    assert EntriesThen(SWALLOWING.entries, "}") == body;
    assert "" + ("{" + ("" + body)) == "{" + body;
    assert "{" + body == "{\"a\":1, // x\n\"b\":2}";
  }

  lemma SwallowingKeys()
    ensures var ms := SpansOf(SWALLOWING).members;
            |ms| == 2 && ms[0].key == "a" && ms[1].key == "b" && IndexOfKey(ms, "b") == 1
    ensures |SWALLOWING.entries| == 2 && Commas(SWALLOWING)
  {
    hide EntryLen, HeadLen, EntriesLen;
    var es := SWALLOWING.entries;
    assert es[1..] == [es[1]] && es[1..][1..] == [];
    var ms := SpansOf(SWALLOWING).members;
    assert IndexOfKey(ms[1..], "b") == 0;
  }

  lemma SwallowingIsUnsafe()
    ensures Commas(SWALLOWING) && !Safe(SWALLOWING, 1)
  {
    hide IsGap, RTrim;
    CommentGap();
    assert Find("", '\n') == 0;
  }

  // ----- A byte order mark behind a value -----

  const MARKED := Doc("", "", [Entry("a", "\"a\"", "", "", "[]", [BOM], None)], "")

  lemma EmptyList()
    ensures IsValue("[]") && !IsScalar("[]") && IsGap([BOM])
  {
    hide IsValue;
    DumpIsValue(Arr([]), "", 2);
    assert "[" + ("]" + "") == "[]";
    assert [BOM][1..] == "";
    NoText();
  }

  lemma MarkedIsWellFormed(loads: KeyReader)
    requires ReadsAB(loads)
    ensures WellFormed(MARKED, loads)
  {
    hide IsLiteral, IsValue;
    KeyLiterals();
    EmptyList();
    NoText();
  }

  /** A list followed by a byte order mark, replaced by a number: the number runs on into the mark. */
  lemma MarkIsSwallowed(loads: KeyReader) returns (t: string)
    requires ReadsAB(loads)
    ensures ParseMembers(t, loads).Ok? && SetText(t, "a", Number("7"), loads).Ok?
    ensures var p, r := ParseMembers(t, loads).value, SetText(t, "a", Number("7"), loads).value;
            && |p.members| == 1 && p.members[0].key == "a"
            && |r| == |t| - 1
            && ParseMembers(r, loads) != Ok(Replaced(p, 0, "7", -1))
  {
    hide WellFormed, ParseMembers, DocText, Within, Replaced, SetAccepted, WhiteText;
    t := DocText(MARKED);
    MarkedIsWellFormed(loads);
    WrittenIsRead(MARKED, loads);
    ParsedWithin(t, loads);
    MarkedSpans();
    assert IndexOfKey(SpansOf(MARKED).members, "a") == 0;
    NumberDump(PadFor(t, SpansOf(MARKED), "a"), NewlineOf(t));
    SetReplaces(t, "a", Number("7"), loads);
    DigitValue('7');
  }

  lemma MarkedSpans()
    ensures SpansOf(MARKED) == Parsed(0, 8, [Member("a", 1, 5, 7)]) && DocText(MARKED) == "{\"a\":[]" + [BOM] + "}"
  {
    var e := MARKED.entries[0];
    assert MARKED.entries[1..] == [];
    assert EntryThen(e, "}") == "\"a\":[]" + [BOM] + "}";
    assert EntriesThen(MARKED.entries, "}" + "") == EntryThen(e, "}");
    assert "}" + "" == "}";
  }

  lemma NumberDump(pad: string, newline: string)
    ensures ReplaceNewlines(DumpValue(Number("7"), pad), newline) == "7"
  {
    ReplaceNothing("7", "\n" + pad);
    ReplaceNothing("7", newline);
    assert "7" + "" == "7";
  }

  // ----- White space between the braces -----

  const HOLLOW := Doc("", " ", [], "")

  /** Setting and deleting a key in `{ }` leaves `{}`. */
  lemma HollowShrinks(v: Json, loads: KeyReader)
    requires ReadsAB(loads) && Proper(v) && Reads(loads, "a")
    ensures SetText("{ }", "a", v, loads).Ok?
    ensures DeleteText(SetText("{ }", "a", v, loads).value, "a", loads) == Ok("{}")
  {
    hide ParseMembers, SetText, DeleteText, Within;
    var t := "{ }";
    assert DocText(HOLLOW) == t && SpansOf(HOLLOW) == Parsed(0, 2, []) by { HollowSpans(); }
    assert WellFormed(HOLLOW, loads) by { HollowIsWellFormed(loads); }
    WrittenIsRead(HOLLOW, loads);
    ParsedWithin(t, loads);
    assert IndexOfKey([], "a") == 0;
    SetThenDelete(t, "a", v, loads);
    assert t[1..2] == " ";
    assert t[..1] + t[2..] == "{}";
  }

  lemma HollowSpans()
    ensures DocText(HOLLOW) == "{ }" && SpansOf(HOLLOW) == Parsed(0, 2, [])
  {
    assert "}" + "" == "}";
  }

  lemma HollowIsWellFormed(loads: KeyReader)
    ensures WellFormed(HOLLOW, loads)
  {
    NoText();
    assert " "[1..] == "";
  }
}
