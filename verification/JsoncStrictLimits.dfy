/** Inputs at which stripping does not do what it promises elsewhere. */
module JsoncStrictLimits {
  import opened Options
  import opened Text
  import opened JsoncScanner
  import opened JsoncDoc
  import opened JsonDump
  import opened JsoncStrict
  import opened JsoncStrictFacts
  import opened JsoncStrictDoc
  import opened JsoncStrictTheorems
  import opened JsoncStrictTwice
  import opened JsoncLimits

  lemma OneChar(c: char)
    requires Copied(c)
    ensures Strict([c]) == Ok([c])
  {
    StrictChar(c, "");
    StrictOfNothing();
    assert [c] + "" == [c];
  }

  // ----- A comment between two numbers -----

  /** Comments are taken out, not blanked: two numbers become one, so that what is no JSON is read. */
  lemma NumbersJoin()
    ensures Strict("[1/**/2]") == Ok("[12]")
  {
    hide Strict;
    assert "/**/"[4..] == "" && "/**/"[2..] == "*/";
    assert EndMarkAt("*/", 0);
    assert FindEndMark("*/") == 0;
    assert ItemLen("/**/") == 4;
    assert IsGap("");
    assert IsGap("/**/");
    OneChar(']');
    StrictChar('2', "]");
    StrictGap("/**/", "2]");
    EmitEmit("", "", Strict("2]"));
    StrictChar('1', "/**/2]");
    StrictChar('[', "1/**/2]");
    assert "[" + "1/**/2]" == "[1/**/2]" && "1" + "/**/2]" == "1/**/2]" && "/**/" + "2]" == "/**/2]" && "2" + "]" == "2]";
    assert "[" + ("1" + ("2" + "]")) == "[12]";
  }

  // ----- Two commas -----

  /** Of two commas in a row only the second goes. */
  lemma OneCommaStays()
    ensures Strict("[,,]") == Ok("[,]") && Strict("[,]") == Ok("[]")
  {
    hide Strict;
    OneChar(']');
    WsGap("");
    StrictComma("", "]");
    assert "" + "]" == "]" && "," + "]" == ",]" && "" + ",]" == ",]" && "," + ",]" == ",,]";
    EmitEmit("", "", Strict("]"));
    assert Strict(",]") == Ok("]");
    StrictComma("", ",]");
    assert "," + ("" + "]") == ",]";
    StrictChar('[', ",]");
    StrictChar('[', ",,]");
    assert "[" + "]" == "[]" && "[" + ",]" == "[,]" && "[" + ",,]" == "[,,]";
  }

  // ----- A mark behind the last comma -----

  const MARKED := Doc("", "", [Entry("a", "\"a\"", "", "", "1", "", Some([BOM]))], "")

  lemma MarkGap()
    ensures IsGap([BOM]) && Bare([BOM]) == [BOM] && IsGap("") && AfterTrivia("") == Ok([])
  {
    assert ItemLen([BOM]) == 1 && [BOM][1..] == "";
    WsGap("");
    assert IsGap("");
    assert IsGap([BOM]);
  }

  /** `{"a":1,` with a byte order mark before the closing brace is accepted, and not any more when the comma is gone. */
  lemma MarkRunsOn(loads: KeyReader)
    requires ReadsAB(loads)
    ensures ParseMembers(DocText(MARKED), loads) == Ok(SpansOf(MARKED))
    ensures Strict(DocText(MARKED)) == Ok(DocText(StrictDoc(MARKED)))
    ensures ParseMembers(DocText(StrictDoc(MARKED)), loads) != Ok(SpansOf(StrictDoc(MARKED)))
  {
    hide ParseMembers, DocText, SpansOf, StrictDoc, Strict, IsLiteral, IsValue, IsGap, Bare;
    KeyLiterals();
    DigitValue('1');
    MarkGap();
    LetterEntry(MARKED.entries[0], '1', loads);
    assert AfterTrivia("") == Ok([]);
    assert WellFormed(MARKED, loads);
    assert AllClosed(MARKED.entries) by {
      OneChar('1');
    }
    assert Bare("") == "" by { NothingBare(); }
    assert "" + [BOM] == [BOM];
    assert MarkBehind(MARKED);
    WrittenIsRead(MARKED, loads);
    StrictText(MARKED, loads);
    MarkIsRead(MARKED, loads);
  }

  lemma NothingBare()
    ensures Bare("") == ""
  {
  }

  // ----- A quote inside a scalar -----

  const QUOTED := Doc("", "", [
    Entry("a", "\"a\"", "", "", "1\"", "", Some("")),
    Entry("b", "\"b\"", "", "", "\"\"", "", None)], "")

  lemma QuotedValues()
    ensures IsValue("1\"") && IsScalar("1\"") && IsLiteral("\"\"") && IsValue("\"\"")
  {
    ScalarUnique("1\"", 2);
    assert "\"\""[1..] == "\"";
    assert BodyLen("\"") == Ok(1);
  }

  lemma QuotedIsWellFormed(loads: KeyReader)
    requires ReadsAB(loads)
    ensures WellFormed(QUOTED, loads)
  {
    hide IsLiteral, IsValue, IsGap;
    KeyLiterals();
    QuotedValues();
    MarkGap();
    assert WellFormedEntry(QUOTED.entries[0], loads) && WellFormedEntry(QUOTED.entries[1], loads);
  }

  lemma FirstText(r: string)
    ensures EntryThen(QUOTED.entries[0], r) == "\"a\":1\"," + r
  {
    assert "" + r == r;
    assert "," + ("" + r) == "," + r;
    assert EntryThen(QUOTED.entries[0], r) == "\"a\"" + ("" + (":" + ("" + ("1\"" + ("" + ("," + r))))));
  }

  lemma SecondText(r: string)
    ensures EntryThen(QUOTED.entries[1], r) == "\"b\":\"\"" + r
  {
    assert EntryThen(QUOTED.entries[1], r) == "\"b\"" + ("" + (":" + ("" + ("\"\"" + ("" + r)))));
  }

  lemma QuotedText()
    ensures DocText(QUOTED) == "{\"a\":1\",\"b\":\"\"}"
  {
    hide EntryThen;
    var a, b := QUOTED.entries[0], QUOTED.entries[1];
    FirstText("\"b\":\"\"}");
    SecondText("}");
    assert "\"b\":\"\"" + "}" == "\"b\":\"\"}";
    assert QUOTED.entries[1..] == [b] && [b][1..] == [];
    assert EntriesThen([b], "}") == EntryThen(b, EntriesThen([], "}"));
    assert EntriesThen(QUOTED.entries, "}") == EntryThen(a, EntriesThen([b], "}"));
    var body := "\"a\":1\"," + "\"b\":\"\"}";
    assert "}" + "" == "}" && EntriesThen(QUOTED.entries, "}") == body;
    assert "" + ("{" + ("" + body)) == "{" + body;
    assert "{" + body == "{\"a\":1\",\"b\":\"\"}";
  }

  /** `{"a":1","b":""}` is accepted with two members, but the quote in the number swallows what follows it when it is stripped. */
  lemma QuoteRunsOn(loads: KeyReader)
    requires ReadsAB(loads)
    ensures ParseMembers(DocText(QUOTED), loads) == Ok(SpansOf(QUOTED)) && |SpansOf(QUOTED).members| == 2
    ensures Strict(DocText(QUOTED)).Err?
  {
    hide ParseMembers, SpansOf, DocText;
    QuotedIsWellFormed(loads);
    WrittenIsRead(QUOTED, loads);
    assert |SpansOf(QUOTED).members| == 2 by { SpanCounts(); }
    QuotedText();
    QuotesCross();
  }

  /** As the strings are found when they are looked for from the start. */
  lemma QuotesCross()
    ensures Strict("{\"a\":1\",\"b\":\"\"}").Err?
  {
    hide Strict, IsLiteral;
    LetterLiterals();
    OpenQuote();
    var s5 := "\":\"" + "\"}";
    StrictLiteral("\":\"", "\"}");
    StrictChar('b', s5);
    var s4 := ['b'] + s5;
    StrictLiteral("\",\"", s4);
    var s3 := "\",\"" + s4;
    StrictChar('1', s3);
    var s2 := ['1'] + s3;
    StrictChar(':', s2);
    var s1 := [':'] + s2;
    StrictLiteral("\"a\"", s1);
    var s0 := "\"a\"" + s1;
    StrictChar('{', s0);
    assert ['{'] + s0 == "{\"a\":1\",\"b\":\"\"}";
  }

  lemma SpanCounts()
    ensures |SpansOf(QUOTED).members| == 2
  {
  }

  lemma LetterLiterals()
    ensures IsLiteral("\"a\"") && IsLiteral("\",\"") && IsLiteral("\":\"")
  {
    LetterLiteral('a');
    LetterLiteral(',');
    LetterLiteral(':');
    assert "\"" + ['a'] + "\"" == "\"a\"" && "\"" + [','] + "\"" == "\",\"" && "\"" + [':'] + "\"" == "\":\"";
  }

  lemma OpenQuote()
    ensures Strict("\"}").Err?
  {
    assert "\"}"[1..] == "}" && "}"[1..] == "";
    assert BodyLen("") == Err(UnterminatedString);
    assert BodyLen("}") == Plus(1, BodyLen(""));
    assert LiteralLen("\"}") == Plus(1, BodyLen("}"));
  }
}
