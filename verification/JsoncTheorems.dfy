/**
 The promises of the comment-preserving editor, for every text its parser accepts.

 `loads` is `json.loads` on the text of a key; a theorem about writing a key requires that what
 `json.dumps` writes for it reads back as that key.
 */
module JsoncTheorems {
  import opened Text
  import opened JsoncScanner
  import opened JsoncDoc
  import opened JsoncGaps
  import opened JsoncSplice
  import opened JsonDump
  import opened JsoncEdit
  import opened JsoncSet
  import opened JsoncAppend
  import opened JsoncDelete
  import opened JsoncDeleteSafe

  /** The content of an accepted text: each member's name and the text of its value, in order. */
  function Pairs(t: string, p: Parsed): seq<(string, string)>
    requires Within(t, p)
  {
    seq(|p.members|, i requires 0 <= i < |p.members| =>
      assert MemberWithin(p.members[i], p.close);
      (p.members[i].key, t[p.members[i].valueStart..p.members[i].valueEnd]))
  }

  lemma PairsOf(d: Doc)
    requires Commas(d) && Within(DocText(d), SpansOf(d))
    ensures |Pairs(DocText(d), SpansOf(d))| == |d.entries|
    ensures forall i :: 0 <= i < |d.entries| ==>
      Pairs(DocText(d), SpansOf(d))[i] == (d.entries[i].key, d.entries[i].value)
  {
    forall i | 0 <= i < |d.entries|
      ensures Pairs(DocText(d), SpansOf(d))[i] == (d.entries[i].key, d.entries[i].value)
    {
      hide DocText, MembersOf, EntriesLen, Stem, GapAt, HeadText, TailThen;
      ValueTextAt(d, i);
      SpanAt(d, i);
    }
  }

  lemma NotWhite(d: Doc)
    ensures !WhiteText(DocText(d))
  {
    var t := DocText(d);
    assert t[|d.pre|] == '{';
  }

  // ----- Setting a key that is there -----

  /** Where a scalar would run on into a byte order mark that follows the old value. */
  predicate RunsOn(t: string, m: Member, x: string)
    requires 0 <= m.valueEnd <= |t|
  {
    IsScalar(x) && m.valueEnd < |t| && t[m.valueEnd] == BOM
  }

  lemma SwallowsIs(d: Doc, i: nat, x: string, loads: KeyReader)
    requires WellFormed(d, loads) && i < |d.entries|
    ensures |SpansOf(d).members| == |d.entries| && 0 <= SpansOf(d).members[i].valueEnd <= |DocText(d)|
    ensures RunsOn(DocText(d), SpansOf(d).members[i], x) <==> Swallows(x, d.entries[i].postValue)
  {
    hide DocText, SpansOf, Stem, GapAt, HeadText, TailThen, WellFormed, Back, EntriesThen;
    SpanCount(d);
    TextAroundValue(d, i, loads);
    EntryTail(d, i, loads);
    var r := Back(d.entries[i + 1..], d.post);
    TailStarts(d.entries[i], r);
    BackIsDark(d.entries[i + 1..], d.post, loads);
  }

  lemma BackIsDark(es: seq<Entry>, post: string, loads: KeyReader)
    requires WellFormedEntries(es, loads)
    ensures Back(es, post) != [] && Back(es, post)[0] != BOM
  {
    BodyIsToken(es, loads, post);
  }

  /**
   Setting a key that the object has replaces that value's text and no other byte, and the result is
   accepted with the same members, unless a scalar would run on into a byte order mark: exactly then not.
   */
  lemma SetReplaces(t: string, key: string, v: Json, loads: KeyReader)
    requires ParseMembers(t, loads).Ok? && Proper(v)
    requires IndexOfKey(ParseMembers(t, loads).value.members, key) < |ParseMembers(t, loads).value.members|
    ensures var p := ParseMembers(t, loads).value;
            var i := IndexOfKey(p.members, key);
            Within(t, p) && MemberWithin(p.members[i], p.close)
            && (var m, x := p.members[i], NewValue(t, p, key, v);
                var k := |x| - (m.valueEnd - m.valueStart);
                && SetText(t, key, v, loads) == Ok(t[..m.valueStart] + x + t[m.valueEnd..])
                && (ParseMembers(t[..m.valueStart] + x + t[m.valueEnd..], loads) == Ok(Replaced(p, i, x, k))
                    <==> !RunsOn(t, m, x)))
  {
    hide DocText, SpansOf, ParseMembers, WellFormed, NewValue, SetAccepted, Swallows, RunsOn, ReplaceDoc, Replaced, IsValue;
    ParsedWithin(t, loads);
    var d := ReadIsWritten(t, loads);
    var p := SpansOf(d);
    var i := IndexOfKey(p.members, key);
    var x := NewValue(t, p, key, v);
    var m := p.members[i];
    SpanCount(d);
    NotWhite(d);
    ReplaceText(d, i, x, loads);
    ReplaceSpans(d, i, x, loads);
    SwallowsIs(d, i, x, loads);
    WrittenValueIsValue(d, key, v, loads);
    ReplaceWellFormed(d, i, x, loads);
    ValueLength(d, i, loads);
    SetUnfolds(t, p, key, v);
    var r := DocText(ReplaceDoc(d, i, x));
    if Swallows(x, d.entries[i].postValue) {
      RunOnIsNotRead(t, p, i, x, loads);
    } else {
      WrittenIsRead(ReplaceDoc(d, i, x), loads);
    }
  }

  lemma ValueLength(d: Doc, i: nat, loads: KeyReader)
    requires WellFormed(d, loads) && i < |d.entries|
    ensures |SpansOf(d).members| == |d.entries|
    ensures SpansOf(d).members[i].valueEnd - SpansOf(d).members[i].valueStart == |d.entries[i].value|
  {
    EntrySpan(d, i, loads);
  }

  lemma SetUnfolds(t: string, p: Parsed, key: string, v: Json)
    requires Within(t, p) && IndexOfKey(p.members, key) < |p.members|
    ensures var i := IndexOfKey(p.members, key);
            MemberWithin(p.members[i], p.close)
            && SetAccepted(t, p, key, v) == t[..p.members[i].valueStart] + NewValue(t, p, key, v) + t[p.members[i].valueEnd..]
  {
    hide NewValue;
  }

  lemma RunOnIsNotRead(t: string, p: Parsed, i: nat, x: string, loads: KeyReader)
    requires Within(t, p) && i < |p.members| && MemberWithin(p.members[i], p.close) && RunsOn(t, p.members[i], x)
    ensures var m := p.members[i];
            var k := |x| - (m.valueEnd - m.valueStart);
            ParseMembers(t[..m.valueStart] + x + t[m.valueEnd..], loads) != Ok(Replaced(p, i, x, k))
  {
    hide ParseMembers;
    var m := p.members[i];
    var r := t[..m.valueStart] + x + t[m.valueEnd..];
    if ParseMembers(r, loads).Ok? && i < |ParseMembers(r, loads).value.members| {
      SwallowedValue(r, loads, i);
      var vs := m.valueStart;
      assert r[vs..vs + |x|] == x;
      assert r[vs + |x|] == t[m.valueEnd];
      assert ParseMembers(r, loads).value.members[i] == m.(valueEnd := vs + |x|) ==> false;
    }
  }

  // ----- Setting a key that is not there -----

  /** Nothing but white space between the braces. */
  predicate HollowText(t: string, p: Parsed)
    requires Within(t, p)
  {
    p.members == [] && Blank(t[p.open + 1..p.close])
  }

  /** The text of the appended value: in a hollow object the file's line ending is not applied. */
  function InsertedValue(t: string, p: Parsed, key: string, v: Json): string
    requires Within(t, p)
  {
    if HollowText(t, p) then DumpValue(v, "  ") else NewValue(t, p, key, v)
  }

  /** Member `m` of text `r` is this key, quoted, with this value. */
  predicate IsMember(r: string, m: Member, key: string, x: string) {
    && m.key == key && 0 <= m.keyStart < m.valueStart < m.valueEnd <= |r|
    && r[m.keyStart..m.valueStart] == Quote(key, true) + ": "
    && r[m.valueStart..m.valueEnd] == x
  }

  /**
   Setting a key that the object does not have appends one member with that key and the dumped value.
   The result is accepted, and every other member keeps its offsets, whatever comments or trailing
   comma stand around the place.
   */
  lemma SetAppends(t: string, key: string, v: Json, loads: KeyReader) returns (m: Member)
    requires ParseMembers(t, loads).Ok? && Proper(v) && Reads(loads, key)
    requires IndexOfKey(ParseMembers(t, loads).value.members, key) == |ParseMembers(t, loads).value.members|
    ensures var p := ParseMembers(t, loads).value;
            SetText(t, key, v, loads).Ok? && Within(t, p)
            && (var r := SetText(t, key, v, loads).value;
                && ParseMembers(r, loads) == Ok(Parsed(p.open, p.close + |r| - |t|, p.members + [m]))
                && IsMember(r, m, key, InsertedValue(t, p, key, v)))
  {
    hide DocText, ParseMembers, WellFormed, NewValue, DumpValue, SetAccepted, Appended, IsValue, MembersOf, EntriesLen;
    ParsedWithin(t, loads);
    var d := ReadIsWritten(t, loads);
    var n := |d.entries|;
    SpanCount(d);
    NotWhite(d);
    CommasOf(d, loads);
    AppendIs(d, key, v, loads);
    AppendedWellFormed(d, key, v, loads);
    AppendedSpans(d, key, v, loads);
    AppendedShape(d, key, v);
    var d2 := Appended(d, key, v);
    WrittenIsRead(d2, loads);
    SpanCount(d2);
    DocLen(d);
    DocLen(d2);
    m := SpansOf(d2).members[n];
    var r := DocText(d2);
    LastMember(SpansOf(d2).members, SpansOf(d).members, n);
    NewMemberText(d2, n, key, loads);
    HollowIs(d, loads);
  }

  lemma LastMember(a: seq<Member>, b: seq<Member>, n: nat)
    requires |a| == n + 1 && a[..n] == b
    ensures a == b + [a[n]]
  {
  }

  lemma NewMemberText(d: Doc, n: nat, key: string, loads: KeyReader)
    requires WellFormed(d, loads) && n < |d.entries| && |SpansOf(d).members| == |d.entries|
    requires var e := d.entries[n]; e.literal == Quote(key, true) && e.preColon == "" && e.postColon == " "
    ensures var m, r := SpansOf(d).members[n], DocText(d);
            && 0 <= m.keyStart < m.valueStart < m.valueEnd <= |r|
            && r[m.keyStart..m.valueStart] == Quote(key, true) + ": " && r[m.valueStart..m.valueEnd] == d.entries[n].value
  {
    hide DocText, EntriesThen, EntryThen, Stem, GapAt, MembersOf, EntriesLen, Quote;
    TextAroundValue(d, n, loads);
    EntrySpan(d, n, loads);
    var e, m, r := d.entries[n], SpansOf(d).members[n], DocText(d);
    assert IsValue(e.value) by { assert WellFormedEntry(e, loads); }
    var front := Stem(d, n) + GapAt(d, n);
    Assoc(Stem(d, n), GapAt(d, n), HeadText(e));
    assert HeadText(e) == Quote(key, true) + ": " by {
      assert "" + (":" + " ") == ": ";
    }
    assert r[m.keyStart..m.valueStart] == r[..m.valueStart][m.keyStart..];
    Cut(front, HeadText(e));
  }

  lemma HollowIs(d: Doc, loads: KeyReader)
    requires WellFormed(d, loads) && Within(DocText(d), SpansOf(d))
    ensures Hollow(d) <==> HollowText(DocText(d), SpansOf(d))
    ensures d.entries == [] ==> DocText(d)[SpansOf(d).open + 1..SpansOf(d).close] == d.inner
  {
    SpanCount(d);
    if d.entries == [] {
      FirstText(d, "", "");
    }
  }

  // ----- Setting and then deleting -----

  lemma AllWsIsBlank(s: string)
    requires AllWs(s)
    ensures Blank(s)
  {
  }

  lemma TrimAgain(g: string, line: string)
    requires AllWs(line)
    ensures RTrim(RTrim(g) + line) == RTrim(g)
  {
    var s := RTrim(g) + line;
    assert forall j :: |RTrim(g)| <= j < |s| ==> s[j] == line[j - |RTrim(g)|] && line[j - |RTrim(g)|] in line;
    TrimBackUnique(s, 0, |s|, |RTrim(g)|);
  }

  lemma BlankParts(g: string)
    ensures Blank(g) <==> Blank(RTrim(g))
  {
    var g1, ws := RTrim(g), g[|RTrim(g)|..];
    assert g == g1 + ws;
    AllWsIsBlank(ws);
    assert forall c :: c in g <==> c in g1 || c in ws;
  }

  lemma LineIsAllWs(d: Doc, key: string, loads: KeyReader)
    requires WellFormed(d, loads) && Within(DocText(d), SpansOf(d))
    ensures AllWs(NewlineOf(DocText(d)) + PadFor(DocText(d), SpansOf(d), key))
  {
    hide PadFor, DocText;
    PadIsWs(d, key, loads);
  }

  lemma UndoInFirst(d: Doc, key: string, x: string)
    requires Hollow(d) && Commas(d)
    ensures Commas(FirstDoc(d, key, x)) && DeleteDoc(FirstDoc(d, key, x), 0) == d.(inner := "")
  {
    hide Quote, RTrim;
    BlankParts("\n  ");
    BlankLine();
  }

  /** The gap a deletion puts together again. */
  lemma GapRestored(gap: string, line: string)
    requires AllWs(line)
    ensures RTrim(RTrim(gap) + line) + gap[|RTrim(gap)|..] == gap
    ensures RTrim(RTrim(gap) + line) == RTrim(gap)
  {
    TrimAgain(gap, line);
  }

  lemma UndoInside(d: Doc, key: string, x: string, line: string)
    requires AllWs(line) && d.entries == [] && !Blank(d.inner)
    ensures Commas(d) && Commas(AppendDoc(d, key, x, line)) && |AppendDoc(d, key, x, line).entries| == 1
    ensures DeleteDoc(AppendDoc(d, key, x, line), 0) == d
  {
    hide Quote, RTrim, Blank;
    GapRestored(d.inner, line);
    BlankParts(d.inner);
  }

  lemma SameAgain(es: seq<Entry>)
    requires es != []
    ensures es[..|es| - 1] + [es[|es| - 1]] == es
  {
  }

  lemma UndoAfterComma(d: Doc, key: string, x: string, line: string)
    requires Commas(d) && AllWs(line) && TrailingComma(d)
    ensures Commas(AppendDoc(d, key, x, line)) && |AppendDoc(d, key, x, line).entries| == |d.entries| + 1
    ensures DeleteDoc(AppendDoc(d, key, x, line), |d.entries|) == d
  {
    hide Quote, RTrim, Blank;
    GapRestored(LastGap(d), line);
    SameAgain(d.entries);
    var d2 := AppendDoc(d, key, x, line);
    assert d2.entries[..|d.entries| - 1] == d.entries[..|d.entries| - 1];
  }

  lemma UndoAfterValue(d: Doc, key: string, x: string, line: string)
    requires Commas(d) && AllWs(line) && d.entries != [] && !TrailingComma(d)
    ensures Commas(AppendDoc(d, key, x, line)) && |AppendDoc(d, key, x, line).entries| == |d.entries| + 1
    ensures DeleteDoc(AppendDoc(d, key, x, line), |d.entries|) == d
  {
    hide Quote, RTrim, Blank;
    var gap := LastGap(d);
    GapRestored(gap, line);
    SameAgain(d.entries);
    assert "" + gap == gap;
    var d2 := AppendDoc(d, key, x, line);
    assert d2.entries[..|d.entries| - 1] == d.entries[..|d.entries| - 1];
  }

  /** Deleting the member just appended gives the document back; only a hollow one loses its white space. */
  lemma DeleteUndoesAppend(d: Doc, key: string, v: Json, loads: KeyReader)
    requires WellFormed(d, loads) && Within(DocText(d), SpansOf(d))
    ensures Commas(d) && Commas(Appended(d, key, v)) && |Appended(d, key, v).entries| == |d.entries| + 1
    ensures DeleteDoc(Appended(d, key, v), |d.entries|) == if Hollow(d) then d.(inner := "") else d
  {
    hide DocText, PadFor, WrittenValue, DeleteDoc, AppendDoc, FirstDoc, Hollow, MembersOf, EntriesLen;
    CommasOf(d, loads);
    AppendedShape(d, key, v);
    LineIsAllWs(d, key, loads);
    var line := NewlineOf(DocText(d)) + PadFor(DocText(d), SpansOf(d), key);
    var x := WrittenValue(d, key, v);
    if Hollow(d) {
      UndoInFirst(d, key, x);
      HollowHasNone(d);
    } else if d.entries == [] {
      NotHollow(d);
      UndoInside(d, key, x, line);
    } else if TrailingComma(d) {
      UndoAfterComma(d, key, x, line);
    } else {
      UndoAfterValue(d, key, x, line);
    }
  }

  lemma NotHollow(d: Doc)
    requires !Hollow(d) && d.entries == []
    ensures !Blank(d.inner)
  {
  }

  lemma HollowHasNone(d: Doc)
    requires Hollow(d)
    ensures d.entries == []
  {
  }

  lemma BlankLine()
    ensures Blank("\n  ") && Blank("\n")
  {
  }

  lemma AppendedCommas(d: Doc, key: string, v: Json, loads: KeyReader)
    requires WellFormed(d, loads) && Within(DocText(d), SpansOf(d)) && Proper(v) && Reads(loads, key)
    ensures Commas(d) && WellFormed(Appended(d, key, v), loads) && Commas(Appended(d, key, v))
    ensures Within(DocText(Appended(d, key, v)), SpansOf(Appended(d, key, v)))
    ensures ParseMembers(DocText(Appended(d, key, v)), loads) == Ok(SpansOf(Appended(d, key, v)))
  {
    hide DocText, Appended, SpansOf, Within, ParseMembers, WellFormed;
    AppendedWellFormed(d, key, v, loads);
    CommasOf(Appended(d, key, v), loads);
    WrittenIsRead(Appended(d, key, v), loads);
    ParsedWithin(DocText(Appended(d, key, v)), loads);
  }

  lemma IndexAppended(ms: seq<Member>, all: seq<Member>, key: string)
    requires |all| == |ms| + 1 && all[..|ms|] == ms && IndexOfKey(ms, key) == |ms| && all[|ms|].key == key
    ensures IndexOfKey(all, key) == |ms|
  {
    var i := IndexOfKey(all, key);
    assert forall j :: 0 <= j < |ms| ==> ms[j] == all[j];
  }

  /**
   `jsonc_delete(jsonc_set(t, k, v), k)` is `t`, byte for byte, for every accepted text without the key,
   except when there is nothing but white space between the braces: then it is `t` with that removed.
   */
  lemma SetThenDelete(t: string, key: string, v: Json, loads: KeyReader)
    requires ParseMembers(t, loads).Ok? && Proper(v) && Reads(loads, key)
    requires IndexOfKey(ParseMembers(t, loads).value.members, key) == |ParseMembers(t, loads).value.members|
    ensures var p := ParseMembers(t, loads).value;
            && SetText(t, key, v, loads).Ok? && Within(t, p)
            && (var r := DeleteText(SetText(t, key, v, loads).value, key, loads);
                && (r == Ok(t) <==> (HollowText(t, p) ==> t[p.open + 1..p.close] == ""))
                && (HollowText(t, p) ==> r == Ok(t[..p.open + 1] + t[p.close..])))
  {
    hide DocText, ParseMembers, SpansOf, WellFormed, SetAccepted, DeleteAccepted, Appended, Within, DeleteDoc, Hollow, Blank;
    ParsedWithin(t, loads);
    var d := ReadIsWritten(t, loads);
    var n := |d.entries|;
    SpanCount(d);
    NotWhite(d);
    CommasOf(d, loads);
    AppendIs(d, key, v, loads);
    AppendedCommas(d, key, v, loads);
    AppendedSpans(d, key, v, loads);
    AppendedShape(d, key, v);
    var d2 := Appended(d, key, v);
    SpanCount(d2);
    IndexAppended(SpansOf(d).members, SpansOf(d2).members, key);
    DeleteIs(d2, n, loads);
    DeleteUndoesAppend(d, key, v, loads);
    HollowIs(d, loads);
    HollowEmptied(d, loads);
  }

  lemma HollowEmptied(d: Doc, loads: KeyReader)
    requires WellFormed(d, loads) && Within(DocText(d), SpansOf(d))
    ensures Hollow(d) ==> DocText(d.(inner := "")) == DocText(d)[..SpansOf(d).open + 1] + DocText(d)[SpansOf(d).close..]
    ensures Hollow(d) ==> (DocText(d.(inner := "")) == DocText(d) <==> d.inner == "")
  {
    if Hollow(d) {
      hide Blank, EntriesThen;
      NoEntries(d.post);
      Emptied(d.pre, d.inner, "}" + d.post);
    }
  }

  lemma Emptied(a: string, b: string, r: string)
    ensures var t, t2 := a + ("{" + (b + r)), a + ("{" + ("" + r));
            t2 == t[..|a| + 1] + t[|a| + 1 + |b|..] && (t2 == t <==> b == "")
  {
    assert "" + r == r;
    Assoc(a, "{", r);
    CutThree(a, "{", b, r);
    CutTwo(a, "{", b + r);
  }

  // ----- Deleting -----

  /** Deleting a key that the object does not have changes nothing. */
  lemma DeleteAbsent(t: string, key: string, loads: KeyReader)
    requires ParseMembers(t, loads).Ok?
    requires var ms := ParseMembers(t, loads).value.members; forall i :: 0 <= i < |ms| ==> ms[i].key != key
    ensures DeleteText(t, key, loads) == Ok(t)
  {
  }
}
