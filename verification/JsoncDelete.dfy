/** `jsonc_delete` as an edit of the document: one member removed, with its line or its comma. */
module JsoncDelete {
  import opened Options
  import opened Text
  import opened JsoncScanner
  import opened JsoncDoc
  import opened JsoncGaps
  import opened JsoncSplice
  import opened JsonDump
  import opened JsoncEdit
  import opened JsoncSet
  import opened JsoncAppend

  /** The gap left in front of the next key: whole lines go when the member starts its line. */
  function JoinedLines(g: string, d: string): string {
    var k := LineStart(g, |g|);
    if k > 0 && Blank(g[k..]) && BreaksLine(d) then g[..k] + d[LineLen(d)..] else g
  }

  /** What follows the removed value or its comma up to the closing brace. */
  function TailGap(e: Entry): string { if e.comma.Some? then e.comma.value else e.postValue }

  function DeleteDoc(d: Doc, i: nat): Doc
    requires Commas(d) && i < |d.entries|
  {
    var es, e, g := d.entries, d.entries[i], GapAt(d, i);
    if i + 1 < |es| then Splice(d, i, JoinedLines(g, e.comma.value), es[i + 1..])
    else if i == 0 && e.comma.None? && Blank(RTrim(g)) && Blank(e.postValue) then Splice(d, 0, "", [])
    else if i == 0 || e.comma.Some? then Splice(d, i, RTrim(g) + TailGap(e), [])
    else MergeTail(d, i)
  }

  /** The member before the last takes over what surrounded the last, and loses its comma. */
  function MergeTail(d: Doc, i: nat): Doc
    requires Commas(d) && 0 < i < |d.entries|
  {
    var prev := d.entries[i - 1];
    d.(entries := d.entries[..i - 1]
                  + [prev.(comma := None, postValue := prev.postValue + (RTrim(GapAt(d, i)) + d.entries[i].postValue))])
  }

  // ----- The text around a member -----

  /** Reading on from the value of entry `i`. */
  lemma AfterEntry(d: Doc, i: nat, loads: KeyReader)
    requires WellFormed(d, loads) && i < |d.entries|
    ensures Commas(d)
    ensures var t, ve, e := DocText(d), SpansOf(d).members[i].valueEnd, d.entries[i];
            var r := Back(d.entries[i + 1..], d.post);
            && 0 <= ve <= |t| && t[ve..] == TailThen(e, r) && r != []
            && AfterTrivia(t[ve..]) == Ok(CommaThen(e.comma, r))
            && CommaThen(e.comma, r) != [] && !TriviaStart(r)
            && (CommaFollows(CommaThen(e.comma, r)) <==> e.comma.Some?)
            && (e.comma.Some? ==> CommaThen(e.comma, r)[1..] == e.comma.value + r
                                  && AfterTrivia(e.comma.value + r) == Ok(r))
  {
    hide EntryThen, EntriesThen, SpansOf, Stem, GapAt, HeadText, AfterTrivia, DocText, IsGap, IsLiteral, IsValue, Back;
    SpanCount(d);
    TextAroundValue(d, i, loads);
    EntryTail(d, i, loads);
    var e, r := d.entries[i], Back(d.entries[i + 1..], d.post);
    match e.comma
    case None =>
      GapRead(e.postValue, r);
    case Some(g) =>
      MarkRead(',', g + r);
      GapRead(e.postValue, "," + (g + r));
      GapRead(g, r);
  }

  lemma EntryTail(d: Doc, i: nat, loads: KeyReader)
    requires WellFormed(d, loads) && i < |d.entries|
    ensures WellFormedEntry(d.entries[i], loads) && WellFormedEntries(d.entries[i + 1..], loads)
    ensures var r := Back(d.entries[i + 1..], d.post);
            r != [] && !TriviaStart(r) && (d.entries[i].comma.None? ==> r[0] == '}')
            && (i + 1 < |d.entries| ==> r[0] == '"')
  {
    var rest := d.entries[i + 1..];
    forall j | 0 <= j < |rest|
      ensures WellFormedEntry(rest[j], loads) && (j < |rest| - 1 ==> rest[j].comma.Some?)
    {
      assert rest[j] == d.entries[i + 1 + j];
    }
    BodyIsToken(rest, loads, d.post);
  }

  /** The text in front of the key of entry `i`. */
  lemma BeforeEntry(d: Doc, i: nat, loads: KeyReader)
    requires WellFormed(d, loads) && i < |d.entries|
    ensures Place(d, i)
    ensures var t, a, g, ks := DocText(d), Stem(d, i), GapAt(d, i), SpansOf(d).members[i].keyStart;
            && t == a + (g + Back(d.entries[i..], d.post)) && ks == |a| + |g| && IsGap(g)
            && a != [] && (a[|a| - 1] == '{' || a[|a| - 1] == ',')
            && TrimBack(t, |d.pre| + 1, ks) == |a| + |RTrim(g)|
  {
    hide EntryThen, EntriesThen, Stem, DocText, IsGap, WellFormedEntry, MembersOf, EntriesLen, Back;
    EntrySpan(d, i, loads);
    TextAt(d, i);
    GapAtIsGap(d, i, loads);
    StemEnd(d, i);
    TrimAt(Stem(d, i), GapAt(d, i), Back(d.entries[i..], d.post), |d.pre| + 1);
  }

  // ----- A member that is not the last -----

  lemma LineLocal(g: string, r: string)
    requires r != [] && r[0] == '"'
    ensures BreaksLine(g + r) <==> BreaksLine(g)
    ensures BreaksLine(g) ==> LineLen(g + r) == LineLen(g) && (g + r)[LineLen(g)..] == g[LineLen(g)..] + r
  {
    var s, n := g + r, Blanks(g);
    assert forall j :: 0 <= j < |g| ==> s[j] == g[j];
    BlanksUnique(s, n);
    if BreaksLine(g) {
      assert CrLfAt(s, n) == CrLfAt(g, n);
      LineCut(g, LineLen(g), r);
    }
  }

  lemma LineCut(g: string, k: nat, r: string)
    requires k <= |g|
    ensures (g + r)[k..] == g[k..] + r
  {
  }

  /** The key starts its line exactly when the gap in front of it has a line break and then only blanks. */
  lemma StartsLine(a: string, g: string, x: string)
    requires a != [] && (a[|a| - 1] == '{' || a[|a| - 1] == ',')
    ensures var t, k, ls := a + (g + x), LineStart(g, |g|), LineStart(a + (g + x), |a| + |g|);
            && (Blank(t[ls..|a| + |g|]) <==> k > 0 && Blank(g[k..]))
            && (k > 0 ==> ls == |a| + k)
  {
    hide LineStart, Blank;
    var k := LineStart(g, |g|);
    LineInGap(a, g, x);
    if k > 0 {
      TailOf(a, g, x, k);
    } else {
      DarkPrefix(a, g, x, LineStart(a + (g + x), |a| + |g|));
    }
  }

  lemma DeleteInnerText(a: string, g: string, x: string, d: string, r: string)
    requires a != [] && (a[|a| - 1] == '{' || a[|a| - 1] == ',') && r != [] && r[0] == '"'
    requires AfterTrivia(d + r) == Ok(r)
    ensures DeleteInner(a + (g + x), |a| + |g|, d + r) == a + (JoinedLines(g, d) + r)
  {
    hide AfterTrivia, BreaksLine, LineLen, LineStart, Blank;
    var k := LineStart(g, |g|);
    StartsLine(a, g, x);
    LineLocal(d, r);
    if k > 0 && Blank(g[k..]) && BreaksLine(d) {
      CutHead(a, g, x, k);
      Assoc(a, g[..k], d[LineLen(d)..] + r);
      Assoc(g[..k], d[LineLen(d)..], r);
    } else {
      CutTwo(a, g, x);
      Assoc(a, g, r);
    }
  }

  lemma CutHead(a: string, g: string, x: string, k: nat)
    requires k <= |g|
    ensures (a + (g + x))[..|a| + k] == a + g[..k]
  {
  }

  lemma UnfoldInner(t: string, p: Parsed, i: nat, rest: string)
    requires Within(t, p) && i + 1 < |p.members|
    requires MemberWithin(p.members[i], p.close) && AfterTrivia(t[p.members[i].valueEnd..]) == Ok(rest) && rest != []
    ensures DeleteAccepted(t, p, i) == DeleteInner(t, p.members[i].keyStart, rest[1..])
  {
    hide AfterTrivia, DeleteInner;
  }

  lemma DeleteNotLast(d: Doc, i: nat, loads: KeyReader)
    requires WellFormed(d, loads) && i + 1 < |d.entries| && Within(DocText(d), SpansOf(d))
    ensures Commas(d) && DeleteAccepted(DocText(d), SpansOf(d), i) == DocText(DeleteDoc(d, i))
  {
    hide AfterTrivia, DocText, SpansOf, Stem, GapAt, EntryThen, EntriesThen, DeleteInner, DeleteAccepted, JoinedLines, Splice, Back, TailThen, CommaThen, CommaFollows, Commas, WellFormed, WellFormedEntry, TriviaStart, IsGap, TrimBack;
    SpanCount(d);
    BeforeEntry(d, i, loads);
    AfterEntry(d, i, loads);
    EntryTail(d, i, loads);
    var e, r := d.entries[i], Back(d.entries[i + 1..], d.post);
    UnfoldInner(DocText(d), SpansOf(d), i, CommaThen(e.comma, r));
    DeleteInnerText(Stem(d, i), GapAt(d, i), Back(d.entries[i..], d.post), e.comma.value, r);
    SplicedText(d, i, JoinedLines(GapAt(d, i), e.comma.value), d.entries[i + 1..]);
  }

  // ----- The last member -----

  /** Cutting from the trimmed gap in front of the key to what follows the value or its comma. */
  lemma CutToTail(a: string, g: string, x: string, tail: string, r: string)
    ensures (a + (g + x))[..|a| + |RTrim(g)|] + (tail + r) == a + ((RTrim(g) + tail) + r)
  {
    CutHead(a, g, x, |RTrim(g)|);
    assert g[..|RTrim(g)|] == RTrim(g);
    Assoc(a, RTrim(g), tail + r);
    Assoc(RTrim(g), tail, r);
  }

  lemma UnfoldLast(t: string, p: Parsed, i: nat, rest: string)
    requires Within(t, p) && i + 1 == |p.members|
    requires MemberWithin(p.members[i], p.close) && AfterTrivia(t[p.members[i].valueEnd..]) == Ok(rest)
    ensures var m := p.members[i];
            var tail := if CommaFollows(rest) then rest[1..] else t[m.valueEnd..];
            var begin := TrimBack(t, p.open + 1, m.keyStart);
            DeleteAccepted(t, p, i) ==
            if i == 0 && Blank(Slice(t, p.open + 1, begin)) && Blank(Slice(tail, 0, p.close - m.valueEnd)) then
              t[..p.open + 1] + t[p.close..]
            else if i == 0 || CommaFollows(rest) then t[..begin] + tail
            else (assert MemberWithin(p.members[i - 1], p.close); DeleteWithComma(t, p.members[i - 1].valueEnd, begin, tail))
  {
    hide AfterTrivia, DeleteWithComma, Blank, TrimBack;
  }

  predicate Empties(d: Doc, i: nat)
    requires Commas(d) && i < |d.entries|
  {
    i == 0 && |d.entries| == 1 && d.entries[0].comma.None?
    && Blank(RTrim(d.inner)) && Blank(d.entries[0].postValue)
  }

  lemma SliceOfTail(tail: string, r: string, k: int)
    requires r != [] && r[0] == '}' && k >= 0
    ensures k == |tail| ==> Slice(tail + r, 0, k) == tail
    ensures k > |tail| ==> !Blank(Slice(tail + r, 0, k))
  {
    if k > |tail| {
      var s := Slice(tail + r, 0, k);
      assert s[|tail|] == '}';
      assert s[|tail|] in s;
    }
  }

  lemma KeptInside(d: Doc, loads: KeyReader)
    requires WellFormed(d, loads) && |d.entries| == 1
    ensures var t, p := DocText(d), SpansOf(d);
            |p.members| == 1 && 0 <= p.members[0].keyStart <= |t|
            && Slice(t, p.open + 1, TrimBack(t, p.open + 1, p.members[0].keyStart)) == RTrim(d.inner)
  {
    hide DocText, EntryThen, EntriesThen, WellFormed, MembersOf, EntriesLen, IsGap;
    BeforeEntry(d, 0, loads);
    var a, g1, ws := d.pre + "{", RTrim(d.inner), d.inner[|RTrim(d.inner)|..];
    var rest := Back(d.entries[0..], d.post);
    assert d.inner == g1 + ws;
    Assoc(g1, ws, rest);
    SliceMiddle(a, g1, ws + rest);
  }

  /** When the editor takes the object to be empty after the deletion. */
  lemma EmptiesIs(d: Doc, loads: KeyReader)
    requires WellFormed(d, loads) && |d.entries| == 1 && Within(DocText(d), SpansOf(d))
    ensures Commas(d)
    ensures var t, p, e := DocText(d), SpansOf(d), d.entries[0];
            var m := p.members[0];
            var tail := TailGap(e) + ("}" + d.post);
            && MemberWithin(m, p.close)
            && ((Blank(Slice(t, p.open + 1, TrimBack(t, p.open + 1, m.keyStart)))
                 && Blank(Slice(tail, 0, p.close - m.valueEnd))) <==> Empties(d, 0))
  {
    hide DocText, SpansOf, WellFormed, Blank, TrimBack, RTrim, Slice;
    SpanCount(d);
    CommasOf(d, loads);
    KeptInside(d, loads);
    CloseOf(d, loads);
    SliceOfTail(TailGap(d.entries[0]), "}" + d.post, SpansOf(d).close - SpansOf(d).members[0].valueEnd);
  }

  lemma SliceMiddle(a: string, b: string, r: string)
    ensures Slice(a + (b + r), |a|, |a| + |b|) == b
  {
  }

  lemma LastBack(d: Doc, i: nat)
    requires i + 1 == |d.entries|
    ensures Back(d.entries[i + 1..], d.post) == "}" + d.post
  {
    NoEntries(d.post);
    assert d.entries[i + 1..] == [];
  }

  lemma TailOfLast(e: Entry, r: string)
    requires CommaThen(e.comma, r) != []
    requires e.comma.Some? ==> CommaThen(e.comma, r)[1..] == e.comma.value + r
    requires CommaFollows(CommaThen(e.comma, r)) <==> e.comma.Some?
    ensures (if CommaFollows(CommaThen(e.comma, r)) then CommaThen(e.comma, r)[1..] else TailThen(e, r)) == TailGap(e) + r
  {
  }

  /** What the editor computes for the last member when no comma has to go with it. */
  lemma UnfoldedLast(d: Doc, i: nat, loads: KeyReader)
    requires WellFormed(d, loads) && i + 1 == |d.entries| && Within(DocText(d), SpansOf(d))
    requires i == 0 || d.entries[i].comma.Some?
    ensures Commas(d) && |SpansOf(d).members| == |d.entries| && MemberWithin(SpansOf(d).members[i], SpansOf(d).close)
    ensures var t, p := DocText(d), SpansOf(d);
            DeleteAccepted(t, p, i) ==
            if Empties(d, i) then t[..p.open + 1] + t[p.close..]
            else t[..TrimBack(t, p.open + 1, p.members[i].keyStart)] + (TailGap(d.entries[i]) + ("}" + d.post))
  {
    hide AfterTrivia, DocText, SpansOf, EntryThen, EntriesThen, DeleteAccepted, DeleteWithComma, TailThen, CommaThen, CommaFollows, Commas, WellFormed, WellFormedEntry, TriviaStart, IsGap, TrimBack, Blank, RTrim, TailGap, Back, Slice;
    SpanCount(d);
    CommasOf(d, loads);
    AfterEntry(d, i, loads);
    LastBack(d, i);
    var e, r := d.entries[i], "}" + d.post;
    TailOfLast(e, r);
    UnfoldLast(DocText(d), SpansOf(d), i, CommaThen(e.comma, r));
    if i == 0 {
      EmptiesIs(d, loads);
    }
  }

  lemma DeleteLastAtPlace(d: Doc, i: nat, loads: KeyReader)
    requires WellFormed(d, loads) && i + 1 == |d.entries| && Within(DocText(d), SpansOf(d))
    requires i == 0 || d.entries[i].comma.Some?
    requires Commas(d) && !Empties(d, i)
    ensures DeleteAccepted(DocText(d), SpansOf(d), i) == DocText(DeleteDoc(d, i))
  {
    hide DocText, SpansOf, Stem, DeleteAccepted, Splice, Back, Commas, WellFormed, IsGap, TrimBack, Blank, RTrim, TailGap;
    OpenOf(d);
    UnfoldedLast(d, i, loads);
    BeforeEntry(d, i, loads);
    CutToTail(Stem(d, i), GapAt(d, i), Back(d.entries[i..], d.post), TailGap(d.entries[i]), "}" + d.post);
    SplicedText(d, i, RTrim(GapAt(d, i)) + TailGap(d.entries[i]), []);
    NoEntries(d.post);
  }

  lemma OpenOf(d: Doc)
    ensures SpansOf(d).open == |d.pre|
  {
  }

  lemma GapFirst(d: Doc)
    ensures Place(d, 0) && GapAt(d, 0) == d.inner
  {
  }

  lemma DeleteEmpties(d: Doc, loads: KeyReader)
    requires WellFormed(d, loads) && Within(DocText(d), SpansOf(d)) && |d.entries| == 1 && Commas(d) && Empties(d, 0)
    ensures DocText(d)[..SpansOf(d).open + 1] + DocText(d)[SpansOf(d).close..] == DocText(DeleteDoc(d, 0))
  {
    hide EntryThen, EntriesThen;
    var t := DocText(d);
    SplicedText(d, 0, "", []);
    NoEntries(d.post);
    assert "" + ("}" + d.post) == "}" + d.post;
    TextAtFirst(d);
    Cut(d.pre + "{", d.inner + Back(d.entries, d.post));
    assert |t| == SpansOf(d).close + 1 + |d.post|;
    EndsInBrace(d, loads);
  }

  /** The text from the closing brace on. */
  lemma EndsInBrace(d: Doc, loads: KeyReader)
    requires Within(DocText(d), SpansOf(d)) && |d.entries| == 1
    ensures DocText(d)[SpansOf(d).close..] == "}" + d.post
  {
    hide EntryThen;
    var r := "}" + d.post;
    assert "" + r == r;
    EntriesThenSplits(d.entries, "", r);
    var x := EntriesThen(d.entries, "");
    Assoc(d.inner, x, r);
    Assoc("{", d.inner + x, r);
    Assoc(d.pre, "{" + (d.inner + x), r);
    Cut(d.pre + ("{" + (d.inner + x)), r);
  }

  // ----- The last member when the one before gives up its comma -----

  /** The text up to the value before, with that entry's tail still to be written. */
  function Upto(d: Doc, i: nat): string
    requires 0 < i <= |d.entries|
  {
    var bare := d.entries[i - 1].(comma := None, postValue := "");
    d.pre + ("{" + (d.inner + EntriesThen(d.entries[..i - 1], EntryThen(bare, ""))))
  }

  lemma StemIsUpto(d: Doc, i: nat)
    requires Place(d, i) && i > 0
    ensures Stem(d, i) == Upto(d, i) + (d.entries[i - 1].postValue + ",")
  {
    hide EntryThen, EntriesThen;
    var prev := d.entries[i - 1].(comma := None);
    BareEntry(prev, ",");
    Extended(d, d.entries[..i - 1], prev.(postValue := ""), prev.postValue + ",");
  }

  lemma MergedText(d: Doc, i: nat)
    requires Commas(d) && 0 < i && i + 1 == |d.entries|
    ensures DocText(MergeTail(d, i))
            == Upto(d, i) + ((d.entries[i - 1].postValue + (RTrim(GapAt(d, i)) + d.entries[i].postValue)) + ("}" + d.post))
  {
    hide EntryThen, EntriesThen;
    var d2 := MergeTail(d, i);
    var front, prev := d.entries[..i - 1], d2.entries[i - 1];
    assert d2.entries == front + [prev];
    EntriesConcat(front, [prev], "}" + d.post);
    OneEntry(prev, "}" + d.post);
    BareEntry(prev, "}" + d.post);
    assert prev.(postValue := "") == d.entries[i - 1].(comma := None, postValue := "");
    Extended(d, front, prev.(postValue := ""), prev.postValue + ("}" + d.post));
  }

  /** The previous value ends where `Upto` ends. */
  lemma UptoEnd(d: Doc, i: nat, loads: KeyReader)
    requires WellFormed(d, loads) && 0 < i < |d.entries|
    ensures Place(d, i) && |SpansOf(d).members| == |d.entries|
    ensures SpansOf(d).members[i - 1].valueEnd == |Upto(d, i)|
  {
    hide WellFormedEntry, DocText, Stem, IsGap, SpansOf, Upto, WellFormed;
    SpanCount(d);
    CommasOf(d, loads);
    EntrySpan(d, i, loads);
    StemIsUpto(d, i);
    NextKey(d, i, loads);
  }

  lemma NextKey(d: Doc, i: nat, loads: KeyReader)
    requires WellFormed(d, loads) && 0 < i < |d.entries|
    ensures Place(d, i) && |SpansOf(d).members| == |d.entries|
    ensures SpansOf(d).members[i].keyStart == SpansOf(d).members[i - 1].valueEnd + TailLen(d.entries[i - 1])
  {
    hide EntryThen, EntriesThen, WellFormedEntry, Stem, GapAt, MembersOf, EntriesLen;
    var at := |Stem(d, i - 1)| + |GapAt(d, i - 1)|;
    MembersAt(d, i - 1);
    var e, rest := d.entries[i - 1], d.entries[i..];
    assert d.entries[i - 1..] == [e] + rest;
    ConsMembers(e, rest, at);
    assert rest == [rest[0]] + rest[1..];
    ConsMembers(rest[0], rest[1..], at + EntryLen(e));
    var ms := SpansOf(d).members;
    assert ms[i - 1] == ms[i - 1..][0] && ms[i] == ms[i - 1..][1];
  }

  lemma CommaCut(u: string, pv: string, g: string, x: string)
    ensures var t := (u + (pv + ",")) + (g + x);
            && t[..|u| + |pv|] == u + pv
            && Slice(t, |u| + |pv| + 1, |u| + |pv| + 1 + |RTrim(g)|) == RTrim(g)
            && |t| - |"," + (g + x)| == |u| + |pv|
  {
    var g1, ws := RTrim(g), g[|RTrim(g)|..];
    assert g == g1 + ws;
    Assoc(g1, ws, x);
    SliceMiddle(u + (pv + ","), g1, ws + x);
    Assoc(u, pv, ",");
    Assoc(u + pv, ",", g + x);
    Cut(u + pv, "," + (g + x));
  }

  lemma DeleteWithCommaText(u: string, pv: string, g: string, x: string, tail: string, r: string)
    requires var t := (u + (pv + ",")) + (g + x); AfterTrivia(t[|u|..]) == Ok("," + (g + x))
    ensures var t := (u + (pv + ",")) + (g + x);
            DeleteWithComma(t, |u|, |u| + |pv| + 1 + |RTrim(g)|, tail + r) == u + ((pv + (RTrim(g) + tail)) + r)
  {
    hide AfterTrivia, RTrim, Slice;
    CommaCut(u, pv, g, x);
    Assoc(u + pv, RTrim(g), tail + r);
    Assoc(u, pv, RTrim(g) + (tail + r));
    Assoc(RTrim(g), tail, r);
    Assoc(pv, RTrim(g) + tail, r);
  }

  lemma UnfoldedMerge(d: Doc, i: nat, loads: KeyReader)
    requires WellFormed(d, loads) && 0 < i && i + 1 == |d.entries| && Within(DocText(d), SpansOf(d))
    requires d.entries[i].comma.None?
    ensures |SpansOf(d).members| == |d.entries| && MemberWithin(SpansOf(d).members[i - 1], SpansOf(d).close)
    ensures MemberWithin(SpansOf(d).members[i], SpansOf(d).close)
    ensures var t, p := DocText(d), SpansOf(d);
            DeleteAccepted(t, p, i)
            == DeleteWithComma(t, p.members[i - 1].valueEnd, TrimBack(t, p.open + 1, p.members[i].keyStart),
                               d.entries[i].postValue + ("}" + d.post))
  {
    hide AfterTrivia, DocText, SpansOf, EntryThen, EntriesThen, DeleteAccepted, DeleteWithComma, TailThen, CommaThen, CommaFollows, Commas, WellFormed, WellFormedEntry, TriviaStart, IsGap, TrimBack, Blank, Back;
    SpanCount(d);
    AfterEntry(d, i, loads);
    LastBack(d, i);
    TailOfLast(d.entries[i], "}" + d.post);
    UnfoldLast(DocText(d), SpansOf(d), i, CommaThen(d.entries[i].comma, "}" + d.post));
  }

  lemma DeleteMerged(d: Doc, i: nat, loads: KeyReader)
    requires WellFormed(d, loads) && 0 < i && i + 1 == |d.entries| && Within(DocText(d), SpansOf(d))
    requires d.entries[i].comma.None?
    ensures Commas(d) && DeleteAccepted(DocText(d), SpansOf(d), i) == DocText(MergeTail(d, i))
  {
    hide AfterTrivia, DocText, SpansOf, Stem, DeleteAccepted, DeleteWithComma, Back, WellFormed, IsGap, TrimBack, RTrim, MergeTail, Upto, Within;
    CommasOf(d, loads);
    UnfoldedMerge(d, i, loads);
    OpenOf(d);
    BeforeEntry(d, i, loads);
    UptoEnd(d, i, loads);
    StemIsUpto(d, i);
    AfterEntry(d, i - 1, loads);
    DeleteWithCommaText(Upto(d, i), d.entries[i - 1].postValue, GapAt(d, i), Back(d.entries[i..], d.post),
                        d.entries[i].postValue, "}" + d.post);
    MergedText(d, i);
  }

  /** The text edit is the document edit. */
  lemma DeleteIs(d: Doc, i: nat, loads: KeyReader)
    requires WellFormed(d, loads) && i < |d.entries| && Within(DocText(d), SpansOf(d))
    ensures Commas(d) && DeleteAccepted(DocText(d), SpansOf(d), i) == DocText(DeleteDoc(d, i))
  {
    hide DocText, SpansOf, DeleteAccepted, MergeTail, Splice, Blank, RTrim, JoinedLines;
    CommasOf(d, loads);
    if i + 1 < |d.entries| {
      DeleteNotLast(d, i, loads);
    } else if i == 0 || d.entries[i].comma.Some? {
      if Empties(d, i) {
        UnfoldedLast(d, i, loads);
        DeleteEmpties(d, loads);
      } else {
        DeleteLastAtPlace(d, i, loads);
      }
    } else {
      DeleteMerged(d, i, loads);
    }
  }

  // ----- When the result is a document, and which -----

  /** Whether the text after the removed member keeps the closing brace out of a comment left open before it. */
  predicate CommaGap(s: string) { AfterComma(s + "}") == Ok("}") }

  /** The same when one comma may still follow. */
  predicate CommaJoins(kept: string, tail: string) {
    IsGap(kept) || (Find(tail, '\n') < |tail| && CommaGap(tail[Find(tail, '\n') + 1..]))
  }

  predicate Safe(d: Doc, i: nat)
    requires Commas(d) && i < |d.entries|
  {
    var kept, e := RTrim(GapAt(d, i)), d.entries[i];
    if i + 1 < |d.entries| then true
    else if i == 0 || e.comma.Some? then Joins(kept, TailGap(e))
    else
      && CommaJoins(kept, e.postValue)
      && !Swallows(d.entries[i - 1].value, d.entries[i - 1].postValue + (kept + e.postValue))
  }

  lemma JoinedLinesAreGap(g: string, d: string)
    requires IsGap(g) && IsGap(d)
    ensures IsGap(JoinedLines(g, d))
  {
    hide IsGap;
    var k := LineStart(g, |g|);
    if k > 0 && Blank(g[k..]) && BreaksLine(d) {
      NoBreak(g, k);
      BlankIsWs(g, k);
      WholeLines(g, k);
      LineIsWs(d);
      CutLeadingWs(d, LineLen(d));
      GapConcat(g[..k], d[LineLen(d)..]);
    }
  }

  lemma LineIsWs(s: string)
    requires BreaksLine(s)
    ensures AllWs(s[..LineLen(s)])
  {
  }

  /** A gap in front of a closing brace, with a comma or without. */
  lemma CommaGapIs(s: string, post: string)
    ensures CommaGap(s) <==> AfterComma(s + ("}" + post)) == Ok("}" + post)
  {
    hide AfterComma;
    MarkRead('}', post);
    MarkRead('}', "");
    if AfterComma(s + ("}" + post)) == Ok("}" + post) {
      GapThenBrace(s, post, "");
    }
    if CommaGap(s) {
      assert "}" + "" == "}";
      GapThenBrace(s, "", post);
    }
  }

  lemma GapThenBrace(s: string, post: string, post2: string)
    requires AfterComma(s + ("}" + post)) == Ok("}" + post)
    ensures AfterComma(s + ("}" + post2)) == Ok("}" + post2)
  {
    hide AfterComma, IsGap, AfterTrivia;
    var r, r2 := "}" + post, "}" + post2;
    var pv, comma := CommaSplits(s + r);
    MarkRead('}', post2);
    match comma
    case None =>
      SameFront(s, pv, r);
      GapThenRead(pv, r2);
    case Some(g) =>
      Assoc(",", g, r);
      Assoc(pv, "," + g, r);
      SameFront(s, pv + ("," + g), r);
      Assoc(",", g, r2);
      Assoc(pv, "," + g, r2);
      CommaThenRead(pv, g, r2);
  }

  lemma GapThenRead(g: string, r: string)
    requires IsGap(g) && r != [] && r[0] == '}'
    ensures AfterComma(g + r) == Ok(r)
  {
    GapRead(g, r);
  }

  lemma CommaThenRead(pv: string, g: string, r: string)
    requires IsGap(pv) && IsGap(g) && r != [] && r[0] == '}'
    ensures AfterComma(pv + ("," + (g + r))) == Ok(r)
  {
    MarkRead(',', g + r);
    GapRead(pv, "," + (g + r));
    GapRead(g, r);
  }
}
