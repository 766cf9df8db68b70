/** `jsonc_set` of a key the object does not have: a member appended as the last one. */
module JsoncAppend {
  import opened Options
  import opened Text
  import opened JsoncScanner
  import opened JsoncDoc
  import opened JsoncGaps
  import opened JsoncSplice
  import opened JsonDump
  import opened JsoncEdit
  import opened JsoncSet

  /** The member as the editor writes it; `loads` must read its key back. */
  function NewEntry(key: string, x: string, postValue: string, comma: Option<string>): Entry {
    Entry(key, Quote(key, true), "", " ", x, postValue, comma)
  }

  /** The document with a comma after its last value. */
  function WithComma(d: Doc): Doc
    requires d.entries != []
  {
    var n := |d.entries|;
    var last := d.entries[n - 1];
    d.(entries := d.entries[..n - 1] + [last.(postValue := "", comma := Some(last.postValue))])
  }

  function LastGap(d: Doc): string {
    var n := |d.entries|;
    if n == 0 then d.inner
    else if d.entries[n - 1].comma.Some? then d.entries[n - 1].comma.value
    else d.entries[n - 1].postValue
  }

  predicate Commas(d: Doc) { forall i :: 0 <= i < |d.entries| - 1 ==> d.entries[i].comma.Some? }

  /** Where the new member goes: after a comma that is there, or after one that is put there. */
  function Base(d: Doc): (b: Doc)
    requires Commas(d)
    ensures |b.entries| == |d.entries| && Place(b, |b.entries|) && GapAt(b, |b.entries|) == LastGap(d)
  {
    if d.entries == [] || d.entries[|d.entries| - 1].comma.Some? then d else WithComma(d)
  }

  predicate TrailingComma(d: Doc) { d.entries != [] && d.entries[|d.entries| - 1].comma.Some? }

  function AppendDoc(d: Doc, key: string, x: string, line: string): Doc
    requires Commas(d)
  {
    var gap := LastGap(d);
    var kept, ws := RTrim(gap), gap[|RTrim(gap)|..];
    var e := if TrailingComma(d) then NewEntry(key, x, "", Some(ws)) else NewEntry(key, x, ws, None);
    Splice(Base(d), |d.entries|, kept + line, [e])
  }

  /** In an object with nothing inside but white space. */
  function FirstDoc(d: Doc, key: string, x: string): Doc {
    Doc(d.pre, "\n  ", [NewEntry(key, x, "\n", None)], d.post)
  }

  // ----- The text -----

  function MemberText(key: string, x: string): string { Quote(key, true) + (":" + (" " + x)) }

  lemma MemberIsEntry(key: string, x: string, postValue: string, comma: Option<string>, r: string)
    ensures EntryThen(NewEntry(key, x, postValue, comma), r) == MemberText(key, x) + (postValue + CommaThen(comma, r))
  {
    var q, tail := Quote(key, true), postValue + CommaThen(comma, r);
    assert "" + (":" + (" " + (x + tail))) == ":" + (" " + (x + tail));
    Assoc(" ", x, tail);
    Assoc(":", " " + x, tail);
    Assoc(q, ":" + (" " + x), tail);
  }

  /** What the editor builds for the new member, its line breaks replaced by the file's. */
  lemma EntryIsLine(key: string, dumped: string, pad: string, newline: string)
    requires '\n' !in pad
    ensures ReplaceNewlines("\n" + pad + Quote(key, true) + ": " + dumped, newline)
            == (newline + pad) + MemberText(key, ReplaceNewlines(dumped, newline))
  {
    var q := Quote(key, true);
    QuoteIsLiteral(key, true);
    hide Quote, ReplaceNewlines;
    var x := ReplaceNewlines(dumped, newline);
    Assoc("\n" + pad, q, ": ");
    Assoc("\n" + pad, q + ": ", dumped);
    Assoc(q, ": ", dumped);
    Assoc("\n", pad, q + (": " + dumped));
    OneNewline(pad + (q + (": " + dumped)), newline);
    ReplacePlain(pad, q + (": " + dumped), newline);
    ReplacePlain(q, ": " + dumped, newline);
    ReplacePlain(": ", dumped, newline);
    assert ": " + x == ":" + (" " + x);
    Assoc(newline, pad, q + (": " + x));
  }

  lemma OneNewline(r: string, newline: string)
    ensures ReplaceNewlines("\n" + r, newline) == newline + ReplaceNewlines(r, newline)
  {
    assert ("\n" + r)[1..] == r;
  }

  lemma TrimAt(a: string, g: string, r: string, lo: nat)
    requires lo <= |a| && (lo < |a| ==> !Ws(a[|a| - 1]))
    ensures TrimBack(a + (g + r), lo, |a| + |g|) == |a| + |RTrim(g)|
  {
    var t, k := a + (g + r), |RTrim(g)|;
    assert forall j :: 0 <= j < |g| ==> t[|a| + j] == g[j];
    if k == 0 && |a| > 0 {
      assert t[|a| - 1] == a[|a| - 1];
    }
    TrimBackUnique(t, lo, |a| + |g|, |a| + k);
  }

  lemma InsertAt(a: string, g: string, r: string, x: string)
    ensures var t, k := a + (g + r), |a| + |RTrim(g)|;
            t[..k] + x + t[k..] == a + (RTrim(g) + (x + (g[|RTrim(g)|..] + r)))
  {
    var g1, ws := RTrim(g), g[|RTrim(g)|..];
    assert g == g1 + ws;
    Assoc(g1, ws, r);
    CutTwo(a, g1, ws + r);
    Assoc(a + g1, x, ws + r);
    Assoc(a, g1, x + (ws + r));
  }

  /** The text of a document whose last value has no comma, around the gap before the closing brace. */
  lemma TextBeforeClose(d: Doc, loads: KeyReader)
    requires WellFormed(d, loads) && d.entries != [] && !TrailingComma(d)
    ensures var b, n, last := Base(d), |d.entries|, SpansOf(d).members[|d.entries| - 1].valueEnd;
            && 0 <= last <= |DocText(d)|
            && DocText(d) == DocText(d)[..last] + (LastGap(d) + ("}" + d.post))
            && Stem(b, n) == DocText(d)[..last] + ","
            && last == SpansOf(d).close - |LastGap(d)|
            && last >= |d.pre| + 1 && !Ws(DocText(d)[last - 1])
  {
    hide WellFormed, EntryThen, EntriesThen, MembersOf, EntriesLen, Stem, DocText;
    LastValueText(d, loads);
    CloseOf(d, loads);
    CommasOf(d, loads);
    BareStem(d);
    var n := |d.entries|;
    var bare := d.entries[n - 1].(postValue := "");
    SameFront(DocText(d)[..SpansOf(d).members[n - 1].valueEnd],
              d.pre + ("{" + (d.inner + EntriesThen(d.entries[..n - 1], EntryThen(bare, "")))),
              LastGap(d) + ("}" + d.post));
  }

  lemma SpanCount(d: Doc)
    ensures |SpansOf(d).members| == |d.entries|
  {
  }

  lemma LastValueText(d: Doc, loads: KeyReader)
    requires WellFormed(d, loads) && d.entries != [] && !TrailingComma(d)
    ensures var last := SpansOf(d).members[|d.entries| - 1].valueEnd;
            && 0 < last <= |DocText(d)| && !Ws(DocText(d)[last - 1])
            && DocText(d)[..last] + (LastGap(d) + ("}" + d.post)) == DocText(d)
  {
    hide WellFormed, EntryThen, EntriesThen, SpansOf, Stem, GapAt, DocText, HeadText, IsValue;
    var n := |d.entries|;
    SpanCount(d);
    TextAroundValue(d, n - 1, loads);
    LastSpans(d, loads);
    var m, t := SpansOf(d).members[n - 1], DocText(d);
    var v := d.entries[n - 1].value;
    ValueEndsDark(v);
    assert t[m.valueEnd - 1] == t[m.valueStart..m.valueEnd][|v| - 1];
    Glue(t, m.valueEnd);
  }

  lemma SameFront(a: string, b: string, r: string)
    requires a + r == b + r
    ensures a == b
  {
    Cut(a, r);
    Cut(b, r);
    assert |a| == |b|;
  }

  lemma LastSpans(d: Doc, loads: KeyReader)
    requires WellFormed(d, loads) && d.entries != []
    ensures IsValue(d.entries[|d.entries| - 1].value)
    ensures var e := d.entries[|d.entries| - 1];
            TailThen(e, Back(d.entries[|d.entries|..], d.post)) == e.postValue + CommaThen(e.comma, "}" + d.post)
  {
    assert WellFormedEntry(d.entries[|d.entries| - 1], loads);
  }

  lemma CloseOf(d: Doc, loads: KeyReader)
    requires WellFormed(d, loads) && d.entries != []
    ensures SpansOf(d).close == SpansOf(d).members[|d.entries| - 1].valueEnd + TailLen(d.entries[|d.entries| - 1])
    ensures SpansOf(d).members[|d.entries| - 1].valueEnd > |d.pre| + 1
  {
    hide EntryThen, EntriesThen, Stem, GapAt, WellFormedEntry, MembersOf, EntriesLen;
    var n := |d.entries|;
    EntrySpan(d, n - 1, loads);
    MembersAt(d, n - 1);
    StemEnd(d, n - 1);
    assert d.entries[n - 1..] == [d.entries[n - 1]] + [];
    NoEntries(d.post);
    ConsMembers(d.entries[n - 1], [], 0);
  }

  /** Writing the last value, then what follows it, with and without the comma put there. */
  lemma BareStem(d: Doc)
    requires Commas(d) && d.entries != [] && !TrailingComma(d)
    ensures var n, front := |d.entries|, d.entries[..|d.entries| - 1];
            var bare := d.entries[n - 1].(postValue := "");
            var text := d.pre + ("{" + (d.inner + EntriesThen(front, EntryThen(bare, ""))));
            && DocText(d) == text + (LastGap(d) + ("}" + d.post))
            && Stem(Base(d), n) == text + ","
  {
    hide EntryThen, EntriesThen;
    var n := |d.entries|;
    var front, last := d.entries[..n - 1], d.entries[n - 1];
    var bare := last.(postValue := "");
    var tail := last.postValue + ("}" + d.post);
    assert d.entries == front + [last];
    EntriesConcat(front, [last], "}" + d.post);
    OneEntry(last, "}" + d.post);
    BareEntry(last, "}" + d.post);
    Extended(d, front, bare, tail);
    Extended(d, front, bare, ",");
    assert WithComma(d).entries[..n - 1] == front;
    assert WithComma(d).entries[n - 1].(comma := None) == bare;
  }

  lemma OneEntry(e: Entry, r: string)
    ensures EntriesThen([e], r) == EntryThen(e, r)
  {
    hide EntryThen;
    assert [e][1..] == [];
  }

  lemma BareEntry(e: Entry, r: string)
    requires e.comma.None?
    ensures EntryThen(e, r) == EntryThen(e.(postValue := ""), e.postValue + r)
  {
    assert "" + (e.postValue + r) == e.postValue + r;
  }

  lemma Extended(d: Doc, front: seq<Entry>, e: Entry, r: string)
    ensures d.pre + ("{" + (d.inner + EntriesThen(front, EntryThen(e, r))))
            == d.pre + ("{" + (d.inner + EntriesThen(front, EntryThen(e, "")))) + r
  {
    hide EntryThen, EntriesThen;
    assert "" + r == r;
    EntryThenSplits(e, "", r);
    EntriesThenSplits(front, EntryThen(e, ""), r);
    var x := EntriesThen(front, EntryThen(e, ""));
    Assoc(d.inner, x, r);
    Assoc("{", d.inner + x, r);
    Assoc(d.pre, "{" + (d.inner + x), r);
  }

  lemma CommasOf(d: Doc, loads: KeyReader)
    requires WellFormed(d, loads)
    ensures Commas(d)
  {
  }

  // ----- The edit is the document edit -----

  lemma Regroup(a: string, kept: string, line: string, m: string, r: string)
    ensures a + (kept + ((line + m) + r)) == a + ((kept + line) + (m + r))
  {
    Assoc(line, m, r);
    Assoc(kept, line, m + r);
  }

  /** Text inserted where the gap in front of the closing brace was trimmed. */
  lemma InsertedText(b: Doc, gap: string, x: string, line: string, key: string, postValue: string, comma: Option<string>)
    requires Place(b, |b.entries|)
    requires var ws := gap[|RTrim(gap)|..];
             postValue + CommaThen(comma, "}" + b.post) == ws + ("}" + b.post)
    ensures DocText(Splice(b, |b.entries|, RTrim(gap) + line, [NewEntry(key, x, postValue, comma)]))
            == Stem(b, |b.entries|) + (RTrim(gap) + ((line + MemberText(key, x)) + (gap[|RTrim(gap)|..] + ("}" + b.post))))
  {
    hide EntryThen, EntriesThen, DocText, Stem, MemberText;
    var n, r := |b.entries|, "}" + b.post;
    SplicedText(b, n, RTrim(gap) + line, [NewEntry(key, x, postValue, comma)]);
    OneEntry(NewEntry(key, x, postValue, comma), r);
    MemberIsEntry(key, x, postValue, comma, r);
    Regroup(Stem(b, n), RTrim(gap), line, MemberText(key, x), gap[|RTrim(gap)|..] + r);
  }

  /** The same where a comma is written after the member. */
  lemma InsertedWithComma(b: Doc, gap: string, x: string, line: string, key: string)
    requires Place(b, |b.entries|)
    ensures DocText(Splice(b, |b.entries|, RTrim(gap) + line, [NewEntry(key, x, "", Some(gap[|RTrim(gap)|..]))]))
            == Stem(b, |b.entries|)
               + (RTrim(gap) + (((line + MemberText(key, x)) + ",") + (gap[|RTrim(gap)|..] + ("}" + b.post))))
  {
    hide EntryThen, EntriesThen, DocText, Stem, MemberText;
    var n, r := |b.entries|, "}" + b.post;
    var ws := gap[|RTrim(gap)|..];
    SplicedText(b, n, RTrim(gap) + line, [NewEntry(key, x, "", Some(ws))]);
    OneEntry(NewEntry(key, x, "", Some(ws)), r);
    MemberIsEntry(key, x, "", Some(ws), r);
    assert "" + ("," + (ws + r)) == "," + (ws + r);
    Assoc(line + MemberText(key, x), ",", ws + r);
    Regroup(Stem(b, n), RTrim(gap), line, MemberText(key, x), "," + (ws + r));
  }

  /** The text in front of the closing brace, where there is no value without comma. */
  lemma TextAtClose(d: Doc, loads: KeyReader)
    requires WellFormed(d, loads) && (d.entries == [] || TrailingComma(d))
    ensures Commas(d) && Place(d, |d.entries|)
    ensures var t, p, stem := DocText(d), SpansOf(d), Stem(d, |d.entries|);
            && t == stem + (LastGap(d) + ("}" + d.post))
            && p.open + 1 <= |stem| <= p.close < |t| && p.close == |stem| + |LastGap(d)|
            && TrimBack(t, p.open + 1, p.close) == |stem| + |RTrim(LastGap(d))|
  {
    hide EntryThen, EntriesThen, DocText, Stem, WellFormed, MembersOf;
    CommasOf(d, loads);
    var n := |d.entries|;
    TextAt(d, n);
    NoEntries(d.post);
    StemEnd(d, n);
    MembersAt(d, n);
    assert d.entries[n..] == [];
    TrimAt(Stem(d, n), LastGap(d), "}" + d.post, |d.pre| + 1);
  }

  /** Case one: inside an object without members, or after a trailing comma. */
  lemma AppendAtPlace(d: Doc, key: string, x: string, line: string, loads: KeyReader)
    requires WellFormed(d, loads) && (d.entries == [] || TrailingComma(d))
    ensures var t, p := DocText(d), SpansOf(d);
            && p.open + 1 <= p.close <= |t|
            && (var tail := TrimBack(t, p.open + 1, p.close);
                var entry := line + MemberText(key, x) + (if d.entries == [] then "" else ",");
                t[..tail] + entry + t[tail..] == DocText(AppendDoc(d, key, x, line)))
  {
    hide EntryThen, EntriesThen, DocText, Stem, MemberText, WellFormed, MembersOf, EntriesLen, Splice, TrimBack;
    TextAtClose(d, loads);
    var n, gap := |d.entries|, LastGap(d);
    var m := line + MemberText(key, x);
    assert m + "" == m;
    InsertAt(Stem(d, n), gap, "}" + d.post, m + if n == 0 then "" else ",");
    if n == 0 {
      InsertedText(d, gap, x, line, key, gap[|RTrim(gap)|..], None);
    } else {
      InsertedWithComma(d, gap, x, line, key);
    }
  }

  lemma NoEntries(post: string)
    ensures Back([], post) == "}" + post && EntriesLen([]) == 0
  {
  }

  /** Case two: after a last value without comma, which gets one. */
  lemma AppendAfterValue(d: Doc, key: string, x: string, line: string, loads: KeyReader)
    requires WellFormed(d, loads) && d.entries != [] && !TrailingComma(d) && Within(DocText(d), SpansOf(d))
    ensures Commas(d)
    ensures var t, p, last := DocText(d), SpansOf(d), SpansOf(d).members[|d.entries| - 1].valueEnd;
            AddAfter(t, last, TrimBack(t, p.open + 1, p.close), line + MemberText(key, x))
            == DocText(AppendDoc(d, key, x, line))
  {
    hide EntryThen, EntriesThen, DocText, Stem, MemberText, WellFormed, MembersOf, EntriesLen, Splice, AddAfter, RTrim;
    CommasOf(d, loads);
    TextBeforeClose(d, loads);
    var gap, r := LastGap(d), "}" + d.post;
    var t, last := DocText(d), SpansOf(d).members[|d.entries| - 1].valueEnd;
    var m := line + MemberText(key, x);
    TrimAt(t[..last], gap, r, |d.pre| + 1);
    InsertAfterComma(t[..last], gap, r, m);
    InsertedText(Base(d), gap, x, line, key, gap[|RTrim(gap)|..], None);
  }

  lemma InsertAfterComma(a: string, g: string, r: string, x: string)
    ensures var t, k := a + (g + r), |a| + |RTrim(g)|;
            AddAfter(t, |a|, k, x) == (a + ",") + (RTrim(g) + (x + (g[|RTrim(g)|..] + r)))
  {
    var g1, ws := RTrim(g), g[|RTrim(g)|..];
    var t := a + (g + r);
    assert g == g1 + ws;
    Assoc(g1, ws, r);
    CutTwo(a, g1, ws + r);
    Cut(a, g + r);
    assert t[|a|..|a| + |g1|] == g1;
    Assoc((a + ",") + g1, x, ws + r);
    Assoc(a + ",", g1, x + (ws + r));
  }

  /** Reading on from the last value: whether a trailing comma is there. */
  lemma AfterLastValue(d: Doc, loads: KeyReader)
    requires WellFormed(d, loads) && d.entries != []
    ensures var t, last := DocText(d), SpansOf(d).members[|d.entries| - 1].valueEnd;
            && 0 <= last <= |t| && AfterTrivia(t[last..]).Ok?
            && (var rest := AfterTrivia(t[last..]).value; rest != [] && (rest[0] == ',' <==> TrailingComma(d)))
  {
    hide EntryThen, EntriesThen, SpansOf, Stem, GapAt, HeadText, AfterTrivia, DocText, CommaThen, IsGap, IsLiteral, IsValue;
    var n := |d.entries|;
    SpanCount(d);
    TextAroundValue(d, n - 1, loads);
    LastSpans(d, loads);
    TailRead(d.entries[n - 1], d.post, loads);
  }

  lemma TailRead(e: Entry, post: string, loads: KeyReader)
    requires WellFormedEntry(e, loads)
    ensures var s := AfterTrivia(e.postValue + CommaThen(e.comma, "}" + post));
            s.Ok? && s.value != [] && (s.value[0] == ',' <==> e.comma.Some?)
  {
    hide AfterTrivia;
    match e.comma
    case None =>
      MarkRead('}', post);
      GapRead(e.postValue, "}" + post);
    case Some(g) =>
      MarkRead(',', g + ("}" + post));
      GapRead(e.postValue, "," + (g + ("}" + post)));
  }

  /** An object whose inside is white space is written anew. */
  lemma FirstText(d: Doc, key: string, x: string)
    requires d.entries == []
    ensures var t, p := DocText(d), SpansOf(d);
            && p.open < p.close < |t| && t[p.open + 1..p.close] == d.inner
            && t[..p.open] + "{\n  " + Quote(key, true) + ": " + x + "\n}" + t[p.close + 1..] == DocText(FirstDoc(d, key, x))
  {
    hide EntryThen, EntriesThen, Quote;
    NoEntries(d.post);
    OneEntry(NewEntry(key, x, "\n", None), "}" + d.post);
    MemberIsEntry(key, x, "\n", None, "}" + d.post);
    CutInner(d.pre, d.inner, "}" + d.post);
    CutClose(d.pre, d.inner, d.post);
    Layout(d.pre, Quote(key, true), x, d.post);
  }

  lemma CutClose(a: string, b: string, r: string)
    ensures var t := a + ("{" + (b + ("}" + r))); t[|a| + 1 + |b| + 1..] == r && |a| + 1 + |b| < |t|
  {
    CutThree(a, "{", b, "}" + r);
    Cut("}", r);
    Drops(a + ("{" + (b + ("}" + r))), |a| + 1 + |b|, 1);
  }

  lemma CutInner(a: string, b: string, r: string)
    ensures (a + ("{" + (b + r)))[|a| + 1..|a| + 1 + |b|] == b && (a + ("{" + (b + r)))[..|a|] == a
  {
  }

  lemma Layout(a: string, q: string, x: string, post: string)
    ensures a + "{\n  " + q + ": " + x + "\n}" + post
            == a + ("{" + ("\n  " + ((q + (":" + (" " + x))) + ("\n" + ("}" + post)))))
  {
    assert ": " + x == ":" + (" " + x);
    assert "\n}" + post == "\n" + ("}" + post);
    assert "{\n  " + (q + (": " + x)) == "{" + ("\n  " + (q + (": " + x)));
    var y := q + (": " + x);
    Assoc(a + "{\n  ", q, ": ");
    Assoc(a + "{\n  ", q + ": ", x);
    Assoc(q, ": ", x);
    Assoc((a + "{\n  ") + y, "\n}", post);
    Assoc(a + "{\n  ", y, "\n}" + post);
    Assoc(a, "{\n  ", y + ("\n}" + post));
    assert "{\n  " + (y + ("\n}" + post)) == "{" + ("\n  " + (y + ("\n}" + post)));
  }

  predicate Hollow(d: Doc) { d.entries == [] && Blank(d.inner) }

  /** The value as it is written: in a hollow object the file's line ending is not applied. */
  function WrittenValue(d: Doc, key: string, v: Json): string
    requires Within(DocText(d), SpansOf(d))
  {
    if Hollow(d) then DumpValue(v, "  ") else NewValue(DocText(d), SpansOf(d), key, v)
  }

  function Appended(d: Doc, key: string, v: Json): Doc
    requires Commas(d) && Within(DocText(d), SpansOf(d))
  {
    var t, p, x := DocText(d), SpansOf(d), WrittenValue(d, key, v);
    if Hollow(d) then FirstDoc(d, key, x)
    else AppendDoc(d, key, x, NewlineOf(t) + PadFor(t, p, key))
  }

  lemma AppendAfterComma(d: Doc, key: string, v: Json, loads: KeyReader)
    requires WellFormed(d, loads) && Within(DocText(d), SpansOf(d)) && Proper(v) && !Hollow(d)
    requires d.entries == [] || TrailingComma(d)
    requires IndexOfKey(SpansOf(d).members, key) == |d.entries|
    ensures Commas(d) && SetAccepted(DocText(d), SpansOf(d), key, v) == DocText(Appended(d, key, v))
  {
    hide EntryThen, EntriesThen, DocText, MemberText, WellFormed, MembersOf, EntriesLen, ReplaceNewlines, AppendDoc, DumpValue, Blank;
    CommasOf(d, loads);
    var t, p := DocText(d), SpansOf(d);
    var pad, newline := PadFor(t, p, key), NewlineOf(t);
    PadIsWs(d, key, loads);
    EntryIsLine(key, DumpValue(v, pad), pad, newline);
    var x, line := NewValue(t, p, key, v), newline + pad;
    AppendAtPlace(d, key, x, line, loads);
    if d.entries == [] {
      FirstText(d, key, x);
      assert line + MemberText(key, x) + "" == line + MemberText(key, x);
    } else {
      AfterLastValue(d, loads);
      Assoc(t[..TrimBack(t, p.open + 1, p.close)], line + MemberText(key, x), ",");
    }
  }

  lemma AppendWithComma(d: Doc, key: string, v: Json, loads: KeyReader)
    requires WellFormed(d, loads) && Within(DocText(d), SpansOf(d)) && Proper(v)
    requires d.entries != [] && !TrailingComma(d)
    requires IndexOfKey(SpansOf(d).members, key) == |d.entries|
    ensures Commas(d) && SetAccepted(DocText(d), SpansOf(d), key, v) == DocText(Appended(d, key, v))
  {
    hide EntryThen, EntriesThen, DocText, MemberText, WellFormed, MembersOf, EntriesLen, ReplaceNewlines, AppendDoc, DumpValue, Blank;
    CommasOf(d, loads);
    var t, p := DocText(d), SpansOf(d);
    var pad, newline := PadFor(t, p, key), NewlineOf(t);
    PadIsWs(d, key, loads);
    EntryIsLine(key, DumpValue(v, pad), pad, newline);
    AfterLastValue(d, loads);
    AppendAfterValue(d, key, NewValue(t, p, key, v), newline + pad, loads);
  }

  lemma AppendHollow(d: Doc, key: string, v: Json, loads: KeyReader)
    requires WellFormed(d, loads) && Within(DocText(d), SpansOf(d)) && Hollow(d)
    requires IndexOfKey(SpansOf(d).members, key) == |d.entries|
    ensures Commas(d) && SetAccepted(DocText(d), SpansOf(d), key, v) == DocText(Appended(d, key, v))
  {
    hide EntryThen, EntriesThen, DocText, DumpValue, Blank, Quote, NewValue, WellFormed, FirstDoc;
    FirstText(d, key, DumpValue(v, "  "));
  }

  /** The text edit is the document edit, whatever comments and commas surround the place. */
  lemma AppendIs(d: Doc, key: string, v: Json, loads: KeyReader)
    requires WellFormed(d, loads) && Within(DocText(d), SpansOf(d)) && Proper(v)
    requires IndexOfKey(SpansOf(d).members, key) == |d.entries|
    ensures Commas(d) && SetAccepted(DocText(d), SpansOf(d), key, v) == DocText(Appended(d, key, v))
  {
    hide SetAccepted, DocText, Appended, WellFormed;
    if Hollow(d) {
      AppendHollow(d, key, v, loads);
    } else if d.entries == [] || TrailingComma(d) {
      AppendAfterComma(d, key, v, loads);
    } else {
      AppendWithComma(d, key, v, loads);
    }
  }

  // ----- The result is well-formed, and its members are the old ones and the new one -----

  predicate Reads(loads: KeyReader, key: string) {
    loads(Quote(key, true)) == Some(key) && loads(Quote(key, false)) == Some(key)
  }

  lemma NewEntryWellFormed(key: string, x: string, postValue: string, comma: Option<string>, loads: KeyReader)
    requires IsValue(x) && Reads(loads, key) && AllWs(postValue) && (comma.Some? ==> AllWs(comma.value))
    ensures WellFormedEntry(NewEntry(key, x, postValue, comma), loads)
  {
    QuoteIsLiteral(key, true);
    WsGap("");
    WsGap(" ");
    WsGap(postValue);
    assert postValue != [] ==> postValue[0] in postValue;
    if comma.Some? {
      WsGap(comma.value);
    }
  }

  lemma BaseWellFormed(d: Doc, loads: KeyReader)
    requires WellFormed(d, loads)
    ensures Commas(d) && WellFormed(Base(d), loads) && IsGap(LastGap(d))
  {
    hide IsGap, WellFormedEntry;
    if d.entries != [] {
      var n := |d.entries|;
      var last := d.entries[n - 1];
      EntryGaps(last, loads);
      if !TrailingComma(d) {
        var e := last.(postValue := "", comma := Some(last.postValue));
        JoinWellFormed(d.entries[..n - 1], e, [], loads);
        assert d.entries[..n - 1] + [e] == d.entries[..n - 1] + ([e] + []);
      }
    }
  }

  lemma EntryGaps(e: Entry, loads: KeyReader)
    requires WellFormedEntry(e, loads)
    ensures IsGap(e.postValue) && (e.comma.Some? ==> IsGap(e.comma.value))
    ensures WellFormedEntry(e.(postValue := "", comma := Some(e.postValue)), loads)
  {
    WsGap("");
  }

  lemma WrittenValueIsValue(d: Doc, key: string, v: Json, loads: KeyReader)
    requires WellFormed(d, loads) && Within(DocText(d), SpansOf(d)) && Proper(v)
    ensures IsValue(WrittenValue(d, key, v)) && IsValue(NewValue(DocText(d), SpansOf(d), key, v))
  {
    PadIsWs(d, key, loads);
    DumpValueIsValue(v, PadFor(DocText(d), SpansOf(d), key), NewlineOf(DocText(d)));
    DumpValueIsValue(v, "  ", "\n");
  }

  lemma AppendedWellFormed(d: Doc, key: string, v: Json, loads: KeyReader)
    requires WellFormed(d, loads) && Within(DocText(d), SpansOf(d)) && Proper(v) && Reads(loads, key)
    ensures Commas(d) && WellFormed(Appended(d, key, v), loads)
  {
    hide DocText, PadFor, NewValue, DumpValue, Reads, SpansOf, WellFormedEntry, IsGap;
    WrittenValueIsValue(d, key, v, loads);
    BaseWellFormed(d, loads);
    var x := WrittenValue(d, key, v);
    if Hollow(d) {
      NewEntryWellFormed(key, x, "\n", None, loads);
      WsGap("\n  ");
    } else {
      var gap := LastGap(d);
      var ws := gap[|RTrim(gap)|..];
      PadIsWs(d, key, loads);
      BreakAfterTrim(gap, NewlineOf(DocText(d)), PadFor(DocText(d), SpansOf(d), key));
      var e := if TrailingComma(d) then NewEntry(key, x, "", Some(ws)) else NewEntry(key, x, ws, None);
      NewEntryWellFormed(key, x, e.postValue, e.comma, loads);
      SplicedWellFormed(Base(d), |d.entries|, RTrim(gap) + (NewlineOf(DocText(d)) + PadFor(DocText(d), SpansOf(d), key)), [e], loads);
    }
  }

  lemma AppendedSpans(d: Doc, key: string, v: Json, loads: KeyReader)
    requires WellFormed(d, loads) && Within(DocText(d), SpansOf(d))
    ensures Commas(d)
    ensures var d2 := Appended(d, key, v);
            |d2.entries| == |d.entries| + 1 && d2.pre == d.pre && d2.post == d.post
            && SpansOf(d2).members[..|d.entries|] == SpansOf(d).members
            && SpansOf(d2).members[|d.entries|].key == key
  {
    hide EntryThen, EntriesThen, DocText, MembersOf, EntriesLen, WellFormed, PadFor, NewValue, DumpValue;
    CommasOf(d, loads);
    var n, d2 := |d.entries|, Appended(d, key, v);
    AppendedShape(d, key, v);
    MembersOfFront(d, d2, n);
    assert d2.entries[..n + 1] == d2.entries;
  }

  /** Entries with the same spans in the same place give the same members. */
  lemma MembersOfFront(d: Doc, d2: Doc, n: nat)
    requires n == |d.entries| && |d2.entries| == n + 1 && d2.pre == d.pre && (n > 0 ==> d2.inner == d.inner)
    requires n > 0 ==> (var e, l := d2.entries[n - 1], d.entries[n - 1];
                        e == l.(postValue := e.postValue, comma := e.comma) && d2.entries[..n - 1] == d.entries[..n - 1])
    ensures SpansOf(d2).members[..n] == SpansOf(d).members
    ensures SpansOf(d2).members[n].key == d2.entries[n].key
  {
    var at := |d2.pre| + 1 + |d2.inner|;
    var last := [d2.entries[n]];
    assert d2.entries == d2.entries[..n] + last;
    MembersConcat(d2.entries[..n], last, at);
    if n > 0 {
      assert d2.entries[..n] == d.entries[..n - 1] + [d2.entries[n - 1]];
      LastTailIrrelevant(d.entries, d2.entries[n - 1], at);
    }
  }

  lemma AppendedShape(d: Doc, key: string, v: Json)
    requires Commas(d) && Within(DocText(d), SpansOf(d))
    ensures var d2, n := Appended(d, key, v), |d.entries|;
            && |d2.entries| == n + 1 && d2.pre == d.pre && d2.post == d.post && d2.entries[n].key == key
            && (n > 0 ==> d2.inner == d.inner)
            && (n > 0 ==> (var e, l := d2.entries[n - 1], d.entries[n - 1];
                           e == l.(postValue := e.postValue, comma := e.comma) && d2.entries[..n - 1] == d.entries[..n - 1]))
            && d2.entries[n].value == WrittenValue(d, key, v) && d2.entries[n].literal == Quote(key, true)
            && d2.entries[n].preColon == "" && d2.entries[n].postColon == " "
  {
    hide DocText, PadFor, NewValue, DumpValue, MembersOf, EntriesLen;
  }
}
