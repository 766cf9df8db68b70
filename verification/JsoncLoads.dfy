/**
 Reading a JSON text with comments as a dict: strictly first, and stripped when that fails.

 `parse` is `json.loads`; what is asked of it is that it accepts no comment and no trailing comma, and that
 it reads an object member by member.
 */
module JsoncLoads {
  import opened Options
  import opened Text
  import opened JsoncScanner
  import opened JsoncDoc
  import opened JsonDump
  import opened JsoncStrict
  import opened JsoncStrictFacts
  import opened JsoncStrictDoc
  import opened JsoncStrictTheorems
  import opened JsoncStrictDump
  import opened JsoncEdit
  import opened JsoncSplice
  import opened JsoncSet
  import opened JsoncAppend
  import opened JsoncTheorems
  import opened JsoncContents
  import HookRules

  type Parser = string -> Option<Json>

  /** `text.lstrip("\ufeff")` */
  function StripMarks(t: string): string { if t != [] && t[0] == BOM then StripMarks(t[1..]) else t }

  /** `jsonc_loads`: the fields of the dict, or None when it raises. */
  function LoadData(t: string, parse: Parser): Option<HookRules.Dict> {
    var text := StripMarks(t);
    if Blank(text) then Some([])
    else
      var r := if parse(text).Some? then parse(text) else match Strict(text) case Ok(o) => parse(o) case Err(_) => None;
      if r.Some? && r.value.Obj? then Some(r.value.fields) else None
  }

  // ----- What is asked of the parser -----

  /** White space only between the tokens, and no trailing comma. */
  predicate PlainEntry(e: Entry) {
    AllWs(e.preColon) && AllWs(e.postColon) && AllWs(e.postValue) && (e.comma.Some? ==> AllWs(e.comma.value))
  }

  predicate PlainDoc(d: Doc) {
    && AllWs(d.pre) && AllWs(d.inner) && AllWs(d.post)
    && (forall i :: 0 <= i < |d.entries| ==> PlainEntry(d.entries[i]))
    && (d.entries != [] ==> d.entries[|d.entries| - 1].comma.None?)
  }

  /** The dict that members make, given their names and the texts of their values: a later one replaces the value. */
  function FieldsOf(pairs: seq<(string, string)>, parse: Parser): Option<HookRules.Dict> {
    if pairs == [] then Some([])
    else
      var before, last := FieldsOf(pairs[..|pairs| - 1], parse), pairs[|pairs| - 1];
      if before.Some? && parse(last.1).Some? then Some(HookRules.Put(before.value, last.0, parse(last.1).value)) else None
  }

  function ObjectOf(pairs: seq<(string, string)>, parse: Parser): Option<Json> {
    match FieldsOf(pairs, parse) case None => None case Some(fields) => Some(Obj(fields))
  }

  ghost predicate IsParser(parse: Parser, loads: KeyReader) {
    && (forall o :: parse(o).Some? ==> Strict(o) == Ok(o))
    && (forall d :: WellFormed(d, loads) && PlainDoc(d) ==> parse(DocText(d)) == ObjectOf(Contents(d.entries), parse))
  }

  // ----- Byte order marks -----

  predicate MarkFreeEntry(e: Entry) {
    BOM !in e.preColon && BOM !in e.postColon && BOM !in e.postValue && (e.comma.Some? ==> BOM !in e.comma.value)
  }

  /** No byte order mark between the tokens, except in front of everything. */
  predicate MarkFree(d: Doc) {
    && BOM !in StripMarks(d.pre) && BOM !in d.inner && BOM !in d.post
    && forall i :: 0 <= i < |d.entries| ==> MarkFreeEntry(d.entries[i])
  }

  function Unmarked(d: Doc): Doc { d.(pre := StripMarks(d.pre)) }

  lemma {:induction false} StripMarksFront(a: string, b: string)
    requires b != [] && b[0] != BOM
    ensures StripMarks(a + b) == StripMarks(a) + b
  {
    if a == [] {
      assert a + b == b;
    } else {
      assert (a + b)[1..] == a[1..] + b;
      if a[0] == BOM {
        StripMarksFront(a[1..], b);
      }
    }
  }

  lemma {:induction false} StripMarksGap(g: string)
    requires IsGap(g)
    ensures IsGap(StripMarks(g))
  {
    if g != [] && g[0] == BOM {
      assert ItemLen(g) == 1;
      StripMarksGap(g[1..]);
    }
  }

  lemma UnmarkedIs(d: Doc, loads: KeyReader)
    requires WellFormed(d, loads)
    ensures WellFormed(Unmarked(d), loads) && DocText(Unmarked(d)) == StripMarks(DocText(d))
  {
    hide WellFormedEntries, IsGap, EntriesThen;
    StripMarksGap(d.pre);
    StripMarksFront(d.pre, "{" + (d.inner + EntriesThen(d.entries, "}" + d.post)));
  }

  lemma TailHolds(e: Entry, r: string, c: char)
    ensures c in e.postValue || (e.comma.Some? && c in e.comma.value) || c in r ==> c in TailThen(e, r)
  {
  }

  lemma EntryHolds(e: Entry, r: string, c: char)
    ensures c in e.preColon || c in e.postColon || c in TailThen(e, r) ==> c in EntryThen(e, r)
  {
    hide TailThen;
  }

  lemma {:induction false} EntriesHold(es: seq<Entry>, r: string)
    requires BOM !in EntriesThen(es, r)
    ensures BOM !in r && forall i :: 0 <= i < |es| ==> MarkFreeEntry(es[i])
  {
    hide EntryThen, TailThen;
    if es != [] {
      var rest := EntriesThen(es[1..], r);
      EntryHolds(es[0], rest, BOM);
      TailHolds(es[0], rest, BOM);
      EntriesHold(es[1..], r);
    }
  }

  /** A text with no mark behind its start. */
  lemma MarkFreeOf(d: Doc, loads: KeyReader)
    requires WellFormed(d, loads) && BOM !in StripMarks(DocText(d))
    ensures MarkFree(d)
  {
    hide WellFormed, EntriesThen;
    UnmarkedIs(d, loads);
    var body := EntriesThen(d.entries, "}" + d.post);
    var t := DocText(Unmarked(d));
    assert t == StripMarks(d.pre) + ("{" + (d.inner + body));
    assert forall c :: c in body || c in d.inner ==> c in t;
    EntriesHold(d.entries, "}" + d.post);
    assert forall c :: c in d.post ==> c in "}" + d.post;
  }

  // ----- Reading is reading member by member -----

  lemma {:induction false} BareIsWs(g: string)
    requires (IsGap(g) || TriviaLen(g) == Ok(|g|)) && BOM !in g
    ensures AllWs(Bare(g))
  {
    BareIsGap(g);
    BareInside(g);
  }

  lemma {:induction false} BareInside(g: string)
    ensures forall c <- Bare(g) :: c in g
  {
    if g != [] && !CommentStart(g) {
      BareInside(g[1..]);
      assert forall c <- g[1..] :: c in g;
    }
  }

  lemma EntryIsPlain(e: Entry, loads: KeyReader)
    requires WellFormedEntry(e, loads) && MarkFreeEntry(e)
    ensures PlainEntry(StrictInner(e)) && PlainEntry(StrictLast(e)) && AllWs(BareTail(e))
  {
    hide IsGap, Bare, IsValue, IsLiteral, Swallows;
    BareIsWs(e.preColon);
    BareIsWs(e.postColon);
    BareIsWs(e.postValue);
    if e.comma.Some? {
      BareIsWs(e.comma.value);
    }
  }

  lemma {:induction false} EntriesArePlain(es: seq<Entry>, loads: KeyReader)
    requires WellFormedEntries(es, loads) && forall i :: 0 <= i < |es| ==> MarkFreeEntry(es[i])
    ensures forall i :: 0 <= i < |es| ==> PlainEntry(StrictEntries(es)[i])
    ensures es != [] ==> StrictEntries(es)[|es| - 1].comma.None? && AllWs(BareTail(es[|es| - 1]))
  {
    hide WellFormedEntry, MarkFreeEntry, PlainEntry, StrictInner, BareTail;
    if es != [] {
      EntryIsPlain(es[0], loads);
      EntryIsPlain(es[|es| - 1], loads);
      if |es| > 1 {
        assert WellFormedEntries(es[1..], loads);
        EntriesArePlain(es[1..], loads);
        LastOfStrict(es);
        forall i | 0 <= i < |es|
          ensures PlainEntry(StrictEntries(es)[i])
        {
          if i > 0 {
            assert StrictEntries(es)[i] == StrictEntries(es[1..])[i - 1];
          }
        }
      }
    }
  }

  lemma StrictIsPlain(d: Doc, loads: KeyReader)
    requires WellFormed(d, loads) && AllClosed(d.entries) && MarkFree(d)
    ensures WellFormed(StrictDoc(Unmarked(d)), loads) && PlainDoc(StrictDoc(Unmarked(d)))
    ensures Strict(StripMarks(DocText(d))) == Ok(DocText(StrictDoc(Unmarked(d))))
  {
    hide WellFormedEntries, StrictEntries, DocText, Strict, IsGap, Bare, BareTail, PlainEntry, MarkFreeEntry, AllClosed;
    var u := Unmarked(d);
    UnmarkedIs(d, loads);
    StrictIsWritten(u, loads);
    EntriesArePlain(d.entries, loads);
    BareIsWs(u.pre);
    BareIsWs(u.inner);
    PostIsTrivia(u.post);
    BareIsWs(u.post);
    if d.entries != [] {
      WsHasNoMark(BareTail(d.entries[|d.entries| - 1]));
    }
  }

  lemma WsHasNoMark(w: string)
    requires AllWs(w)
    ensures w != [] ==> w[0] != BOM
  {
    assert w != [] ==> w[0] in w;
  }

  lemma ObjectIsNotBlank(d: Doc)
    ensures !Blank(DocText(d))
  {
    var t := DocText(d);
    assert t[|d.pre|] == '{';
    assert t[|d.pre|] in t;
  }

  lemma StrictContents(es: seq<Entry>)
    ensures Contents(StrictEntries(es)) == StrictPairs(Contents(es))
  {
    hide StrictValue, StrictEntries;
    forall i | 0 <= i < |es|
      ensures Contents(StrictEntries(es))[i] == (es[i].key, StrictValue(es[i].value))
    {
      StrictKeysAndValues(es, i);
    }
  }

  lemma LoadWritten(d: Doc, loads: KeyReader, parse: Parser)
    requires WellFormed(d, loads) && AllClosed(d.entries) && MarkFree(d) && IsParser(parse, loads)
    ensures LoadData(DocText(d), parse) == FieldsOf(StrictPairs(Contents(d.entries)), parse)
  {
    hide WellFormed, StrictEntries, DocText, Strict, AllClosed, MarkFree, PlainDoc, StripMarks, Blank, FieldsOf, StrictPairs, Contents;
    StrictIsPlain(d, loads);
    UnmarkedIs(d, loads);
    ObjectIsNotBlank(Unmarked(d));
    StrictContents(d.entries);
    var s := StrictDoc(Unmarked(d));
    assert parse(DocText(s)) == ObjectOf(Contents(s.entries), parse);
  }

  /** An accepted text with no quote left open in a scalar and no byte order mark but at its start. */
  predicate Loadable(t: string, loads: KeyReader) { ClosedText(t, loads) && BOM !in StripMarks(t) }

  lemma LoadableDoc(t: string, loads: KeyReader) returns (d: Doc)
    requires Loadable(t, loads)
    ensures t == DocText(d) && WellFormed(d, loads) && AllClosed(d.entries) && MarkFree(d) && Commas(d)
    ensures ParseMembers(t, loads) == Ok(SpansOf(d)) && Within(t, SpansOf(d)) && Pairs(t, SpansOf(d)) == Contents(d.entries)
  {
    hide DocText, SpansOf, ParseMembers, Within, Pairs, WellFormed, StripMarks, MarkFree, ValuesClosed, AllClosed;
    ParsedWithin(t, loads);
    d := ReadIsWritten(t, loads);
    CommasOf(d, loads);
    EntriesClosed(d);
    MarkFreeOf(d, loads);
    ContentsOf(d);
  }

  /** Whatever comments and trailing commas such a text has, it is read member by member, each value stripped. */
  lemma LoadIs(t: string, loads: KeyReader, parse: Parser)
    requires Loadable(t, loads) && IsParser(parse, loads)
    ensures Within(t, ParseMembers(t, loads).value)
    ensures LoadData(t, parse) == FieldsOf(StrictPairs(Pairs(t, ParseMembers(t, loads).value)), parse)
  {
    hide *;
    var d := LoadableDoc(t, loads);
    LoadWritten(d, loads, parse);
  }

  // ----- Reading what the editor wrote -----

  lemma WsIsMarkFree(w: string)
    requires AllWs(w)
    ensures BOM !in w
  {
  }

  lemma SlicesAreMarkFree(g: string, k: nat)
    requires BOM !in g && k <= |g|
    ensures BOM !in g[..k] && BOM !in g[k..]
  {
  }

  lemma AppendedMarkFree(d: Doc, key: string, v: Json, loads: KeyReader)
    requires WellFormed(d, loads) && Within(DocText(d), SpansOf(d)) && Commas(d) && MarkFree(d)
    ensures MarkFree(Appended(d, key, v))
  {
    hide DocText, SpansOf, Within, WellFormed, PadFor, WrittenValue, StripMarks, RTrim;
    PadIsWs(d, key, loads);
    var line := NewlineOf(DocText(d)) + PadFor(DocText(d), SpansOf(d), key);
    WsIsMarkFree(line);
    var gap := LastGap(d);
    assert BOM !in gap by { LastGapIsMarkFree(d); }
    SlicesAreMarkFree(gap, |RTrim(gap)|);
    assert RTrim(gap) == gap[..|RTrim(gap)|];
    if !Hollow(d) {
      AppendDocMarkFree(d, key, WrittenValue(d, key, v), line);
    }
  }

  lemma LastGapIsMarkFree(d: Doc)
    requires MarkFree(d)
    ensures BOM !in LastGap(d)
  {
    hide StripMarks;
    if d.entries != [] {
      assert MarkFreeEntry(d.entries[|d.entries| - 1]);
    }
  }

  lemma AppendDocMarkFree(d: Doc, key: string, x: string, line: string)
    requires Commas(d) && MarkFree(d) && BOM !in line && BOM !in RTrim(LastGap(d)) && BOM !in LastGap(d)[|RTrim(LastGap(d))|..]
    ensures MarkFree(AppendDoc(d, key, x, line))
  {
    hide StripMarks, RTrim;
    if d.entries != [] {
      assert MarkFreeEntry(d.entries[|d.entries| - 1]);
    }
  }

  lemma AppendedIsClosed(d: Doc, key: string, v: Json, loads: KeyReader)
    requires WellFormed(d, loads) && Within(DocText(d), SpansOf(d)) && Commas(d) && AllClosed(d.entries) && Proper(v)
    ensures AllClosed(Appended(d, key, v).entries)
    ensures StrictValue(WrittenValue(d, key, v)) == WrittenValue(d, key, v)
  {
    hide DocText, SpansOf, Within, WellFormed, Strict;
    AppendedShape(d, key, v);
    WrittenIsStrict(d, key, v, loads);
    var d2, n := Appended(d, key, v), |d.entries|;
    forall i | 0 <= i < |d2.entries|
      ensures Closed(d2.entries[i].value)
    {
      if i + 1 < n {
        assert d2.entries[i] == d2.entries[..n - 1][i] == d.entries[i];
      }
    }
  }

  lemma WrittenIsStrict(d: Doc, key: string, v: Json, loads: KeyReader)
    requires WellFormed(d, loads) && Within(DocText(d), SpansOf(d)) && Proper(v)
    ensures Strict(WrittenValue(d, key, v)) == Ok(WrittenValue(d, key, v))
  {
    hide Strict, WellFormed, DocText, SpansOf, Within, PadFor, DumpValue, ReplaceNewlines;
    PadIsWs(d, key, loads);
    DumpValueIsStrict(v, PadFor(DocText(d), SpansOf(d), key), NewlineOf(DocText(d)));
    DumpValueIsStrict(v, "  ", "\n");
  }

  /** After setting a new key, the dict that is read has that key too, with the value that was set, when the parser reads the dump. */
  lemma LoadAfterSet(t: string, key: string, v: Json, loads: KeyReader, parse: Parser)
    requires Loadable(t, loads) && IsParser(parse, loads) && Proper(v) && Reads(loads, key) && LoadData(t, parse).Some?
    requires IndexOfKey(ParseMembers(t, loads).value.members, key) == |ParseMembers(t, loads).value.members|
    ensures Within(t, ParseMembers(t, loads).value) && SetText(t, key, v, loads).Ok?
    ensures parse(InsertedValue(t, ParseMembers(t, loads).value, key, v)) == Some(v) ==>
              LoadData(SetText(t, key, v, loads).value, parse) == Some(HookRules.Put(LoadData(t, parse).value, key, v))
  {
    hide *;
    var d := LoadableDoc(t, loads);
    SpanCount(d);
    SetIsAppended(d, key, v, loads);
    AppendedWellFormed(d, key, v, loads);
    AppendedMarkFree(d, key, v, loads);
    AppendedIsClosed(d, key, v, loads);
    LoadWritten(d, loads, parse);
    LoadWritten(Appended(d, key, v), loads, parse);
    AppendedPairs(d, key, v);
    OneMore(StrictPairs(Contents(d.entries)), key, WrittenValue(d, key, v), parse);
  }

  lemma SetIsAppended(d: Doc, key: string, v: Json, loads: KeyReader)
    requires WellFormed(d, loads) && Within(DocText(d), SpansOf(d)) && Commas(d) && Proper(v)
    requires ParseMembers(DocText(d), loads) == Ok(SpansOf(d)) && IndexOfKey(SpansOf(d).members, key) == |d.entries|
    ensures SetText(DocText(d), key, v, loads) == Ok(DocText(Appended(d, key, v)))
    ensures InsertedValue(DocText(d), SpansOf(d), key, v) == WrittenValue(d, key, v)
  {
    hide DocText, SpansOf, Within, WellFormed, SetAccepted, Appended, ParseMembers, DumpValue, NewValue, Hollow, HollowText;
    NotWhite(d);
    AppendIs(d, key, v, loads);
    HollowIs(d, loads);
  }

  lemma AppendedPairs(d: Doc, key: string, v: Json)
    requires Commas(d) && Within(DocText(d), SpansOf(d))
    requires StrictValue(WrittenValue(d, key, v)) == WrittenValue(d, key, v)
    ensures StrictPairs(Contents(Appended(d, key, v).entries)) == StrictPairs(Contents(d.entries)) + [(key, WrittenValue(d, key, v))]
  {
    hide DocText, SpansOf, Within, Appended, StrictValue;
    AppendedShape(d, key, v);
    GrownContents(d.entries, Appended(d, key, v).entries, key, WrittenValue(d, key, v));
  }

  lemma OneMore(pairs: seq<(string, string)>, key: string, x: string, parse: Parser)
    ensures FieldsOf(pairs, parse).Some? && parse(x).Some? ==>
              FieldsOf(pairs + [(key, x)], parse) == Some(HookRules.Put(FieldsOf(pairs, parse).value, key, parse(x).value))
  {
    assert (pairs + [(key, x)])[..|pairs|] == pairs;
  }

  // ----- Reading after a value was replaced -----

  /** Member `i` is the only one with its name. */
  predicate Single(ms: seq<Member>, i: nat)
    requires i < |ms|
  {
    forall j :: 0 <= j < |ms| && j != i ==> ms[j].key != ms[i].key
  }

  lemma ObjectStarts(fields: seq<Field>, w: nat)
    ensures Dumps(Obj(fields), w) != [] && Dumps(Obj(fields), w)[0] == '{'
  {
  }

  lemma StartStays(s: string, x: string)
    requires s != [] && s[0] == '{'
    ensures ReplaceNewlines(s, x) != [] && ReplaceNewlines(s, x)[0] == '{'
  {
  }

  /** The text of an object is no scalar. */
  lemma NewObjectStarts(t: string, p: Parsed, key: string, fields: seq<Field>)
    requires Within(t, p)
    ensures !IsScalar(NewValue(t, p, key, Obj(fields)))
  {
    hide Dumps, ReplaceNewlines;
    var pad := PadFor(t, p, key);
    ObjectStarts(fields, Width(pad));
    StartStays(Dumps(Obj(fields), Width(pad)), "\n" + pad);
    StartStays(DumpValue(Obj(fields), pad), NewlineOf(t));
  }

  lemma PutPut(d: HookRules.Dict, name: string, v: Json, w: Json)
    ensures HookRules.Put(HookRules.Put(d, name, v), name, w) == HookRules.Put(d, name, w)
  {
    hide HookRules.At, HookRules.Put;
    var i := HookRules.At(d, name);
    PutIs(d, name, v);
    PutIs(d, name, w);
    HookRules.AtUnique(HookRules.Put(d, name, v), name, i);
    PutIs(HookRules.Put(d, name, v), name, w);
  }

  /** A name that is there keeps its place. */
  lemma PutsCommute(d: HookRules.Dict, name: string, v: Json, other: string, w: Json)
    requires HookRules.Has(d, name) && other != name
    ensures HookRules.Put(HookRules.Put(d, name, v), other, w) == HookRules.Put(HookRules.Put(d, other, w), name, v)
  {
    hide HookRules.At, HookRules.Put;
    var i, j := HookRules.At(d, name), HookRules.At(d, other);
    var x, y := Field(name, v), Field(other, w);
    var a, b := d[i := x], if j < |d| then d[j := y] else d + [y];
    PutIs(d, name, v);
    PutIs(d, other, w);
    HookRules.AtUnique(a, other, j);
    HookRules.AtUnique(b, name, i);
    PutIs(a, other, w);
    PutIs(b, name, v);
    UpdatesCommute(d, i, j, x, y);
  }

  lemma UpdatesCommute(d: HookRules.Dict, i: nat, j: nat, x: Field, y: Field)
    requires i < |d| && i != j
    ensures j < |d| ==> d[i := x][j := y] == d[j := y][i := x]
    ensures d[i := x] + [y] == (d + [y])[i := x]
  {
  }

  lemma PutIs(d: HookRules.Dict, name: string, v: Json)
    ensures var i := HookRules.At(d, name);
            HookRules.Put(d, name, v) == if i < |d| then d[i := Field(name, v)] else d + [Field(name, v)]
  {
    hide HookRules.At;
  }

  /** The last member of a name has its value in the dict. */
  lemma {:induction false} FieldsHave(pairs: seq<(string, string)>, i: nat, parse: Parser)
    requires FieldsOf(pairs, parse).Some? && i < |pairs| && forall j :: i < j < |pairs| ==> pairs[j].0 != pairs[i].0
    ensures var data, name := FieldsOf(pairs, parse).value, pairs[i].0;
            parse(pairs[i].1).Some? && HookRules.Has(data, name) && HookRules.Get(data, name) == parse(pairs[i].1).value
  {
    hide HookRules.Put, HookRules.Get, HookRules.Has;
    if i < |pairs| - 1 {
      var front, last := pairs[..|pairs| - 1], pairs[|pairs| - 1];
      FieldsHave(front, i, parse);
      HookRules.PutElsewhere(FieldsOf(front, parse).value, last.0, parse(last.1).value, pairs[i].0);
    }
  }

  /** Another value for the last member of a name is another value in the dict. */
  lemma {:induction false} FieldsUpdate(pairs: seq<(string, string)>, i: nat, x: string, parse: Parser)
    requires FieldsOf(pairs, parse).Some? && i < |pairs| && forall j :: i < j < |pairs| ==> pairs[j].0 != pairs[i].0
    requires parse(x).Some?
    ensures FieldsOf(pairs[i := (pairs[i].0, x)], parse)
            == Some(HookRules.Put(FieldsOf(pairs, parse).value, pairs[i].0, parse(x).value))
  {
    hide HookRules.Put, HookRules.Get, HookRules.Has;
    var n := |pairs| - 1;
    var changed := pairs[i := (pairs[i].0, x)];
    if i == n {
      assert changed[..n] == pairs[..n];
      PutPut(FieldsOf(pairs[..n], parse).value, pairs[i].0, parse(pairs[i].1).value, parse(x).value);
    } else {
      assert changed[..n] == pairs[..n][i := (pairs[i].0, x)];
      FieldsUpdate(pairs[..n], i, x, parse);
      FieldsHave(pairs[..n], i, parse);
      PutsCommute(FieldsOf(pairs[..n], parse).value, pairs[i].0, parse(x).value, pairs[n].0, parse(pairs[n].1).value);
    }
  }

  lemma ReplacedIsMarkFree(d: Doc, i: nat, x: string)
    requires MarkFree(d) && i < |d.entries| && Place(d, i) && AllClosed(d.entries) && Closed(x)
    ensures MarkFree(ReplaceDoc(d, i, x)) && AllClosed(ReplaceDoc(d, i, x).entries)
  {
    hide StripMarks, Closed;
    if i > 0 {
      assert MarkFreeEntry(d.entries[i - 1]);
    }
    assert MarkFreeEntry(d.entries[i]);
    var es := ReplaceDoc(d, i, x).entries;
    assert |es| == |d.entries|;
    forall j | 0 <= j < |es|
      ensures MarkFreeEntry(es[j]) && Closed(es[j].value)
    {
      assert MarkFreeEntry(d.entries[j]) && Closed(d.entries[j].value);
      if j != i {
        assert es[j] == d.entries[j];
      }
    }
  }

  lemma SetIsReplaced(d: Doc, i: nat, key: string, fields: seq<Field>, loads: KeyReader)
    requires WellFormed(d, loads) && Within(DocText(d), SpansOf(d)) && Proper(Obj(fields)) && i < |d.entries|
    requires ParseMembers(DocText(d), loads) == Ok(SpansOf(d)) && IndexOfKey(SpansOf(d).members, key) == i
    ensures Place(d, i)
    ensures var r := ReplaceDoc(d, i, NewValue(DocText(d), SpansOf(d), key, Obj(fields)));
            SetText(DocText(d), key, Obj(fields), loads) == Ok(DocText(r)) && WellFormed(r, loads)
  {
    hide DocText, SpansOf, Within, WellFormed, SetAccepted, ReplaceDoc, ParseMembers, DumpValue, NewValue, IsScalar, IsValue;
    var x := NewValue(DocText(d), SpansOf(d), key, Obj(fields));
    SpanCount(d);
    NotWhite(d);
    ReplaceText(d, i, x, loads);
    SetUnfolds(DocText(d), SpansOf(d), key, Obj(fields));
    WrittenValueIsValue(d, key, Obj(fields), loads);
    NewObjectStarts(DocText(d), SpansOf(d), key, fields);
    ReplaceWellFormed(d, i, x, loads);
  }

  lemma NewIsStrict(d: Doc, key: string, v: Json, loads: KeyReader)
    requires WellFormed(d, loads) && Within(DocText(d), SpansOf(d)) && Proper(v)
    ensures Strict(NewValue(DocText(d), SpansOf(d), key, v)) == Ok(NewValue(DocText(d), SpansOf(d), key, v))
  {
    hide Strict, WellFormed, DocText, SpansOf, Within, PadFor, DumpValue, ReplaceNewlines;
    PadIsWs(d, key, loads);
    DumpValueIsStrict(v, PadFor(DocText(d), SpansOf(d), key), NewlineOf(DocText(d)));
  }

  /** After a single key was set to another object, the dict that is read has that object under it and is otherwise as before. */
  lemma LoadAfterReplace(t: string, key: string, fields: seq<Field>, loads: KeyReader, parse: Parser)
    requires Loadable(t, loads) && IsParser(parse, loads) && Proper(Obj(fields)) && LoadData(t, parse).Some?
    requires var ms := ParseMembers(t, loads).value.members; IndexOfKey(ms, key) < |ms| && Single(ms, IndexOfKey(ms, key))
    ensures Within(t, ParseMembers(t, loads).value) && SetText(t, key, Obj(fields), loads).Ok?
    ensures parse(NewValue(t, ParseMembers(t, loads).value, key, Obj(fields))) == Some(Obj(fields)) ==>
              LoadData(SetText(t, key, Obj(fields), loads).value, parse) == Some(HookRules.Put(LoadData(t, parse).value, key, Obj(fields)))
  {
    hide *;
    var d := LoadableDoc(t, loads);
    var i := IndexOfKey(SpansOf(d).members, key);
    SpanCount(d);
    SetIsReplaced(d, i, key, fields, loads);
    var x := NewValue(DocText(d), SpansOf(d), key, Obj(fields));
    NewIsStrict(d, key, Obj(fields), loads);
    StrictIsClosed(x);
    ReplacedIsMarkFree(d, i, x);
    LoadWritten(d, loads, parse);
    LoadWritten(ReplaceDoc(d, i, x), loads, parse);
    var pairs := StrictPairs(Contents(d.entries));
    KeysAre(d, key);
    ReplacedPairs(d, i, x);
    if parse(x) == Some(Obj(fields)) {
      FieldsUpdate(pairs, i, x, parse);
    }
  }

  lemma StrictIsClosed(x: string)
    requires Strict(x) == Ok(x)
    ensures Closed(x) && StrictValue(x) == x
  {
  }

  /** The names in the dict's source are those of the members. */
  lemma KeysAre(d: Doc, key: string)
    requires Commas(d) && Within(DocText(d), SpansOf(d)) && IndexOfKey(SpansOf(d).members, key) < |SpansOf(d).members|
    requires Single(SpansOf(d).members, IndexOfKey(SpansOf(d).members, key))
    ensures var pairs, i := StrictPairs(Contents(d.entries)), IndexOfKey(SpansOf(d).members, key);
            |pairs| == |d.entries| && i < |pairs| && pairs[i].0 == key && forall j :: i < j < |pairs| ==> pairs[j].0 != key
  {
    hide DocText, SpansOf, Within, Pairs, StrictValue;
    SpanCount(d);
    ContentsOf(d);
    forall j | 0 <= j < |d.entries|
      ensures StrictPairs(Contents(d.entries))[j].0 == SpansOf(d).members[j].key
    {
      MemberName(d, j);
    }
  }

  lemma MemberName(d: Doc, j: nat)
    requires Commas(d) && Within(DocText(d), SpansOf(d)) && j < |d.entries|
    ensures |SpansOf(d).members| == |d.entries| && SpansOf(d).members[j].key == d.entries[j].key
  {
    hide DocText, MembersOf, EntriesLen, Within;
    SpanAt(d, j);
  }

  lemma ReplacedPairs(d: Doc, i: nat, x: string)
    requires i < |d.entries| && Place(d, i) && StrictValue(x) == x
    ensures var pairs := StrictPairs(Contents(d.entries));
            StrictPairs(Contents(ReplaceDoc(d, i, x).entries)) == pairs[i := (pairs[i].0, x)]
  {
    hide StrictValue, ReplaceDoc;
    ReplacedContents(d, i, x);
  }
}
