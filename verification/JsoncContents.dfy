/** What the edits do to the content of a text: its member names and the texts of their values, in order. */
module JsoncContents {
  import opened Text
  import opened JsoncScanner
  import opened JsoncDoc
  import opened JsoncGaps
  import opened JsoncSplice
  import opened JsonDump
  import opened JsoncEdit
  import opened JsoncSet
  import opened JsoncAppend
  import opened JsoncDelete
  import opened JsoncDeleteSafe
  import opened JsoncTheorems
  import opened JsoncDeleteExact

  function Contents(es: seq<Entry>): (c: seq<(string, string)>)
    ensures |c| == |es|
  {
    seq(|es|, i requires 0 <= i < |es| => (es[i].key, es[i].value))
  }

  lemma ContentsOf(d: Doc)
    requires Commas(d) && Within(DocText(d), SpansOf(d))
    ensures Pairs(DocText(d), SpansOf(d)) == Contents(d.entries)
  {
    hide DocText, SpansOf, Within, Pairs;
    PairsOf(d);
  }

  /** The content of a text that is read as `d`. */
  lemma ReadContents(d: Doc, loads: KeyReader)
    requires WellFormed(d, loads)
    ensures ParseMembers(DocText(d), loads) == Ok(SpansOf(d)) && Within(DocText(d), SpansOf(d))
    ensures Pairs(DocText(d), SpansOf(d)) == Contents(d.entries)
  {
    hide DocText, SpansOf, Within, Pairs, WellFormed, ParseMembers;
    WrittenIsRead(d, loads);
    ParsedWithin(DocText(d), loads);
    CommasOf(d, loads);
    ContentsOf(d);
  }

  // ----- Setting -----

  lemma ReplacedContents(d: Doc, i: nat, x: string)
    requires i < |d.entries| && Place(d, i)
    ensures Contents(ReplaceDoc(d, i, x).entries) == Contents(d.entries)[i := (d.entries[i].key, x)]
  {
    hide GapAt;
    var es := ReplaceDoc(d, i, x).entries;
    assert |es| == |d.entries|;
    assert forall j :: 0 <= j < |es| && j != i ==> es[j].key == d.entries[j].key && es[j].value == d.entries[j].value;
  }

  /** After setting a key that is there, its value is the dump and every other name and value is what it was. */
  lemma SetContents(t: string, key: string, v: Json, loads: KeyReader)
    requires ParseMembers(t, loads).Ok? && Proper(v)
    requires IndexOfKey(ParseMembers(t, loads).value.members, key) < |ParseMembers(t, loads).value.members|
    ensures var p := ParseMembers(t, loads).value;
            var i := IndexOfKey(p.members, key);
            && SetText(t, key, v, loads).Ok? && Within(t, p) && MemberWithin(p.members[i], p.close)
            && (var r := SetText(t, key, v, loads).value;
                !RunsOn(t, p.members[i], NewValue(t, p, key, v)) ==>
                && ParseMembers(r, loads).Ok? && Within(r, ParseMembers(r, loads).value)
                && Pairs(r, ParseMembers(r, loads).value) == Pairs(t, p)[i := (key, NewValue(t, p, key, v))])
  {
    hide DocText, SpansOf, ParseMembers, WellFormed, NewValue, SetText, Swallows, RunsOn, ReplaceDoc, Replaced, IsValue, Pairs, Within;
    ParsedWithin(t, loads);
    SetReplaces(t, key, v, loads);
    var d := ReadIsWritten(t, loads);
    var i := IndexOfKey(SpansOf(d).members, key);
    var x := NewValue(t, SpansOf(d), key, v);
    SpanCount(d);
    ReplaceText(d, i, x, loads);
    SwallowsIs(d, i, x, loads);
    EntrySpan(d, i, loads);
    if !RunsOn(t, SpansOf(d).members[i], x) {
      WrittenValueIsValue(d, key, v, loads);
      ReplaceWellFormed(d, i, x, loads);
      ReadContents(d, loads);
      ReadContents(ReplaceDoc(d, i, x), loads);
      ReplacedContents(d, i, x);
    }
  }

  lemma GrownContents(es: seq<Entry>, es2: seq<Entry>, key: string, x: string)
    requires |es2| == |es| + 1 && es2[|es|].key == key && es2[|es|].value == x
    requires |es| > 0 ==> es2[..|es| - 1] == es[..|es| - 1]
    requires |es| > 0 ==> es2[|es| - 1].key == es[|es| - 1].key && es2[|es| - 1].value == es[|es| - 1].value
    ensures Contents(es2) == Contents(es) + [(key, x)]
  {
    forall j | 0 <= j < |es| - 1
      ensures es2[j] == es[j]
    {
      assert es2[..|es| - 1][j] == es[..|es| - 1][j];
    }
  }

  /** After setting a key that is not there, it comes last, with the dump, behind everything there was. */
  lemma AppendContents(t: string, key: string, v: Json, loads: KeyReader)
    requires ParseMembers(t, loads).Ok? && Proper(v) && Reads(loads, key)
    requires IndexOfKey(ParseMembers(t, loads).value.members, key) == |ParseMembers(t, loads).value.members|
    ensures var p := ParseMembers(t, loads).value;
            && SetText(t, key, v, loads).Ok? && Within(t, p)
            && (var r := SetText(t, key, v, loads).value;
                && ParseMembers(r, loads).Ok? && Within(r, ParseMembers(r, loads).value)
                && Pairs(r, ParseMembers(r, loads).value) == Pairs(t, p) + [(key, InsertedValue(t, p, key, v))])
  {
    hide DocText, SpansOf, ParseMembers, WellFormed, NewValue, DumpValue, SetAccepted, Appended, Pairs, Within, HollowText, Hollow;
    ParsedWithin(t, loads);
    var d := ReadIsWritten(t, loads);
    SpanCount(d);
    NotWhite(d);
    CommasOf(d, loads);
    AppendIs(d, key, v, loads);
    AppendedWellFormed(d, key, v, loads);
    AppendedShape(d, key, v);
    HollowIs(d, loads);
    ReadContents(d, loads);
    ReadContents(Appended(d, key, v), loads);
    GrownContents(d.entries, Appended(d, key, v).entries, key, InsertedValue(t, SpansOf(d), key, v));
  }

  // ----- Deleting -----

  lemma SplicedContents(es: seq<Entry>, i: nat, front: seq<Entry>)
    requires i < |es| && |front| == i
    requires forall j :: 0 <= j < i ==> front[j].key == es[j].key && front[j].value == es[j].value
    ensures Contents(front + es[i + 1..]) == Contents(es)[..i] + Contents(es)[i + 1..]
  {
  }

  lemma DeletedContents(d: Doc, i: nat)
    requires Commas(d) && i < |d.entries|
    ensures Contents(DeleteDoc(d, i).entries) == Contents(d.entries)[..i] + Contents(d.entries)[i + 1..]
  {
    hide GapAt, RTrim, Blank, JoinedLines, Contents;
    var es, d2 := d.entries, DeleteDoc(d, i);
    var front := d2.entries[..i];
    assert d2.entries == front + es[i + 1..];
    SplicedContents(es, i, front);
  }

  /** After a safe deletion the key and its value are gone and every other name and value is what it was. */
  lemma DeleteContents(t: string, key: string, loads: KeyReader)
    requires ParseMembers(t, loads).Ok?
    requires IndexOfKey(ParseMembers(t, loads).value.members, key) < |ParseMembers(t, loads).value.members|
    ensures var p := ParseMembers(t, loads).value;
            var i := IndexOfKey(p.members, key);
            && DeleteText(t, key, loads).Ok? && Within(t, p)
            && (var r := DeleteText(t, key, loads).value;
                DeletionIsSafe(t, p, i) ==>
                && ParseMembers(r, loads).Ok? && Within(r, ParseMembers(r, loads).value)
                && Pairs(r, ParseMembers(r, loads).value) == Pairs(t, p)[..i] + Pairs(t, p)[i + 1..])
  {
    hide DocText, SpansOf, ParseMembers, WellFormed, DeleteAccepted, DeleteDoc, Safe, DeletionIsSafe, Within, Pairs;
    ParsedWithin(t, loads);
    var d := ReadIsWritten(t, loads);
    var i := IndexOfKey(SpansOf(d).members, key);
    SpanCount(d);
    CommasOf(d, loads);
    DeleteIs(d, i, loads);
    SafeIsSafe(d, i, loads);
    if Safe(d, i) {
      SafeIsRead(d, i, loads);
      var d2 := DeleteDoc(d, i);
      ParsedWithin(DocText(d2), loads);
      DeletedContents(d, i);
      DeletedCommas(d, i);
      ContentsOf(d2);
      ReadContents(d, loads);
    }
  }

  lemma DeletedCommas(d: Doc, i: nat)
    requires Commas(d) && i < |d.entries|
    ensures Commas(DeleteDoc(d, i))
  {
    hide GapAt, RTrim, Blank, JoinedLines;
  }
}
