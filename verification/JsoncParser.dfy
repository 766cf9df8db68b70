/**
 That there is a parser of the kind the reading of texts asks for: any reader of the values that are not
 objects extends to one that reads objects too.
 */
module JsoncParser {
  import opened Options
  import opened Text
  import opened JsoncScanner
  import opened JsoncDoc
  import opened JsonDump
  import opened JsoncEdit
  import opened JsoncAppend
  import opened JsoncTheorems
  import opened JsoncContents
  import opened JsoncStrict
  import opened JsoncStrictFacts
  import opened JsoncStrictDoc
  import opened JsoncStrictDump
  import opened JsoncLoads
  import HookRules

  /** The text of an object with white space only between its tokens. */
  ghost predicate IsObjectText(o: string, loads: KeyReader) { exists d :: WellFormed(d, loads) && PlainDoc(d) && DocText(d) == o }

  /** Names and value texts; every value is shorter than the text. */
  function PairsIn(o: string, loads: KeyReader): (pairs: seq<(string, string)>)
    ensures forall i :: 0 <= i < |pairs| ==> |pairs[i].1| < |o|
  {
    if ParseMembers(o, loads).Ok? then
      ParsedWithin(o, loads);
      PairsAreShorter(o, ParseMembers(o, loads).value);
      Pairs(o, ParseMembers(o, loads).value)
    else []
  }

  lemma PairsAreShorter(o: string, p: Parsed)
    requires Within(o, p)
    ensures forall i :: 0 <= i < |Pairs(o, p)| ==> |Pairs(o, p)[i].1| < |o|
  {
    forall i | 0 <= i < |Pairs(o, p)|
      ensures |Pairs(o, p)[i].1| < |o|
    {
      assert MemberWithin(p.members[i], p.close);
    }
  }

  ghost function Reading(o: string, loads: KeyReader, others: Parser): Option<Json>
    decreases |o|, 1, 0
  {
    if !IsObjectText(o, loads) then others(o)
    else
      match ReadFields(PairsIn(o, loads), |o|, loads, others)
      case None => None
      case Some(fields) => Some(Obj(fields))
  }

  ghost function ReadFields(pairs: seq<(string, string)>, bound: nat, loads: KeyReader, others: Parser): Option<HookRules.Dict>
    requires forall i :: 0 <= i < |pairs| ==> |pairs[i].1| < bound
    decreases bound, 0, |pairs|
  {
    if pairs == [] then Some([])
    else
      var before, last := ReadFields(pairs[..|pairs| - 1], bound, loads, others), pairs[|pairs| - 1];
      var v := Reading(last.1, loads, others);
      if before.Some? && v.Some? then Some(HookRules.Put(before.value, last.0, v.value)) else None
  }

  lemma {:induction false} FieldsAreRead(pairs: seq<(string, string)>, bound: nat, loads: KeyReader, others: Parser)
    requires forall i :: 0 <= i < |pairs| ==> |pairs[i].1| < bound
    ensures FieldsOf(pairs, s => Reading(s, loads, others)) == ReadFields(pairs, bound, loads, others)
    decreases |pairs|
  {
    hide Reading, HookRules.Put;
    if pairs != [] {
      FieldsAreRead(pairs[..|pairs| - 1], bound, loads, others);
    }
  }

  lemma {:induction false} AllAreRead(pairs: seq<(string, string)>, bound: nat, loads: KeyReader, others: Parser)
    requires forall i :: 0 <= i < |pairs| ==> |pairs[i].1| < bound
    requires ReadFields(pairs, bound, loads, others).Some?
    ensures forall i :: 0 <= i < |pairs| ==> Reading(pairs[i].1, loads, others).Some?
    decreases |pairs|
  {
    hide Reading, HookRules.Put;
    if pairs != [] {
      var front := pairs[..|pairs| - 1];
      AllAreRead(front, bound, loads, others);
      forall i | 0 <= i < |pairs|
        ensures Reading(pairs[i].1, loads, others).Some?
      {
        if i < |front| {
          assert pairs[i] == front[i];
        }
      }
    }
  }

  lemma PairsOfWritten(d: Doc, loads: KeyReader)
    requires WellFormed(d, loads)
    ensures PairsIn(DocText(d), loads) == Contents(d.entries)
  {
    hide *;
    hide PairsIn;
    ReadContents(d, loads);
    PairsInIs(DocText(d), loads);
  }

  lemma PairsInIs(o: string, loads: KeyReader)
    requires ParseMembers(o, loads).Ok? && Within(o, ParseMembers(o, loads).value)
    ensures PairsIn(o, loads) == Pairs(o, ParseMembers(o, loads).value)
  {
    hide ParseMembers, Pairs, Within;
  }

  lemma PlainStaysEntry(e: Entry)
    requires PlainEntry(e) && StrictValue(e.value) == e.value
    ensures StrictInner(e) == e && (e.comma.None? ==> StrictLast(e) == e)
  {
    hide Bare, StrictValue;
    WsIsBare(e.preColon);
    WsIsBare(e.postColon);
    WsIsBare(e.postValue);
    if e.comma.Some? {
      WsIsBare(e.comma.value);
    }
    assert e.postValue + "" == e.postValue;
  }

  lemma {:induction false} PlainStaysEntries(es: seq<Entry>)
    requires forall i :: 0 <= i < |es| ==> PlainEntry(es[i]) && StrictValue(es[i].value) == es[i].value
    requires es != [] ==> es[|es| - 1].comma.None?
    ensures StrictEntries(es) == es
  {
    hide PlainEntry, StrictInner, StrictLast, StrictValue;
    if es != [] {
      PlainStaysEntry(es[0]);
      if |es| > 1 {
        PlainStaysEntries(es[1..]);
        assert es == [es[0]] + es[1..];
      }
    }
  }

  /** An object whose values are strict is strict. */
  lemma PlainStays(d: Doc, loads: KeyReader)
    requires WellFormed(d, loads) && PlainDoc(d)
    requires forall i :: 0 <= i < |d.entries| ==> Strict(d.entries[i].value) == Ok(d.entries[i].value)
    ensures Strict(DocText(d)) == Ok(DocText(d))
  {
    hide WellFormed, DocText, Strict, PlainEntry, StrictEntries, Bare;
    StrictText(d, loads);
    PlainStaysEntries(d.entries);
    WsIsBare(d.pre);
    WsIsBare(d.inner);
    WsIsBare(d.post);
    assert StrictDoc(d) == d;
  }

  /** What the reader of other values accepts is strict, and so is what is read with it. */
  ghost predicate AcceptsStrict(others: Parser) { forall o :: others(o).Some? ==> Strict(o) == Ok(o) }

  lemma {:induction false} ReadsStrict(o: string, loads: KeyReader, others: Parser)
    requires AcceptsStrict(others) && Reading(o, loads, others).Some?
    ensures Strict(o) == Ok(o)
    decreases |o|
  {
    if IsObjectText(o, loads) {
      hide WellFormed, PlainDoc, DocText, Strict, ReadFields, PairsIn, AcceptsStrict, StrictValue;
      var d :| WellFormed(d, loads) && PlainDoc(d) && DocText(d) == o;
      PairsOfWritten(d, loads);
      var pairs := Contents(d.entries);
      AllAreRead(PairsIn(o, loads), |o|, loads, others);
      forall i | 0 <= i < |d.entries|
        ensures Strict(d.entries[i].value) == Ok(d.entries[i].value)
      {
        assert pairs[i].1 == d.entries[i].value;
        ReadsStrict(d.entries[i].value, loads, others);
      }
      PlainStays(d, loads);
    }
  }

  /** Such a parser exists, whatever reads the strings, numbers, words and lists. */
  lemma ParserExists(loads: KeyReader, others: Parser) returns (parse: Parser)
    requires AcceptsStrict(others)
    ensures IsParser(parse, loads) && forall o :: !IsObjectText(o, loads) ==> parse(o) == others(o)
  {
    hide WellFormed, PlainDoc, DocText, Strict, ReadFields, PairsIn, FieldsOf, AcceptsStrict;
    parse := s => Reading(s, loads, others);
    forall o | parse(o).Some?
      ensures Strict(o) == Ok(o)
    {
      ReadsStrict(o, loads, others);
    }
    forall d | WellFormed(d, loads) && PlainDoc(d)
      ensures parse(DocText(d)) == ObjectOf(Contents(d.entries), parse)
    {
      assert IsObjectText(DocText(d), loads);
      PairsOfWritten(d, loads);
      FieldsAreRead(PairsIn(DocText(d), loads), |DocText(d)|, loads, others);
    }
  }
}
