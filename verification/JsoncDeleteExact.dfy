/** `jsonc_delete` of a key that is there: accepted with the right members exactly when the deletion is safe. */
module JsoncDeleteExact {
  import opened Options
  import opened Text
  import opened JsoncScanner
  import opened JsoncDoc
  import opened JsoncGaps
  import opened JsoncSplice
  import opened JsonDump
  import opened JsoncEdit
  import opened JsoncSet
  import opened JsoncAppend
  import opened JsoncDelete
  import opened JsoncDeleteSafe
  import opened JsoncTheorems

  /** The text kept in front of the key, after the brace or comma before it. */
  function KeptBefore(t: string, p: Parsed, i: nat): string
    requires Within(t, p) && i < |p.members|
  {
    assert MemberWithin(p.members[i], p.close);
    var begin := TrimBack(t, p.open + 1, p.members[i].keyStart);
    if i == 0 then Slice(t, p.open + 1, begin)
    else
      assert MemberWithin(p.members[i - 1], p.close);
      match AfterTrivia(t[p.members[i - 1].valueEnd..])
      case Ok(r) => Slice(t, |t| - |r| + 1, begin)
      case Err(_) => ""
  }

  /** The text kept after the value, or after its comma, up to the closing brace. */
  function KeptAfter(t: string, p: Parsed, i: nat): string
    requires Within(t, p) && i < |p.members|
  {
    assert MemberWithin(p.members[i], p.close);
    match AfterTrivia(t[p.members[i].valueEnd..])
    case Ok(r) =>
      if CommaFollows(r) then Slice(t, |t| - |r| + 1, p.close) else Slice(t, p.members[i].valueEnd, p.close)
    case Err(_) => ""
  }

  predicate HasComma(t: string, p: Parsed, i: nat)
    requires Within(t, p) && i < |p.members|
  {
    assert MemberWithin(p.members[i], p.close);
    var r := AfterTrivia(t[p.members[i].valueEnd..]);
    r.Ok? && CommaFollows(r.value)
  }

  /** The text between the previous value and its comma. */
  function BeforeComma(t: string, p: Parsed, i: nat): string
    requires Within(t, p) && 0 < i < |p.members|
  {
    assert MemberWithin(p.members[i - 1], p.close);
    match AfterTrivia(t[p.members[i - 1].valueEnd..])
    case Ok(r) => Slice(t, p.members[i - 1].valueEnd, |t| - |r|)
    case Err(_) => ""
  }

  /**
   What a caller can check before deleting member `i`. A last member is at risk when a line comment
   ends just before it: the newline that closed that comment is trimmed away, so what is kept after
   the member must hold another one, with nothing but white space and comments behind it. Where the
   previous member loses its comma, one more comma does no harm there, and its value must not run
   on into a byte order mark.
   */
  predicate DeletionIsSafe(t: string, p: Parsed, i: nat)
    requires Within(t, p) && i < |p.members|
  {
    var before, after := KeptBefore(t, p, i), KeptAfter(t, p, i);
    var k := Find(after, '\n');
    if i + 1 < |p.members| then true
    else if i == 0 || HasComma(t, p, i) then
      OpenComment(before) ==> k < |after| && IsGap(after[k + 1..])
    else
      assert MemberWithin(p.members[i - 1], p.close);
      && (OpenComment(before) ==> k < |after| && CommaGap(after[k + 1..]))
      && !Swallows(t[p.members[i - 1].valueStart..p.members[i - 1].valueEnd], BeforeComma(t, p, i) + (before + after))
  }

  // ----- The caller's condition is the one on the document -----

  lemma EmptyIsNotOpen(g: string)
    requires Blank(g)
    ensures !OpenComment(g)
  {
    if OpenComment(g) {
      OpenIsDark(g);
    }
  }

  lemma {:induction false} OpenIsDark(g: string)
    requires OpenComment(g)
    ensures !Blank(g)
    decreases |g|
  {
    var n := ItemLen(g);
    if n == 0 {
      assert g[0] in g;
    } else {
      OpenIsDark(g[n..]);
      assert forall c <- g[n..] :: c in g;
    }
  }

  lemma TrimmedIsGapOrOpen(g: string)
    requires IsGap(g)
    ensures IsGap(RTrim(g)) <==> !OpenComment(RTrim(g))
  {
    hide IsGap, OpenComment;
    RTrimIs(g);
    TrimmedGap(g, |RTrim(g)|);
    if OpenComment(RTrim(g)) {
      OpenIsNoGap(RTrim(g));
    }
  }

  /** The parts the condition speaks of, read off the document. */
  lemma KeptParts(d: Doc, i: nat, loads: KeyReader)
    requires WellFormed(d, loads) && Within(DocText(d), SpansOf(d)) && i < |d.entries|
    ensures Commas(d) && |SpansOf(d).members| == |d.entries|
    ensures KeptBefore(DocText(d), SpansOf(d), i) == RTrim(GapAt(d, i))
    ensures i + 1 == |d.entries| ==> KeptAfter(DocText(d), SpansOf(d), i) == TailGap(d.entries[i])
    ensures HasComma(DocText(d), SpansOf(d), i) <==> d.entries[i].comma.Some?
  {
    hide DocText, SpansOf, WellFormed, EntriesThen, RTrim;
    CommasOf(d, loads);
    SpanCount(d);
    KeptBeforeIs(d, i, loads);
    HasCommaIs(d, i, loads);
    if i + 1 == |d.entries| {
      KeptAfterIs(d, i, loads);
    }
  }

  lemma HasCommaIs(d: Doc, i: nat, loads: KeyReader)
    requires WellFormed(d, loads) && Within(DocText(d), SpansOf(d)) && i < |d.entries| && |SpansOf(d).members| == |d.entries|
    ensures HasComma(DocText(d), SpansOf(d), i) <==> d.entries[i].comma.Some?
  {
    hide DocText, SpansOf, WellFormed, AfterTrivia, CommaThen, CommaFollows, TailThen, Back, TriviaStart;
    AfterEntry(d, i, loads);
  }

  lemma KeptAfterIs(d: Doc, i: nat, loads: KeyReader)
    requires WellFormed(d, loads) && Within(DocText(d), SpansOf(d)) && i + 1 == |d.entries| && |SpansOf(d).members| == |d.entries|
    ensures KeptAfter(DocText(d), SpansOf(d), i) == TailGap(d.entries[i])
  {
    hide DocText, SpansOf, WellFormed, AfterTrivia, Back, TriviaStart;
    AfterEntry(d, i, loads);
    LastBack(d, i);
    CloseOf(d, loads);
    var t, p, e, r := DocText(d), SpansOf(d), d.entries[i], "}" + d.post;
    var ve := p.members[i].valueEnd;
    match e.comma
    case None => SliceAt(t, ve, "", e.postValue, r);
    case Some(g) =>
      Assoc(e.postValue, ",", g + r);
      SliceAt(t, ve, e.postValue + ",", g, r);
  }

  lemma SliceAt(t: string, k: nat, a: string, b: string, r: string)
    requires k <= |t| && t[k..] == a + (b + r)
    ensures Slice(t, k + |a|, k + |a| + |b|) == b
  {
    Glue(t, k);
    Assoc(t[..k], a, b + r);
    SliceMiddle(t[..k] + a, b, r);
  }

  lemma KeptBeforeIs(d: Doc, i: nat, loads: KeyReader)
    requires WellFormed(d, loads) && Within(DocText(d), SpansOf(d)) && i < |d.entries| && |SpansOf(d).members| == |d.entries|
    ensures Place(d, i) && KeptBefore(DocText(d), SpansOf(d), i) == RTrim(GapAt(d, i))
  {
    hide DocText, SpansOf, WellFormed, AfterTrivia, Back, TriviaStart, RTrim, TrimBack, Stem, IsGap, Slice;
    BeforeEntry(d, i, loads);
    OpenOf(d);
    if i == 0 {
      StemEnd(d, 0);
      SliceTrimmed(Stem(d, 0), d.inner, Back(d.entries[0..], d.post));
    } else {
      CommaBefore(d, i, loads);
    }
  }

  /** Reading on from the previous value to its comma, and the trimmed gap behind that. */
  lemma CommaBefore(d: Doc, i: nat, loads: KeyReader)
    requires WellFormed(d, loads) && 0 < i < |d.entries|
    ensures Place(d, i) && |SpansOf(d).members| == |d.entries|
    ensures var t, m := DocText(d), SpansOf(d).members[i - 1];
            && 0 <= m.valueEnd <= |t| && AfterTrivia(t[m.valueEnd..]).Ok?
            && Slice(t, |t| - |AfterTrivia(t[m.valueEnd..]).value| + 1, |Stem(d, i)| + |RTrim(GapAt(d, i))|) == RTrim(GapAt(d, i))
  {
    hide DocText, SpansOf, WellFormed, AfterTrivia, Back, TriviaStart, RTrim, Stem, IsGap, Slice, Upto, TrimBack;
    SpanCount(d);
    BeforeEntry(d, i, loads);
    var g, x, pv := GapAt(d, i), Back(d.entries[i..], d.post), d.entries[i - 1].postValue;
    UptoEnd(d, i, loads);
    StemIsUpto(d, i);
    AfterEntry(d, i - 1, loads);
    CommaCut(Upto(d, i), pv, g, x);
    assert |Stem(d, i)| == |Upto(d, i)| + |pv| + 1;
  }

  lemma SliceTrimmed(a: string, g: string, x: string)
    ensures Slice(a + (g + x), |a|, |a| + |RTrim(g)|) == RTrim(g)
  {
    var g1, ws := RTrim(g), g[|RTrim(g)|..];
    assert g == g1 + ws;
    Assoc(g1, ws, x);
    SliceMiddle(a, g1, ws + x);
  }

  lemma BeforeCommaIs(d: Doc, i: nat, loads: KeyReader)
    requires WellFormed(d, loads) && Within(DocText(d), SpansOf(d)) && 0 < i < |d.entries| && |SpansOf(d).members| == |d.entries|
    ensures BeforeComma(DocText(d), SpansOf(d), i) == d.entries[i - 1].postValue
    ensures var m := SpansOf(d).members[i - 1];
            0 <= m.valueStart <= m.valueEnd <= |DocText(d)| && DocText(d)[m.valueStart..m.valueEnd] == d.entries[i - 1].value
  {
    hide DocText, SpansOf, WellFormed, AfterTrivia, Back, TriviaStart, Stem, GapAt, HeadText;
    TextAroundValue(d, i - 1, loads);
    AfterEntry(d, i - 1, loads);
    var e, r := d.entries[i - 1], Back(d.entries[i..], d.post);
    SliceAt(DocText(d), SpansOf(d).members[i - 1].valueEnd, "", e.postValue, CommaThen(e.comma, r));
  }

  lemma SafeIsSafe(d: Doc, i: nat, loads: KeyReader)
    requires WellFormed(d, loads) && Within(DocText(d), SpansOf(d)) && i < |d.entries|
    ensures Commas(d) && |SpansOf(d).members| == |d.entries|
    ensures DeletionIsSafe(DocText(d), SpansOf(d), i) <==> Safe(d, i)
  {
    hide DocText, SpansOf, WellFormed, KeptBefore, KeptAfter, BeforeComma, OpenComment, IsGap, CommaGap, RTrim, Swallows, HasComma;
    KeptParts(d, i, loads);
    TailIsGap(d, i, loads);
    TrimmedIsGapOrOpen(GapAt(d, i));
    if i > 0 {
      BeforeCommaIs(d, i, loads);
    }
    AfterIs(d.entries[i]);
  }

  lemma AfterIs(e: Entry)
    ensures e.comma.None? ==> TailGap(e) == e.postValue
  {
  }

  // ----- An unsafe deletion is not read back as it should be -----

  /** Two documents with the same text and spans have the same tail behind the same last value. */
  lemma SameTail(a: Doc, b: Doc, i: nat)
    requires 0 < i == |a.entries| == |b.entries| && Place(a, i - 1) && Place(b, i - 1)
    requires DocText(a) == DocText(b) && SpansOf(a) == SpansOf(b)
    ensures a.entries[i - 1].value == b.entries[i - 1].value && |a.post| == |b.post|
    ensures TailThen(a.entries[i - 1], "}" + a.post) == TailThen(b.entries[i - 1], "}" + b.post)
  {
    DocLen(a);
    DocLen(b);
    hide DocText, SpansOf, Stem, GapAt, HeadText, TailThen, EntriesThen, EntryThen, Back;
    ValueTextAt(a, i - 1);
    ValueTextAt(b, i - 1);
    LastBack(a, i - 1);
    LastBack(b, i - 1);
  }

  /** The last member before the closing brace, read back, leaves just the brace and what follows it. */
  lemma TailReadBack(e: Entry, loads: KeyReader, post: string)
    requires WellFormedEntry(e, loads)
    ensures AfterComma(TailThen(e, "}" + post)) == Ok("}" + post)
    ensures TailThen(e, "}" + post) == TailThen(e, "") + ("}" + post)
  {
    MarkRead('}', post);
    CommaRead(e, loads, "}" + post);
    var r := "}" + post;
    assert "" + r == r;
    if e.comma.Some? {
      Assoc(e.comma.value, "", r);
      Assoc(",", e.comma.value + "", r);
    }
    Assoc(e.postValue, CommaThen(e.comma, ""), r);
  }

  lemma SameBack(a: string, x: string, b: string, y: string)
    requires a + x == b + y && |x| == |y|
    ensures a == b && x == y
  {
    Cut(a, x);
    Cut(b, y);
  }

  /** Read back with the member gone, the gap in front of the brace is what was kept there. */
  lemma ReadBackInside(d: Doc, gap: string, loads: KeyReader)
    requires ParseMembers(DocText(Splice(d, 0, gap, [])), loads) == Ok(SpansOf(Splice(d, 0, gap, [])))
    ensures IsGap(gap)
  {
    hide ParseMembers, IsGap, WellFormed, MembersOf, EntriesLen;
    var a := Splice(d, 0, gap, []);
    var b := ReadIsWritten(DocText(a), loads);
    SpanCount(a);
    SpanCount(b);
    NoEntries(a.post);
    NoEntries(b.post);
    assert DocText(a) == a.pre + ("{" + (gap + ("}" + a.post)));
    assert DocText(b) == b.pre + ("{" + (b.inner + ("}" + b.post)));
    CutInner(a.pre, gap, "}" + a.post);
    CutInner(b.pre, b.inner, "}" + b.post);
    InnerIsGap(b, loads);
  }

  lemma InnerIsGap(d: Doc, loads: KeyReader)
    requires WellFormed(d, loads)
    ensures IsGap(d.inner)
  {
  }

  lemma ReadBackLast(a: Doc, i: nat, loads: KeyReader) returns (e: Entry)
    requires 0 < i == |a.entries| && Place(a, i - 1)
    requires ParseMembers(DocText(a), loads) == Ok(SpansOf(a))
    ensures WellFormedEntry(e, loads) && e.value == a.entries[i - 1].value
    ensures TailThen(e, "}" + a.post) == TailThen(a.entries[i - 1], "}" + a.post)
    ensures AfterComma(TailThen(a.entries[i - 1], "}" + a.post)) == Ok("}" + a.post)
  {
    hide ParseMembers, IsGap, DocText, SpansOf, EntriesThen, WellFormed, TailThen, AfterComma;
    var b := ReadIsWritten(DocText(a), loads);
    SpanCount(a);
    SpanCount(b);
    CommasOf(b, loads);
    SameTail(a, b, i);
    e := b.entries[i - 1];
    EntryTail(b, i - 1, loads);
    TailReadBack(e, loads, b.post);
    TailReadFront(a.entries[i - 1], a.post);
    SameBack(TailThen(a.entries[i - 1], ""), "}" + a.post, TailThen(e, ""), "}" + b.post);
  }

  lemma TailReadFront(e: Entry, post: string)
    ensures TailThen(e, "}" + post) == TailThen(e, "") + ("}" + post)
  {
    var r := "}" + post;
    assert "" + r == r;
    if e.comma.Some? {
      Assoc(e.comma.value, "", r);
      Assoc(",", e.comma.value + "", r);
    }
    Assoc(e.postValue, CommaThen(e.comma, ""), r);
  }

  lemma CommaThenGap(pv: string, gap: string, post: string)
    requires IsGap(pv) && AfterComma(pv + ("," + (gap + ("}" + post)))) == Ok("}" + post)
    ensures IsGap(gap)
  {
    hide IsGap, AfterTrivia;
    var r := "}" + post;
    MarkRead(',', gap + r);
    GapRead(pv, "," + (gap + r));
    var h := TriviaRead(gap + r);
    SameFront(gap, h, r);
  }

  lemma ReadBackIsSafe(d: Doc, i: nat, loads: KeyReader)
    requires WellFormed(d, loads) && Commas(d) && i < |d.entries|
    requires ParseMembers(DocText(DeleteDoc(d, i)), loads) == Ok(SpansOf(DeleteDoc(d, i)))
    ensures Safe(d, i)
  {
    hide ParseMembers, IsGap, DocText, SpansOf, EntriesThen, WellFormed, TailThen, AfterComma, RTrim, TailGap, GapAt, Blank, Joins, CommaJoins;
    TailIsGap(d, i, loads);
    var g, e := GapAt(d, i), d.entries[i];
    RTrimIs(g);
    if i + 1 < |d.entries| {
    } else if i == 0 {
      JoinedGap(g, |RTrim(g)|, TailGap(e));
      if Empties(d, 0) {
        EmptiesJoins(d, loads);
      } else {
        GapFirst(d);
        ReadBackInside(d, RTrim(g) + TailGap(e), loads);
      }
    } else if e.comma.Some? {
      ReadBackComma(d, i, loads);
      JoinedGap(g, |RTrim(g)|, TailGap(e));
    } else {
      ReadBackMerged(d, i, loads);
    }
  }

  lemma EmptiesJoins(d: Doc, loads: KeyReader)
    requires WellFormed(d, loads) && Commas(d) && |d.entries| == 1 && Empties(d, 0)
    ensures Joins(RTrim(GapAt(d, 0)), TailGap(d.entries[0]))
  {
    hide OpenComment, IsGap;
    InnerIsGap(d, loads);
    TrimmedIsGapOrOpen(d.inner);
    EmptyIsNotOpen(RTrim(d.inner));
  }

  lemma ReadBackComma(d: Doc, i: nat, loads: KeyReader)
    requires WellFormed(d, loads) && Commas(d) && 0 < i && i + 1 == |d.entries| && d.entries[i].comma.Some?
    requires ParseMembers(DocText(DeleteDoc(d, i)), loads) == Ok(SpansOf(DeleteDoc(d, i)))
    ensures IsGap(RTrim(GapAt(d, i)) + TailGap(d.entries[i]))
  {
    hide ParseMembers, IsGap, DocText, SpansOf, EntriesThen, WellFormed, AfterComma, RTrim, TailGap, WellFormedEntry;
    var a := DeleteDoc(d, i);
    var gap, prev := RTrim(GapAt(d, i)) + TailGap(d.entries[i]), d.entries[i - 1];
    assert a.entries[i - 1] == prev.(comma := Some(gap)) && |a.entries| == i;
    var e := ReadBackLast(a, i, loads);
    EntryTail(d, i - 1, loads);
    PrevGap(prev, loads);
    CommaThenGap(prev.postValue, gap, a.post);
  }

  lemma ReadBackMerged(d: Doc, i: nat, loads: KeyReader)
    requires WellFormed(d, loads) && Commas(d) && 0 < i && i + 1 == |d.entries| && d.entries[i].comma.None?
    requires ParseMembers(DocText(MergeTail(d, i)), loads) == Ok(SpansOf(MergeTail(d, i)))
    ensures CommaJoins(RTrim(GapAt(d, i)), d.entries[i].postValue)
    ensures !Swallows(d.entries[i - 1].value, d.entries[i - 1].postValue + (RTrim(GapAt(d, i)) + d.entries[i].postValue))
  {
    hide ParseMembers, IsGap, DocText, SpansOf, EntriesThen, WellFormed, AfterComma, RTrim, WellFormedEntry, Swallows, CommaJoins, GapAt, TailThen;
    var a := MergeTail(d, i);
    var g, prev := GapAt(d, i), d.entries[i - 1];
    var x := prev.postValue + (RTrim(g) + d.entries[i].postValue);
    var e := ReadBackLast(a, i, loads);
    TailIsGap(d, i, loads);
    PrevGap(prev, loads);
    RTrimIs(g);
    PlainTail(a.entries[i - 1], a.post);
    CommaJoinsIs(prev.postValue, g, |RTrim(g)|, d.entries[i].postValue, d.post);
    NoSwallow(e, a.entries[i - 1], a.post, loads);
  }

  lemma PlainTail(e: Entry, post: string)
    requires e.comma.None?
    ensures TailThen(e, "}" + post) == e.postValue + ("}" + post)
  {
  }

  lemma NoSwallow(e: Entry, a: Entry, post: string, loads: KeyReader)
    requires WellFormedEntry(e, loads) && e.value == a.value
    requires TailThen(e, "}" + post) == TailThen(a, "}" + post)
    ensures !Swallows(a.value, a.postValue)
  {
    MarkRead('}', post);
    TailStarts(e, "}" + post);
    TailStarts(a, "}" + post);
  }

  // ----- The theorem -----

  /**
   Deleting a key that the object has takes its member away: the result is accepted with the other
   members, each where it was or moved back by the length of what was cut, exactly when the deletion
   is safe.
   */
  lemma DeleteRemoves(t: string, key: string, loads: KeyReader)
    requires ParseMembers(t, loads).Ok?
    requires IndexOfKey(ParseMembers(t, loads).value.members, key) < |ParseMembers(t, loads).value.members|
    ensures var p := ParseMembers(t, loads).value;
            var i := IndexOfKey(p.members, key);
            DeleteText(t, key, loads).Ok? && Within(t, p)
            && (var r := DeleteText(t, key, loads).value;
                ParseMembers(r, loads) == Ok(Removed(p, i, |t| - |r|)) <==> DeletionIsSafe(t, p, i))
  {
    hide DocText, SpansOf, ParseMembers, WellFormed, DeleteAccepted, DeleteDoc, Safe, DeletionIsSafe, Within, Removed;
    ParsedWithin(t, loads);
    var d := ReadIsWritten(t, loads);
    var i := IndexOfKey(SpansOf(d).members, key);
    SpanCount(d);
    CommasOf(d, loads);
    DeleteIs(d, i, loads);
    DeletedSpans(d, i);
    SafeIsSafe(d, i, loads);
    if Safe(d, i) {
      SafeIsRead(d, i, loads);
    }
    if ParseMembers(DocText(DeleteDoc(d, i)), loads) == Ok(SpansOf(DeleteDoc(d, i))) {
      ReadBackIsSafe(d, i, loads);
    }
  }
}
