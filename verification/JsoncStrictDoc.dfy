/** Stripping an accepted text: the same members in the same order, each value stripped. */
module JsoncStrictDoc {
  import opened Options
  import opened Text
  import opened JsoncScanner
  import opened JsoncDoc
  import opened JsonDump
  import opened JsoncStrict
  import opened JsoncStrictFacts
  import opened JsoncEdit
  import opened JsoncSplice
  import opened JsoncSet
  import opened JsoncTheorems

  // ----- What is left of a document -----

  function BareComma(c: Option<string>): string { match c case None => "" case Some(g) => Bare(g) }

  /** The gaps behind the last value, once its comma is gone. */
  function BareTail(e: Entry): string { Bare(e.postValue) + BareComma(e.comma) }

  function StrictInner(e: Entry): Entry {
    Entry(e.key, e.literal, Bare(e.preColon), Bare(e.postColon), StrictValue(e.value), Bare(e.postValue),
          match e.comma case None => None case Some(g) => Some(Bare(g)))
  }

  function StrictLast(e: Entry): Entry { StrictInner(e).(postValue := BareTail(e), comma := None) }

  function StrictEntries(es: seq<Entry>): (r: seq<Entry>)
    ensures |r| == |es|
  {
    if es == [] then []
    else if |es| == 1 then [StrictLast(es[0])]
    else [StrictInner(es[0])] + StrictEntries(es[1..])
  }

  function StrictDoc(d: Doc): Doc { Doc(Bare(d.pre), Bare(d.inner), StrictEntries(d.entries), Bare(d.post)) }

  predicate AllClosed(es: seq<Entry>) { forall i :: 0 <= i < |es| ==> Closed(es[i].value) }

  // ----- The text of it -----

  /** A token that a member is followed by: the next key or the closing brace. */
  predicate NextToken(r: string) { r != [] && !TriviaStart(r) && (r[0] == '"' || r[0] == '}') }

  lemma StrictTail(e: Entry, loads: KeyReader, r: string)
    requires WellFormedEntry(e, loads) && NextToken(r) && (e.comma.None? ==> r[0] == '}')
    ensures Strict(TailThen(e, r))
            == Emit(if r[0] == '}' then BareTail(e) else Bare(e.postValue) + CommaThen(StrictInner(e).comma, ""), Strict(r))
  {
    hide Strict, IsGap, TriviaStart, IsLiteral, IsValue, Swallows;
    match e.comma
    case None =>
      StrictGap(e.postValue, r);
      assert Bare(e.postValue) + "" == Bare(e.postValue);
    case Some(g) =>
      MarkRead(',', g + r);
      assert !TriviaStart("," + (g + r));
      StrictGap(e.postValue, "," + (g + r));
      StrictComma(g, r);
      EmitEmit(if r[0] == '}' then "" else ",", Bare(g), Strict(r));
      EmitEmit(Bare(e.postValue), (if r[0] == '}' then "" else ",") + Bare(g), Strict(r));
      assert Bare(g) + "" == Bare(g) && "" + Bare(g) == Bare(g);
  }

  lemma StrictHead(e: Entry, loads: KeyReader, x: string)
    requires WellFormedEntry(e, loads) && x != [] && !TriviaStart(x)
    ensures Strict(e.literal + (e.preColon + (":" + (e.postColon + x)))) == Emit(HeadText(StrictInner(e)), Strict(x))
  {
    hide Strict, IsGap, TriviaStart, IsLiteral, IsValue, Swallows;
    StrictGap(e.postColon, x);
    StrictChar(':', e.postColon + x);
    MarkRead(':', e.postColon + x);
    StrictGap(e.preColon, ":" + (e.postColon + x));
    StrictLiteral(e.literal, e.preColon + (":" + (e.postColon + x)));
    EmitEmit(":", Bare(e.postColon), Strict(x));
    EmitEmit(Bare(e.preColon), ":" + Bare(e.postColon), Strict(x));
    EmitEmit(e.literal, Bare(e.preColon) + (":" + Bare(e.postColon)), Strict(x));
  }

  /** A member in front of the rest of the object. */
  lemma StrictMember(e: Entry, loads: KeyReader, r: string, o: string)
    requires WellFormedEntry(e, loads) && Closed(e.value) && NextToken(r) && (e.comma.None? ==> r[0] == '}') && Strict(r) == Ok(o)
    ensures Strict(EntryThen(e, r)) == Ok(EntryThen(if r[0] == '}' then StrictLast(e) else StrictInner(e), o))
  {
    hide Strict, IsGap, TriviaStart, IsLiteral, IsValue, Swallows, Ends, Closed, StrictValue;
    var e' := if r[0] == '}' then StrictLast(e) else StrictInner(e);
    TailEnds(e, loads, r);
    StrictTail(e, loads, r);
    StrictOfValue(e.value, TailThen(e, r));
    ValueIsToken(e.value, TailThen(e, r));
    StrictHead(e, loads, e.value + TailThen(e, r));
    EntryParts(e', o);
    SameHead(e);
    TailText(e, r, o);
    EmitEmit(HeadText(e'), StrictValue(e.value), Strict(TailThen(e, r)));
    Assoc(HeadText(e'), StrictValue(e.value), TailThen(e', o));
  }

  lemma SameHead(e: Entry)
    ensures HeadText(StrictLast(e)) == HeadText(StrictInner(e))
  {
  }

  lemma TailText(e: Entry, r: string, o: string)
    requires r != [] && (r[0] == '"' || r[0] == '}') && (e.comma.None? ==> r[0] == '}')
    ensures (if r[0] == '}' then BareTail(e) else Bare(e.postValue) + CommaThen(StrictInner(e).comma, "")) + o
            == TailThen(if r[0] == '}' then StrictLast(e) else StrictInner(e), o)
  {
    hide Bare;
    if r[0] != '}' {
      var g := Bare(e.comma.value);
      assert g + "" == g;
      Assoc(Bare(e.postValue), "," + g, o);
      Assoc(",", g, o);
    }
  }

  lemma PostIsTrivia(post: string)
    requires AfterTrivia(post) == Ok([])
    ensures TriviaLen(post) == Ok(|post|)
  {
    hide TriviaLen;
    assert TriviaLen(post).Ok? && post[TriviaLen(post).value..] == [];
  }

  lemma ClosesBody(post: string)
    requires AfterTrivia(post) == Ok([])
    ensures Strict("}" + post) == Ok("}" + Bare(post))
  {
    hide Strict;
    PostIsTrivia(post);
    StrictEnd(post);
    StrictChar('}', post);
  }

  lemma {:induction false} StrictBody(es: seq<Entry>, post: string, loads: KeyReader)
    requires WellFormedEntries(es, loads) && AllClosed(es) && AfterTrivia(post) == Ok([])
    ensures Strict(EntriesThen(es, "}" + post)) == Ok(EntriesThen(StrictEntries(es), "}" + Bare(post)))
    decreases |es|
  {
    hide Strict, AfterTrivia, WellFormedEntry, Closed, EntryThen, StrictInner, StrictLast, TriviaStart;
    BodyIsToken(es, loads, post);
    if es == [] {
      ClosesBody(post);
    } else {
      var e, rest := es[0], es[1..];
      assert WellFormedEntries(rest, loads) && AllClosed(rest);
      BodyIsToken(rest, loads, post);
      StrictBody(rest, post, loads);
      var r, o := EntriesThen(rest, "}" + post), EntriesThen(StrictEntries(rest), "}" + Bare(post));
      NoCommaIsLast(es, loads);
      StrictMember(e, loads, r, o);
      if |es| > 1 {
        assert StrictEntries(es)[1..] == StrictEntries(rest);
      }
    }
  }

  lemma NoCommaIsLast(es: seq<Entry>, loads: KeyReader)
    requires WellFormedEntries(es, loads) && es != []
    ensures WellFormedEntry(es[0], loads) && (es[0].comma.None? ==> es[1..] == [])
  {
  }

  lemma StrictText(d: Doc, loads: KeyReader)
    requires WellFormed(d, loads) && AllClosed(d.entries)
    ensures Strict(DocText(d)) == Ok(DocText(StrictDoc(d)))
  {
    hide Strict, AfterTrivia, WellFormedEntries, AllClosed, StrictEntries, TriviaStart, IsGap, EntriesThen;
    var body, out := EntriesThen(d.entries, "}" + d.post), EntriesThen(StrictEntries(d.entries), "}" + Bare(d.post));
    StrictBody(d.entries, d.post, loads);
    BodyIsToken(d.entries, loads, d.post);
    StrictGap(d.inner, body);
    StrictChar('{', d.inner + body);
    MarkRead('{', d.inner + body);
    StrictGap(d.pre, "{" + (d.inner + body));
  }

  // ----- It is well-formed -----

  /** Behind the last value, with its comma gone, a byte order mark would run on from a scalar. */
  predicate MarkBehind(d: Doc) {
    d.entries != [] && (var last := d.entries[|d.entries| - 1]; Swallows(last.value, BareTail(last)))
  }

  lemma InnerWellFormed(e: Entry, loads: KeyReader)
    requires WellFormedEntry(e, loads) && Closed(e.value)
    ensures WellFormedEntry(StrictInner(e), loads)
    ensures IsGap(BareTail(e)) && (WellFormedEntry(StrictLast(e), loads) <==> !Swallows(e.value, BareTail(e)))
  {
    hide IsGap, IsValue, IsLiteral, Bare, Closed, IsScalar;
    BareIsGap(e.preColon);
    BareIsGap(e.postColon);
    BareIsGap(e.postValue);
    StrictIsValue(e.value);
    if e.comma.Some? {
      BareIsGap(e.comma.value);
      GapConcat(Bare(e.postValue), Bare(e.comma.value));
    } else {
      assert Bare(e.postValue) + "" == Bare(e.postValue);
    }
  }

  lemma {:induction false} StrictWellFormed(es: seq<Entry>, loads: KeyReader)
    requires WellFormedEntries(es, loads) && AllClosed(es)
    ensures WellFormedEntries(StrictEntries(es), loads)
            <==> es == [] || !Swallows(es[|es| - 1].value, BareTail(es[|es| - 1]))
  {
    hide WellFormedEntry, Closed, StrictInner, StrictLast, Swallows, BareTail;
    if es != [] {
      var e, rest := es[0], es[1..];
      InnerWellFormed(e, loads);
      if |es| == 1 {
        ConsExactly(StrictLast(e), [], loads);
        assert StrictEntries(es) == [StrictLast(e)] + [];
      } else {
        assert WellFormedEntries(rest, loads) && AllClosed(rest);
        StrictWellFormed(rest, loads);
        HasComma(e);
        ConsExactly(StrictInner(e), StrictEntries(rest), loads);
        assert rest[|rest| - 1] == es[|es| - 1];
      }
    }
  }

  lemma ConsExactly(e: Entry, es: seq<Entry>, loads: KeyReader)
    ensures WellFormedEntries([e] + es, loads)
            <==> WellFormedEntry(e, loads) && WellFormedEntries(es, loads) && (es != [] ==> e.comma.Some?)
  {
    hide WellFormedEntry;
    var all := [e] + es;
    if WellFormedEntries(all, loads) {
      assert all[0] == e;
      forall i | 0 <= i < |es|
        ensures WellFormedEntry(es[i], loads) && (i < |es| - 1 ==> es[i].comma.Some?)
      {
        assert all[i + 1] == es[i];
      }
    } else if WellFormedEntry(e, loads) && WellFormedEntries(es, loads) && (es != [] ==> e.comma.Some?) {
      ConsWellFormed(e, es, loads);
    }
  }

  lemma HasComma(e: Entry)
    ensures StrictInner(e).comma.Some? <==> e.comma.Some?
  {
  }

  /** The stripped text of a document is that of the stripped document, which is well-formed unless a mark runs on. */
  lemma StrictIsWritten(d: Doc, loads: KeyReader)
    requires WellFormed(d, loads) && AllClosed(d.entries)
    ensures Strict(DocText(d)) == Ok(DocText(StrictDoc(d)))
    ensures WellFormed(StrictDoc(d), loads) <==> !MarkBehind(d)
  {
    hide Strict, DocText, WellFormedEntries, AllClosed, StrictEntries, IsGap, Bare, Swallows, BareTail;
    StrictText(d, loads);
    StrictWellFormed(d.entries, loads);
    BareIsGap(d.pre);
    BareIsGap(d.inner);
    PostIsGap(d.post);
  }

  lemma PostIsGap(post: string)
    requires AfterTrivia(post) == Ok([])
    ensures AfterTrivia(Bare(post)) == Ok([])
  {
    PostIsTrivia(post);
    BareIsGap(post);
    var g := Bare(post);
    TriviaIsGap(g, "");
    assert g + "" == g && g[|g|..] == [];
  }
}
