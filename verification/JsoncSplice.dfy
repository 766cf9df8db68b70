/** Documents cut open at one place: what stands before, the gap there, and what follows. */
module JsoncSplice {
  import opened Options
  import opened Text
  import opened JsoncScanner
  import opened JsoncDoc

  /** Place `i` is in front of entry `i`, or of the closing brace, after an opening brace or a comma. */
  predicate Place(d: Doc, i: nat) { i <= |d.entries| && (i > 0 ==> d.entries[i - 1].comma.Some?) }

  /** The text up to the brace or comma before place `i`. */
  function Stem(d: Doc, i: nat): string
    requires Place(d, i)
  {
    if i == 0 then d.pre + "{"
    else d.pre + ("{" + (d.inner + EntriesThen(d.entries[..i - 1], EntryThen(d.entries[i - 1].(comma := None), ","))))
  }

  function GapAt(d: Doc, i: nat): string
    requires Place(d, i)
  {
    if i == 0 then d.inner else d.entries[i - 1].comma.value
  }

  function Back(es: seq<Entry>, post: string): string { EntriesThen(es, "}" + post) }

  /** The document with another gap at place `i` and other entries from there on. */
  function Splice(d: Doc, i: nat, gap: string, es: seq<Entry>): Doc
    requires Place(d, i)
  {
    if i == 0 then d.(inner := gap, entries := es)
    else d.(entries := d.entries[..i - 1] + ([d.entries[i - 1].(comma := Some(gap))] + es))
  }

  lemma EntryThenSplits(e: Entry, x: string, y: string)
    ensures EntryThen(e, x + y) == EntryThen(e, x) + y
  {
    if e.comma.Some? {
      Assoc(e.comma.value, x, y);
      Assoc(",", e.comma.value + x, y);
    }
    Assoc(e.postValue, CommaThen(e.comma, x), y);
    Assoc(e.value, TailThen(e, x), y);
    Assoc(e.postColon, e.value + TailThen(e, x), y);
    Assoc(":", e.postColon + (e.value + TailThen(e, x)), y);
    Assoc(e.preColon, ":" + (e.postColon + (e.value + TailThen(e, x))), y);
    Assoc(e.literal, e.preColon + (":" + (e.postColon + (e.value + TailThen(e, x)))), y);
  }

  lemma {:induction false} EntriesThenSplits(es: seq<Entry>, x: string, y: string)
    ensures EntriesThen(es, x + y) == EntriesThen(es, x) + y
  {
    hide EntryThen;
    if es != [] {
      EntriesThenSplits(es[1..], x, y);
      EntryThenSplits(es[0], EntriesThen(es[1..], x), y);
    }
  }

  lemma {:induction false} EntriesConcat(a: seq<Entry>, b: seq<Entry>, r: string)
    ensures EntriesThen(a + b, r) == EntriesThen(a, EntriesThen(b, r))
    ensures EntriesLen(a + b) == EntriesLen(a) + EntriesLen(b)
  {
    hide EntryThen;
    if a == [] {
      assert a + b == b;
    } else {
      assert (a + b)[1..] == a[1..] + b;
      EntriesConcat(a[1..], b, r);
    }
  }

  /** An entry with a comma is the entry without, a comma, and the gap. */
  lemma EntryThenComma(e: Entry, r: string)
    requires e.comma.Some?
    ensures EntryThen(e, r) == EntryThen(e.(comma := None), ",") + (e.comma.value + r)
  {
    EntryThenSplits(e.(comma := None), ",", e.comma.value + r);
  }

  lemma TextAtFirst(d: Doc)
    ensures DocText(d) == (d.pre + "{") + (d.inner + Back(d.entries, d.post))
  {
    Assoc(d.pre, "{", d.inner + Back(d.entries, d.post));
  }

  lemma TextAt(d: Doc, i: nat)
    requires Place(d, i)
    ensures DocText(d) == Stem(d, i) + (GapAt(d, i) + Back(d.entries[i..], d.post))
  {
    hide EntriesThen, EntryThen;
    var es := d.entries;
    if i == 0 {
      TextAtFirst(d);
      assert es[0..] == es;
    } else {
      var e := es[i - 1];
      var rest := e.comma.value + Back(es[i..], d.post);
      var front := es[..i - 1];
      assert es == front + ([e] + es[i..]);
      EntriesConcat(front, [e] + es[i..], "}" + d.post);
      ConsText(e, es[i..], "}" + d.post);
      EntryThenComma(e, Back(es[i..], d.post));
      var head := EntryThen(e.(comma := None), ",");
      EntriesThenSplits(front, head, rest);
      Assoc(d.inner, EntriesThen(front, head), rest);
      Assoc("{", d.inner + EntriesThen(front, head), rest);
      Assoc(d.pre, "{" + (d.inner + EntriesThen(front, head)), rest);
    }
  }

  lemma ConsText(e: Entry, es: seq<Entry>, r: string)
    ensures EntriesThen([e] + es, r) == EntryThen(e, EntriesThen(es, r))
    ensures EntriesLen([e] + es) == EntryLen(e) + EntriesLen(es)
  {
    hide EntryThen;
    assert ([e] + es)[1..] == es;
  }

  lemma SplicedText(d: Doc, i: nat, gap: string, es: seq<Entry>)
    requires Place(d, i)
    ensures DocText(Splice(d, i, gap, es)) == Stem(d, i) + (gap + Back(es, d.post))
  {
    hide EntriesThen, EntryThen, DocText;
    var s := Splice(d, i, gap, es);
    TextAt(s, i);
    assert s.entries[i..] == es;
    if i > 0 {
      assert s.entries[..i - 1] == d.entries[..i - 1];
    }
  }

  /** The stem ends in the opening brace or in a comma. */
  lemma StemEnd(d: Doc, i: nat)
    requires Place(d, i)
    ensures var s := Stem(d, i); s != [] && (s[|s| - 1] == '{' || s[|s| - 1] == ',')
    ensures |Stem(d, i)| >= |d.pre| + 1 && (i == 0 ==> |Stem(d, i)| == |d.pre| + 1)
  {
    hide EntryThen;
    if i > 0 {
      var front, e := d.entries[..i - 1], d.entries[i - 1].(comma := None);
      EntryThenSplits(e, "", ",");
      assert "" + "," == ",";
      EntriesThenSplits(front, EntryThen(e, ""), ",");
      Assoc(d.inner, EntriesThen(front, EntryThen(e, "")), ",");
      Assoc("{", d.inner + EntriesThen(front, EntryThen(e, "")), ",");
      Assoc(d.pre, "{" + (d.inner + EntriesThen(front, EntryThen(e, ""))), ",");
    }
  }

  lemma StemLen(d: Doc, i: nat)
    requires Place(d, i)
    ensures |Stem(d, i)| + |GapAt(d, i)| == |d.pre| + 1 + |d.inner| + EntriesLen(d.entries[..i])
  {
    hide EntriesThen, EntryThen;
    if i > 0 {
      var front, e := d.entries[..i - 1], d.entries[i - 1];
      assert d.entries[..i] == front + [e];
      EntriesConcat(front, [e], "");
      LenOf(e);
    }
  }

  lemma LenOf(e: Entry)
    requires e.comma.Some?
    ensures |EntryThen(e.(comma := None), ",")| + |e.comma.value| == EntryLen(e)
    ensures EntriesLen([e]) == EntryLen(e)
  {
    assert EntriesLen([e][1..]) == 0;
  }

  // ----- Members of a spliced document -----

  function Moved(m: Member, k: int): Member {
    Member(m.key, m.keyStart + k, m.valueStart + k, m.valueEnd + k)
  }

  function Shift(ms: seq<Member>, k: int): (r: seq<Member>)
    ensures |r| == |ms|
  {
    seq(|ms|, i requires 0 <= i < |ms| => Moved(ms[i], k))
  }

  lemma ShiftCons(m: Member, ms: seq<Member>, k: int)
    ensures Shift([m] + ms, k) == [Moved(m, k)] + Shift(ms, k)
  {
  }

  lemma {:induction false} ShiftMembers(es: seq<Entry>, at: nat, to: nat)
    ensures MembersOf(es, to) == Shift(MembersOf(es, at), to - at)
  {
    if es != [] {
      ShiftMembers(es[1..], at + EntryLen(es[0]), to + EntryLen(es[0]));
      ShiftCons(MemberOf(es[0], at), MembersOf(es[1..], at + EntryLen(es[0])), to - at);
    }
  }

  lemma {:induction false} MembersConcat(a: seq<Entry>, b: seq<Entry>, at: nat)
    ensures MembersOf(a + b, at) == MembersOf(a, at) + MembersOf(b, at + EntriesLen(a))
  {
    if a == [] {
      assert a + b == b;
    } else {
      assert (a + b)[1..] == a[1..] + b;
      MembersConcat(a[1..], b, at + EntryLen(a[0]));
    }
  }

  /** What follows an entry's value has no part in its own span. */
  lemma {:induction false} LastTailIrrelevant(es: seq<Entry>, e: Entry, at: nat)
    requires es != [] && (var l := es[|es| - 1]; e == l.(postValue := e.postValue, comma := e.comma))
    ensures MembersOf(es[..|es| - 1] + [e], at) == MembersOf(es, at)
  {
    var front, last := es[..|es| - 1], es[|es| - 1];
    assert es == front + [last];
    MembersConcat(front, [e], at);
    MembersConcat(front, [last], at);
    assert MemberOf(e, at + EntriesLen(front)) == MemberOf(last, at + EntriesLen(front));
  }

  lemma MembersAt(d: Doc, i: nat)
    requires Place(d, i)
    ensures var at := |d.pre| + 1 + |d.inner|;
            MembersOf(d.entries, at) == MembersOf(d.entries[..i], at)
                                        + MembersOf(d.entries[i..], |Stem(d, i)| + |GapAt(d, i)|)
            && at + EntriesLen(d.entries) == |Stem(d, i)| + |GapAt(d, i)| + EntriesLen(d.entries[i..])
  {
    hide EntriesThen, EntryThen, Stem, GapAt, MembersOf;
    assert d.entries == d.entries[..i] + d.entries[i..];
    MembersConcat(d.entries[..i], d.entries[i..], |d.pre| + 1 + |d.inner|);
    EntriesConcat(d.entries[..i], d.entries[i..], "");
    StemLen(d, i);
  }

  lemma NoMembers(a: nat, b: nat)
    ensures MembersOf([], a) == MembersOf([], b) == []
  {
  }

  lemma SplicedParts(d: Doc, i: nat, gap: string, es: seq<Entry>)
    requires Place(d, i)
    ensures var s := Splice(d, i, gap, es);
            && s.entries[i..] == es && s.pre == d.pre && s.post == d.post
            && (i == 0 ==> s.entries[..i] == [] && s.inner == gap)
            && (i > 0 ==> s.inner == d.inner
                          && s.entries[..i] == d.entries[..i][..i - 1] + [d.entries[i - 1].(comma := Some(gap))])
  {
  }

  /** The spans of a spliced document: the old ones up to the place, then those of the new entries. */
  lemma SplicedSpans(d: Doc, i: nat, gap: string, es: seq<Entry>)
    requires Place(d, i)
    ensures var k := |Stem(d, i)| + |gap|;
            SpansOf(Splice(d, i, gap, es))
            == Parsed(|d.pre|, k + EntriesLen(es), SpansOf(d).members[..i] + MembersOf(es, k))
  {
    hide EntriesThen, EntryThen, Stem, GapAt, MembersOf, EntriesLen;
    var s := Splice(d, i, gap, es);
    var at := |d.pre| + 1 + |d.inner|;
    SameStem(d, i, gap, es);
    MembersAt(s, i);
    SplicedParts(d, i, gap, es);
    MembersAt(d, i);
    assert MembersOf(d.entries, at)[..i] == MembersOf(d.entries[..i], at);
    if i > 0 {
      LastTailIrrelevant(d.entries[..i], d.entries[i - 1].(comma := Some(gap)), at);
    } else {
      NoMembers(at, |d.pre| + 1 + |gap|);
    }
  }

  lemma SameStem(d: Doc, i: nat, gap: string, es: seq<Entry>)
    requires Place(d, i)
    ensures var s := Splice(d, i, gap, es); Place(s, i) && Stem(s, i) == Stem(d, i) && GapAt(s, i) == gap
  {
    if i > 0 {
      assert Splice(d, i, gap, es).entries[..i - 1] == d.entries[..i - 1];
    }
  }

  lemma JoinWellFormed(a: seq<Entry>, e: Entry, b: seq<Entry>, loads: KeyReader)
    requires forall i :: 0 <= i < |a| ==> WellFormedEntry(a[i], loads) && a[i].comma.Some?
    requires WellFormedEntry(e, loads) && WellFormedEntries(b, loads) && (b != [] ==> e.comma.Some?)
    ensures WellFormedEntries(a + ([e] + b), loads)
  {
    hide WellFormedEntry;
    var s := a + ([e] + b);
    forall j | 0 <= j < |s|
      ensures WellFormedEntry(s[j], loads) && (j < |s| - 1 ==> s[j].comma.Some?)
    {
      if j > |a| {
        assert s[j] == b[j - |a| - 1];
      }
    }
  }

  lemma OtherComma(e: Entry, gap: string, loads: KeyReader)
    requires WellFormedEntry(e, loads) && IsGap(gap)
    ensures WellFormedEntry(e.(comma := Some(gap)), loads)
  {
  }

  lemma SplicedWellFormed(d: Doc, i: nat, gap: string, es: seq<Entry>, loads: KeyReader)
    requires WellFormed(d, loads) && Place(d, i) && IsGap(gap) && WellFormedEntries(es, loads)
    ensures WellFormed(Splice(d, i, gap, es), loads)
  {
    if i > 0 {
      hide WellFormedEntry;
      OtherComma(d.entries[i - 1], gap, loads);
      JoinWellFormed(d.entries[..i - 1], d.entries[i - 1].(comma := Some(gap)), es, loads);
    }
  }
}
