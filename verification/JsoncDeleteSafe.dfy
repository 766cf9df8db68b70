/** When `jsonc_delete` leaves a text the parser accepts with the members it should have: exactly then. */
module JsoncDeleteSafe {
  import opened Options
  import opened Text
  import opened JsoncScanner
  import opened JsoncDoc
  import opened JsoncGaps
  import opened JsoncSplice
  import opened JsonDump
  import opened JsoncEdit
  import opened JsoncSet
  import opened JsoncAppend
  import opened JsoncDelete

  // ----- A comma and gaps in front of the closing brace -----

  lemma RestFrom(t: string, k: nat, s: string)
    requires k <= |t| && t[k..] == s && TriviaLen(t) == Plus(k, TriviaLen(s))
    ensures AfterTrivia(t) == AfterTrivia(s)
  {
    hide TriviaLen;
    if TriviaLen(s).Ok? {
      Drops(t, k, TriviaLen(s).value);
    }
  }

  lemma SkipGap(g: string, s: string)
    requires IsGap(g)
    ensures AfterTrivia(g + s) == AfterTrivia(s) && AfterComma(g + s) == AfterComma(s)
  {
    TriviaAfterGap(g, s);
    Cut(g, s);
    hide AfterTrivia, TriviaLen, IsGap;
    RestFrom(g + s, |g|, s);
  }

  lemma SkipClosed(o: string, a: string, s: string)
    requires OpenComment(o) && '\n' !in a
    ensures var t := o + (a + ("\n" + s)); AfterTrivia(t) == AfterTrivia(s) && AfterComma(t) == AfterComma(s)
  {
    hide AfterTrivia, TriviaLen, OpenComment;
    ClosedCommentRead(o, a, s);
    CutThree(o, a, "\n", s);
    RestFrom(o + (a + ("\n" + s)), |o| + |a| + 1, s);
  }

  lemma {:induction false} OpenRead(o: string)
    requires OpenComment(o)
    ensures TriviaLen(o) == Ok(|o|)
    decreases |o|
  {
    var n := ItemLen(o);
    if n > 0 {
      hide ItemLen;
      OpenRead(o[n..]);
    }
  }

  /** An open comment with no newline behind it swallows the brace. */
  lemma NeverClosed(o: string, tail: string, post: string)
    requires OpenComment(o) && '\n' !in tail
    ensures AfterComma(o + (tail + ("}" + post))) != Ok("}" + post)
  {
    hide OpenComment, AfterTrivia;
    var r := "}" + post;
    var m := Find(r, '\n');
    if m < |r| {
      var a := tail + r[..m];
      assert r == r[..m] + ("\n" + r[m + 1..]);
      Assoc(tail, r[..m], "\n" + r[m + 1..]);
      SkipClosed(o, a, r[m + 1..]);
      hide AfterComma;
    } else {
      StillOpen(o, tail + r);
      OpenRest(o + (tail + r));
    }
  }

  lemma OpenRest(o: string)
    requires OpenComment(o)
    ensures AfterTrivia(o) == Ok([])
  {
    OpenRead(o);
  }

  lemma CommaJoinsIs(pv: string, g: string, k: nat, tail: string, post: string)
    requires IsGap(pv) && IsGap(g) && k <= |g| && AllWs(g[k..]) && IsGap(tail)
    ensures AfterComma((pv + (g[..k] + tail)) + ("}" + post)) == Ok("}" + post) <==> CommaJoins(g[..k], tail)
  {
    hide AfterComma, AfterTrivia, IsGap, OpenComment, Find;
    var kept, r := g[..k], "}" + post;
    TrimmedGap(g, k);
    Assoc(pv, kept + tail, r);
    Assoc(kept, tail, r);
    SkipGap(pv, kept + (tail + r));
    if IsGap(kept) {
      SkipGap(kept, tail + r);
      GapThenRead(tail, r);
    } else {
      OpenJoins(kept, tail, post);
    }
  }

  lemma SplitAtNewline(tail: string, r: string)
    requires Find(tail, '\n') < |tail|
    ensures var m := Find(tail, '\n'); tail + r == tail[..m] + ("\n" + (tail[m + 1..] + r))
  {
    hide Find;
    var m := Find(tail, '\n');
    SplitOne(tail, m);
    Assoc("\n", tail[m + 1..], r);
    Assoc(tail[..m], "\n" + tail[m + 1..], r);
  }

  lemma SplitOne(s: string, m: nat)
    requires m < |s| && s[m] == '\n'
    ensures s == s[..m] + ("\n" + s[m + 1..])
  {
  }

  /** An open comment ends at the first newline behind it, if there is one. */
  lemma OpenJoins(kept: string, tail: string, post: string)
    requires OpenComment(kept) && !IsGap(kept) && IsGap(tail)
    ensures AfterComma(kept + (tail + ("}" + post))) == Ok("}" + post) <==> CommaJoins(kept, tail)
  {
    hide AfterComma, AfterTrivia, IsGap, OpenComment, Find, CommaGap;
    var r, m := "}" + post, Find(tail, '\n');
    if m < |tail| {
      SplitAtNewline(tail, r);
      SkipClosed(kept, tail[..m], tail[m + 1..] + r);
      CommaGapIs(tail[m + 1..], post);
    } else {
      NeverClosed(kept, tail, post);
    }
  }

  // ----- The members after the deletion -----

  /** The members without member `i`, those after it moved back by `k`. */
  function Removed(p: Parsed, i: nat, k: int): Parsed
    requires i < |p.members|
  {
    Parsed(p.open, p.close - k, p.members[..i] + Shift(p.members[i + 1..], -k))
  }

  lemma DocLen(d: Doc)
    ensures |DocText(d)| == SpansOf(d).close + 1 + |d.post|
  {
  }

  lemma DeletedSpans(d: Doc, i: nat)
    requires Commas(d) && i < |d.entries|
    ensures var d2 := DeleteDoc(d, i);
            var k := |DocText(d)| - |DocText(d2)|;
            SpansOf(d2) == Removed(SpansOf(d), i, k) && d2.post == d.post
  {
    hide DeleteDoc, SpansOf, Removed, DocText, GapAt, MergeTail, Splice;
    var d2 := DeleteDoc(d, i);
    DocLen(d);
    DocLen(d2);
    if i + 1 < |d.entries| || i == 0 || d.entries[i].comma.Some? {
      DeleteIsSplice(d, i);
      SpliceRemoves(d, i, GapAt(d2, i));
      SamePost(d, i, GapAt(d2, i));
    } else {
      DeleteIsMerge(d, i);
      MergeRemoves(d, i);
    }
  }

  lemma SamePost(d: Doc, i: nat, gap: string)
    requires Commas(d) && i < |d.entries|
    ensures Place(d, i) && Splice(d, i, gap, d.entries[i + 1..]).post == d.post
  {
  }

  lemma DeleteIsMerge(d: Doc, i: nat)
    requires Commas(d) && 0 < i && i + 1 == |d.entries| && d.entries[i].comma.None?
    ensures DeleteDoc(d, i) == MergeTail(d, i) && MergeTail(d, i).post == d.post
  {
  }

  lemma DeleteIsSplice(d: Doc, i: nat)
    requires Commas(d) && i < |d.entries| && (i + 1 < |d.entries| || i == 0 || d.entries[i].comma.Some?)
    ensures Place(DeleteDoc(d, i), i)
    ensures DeleteDoc(d, i) == Splice(d, i, GapAt(DeleteDoc(d, i), i), d.entries[i + 1..])
  {
    var es := d.entries[i + 1..];
    if i + 1 == |d.entries| {
      assert es == [];
    }
    if i > 0 {
      var gap := if i + 1 < |d.entries| then JoinedLines(GapAt(d, i), d.entries[i].comma.value)
                 else RTrim(GapAt(d, i)) + TailGap(d.entries[i]);
      SameStem(d, i, gap, es);
    }
  }

  lemma SpliceRemoves(d: Doc, i: nat, gap: string)
    requires Commas(d) && i < |d.entries|
    ensures Place(d, i)
    ensures var d2 := Splice(d, i, gap, d.entries[i + 1..]);
            SpansOf(d2) == Removed(SpansOf(d), i, SpansOf(d).close - SpansOf(d2).close)
  {
    hide Stem, GapAt, SpansOf, Splice, EntriesLen, MembersOf, Shift;
    SplicedSpans(d, i, gap, d.entries[i + 1..]);
    SpansAround(d, i);
    var e, es := d.entries[i], d.entries[i + 1..];
    ShiftMembers(es, |Stem(d, i)| + |GapAt(d, i)| + EntryLen(e), |Stem(d, i)| + |gap|);
  }

  /** The members after entry `i`, and the closing brace. */
  lemma SpansAround(d: Doc, i: nat)
    requires Commas(d) && i < |d.entries|
    ensures Place(d, i) && |SpansOf(d).members| == |d.entries| && SpansOf(d).open == |d.pre|
    ensures var at, es := |Stem(d, i)| + |GapAt(d, i)| + EntryLen(d.entries[i]), d.entries[i + 1..];
            SpansOf(d).members[i + 1..] == MembersOf(es, at) && SpansOf(d).close == at + EntriesLen(es)
  {
    hide Stem, GapAt, MembersOf, EntriesLen, EntryLen;
    var e, es := d.entries[i], d.entries[i + 1..];
    MembersAt(d, i);
    var at := |Stem(d, i)| + |GapAt(d, i)|;
    assert d.entries[i..] == [e] + es;
    ConsMembers(e, es, at);
    FrontAndRest(SpansOf(d).members, MembersOf(d.entries[..i], |d.pre| + 1 + |d.inner|), MemberOf(e, at), MembersOf(es, at + EntryLen(e)));
  }

  lemma FrontAndRest(ms: seq<Member>, front: seq<Member>, m: Member, rest: seq<Member>)
    requires ms == front + ([m] + rest)
    ensures ms[..|front|] == front && ms[|front|] == m && ms[|front| + 1..] == rest
  {
  }

  lemma MergeRemoves(d: Doc, i: nat)
    requires Commas(d) && 0 < i && i + 1 == |d.entries|
    ensures var d2 := MergeTail(d, i);
            SpansOf(d2) == Removed(SpansOf(d), i, SpansOf(d).close - SpansOf(d2).close)
  {
    hide EntriesThen, EntryThen, MembersOf, EntriesLen;
    var d2, at := MergeTail(d, i), |d.pre| + 1 + |d.inner|;
    assert d.entries == d.entries[..i] + [d.entries[i]];
    MembersConcat(d.entries[..i], [d.entries[i]], at);
    assert d.entries[..i][..i - 1] == d.entries[..i - 1];
    LastTailIrrelevant(d.entries[..i], d2.entries[i - 1], at);
    assert SpansOf(d).members[i + 1..] == [];
  }

  // ----- Safe deletions -----

  lemma TailIsGap(d: Doc, i: nat, loads: KeyReader)
    requires WellFormed(d, loads) && i < |d.entries|
    ensures Place(d, i) && IsGap(GapAt(d, i)) && IsGap(TailGap(d.entries[i])) && IsGap(d.entries[i].postValue)
    ensures i > 0 ==> WellFormedEntry(d.entries[i - 1], loads)
    ensures WellFormedEntries(d.entries[i + 1..], loads)
  {
    hide IsGap, WellFormedEntry, GapAt, TailGap;
    GapAtIsGap(d, i, loads);
    EntryTail(d, i, loads);
    GapsOf(d.entries[i], loads);
  }

  lemma GapsOf(e: Entry, loads: KeyReader)
    requires WellFormedEntry(e, loads)
    ensures IsGap(TailGap(e)) && IsGap(e.postValue)
  {
  }

  lemma RTrimIs(g: string)
    ensures RTrim(g) == g[..|RTrim(g)|] && AllWs(g[|RTrim(g)|..])
  {
  }

  lemma TailGapIs(e: Entry)
    ensures e.comma.Some? ==> TailGap(e) == e.comma.value
  {
  }

  /** With the comma gone, what stands before the brace may hold another comma: the text is that of this document. */
  function Remade(d: Doc, i: nat, postValue: string, comma: Option<string>): Doc
    requires 0 < i <= |d.entries|
  {
    d.(entries := d.entries[..i - 1] + [d.entries[i - 1].(postValue := postValue, comma := comma)])
  }

  lemma RemadeText(d: Doc, i: nat, postValue: string, comma: Option<string>)
    requires 0 < i <= |d.entries|
    ensures DocText(Remade(d, i, postValue, comma)) == Upto(d, i) + (postValue + CommaThen(comma, "}" + d.post))
  {
    hide EntriesThen;
    var d2, r := Remade(d, i, postValue, comma), "}" + d.post;
    var front, prev := d.entries[..i - 1], d2.entries[i - 1];
    assert d2.entries == front + [prev];
    EntriesConcat(front, [prev], r);
    OneEntry(prev, r);
    var bare := prev.(comma := None, postValue := "");
    var tail := postValue + CommaThen(comma, r);
    assert "" + tail == tail;
    assert EntryThen(prev, r) == EntryThen(bare, tail);
    Extended(d, front, bare, tail);
  }

  lemma RemadeSpans(d: Doc, i: nat, postValue: string, comma: Option<string>)
    requires Commas(d) && 0 < i && i + 1 == |d.entries|
    requires DocText(Remade(d, i, postValue, comma)) == DocText(MergeTail(d, i))
    ensures SpansOf(Remade(d, i, postValue, comma)) == SpansOf(MergeTail(d, i))
  {
    hide DocText, SpansOf, RTrim, GapAt;
    var x := d.entries[i - 1].postValue + (RTrim(GapAt(d, i)) + d.entries[i].postValue);
    MergeIsRemade(d, i);
    RemadeMembers(d, i, postValue, comma);
    RemadeMembers(d, i, x, None);
    SameSpans(Remade(d, i, postValue, comma), Remade(d, i, x, None));
  }

  lemma MergeIsRemade(d: Doc, i: nat)
    requires Commas(d) && 0 < i && i + 1 == |d.entries|
    ensures MergeTail(d, i) == Remade(d, i, d.entries[i - 1].postValue + (RTrim(GapAt(d, i)) + d.entries[i].postValue), None)
  {
  }

  lemma SameSpans(a: Doc, b: Doc)
    requires a.pre == b.pre && a.inner == b.inner && a.post == b.post && |DocText(a)| == |DocText(b)|
    requires MembersOf(a.entries, |a.pre| + 1 + |a.inner|) == MembersOf(b.entries, |a.pre| + 1 + |a.inner|)
    ensures SpansOf(a) == SpansOf(b)
  {
    hide DocText, MembersOf, EntriesLen;
    DocLen(a);
    DocLen(b);
  }

  lemma RemadeMembers(d: Doc, i: nat, postValue: string, comma: Option<string>)
    requires 0 < i <= |d.entries|
    ensures MembersOf(Remade(d, i, postValue, comma).entries, |d.pre| + 1 + |d.inner|)
            == MembersOf(d.entries[..i], |d.pre| + 1 + |d.inner|)
  {
    hide MembersOf;
    assert d.entries[..i][..i - 1] == d.entries[..i - 1];
    LastTailIrrelevant(d.entries[..i], Remade(d, i, postValue, comma).entries[i - 1], |d.pre| + 1 + |d.inner|);
  }

  lemma RemadeWellFormed(d: Doc, i: nat, postValue: string, comma: Option<string>, loads: KeyReader)
    requires WellFormed(d, loads) && 0 < i <= |d.entries|
    requires IsGap(postValue) && (comma.Some? ==> IsGap(comma.value)) && !Swallows(d.entries[i - 1].value, postValue)
    ensures WellFormed(Remade(d, i, postValue, comma), loads)
  {
    var front, prev := d.entries[..i - 1], d.entries[i - 1].(postValue := postValue, comma := comma);
    assert WellFormedEntry(d.entries[i - 1], loads);
    JoinWellFormed(front, prev, [], loads);
    assert front + [prev] == front + ([prev] + []);
  }

  lemma SafeMerged(d: Doc, i: nat, loads: KeyReader)
    requires WellFormed(d, loads) && Commas(d) && 0 < i && i + 1 == |d.entries| && d.entries[i].comma.None? && Safe(d, i)
    ensures ParseMembers(DocText(MergeTail(d, i)), loads) == Ok(SpansOf(MergeTail(d, i)))
  {
    hide IsGap, WellFormed, WellFormedEntry, GapAt, RTrim, DocText, SpansOf, ParseMembers, AfterComma, Upto, Remade, CommaJoins, MergeTail, Swallows;
    var g, e, prev := GapAt(d, i), d.entries[i], d.entries[i - 1];
    var x, r := prev.postValue + (RTrim(g) + e.postValue), "}" + d.post;
    TailIsGap(d, i, loads);
    PrevGap(prev, loads);
    RTrimIs(g);
    CommaJoinsIs(prev.postValue, g, |RTrim(g)|, e.postValue, d.post);
    var pv, comma := CommaSplits(x + r);
    SameStart(prev.value, x, r, pv, comma);
    MergedText(d, i);
    RemadeText(d, i, pv, comma);
    RemadeSpans(d, i, pv, comma);
    RemadeWellFormed(d, i, pv, comma, loads);
    WrittenIsRead(Remade(d, i, pv, comma), loads);
  }

  lemma PrevGap(e: Entry, loads: KeyReader)
    requires WellFormedEntry(e, loads)
    ensures IsGap(e.postValue)
  {
  }

  lemma SameStart(v: string, x: string, r: string, pv: string, comma: Option<string>)
    requires x + r == pv + CommaThen(comma, r) && r != [] && r[0] == '}' && !Swallows(v, x)
    ensures !Swallows(v, pv)
  {
    if pv != [] {
      assert (x + r)[0] == pv[0];
    }
  }

  /** A safe deletion is accepted, without the member, every other span moved and nothing else. */
  lemma SafeIsRead(d: Doc, i: nat, loads: KeyReader)
    requires WellFormed(d, loads) && Commas(d) && i < |d.entries| && Safe(d, i)
    ensures ParseMembers(DocText(DeleteDoc(d, i)), loads) == Ok(SpansOf(DeleteDoc(d, i)))
  {
    hide IsGap, WellFormed, WellFormedEntry, Joins, GapAt, RTrim, TailGap, Splice, Blank, JoinedLines, ParseMembers, DocText, SpansOf;
    TailIsGap(d, i, loads);
    var g, e := GapAt(d, i), d.entries[i];
    if i > 0 && i + 1 == |d.entries| && e.comma.None? {
      SafeMerged(d, i, loads);
    } else {
      if i + 1 < |d.entries| {
        JoinedLinesAreGap(g, TailGap(e));
        TailGapIs(e);
        SplicedWellFormed(d, i, JoinedLines(g, e.comma.value), d.entries[i + 1..], loads);
      } else {
        RTrimIs(g);
        JoinedGap(g, |RTrim(g)|, TailGap(e));
        SplicedWellFormed(d, i, RTrim(g) + TailGap(e), [], loads);
        if i == 0 {
          WsGap("");
          SplicedWellFormed(d, 0, "", [], loads);
        }
      }
      WrittenIsRead(DeleteDoc(d, i), loads);
    }
  }
}
