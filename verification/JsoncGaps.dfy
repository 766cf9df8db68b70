/** What trimming, cutting and joining does to the gaps between tokens. */
module JsoncGaps {
  import opened Text
  import opened JsoncScanner
  import opened JsoncDoc

  /** Complete items, then a line comment with no newline yet. */
  predicate OpenComment(g: string) {
    g != [] && if ItemLen(g) > 0 then OpenComment(g[ItemLen(g)..]) else "//" <= g
  }

  lemma {:induction false} OpenIsNoGap(g: string)
    requires OpenComment(g)
    ensures !IsGap(g)
  {
    if ItemLen(g) > 0 {
      OpenIsNoGap(g[ItemLen(g)..]);
    }
  }

  /** Text after an open comment belongs to it up to the first newline. */
  lemma OpenItem(o: string, a: string, r: string)
    requires "//" <= o && ItemLen(o) == 0 && '\n' !in a
    ensures ItemLen(o + (a + ("\n" + r))) == |o| + |a| + 1 && (o + (a + ("\n" + r)))[|o| + |a| + 1..] == r
    ensures ItemLen(o + a) == 0 && "//" <= o + a
  {
    assert Find(o, '\n') == |o|;
    FindUnique(o + (a + ("\n" + r)), '\n', |o| + |a|);
    FindUnique(o + a, '\n', |o| + |a|);
    CutThree(o, a, "\n", r);
  }

  lemma GapStep(g: string, s: string)
    requires ItemLen(g) > 0
    ensures IsGap(g + s) <==> IsGap(g[ItemLen(g)..] + s)
  {
    ItemLocal(g, s);
    assert (g + s)[ItemLen(g)..] == g[ItemLen(g)..] + s;
  }

  lemma {:induction false} ClosedComment(o: string, a: string, r: string)
    requires OpenComment(o) && '\n' !in a
    ensures IsGap(o + (a + ("\n" + r))) <==> IsGap(r)
    decreases |o|
  {
    hide FindEndMark;
    var rest := a + ("\n" + r);
    if ItemLen(o) == 0 {
      CommentItem(o, a, r);
    } else {
      hide ItemLen;
      GapStep(o, rest);
      ClosedComment(o[ItemLen(o)..], a, r);
    }
  }

  lemma ItemRest(s: string, n: nat, r: string)
    requires ItemLen(s) == n > 0 && s[n..] == r
    ensures IsGap(s) <==> IsGap(r)
    ensures TriviaLen(s) == Plus(n, TriviaLen(r))
  {
    hide ItemLen;
  }

  lemma CommentItem(o: string, a: string, r: string)
    requires "//" <= o && ItemLen(o) == 0 && '\n' !in a
    ensures IsGap(o + (a + ("\n" + r))) <==> IsGap(r)
    ensures TriviaLen(o + (a + ("\n" + r))) == Plus(|o| + |a| + 1, TriviaLen(r))
  {
    hide IsGap, TriviaLen, ItemLen;
    OpenItem(o, a, r);
    ItemRest(o + (a + ("\n" + r)), |o| + |a| + 1, r);
  }

  lemma {:induction false} ClosedCommentRead(o: string, a: string, r: string)
    requires OpenComment(o) && '\n' !in a
    ensures TriviaLen(o + (a + ("\n" + r))) == Plus(|o| + |a| + 1, TriviaLen(r))
    decreases |o|
  {
    hide TriviaLen, FindEndMark;
    var rest := a + ("\n" + r);
    if ItemLen(o) == 0 {
      CommentItem(o, a, r);
    } else {
      hide ItemLen;
      TriviaStep(o, rest);
      ClosedCommentRead(o[ItemLen(o)..], a, r);
    }
  }

  lemma {:induction false} StillOpen(o: string, a: string)
    requires OpenComment(o) && '\n' !in a
    ensures OpenComment(o + a)
    decreases |o|
  {
    var n := ItemLen(o);
    if n == 0 {
      OpenItem(o, a, "");
    } else {
      ItemLocal(o, a);
      assert (o + a)[n..] == o[n..] + a;
      StillOpen(o[n..], a);
    }
  }

  /** Where an item ends. */
  lemma ItemEnd(g: string, k: nat)
    requires 0 < k < ItemLen(g)
    ensures "//" <= g || "/*" <= g
    ensures "//" <= g ==> g[ItemLen(g) - 1] == '\n' && forall j :: 0 <= j < ItemLen(g) - 1 ==> g[j] != '\n'
    ensures "/*" <= g ==> g[ItemLen(g) - 1] == '/'
  {
    if "/*" <= g {
      assert g[0] == '/' && g[1] == '*' && !("//" <= g);
      var m := FindEndMark(g[2..]);
      assert EndMarkAt(g[2..], m);
      assert g[m + 3] == g[2..][m + 1];
    }
  }

  /** Cutting white space off a gap leaves a gap, or one whose last line comment lost its newline. */
  lemma {:induction false} TrimmedGap(g: string, k: nat)
    requires IsGap(g) && k <= |g| && AllWs(g[k..])
    ensures IsGap(g[..k]) || OpenComment(g[..k])
    decreases |g|
  {
    var n := ItemLen(g);
    if k == 0 {
    } else if n <= k {
      Drops(g, n, k - n);
      TrimmedGap(g[n..], k - n);
      Glue(g, k);
      ItemLocal(g[..k], g[k..]);
      assert g[..k][n..] == g[n..][..k - n];
    } else {
      ItemEnd(g, k);
      assert g[n - 1] == g[k..][n - 1 - k];
      OpenHead(g, k);
    }
  }

  lemma OpenHead(g: string, k: nat)
    requires 0 < k < ItemLen(g) && "//" <= g && AllWs(g[k..])
    ensures OpenComment(g[..k])
  {
    ItemEnd(g, k);
    FindUnique(g[..k], '\n', k);
    assert "//" <= g[..k];
  }

  lemma LineIsWhole(g: string, k: nat)
    requires 0 < k <= |g| && AllWs(g[k..]) && g[k - 1] == '\n'
    ensures ItemLen(g) <= k
  {
    if k < ItemLen(g) {
      ItemEnd(g, k);
    }
  }

  /** A line of white space at the end of a gap starts where an item ends. */
  lemma {:induction false} WholeLines(g: string, k: nat)
    requires IsGap(g) && 0 < k <= |g| && AllWs(g[k..]) && g[k - 1] == '\n'
    ensures IsGap(g[..k])
    decreases |g|
  {
    var n := ItemLen(g);
    LineIsWhole(g, k);
    if k == n {
      Glue(g, k);
      ItemLocal(g[..k], g[k..]);
      assert g[..k][n..] == [];
    } else {
      Drops(g, n, k - n);
      WholeLines(g[n..], k - n);
      Glue(g, k);
      ItemLocal(g[..k], g[k..]);
      assert g[..k][n..] == g[n..][..k - n];
    }
  }

  /** Between tokens, what Python calls blank on the last line is JSON white space. */
  lemma {:induction false} BlankIsWs(g: string, k: nat)
    requires IsGap(g) && k <= |g| && Blank(g[k..]) && '\n' !in g[k..]
    ensures AllWs(g[k..])
    decreases |g|
  {
    var n := ItemLen(g);
    if g == [] || k == |g| {
    } else if n <= k {
      Drops(g, n, k - n);
      BlankIsWs(g[n..], k - n);
    } else if n == 1 {
      assert g[0] == g[k..][0];
      assert g[1..] == g[k..][1..];
      BlankIsWs(g[1..], 0);
    } else {
      LastOfComment(g, k);
    }
  }

  lemma LastOfComment(g: string, k: nat)
    requires ItemLen(g) > 1 && k < ItemLen(g)
    ensures '\n' in g[k..] || !Blank(g[k..])
  {
    var n := ItemLen(g);
    ItemEnd(g, n - 1);
    assert g[n - 1] == g[k..][n - 1 - k];
    assert g[n - 1] in g[k..];
  }

  /** Leading white space can be cut off a gap. */
  lemma {:induction false} CutLeadingWs(g: string, k: nat)
    requires IsGap(g) && k <= |g| && AllWs(g[..k])
    ensures IsGap(g[k..])
  {
    WsGap(g[..k]);
    Glue(g, k);
    GapConcat(g[..k], g[k..]);
  }

  /** A trimmed gap is a gap again with a line break and an indentation after it. */
  lemma BreakAfterTrim(g: string, newline: string, pad: string)
    requires IsGap(g) && AllWs(pad) && (newline == "\n" || newline == "\r\n")
    ensures IsGap(RTrim(g) + (newline + pad))
  {
    hide IsGap, OpenComment;
    var k := |RTrim(g)|;
    TrimmedGap(g, k);
    WsGap(newline + pad);
    if IsGap(g[..k]) {
      GapConcat(g[..k], newline + pad);
    } else {
      WsGap(pad);
      var a := if newline == "\n" then "" else "\r";
      assert newline + pad == a + ("\n" + pad);
      ClosedComment(g[..k], a, pad);
    }
  }

  /** The gap kept in front of a deleted last member, joined with what followed that member. */
  predicate Joins(kept: string, tail: string) {
    IsGap(kept) || (Find(tail, '\n') < |tail| && IsGap(tail[Find(tail, '\n') + 1..]))
  }

  lemma JoinedGap(g: string, k: nat, tail: string)
    requires IsGap(g) && k <= |g| && AllWs(g[k..]) && IsGap(tail)
    ensures IsGap(g[..k] + tail) <==> Joins(g[..k], tail)
  {
    TrimmedGap(g, k);
    var kept := g[..k];
    if IsGap(kept) {
      GapConcat(kept, tail);
    } else {
      var m := Find(tail, '\n');
      if m < |tail| {
        assert tail == tail[..m] + ("\n" + tail[m + 1..]);
        ClosedComment(kept, tail[..m], tail[m + 1..]);
      } else {
        StillOpen(kept, tail);
        OpenIsNoGap(kept + tail);
      }
    }
  }
}
