/** Installing hooks in a file that has some, and taking them out again. */
module HookReinstall {
  import opened Options
  import opened Text
  import opened JsoncScanner
  import opened JsoncDoc
  import opened JsonDump
  import opened JsoncEdit
  import opened JsoncSplice
  import opened JsoncSet
  import opened JsoncTheorems
  import opened JsoncContents
  import opened JsoncDeleteExact
  import opened JsoncLoads
  import opened HookFiles
  import HookRules

  // ----- Setting one key twice -----

  lemma SamePrefixIndent(t: string, r: string, k: nat)
    requires k <= |t| && k <= |r| && t[..k] == r[..k]
    ensures IndentOf(r, k) == IndentOf(t, k)
  {
    hide LineStart, Blank;
    var n := LineStart(t, k);
    assert forall j :: 0 <= j < k ==> t[..k][j] == r[..k][j];
    LineStartUnique(r, k, n);
    assert t[n..k] == t[..k][n..] && r[n..k] == r[..k][n..];
  }

  lemma SameIndex(p: Parsed, i: nat, x: string, k: int, key: string)
    requires i < |p.members| && IndexOfKey(p.members, key) == i
    ensures var q := Replaced(p, i, x, k);
            && |q.members| == |p.members| && IndexOfKey(q.members, key) == i
            && q.members[i] == p.members[i].(valueEnd := p.members[i].valueStart + |x|)
            && forall j :: 0 <= j < |p.members| ==> q.members[j].key == p.members[j].key
  {
    hide IndexOfKey;
    var q := Replaced(p, i, x, k);
    forall j | 0 <= j < |p.members|
      ensures q.members[j].key == p.members[j].key
    {
      if j > i {
        assert q.members[j] == Shift(p.members[i + 1..], k)[j - i - 1];
      }
    }
    assert !(IndexOfKey(q.members, key) < i);
    assert !(i < IndexOfKey(q.members, key));
  }

  /** What the text is when a key that is there is set to one object and then to another. */
  lemma SetTwice(t: string, key: string, a: seq<Field>, b: seq<Field>, loads: KeyReader)
    requires ParseMembers(t, loads).Ok? && Proper(Obj(a)) && Proper(Obj(b))
    requires IndexOfKey(ParseMembers(t, loads).value.members, key) < |ParseMembers(t, loads).value.members|
    ensures var p := ParseMembers(t, loads).value;
            var i := IndexOfKey(p.members, key);
            var t1 := SetText(t, key, Obj(a), loads);
            && Within(t, p) && MemberWithin(p.members[i], p.close) && t1.Ok? && ParseMembers(t1.value, loads).Ok?
            && IndexOfKey(ParseMembers(t1.value, loads).value.members, key) == i < |ParseMembers(t1.value, loads).value.members|
            && SetText(t1.value, key, Obj(b), loads)
               == Ok(t[..p.members[i].valueStart]
                     + ReplaceNewlines(DumpValue(Obj(b), PadFor(t, p, key)), NewlineOf(t1.value))
                     + t[p.members[i].valueEnd..])
  {
    hide ParseMembers, SetText, NewValue, RunsOn, Replaced, DumpValue, ReplaceNewlines, IndentOf;
    ParsedWithin(t, loads);
    var p := ParseMembers(t, loads).value;
    var i := IndexOfKey(p.members, key);
    var m, x := p.members[i], NewValue(t, p, key, Obj(a));
    var k := |x| - (m.valueEnd - m.valueStart);
    SetReplaces(t, key, Obj(a), loads);
    ObjectsEnd(t, p, key, a, m);
    SameIndex(p, i, x, k, key);
    var t1 := t[..m.valueStart] + x + t[m.valueEnd..];
    SetReplaces(t1, key, Obj(b), loads);
    assert t1[..m.valueStart] == t[..m.valueStart] && t1[m.valueStart + |x|..] == t[m.valueEnd..];
    var q := Replaced(p, i, x, k);
    assert NewValue(t1, q, key, Obj(b)) == ReplaceNewlines(DumpValue(Obj(b), PadFor(t, p, key)), NewlineOf(t1)) by {
      assert t1[..m.keyStart] == t[..m.keyStart];
      SamePrefixIndent(t, t1, m.keyStart);
      NewValueIs(t1, q, key, Obj(b));
    }
  }

  lemma NewValueIs(t: string, p: Parsed, key: string, v: Json)
    requires Within(t, p)
    ensures NewValue(t, p, key, v) == ReplaceNewlines(DumpValue(v, PadFor(t, p, key)), NewlineOf(t))
  {
  }

  // ----- Installing and removing -----

  /** The parser reads what is written in place of the hooks that are there. */
  predicate ReadsAgain(t: string, v: Json, loads: KeyReader, parse: Parser) {
    && ParseMembers(t, loads).Ok?
    && (ParsedWithin(t, loads); parse(NewValue(t, ParseMembers(t, loads).value, "hooks", v)) == Some(v))
  }

  lemma ReadsAgainIs(t: string, v: Json, loads: KeyReader, parse: Parser)
    requires ReadsAgain(t, v, loads, parse)
    ensures ParseMembers(t, loads).Ok? && Within(t, ParseMembers(t, loads).value)
    ensures parse(NewValue(t, ParseMembers(t, loads).value, "hooks", v)) == Some(v)
  {
    hide ParseMembers, NewValue;
    ParsedWithin(t, loads);
  }

  /** The file has one member with that name. */
  predicate HasHooks(t: string, loads: KeyReader) {
    && ParseMembers(t, loads).Ok?
    && (var ms := ParseMembers(t, loads).value.members; IndexOfKey(ms, "hooks") < |ms| && Single(ms, IndexOfKey(ms, "hooks")))
  }

  lemma HasHooksIs(t: string, loads: KeyReader)
    requires HasHooks(t, loads)
    ensures ParseMembers(t, loads).Ok?
    ensures var ms := ParseMembers(t, loads).value.members; IndexOfKey(ms, "hooks") < |ms| && Single(ms, IndexOfKey(ms, "hooks"))
  {
  }

  /** After a safe deletion of member `i`, the other members are those of the original text. */
  predicate RestStays(t: string, t1: string, r: string, i: nat, loads: KeyReader) {
    && ParseMembers(t, loads).Ok? && ParseMembers(t1, loads).Ok?
    && (ParsedWithin(t, loads); ParsedWithin(t1, loads);
        var p, p1 := ParseMembers(t, loads).value, ParseMembers(t1, loads).value;
        i < |p.members| && i < |p1.members|
        && (DeletionIsSafe(t1, p1, i) ==>
              && ParseMembers(r, loads).Ok?
              && (ParsedWithin(r, loads); Pairs(r, ParseMembers(r, loads).value) == Pairs(t, p)[..i] + Pairs(t, p)[i + 1..])))
  }

  lemma DeletedRest(t: string, a: seq<Field>, loads: KeyReader)
    requires ParseMembers(t, loads).Ok? && Proper(Obj(a))
    requires IndexOfKey(ParseMembers(t, loads).value.members, "hooks") < |ParseMembers(t, loads).value.members|
    ensures var i, t1 := IndexOfKey(ParseMembers(t, loads).value.members, "hooks"), SetText(t, "hooks", Obj(a), loads);
            && t1.Ok? && DeleteText(t1.value, "hooks", loads).Ok?
            && RestStays(t, t1.value, DeleteText(t1.value, "hooks", loads).value, i, loads)
  {
    hide ParseMembers, SetText, DeleteText, NewValue, RunsOn, DeletionIsSafe, Pairs, Within, DumpValue, ReplaceNewlines;
    ParsedWithin(t, loads);
    var p := ParseMembers(t, loads).value;
    var i := IndexOfKey(p.members, "hooks");
    SetContents(t, "hooks", Obj(a), loads);
    EndInside(t, p, i);
    ObjectsEnd(t, p, "hooks", a, p.members[i]);
    SetTwice(t, "hooks", a, a, loads);
    var t1 := SetText(t, "hooks", Obj(a), loads).value;
    ParsedWithin(t1, loads);
    DeleteContents(t1, "hooks", loads);
    SameCount(t, p);
    WithoutOne(Pairs(t, p), i, ("hooks", NewValue(t, p, "hooks", Obj(a))));
  }

  lemma SameCount(t: string, p: Parsed)
    requires Within(t, p)
    ensures |Pairs(t, p)| == |p.members|
  {
  }

  lemma WithoutOne<T>(s: seq<T>, i: nat, x: T)
    requires i < |s|
    ensures s[i := x][..i] + s[i := x][i + 1..] == s[..i] + s[i + 1..]
  {
  }

  lemma UpdateSets(t: string, v: Json, repr: HookRules.Repr, loads: KeyReader)
    ensures var (kept, n) := HookRules.Strip(v, repr);
            n > 0 && kept != [] ==> WithoutRules(t, Some(v), repr, loads) == SetText(t, "hooks", Obj(kept), loads)
  {
    hide SetText, UpdateText, HookRules.Strip;
    OneUpdate(t, Update("hooks", Some(Obj(HookRules.Strip(v, repr).0))), loads);
  }

  /**
   Rules installed in a file that has hooks, its user's or older ones of ours, and taken out again. The
   file is as it was but for the value of `hooks`, which is now the dump of what the user had; when the user
   had nothing, that member is deleted, or the file. With no rule to install, nothing is taken out.
   Whatever is deleted, the other members stay, when the deletion is a safe one.
   */
  lemma ReinstallThenRemove(t: string, requests: seq<HookRules.Event>, hookOnly: bool, ignorable: set<string>,
                            repr: HookRules.Repr, loads: KeyReader, parse: Parser)
    requires HasHooks(t, loads) && IsParser(parse, loads) && Loadable(t, loads) && LoadData(t, parse).Some?
    requires HooksIn(LoadData(t, parse).value).Some?
    requires var merged := HookRules.Merge(HooksIn(LoadData(t, parse).value).value, requests, repr);
             Proper(Obj(merged)) && ReadsAgain(t, Obj(merged), loads, parse)
    requires Proper(Obj(HookRules.Strip(HooksIn(LoadData(t, parse).value).value, repr).0))
    ensures var h, p := HooksIn(LoadData(t, parse).value).value, ParseMembers(t, loads).value;
            var kept, n := HookRules.Strip(h, repr).0, HookRules.Installed(HookRules.Strip(h, repr).0, requests);
            var installed := SetText(t, "hooks", Obj(HookRules.Merge(h, requests, repr)), loads);
            var i := IndexOfKey(p.members, "hooks");
            && Within(t, p) && MemberWithin(p.members[i], p.close) && installed.Ok?
            && (var (outcome, removed) := Removal(installed.value, hookOnly, ignorable, repr, loads, parse);
                && removed == n && (n == 0 ==> outcome == Untouched)
                && (n > 0 && kept != [] ==>
                      outcome == Written(t[..p.members[i].valueStart]
                                         + ReplaceNewlines(DumpValue(Obj(kept), PadFor(t, p, "hooks")), NewlineOf(installed.value))
                                         + t[p.members[i].valueEnd..]))
                && (n > 0 && kept == [] ==>
                      var deleted := DeleteText(installed.value, "hooks", loads);
                      && deleted.Ok?
                      && RestStays(t, installed.value, deleted.value, i, loads)
                      && outcome == if !HasOthers(LoadData(t, parse).value, ignorable) && (hookOnly || IsEmptyObject(deleted.value))
                                    then Deleted else Written(deleted.value)))
  {
    hide *;
    HasHooksIs(t, loads);
    var data := LoadData(t, parse).value;
    var h := HooksIn(data).value;
    var merged, kept := HookRules.Merge(h, requests, repr), HookRules.Strip(h, repr).0;
    ReadsAgainIs(t, Obj(merged), loads, parse);
    LoadAfterReplace(t, "hooks", merged, loads, parse);
    PutOther(data, Obj(merged), ignorable);
    SetTwice(t, "hooks", merged, kept, loads);
    var t1 := SetText(t, "hooks", Obj(merged), loads).value;
    HookRules.MergeThenStrip(h, requests, repr);
    RemovalIs(t1, hookOnly, ignorable, repr, loads, parse);
    WithoutRulesUnfold(t1, Obj(merged), repr, loads);
    UpdateSets(t1, Obj(merged), repr, loads);
    DeletedRest(t, merged, loads);
  }
}
