/** Hook rules in a JSON file with comments: installing them and taking them out again. */
module HookFiles {
  import opened Options
  import opened Text
  import opened JsoncScanner
  import opened JsoncDoc
  import opened JsonDump
  import opened JsoncEdit
  import opened JsoncAppend
  import opened JsoncTheorems
  import opened JsoncContents
  import opened JsoncDeleteExact
  import opened JsoncStrict
  import opened JsoncStrictFacts
  import opened JsoncStrictTheorems
  import opened JsoncLoads
  import opened JsoncStrictMethods
  import HookRules
  import JsoncMethods

  // ----- Applying several updates -----

  /** One top-level update; no value stands for `DELETE`. */
  datatype Update = Update(key: string, value: Option<Json>)

  function Apply(t: string, u: Update, loads: KeyReader): Result<string> {
    match u.value case None => DeleteText(t, u.key, loads) case Some(v) => SetText(t, u.key, v, loads)
  }

  /** `update_json_text` */
  function UpdateText(t: string, updates: seq<Update>, loads: KeyReader): Result<string>
    decreases |updates|
  {
    if updates == [] then Ok(t)
    else
      match Apply(t, updates[0], loads)
      case Err(e) => Err(e)
      case Ok(next) => UpdateText(next, updates[1..], loads)
  }

  function Deletions(keys: seq<string>): (r: seq<Update>)
    ensures |r| == |keys|
  {
    if keys == [] then [] else Deletions(keys[1..]) + [Update(keys[0], None)]
  }

  function Settings(keys: seq<string>, values: seq<Json>): (r: seq<Update>)
    requires |keys| == |values|
    ensures |r| == |keys|
  {
    if keys == [] then [] else [Update(keys[0], Some(values[0]))] + Settings(keys[1..], values[1..])
  }

  lemma {:induction false} UpdateConcat(t: string, a: seq<Update>, b: seq<Update>, loads: KeyReader)
    ensures UpdateText(t, a + b, loads)
            == match UpdateText(t, a, loads) case Ok(next) => UpdateText(next, b, loads) case Err(e) => Err(e)
    decreases |a|
  {
    hide Apply;
    if a == [] {
      assert a + b == b;
    } else {
      assert (a + b)[1..] == a[1..] + b;
      var r := Apply(t, a[0], loads);
      if r.Ok? {
        UpdateConcat(r.value, a[1..], b, loads);
      }
    }
  }

  /** None of the keys is in the text. */
  predicate AreNew(t: string, keys: seq<string>, loads: KeyReader) {
    && ParseMembers(t, loads).Ok?
    && (var ms := ParseMembers(t, loads).value.members;
        forall i :: 0 <= i < |keys| ==> IndexOfKey(ms, keys[i]) == |ms|)
  }

  predicate NotHollow(t: string, loads: KeyReader) {
    && ParseMembers(t, loads).Ok?
    && (ParsedWithin(t, loads); var p := ParseMembers(t, loads).value; HollowText(t, p) ==> t[p.open + 1..p.close] == "")
  }

  lemma StillAbsent(ms: seq<Member>, m: Member, key: string)
    requires IndexOfKey(ms, key) == |ms| && m.key != key
    ensures IndexOfKey(ms + [m], key) == |ms + [m]|
  {
    assert forall i :: 0 <= i < |ms| ==> (ms + [m])[i] == ms[i];
  }

  /** After a new key is set, the other new keys are still new, and the object is not hollow. */
  lemma NextIsNew(t: string, keys: seq<string>, v: Json, loads: KeyReader)
    requires keys != [] && AreNew(t, keys, loads) && Proper(v) && Reads(loads, keys[0])
    requires forall i :: 0 < i < |keys| ==> keys[i] != keys[0]
    ensures SetText(t, keys[0], v, loads).Ok?
    ensures AreNew(SetText(t, keys[0], v, loads).value, keys[1..], loads)
    ensures NotHollow(SetText(t, keys[0], v, loads).value, loads)
  {
    hide ParseMembers, SetText, InsertedValue, IsMember, Within, HollowText, IndexOfKey;
    var m := SetAppends(t, keys[0], v, loads);
    var r := SetText(t, keys[0], v, loads).value;
    var ms := ParseMembers(t, loads).value.members;
    assert m.key == keys[0] by { MemberKey(r, m, keys[0], InsertedValue(t, ParseMembers(t, loads).value, keys[0], v)); }
    forall i | 0 <= i < |keys[1..]|
      ensures IndexOfKey(ms + [m], keys[1..][i]) == |ms + [m]|
    {
      StillAbsent(ms, m, keys[i + 1]);
    }
    ParsedWithin(r, loads);
    HasMembers(r, ParseMembers(r, loads).value);
  }

  lemma MemberKey(r: string, m: Member, key: string, x: string)
    requires IsMember(r, m, key, x)
    ensures m.key == key
  {
  }

  lemma HasMembers(t: string, p: Parsed)
    requires Within(t, p) && p.members != []
    ensures !HollowText(t, p)
  {
  }

  /**
   Setting any number of new keys and then deleting them in the opposite order gives the text back,
   byte for byte.
   */
  lemma {:induction false} SettingsUndone(t: string, keys: seq<string>, values: seq<Json>, loads: KeyReader)
    requires |keys| == |values| && AreNew(t, keys, loads) && NotHollow(t, loads)
    requires forall i :: 0 <= i < |keys| ==> Proper(values[i]) && Reads(loads, keys[i])
    requires forall i, j :: 0 <= i < j < |keys| ==> keys[i] != keys[j]
    ensures UpdateText(t, Settings(keys, values) + Deletions(keys), loads) == Ok(t)
    decreases |keys|
  {
    hide ParseMembers, SetText, DeleteText, NotHollow, HollowText, Within, IndexOfKey, Reads, Proper;
    if keys == [] {
      assert Settings(keys, values) + Deletions(keys) == [];
    } else {
      var key, v := keys[0], values[0];
      NextIsNew(t, keys, v, loads);
      var next := SetText(t, key, v, loads).value;
      SettingsUndone(next, keys[1..], values[1..], loads);
      var inner := Settings(keys[1..], values[1..]) + Deletions(keys[1..]);
      Peeled(keys, values);
      UpdateConcat(t, [Update(key, Some(v))], inner + [Update(key, None)], loads);
      UpdateConcat(next, inner, [Update(key, None)], loads);
      OneUpdate(t, Update(key, Some(v)), loads);
      OneUpdate(next, Update(key, None), loads);
      SetThenDelete(t, key, v, loads);
      NotHollowIs(t, loads);
    }
  }

  lemma NotHollowIs(t: string, loads: KeyReader)
    requires NotHollow(t, loads)
    ensures ParseMembers(t, loads).Ok? && Within(t, ParseMembers(t, loads).value)
    ensures var p := ParseMembers(t, loads).value; HollowText(t, p) ==> t[p.open + 1..p.close] == ""
  {
    hide ParseMembers, HollowText;
    ParsedWithin(t, loads);
  }

  lemma Peeled(keys: seq<string>, values: seq<Json>)
    requires keys != [] && |keys| == |values|
    ensures Settings(keys, values) + Deletions(keys)
            == [Update(keys[0], Some(values[0]))]
               + ((Settings(keys[1..], values[1..]) + Deletions(keys[1..])) + [Update(keys[0], None)])
  {
  }

  lemma OneUpdate(t: string, u: Update, loads: KeyReader)
    ensures UpdateText(t, [u], loads) == Apply(t, u, loads)
  {
    hide Apply;
    var r := Apply(t, u, loads);
    assert [u][1..] == [];
    if r.Ok? {
      assert UpdateText(r.value, [], loads) == r;
    }
  }

  method UpdateAll(t: string, updates: seq<Update>, loads: KeyReader) returns (r: Result<string>)
    ensures r == UpdateText(t, updates, loads)
  {
    hide DeleteText, SetText;
    var text := t;
    for i := 0 to |updates|
      invariant UpdateText(text, updates[i..], loads) == UpdateText(t, updates, loads)
    {
      var u := updates[i];
      assert updates[i..][1..] == updates[i + 1..];
      var next;
      match u.value {
        case None => next := JsoncMethods.Delete(text, u.key, loads);
        case Some(v) => next := JsoncMethods.Set(text, u.key, v, loads);
      }
      if next.Err? {
        return next;
      }
      text := next.value;
    }
    assert updates[|updates|..] == [];
    r := Ok(text);
  }

  // ----- Hook rules in a file -----

  /** What `remove_from_hook_file` writes, for a file that is kept; `hooks` is the value under the key, when there is one. */
  function WithoutRules(t: string, hooks: Option<Json>, repr: HookRules.Repr, loads: KeyReader): Result<string> {
    var (remaining, removed) := match hooks case Some(v) => HookRules.Strip(v, repr) case None => ([], 0);
    if removed == 0 then Ok(t)
    else UpdateText(t, [Update("hooks", if remaining == [] then None else Some(Obj(remaining)))], loads)
  }

  /** What happens to the file. */
  datatype Outcome = Untouched | Written(text: string) | Deleted | Unreadable | Failed(error: JsoncError)

  function HooksIn(data: Dictionary): Option<Json> {
    if HookRules.Has(data, "hooks") then Some(HookRules.Get(data, "hooks")) else None
  }

  /** A key that is neither `hooks` nor among those that do not count as the user's. */
  predicate HasOthers(data: Dictionary, ignorable: set<string>) {
    exists i :: 0 <= i < |data| && data[i].name != "hooks" && data[i].name !in ignorable
  }

  function WithoutSpace(t: string): string {
    if t == [] then [] else (if PySpace(t[0]) then [] else [t[0]]) + WithoutSpace(t[1..])
  }

  predicate IsEmptyObject(t: string) { WithoutSpace(StripMarks(t)) == "{}" }

  /** `remove_from_hook_file`: `hookOnly` says that the file's name is that of a file for hooks only. */
  function Removal(t: string, hookOnly: bool, ignorable: set<string>, repr: HookRules.Repr, loads: KeyReader, parse: Parser): (Outcome, nat) {
    var data := LoadData(t, parse);
    if data.None? then (Unreadable, 0)
    else
      var hooks := HooksIn(data.value);
      var (remaining, removed) := match hooks case Some(v) => HookRules.Strip(v, repr) case None => ([], 0);
      var alone := remaining == [] && !HasOthers(data.value, ignorable);
      if removed == 0 then (Untouched, 0)
      else if alone && hookOnly then (Deleted, removed)
      else
        match WithoutRules(t, hooks, repr, loads)
        case Err(e) => (Failed(e), 0)
        case Ok(text) => (if alone && IsEmptyObject(text) then Deleted else Written(text), removed)
  }

  /**
   Rules installed in a file that has no `hooks` key, and taken out again, leave the file as it was, byte
   for byte, when a rule was installed and the file is kept. It is not kept when it has no key of the
   user's and is a file for hooks only or an empty object. An empty installation leaves its key behind.
   */
  lemma InstallThenRemove(t: string, requests: seq<HookRules.Event>, hookOnly: bool, ignorable: set<string>,
                          repr: HookRules.Repr, loads: KeyReader, parse: Parser)
    requires AreNew(t, ["hooks"], loads) && NotHollow(t, loads) && Reads(loads, "hooks")
    requires Proper(Obj(HookRules.Merge(Obj([]), requests, repr)))
    requires IsParser(parse, loads) && Loadable(t, loads) && LoadData(t, parse).Some?
    requires ReadsBack(t, Obj(HookRules.Merge(Obj([]), requests, repr)), loads, parse)
    ensures var v, n := Obj(HookRules.Merge(Obj([]), requests, repr)), HookRules.Installed([], requests);
            && SetText(t, "hooks", v, loads).Ok?
            && Removal(SetText(t, "hooks", v, loads).value, hookOnly, ignorable, repr, loads, parse)
               == if n == 0 then (Untouched, 0)
                  else if !HasOthers(LoadData(t, parse).value, ignorable) && (hookOnly || IsEmptyObject(t)) then (Deleted, n)
                  else (Written(t), n)
  {
    hide *;
    var v := Obj(HookRules.Merge(Obj([]), requests, repr));
    FirstIsNew(t, loads);
    ReadsBackIs(t, v, loads, parse);
    LoadAfterSet(t, "hooks", v, loads, parse);
    RemovedText(t, requests, repr, loads);
    var data := LoadData(t, parse).value;
    PutOther(data, v, ignorable);
    RemovalIs(SetText(t, "hooks", v, loads).value, hookOnly, ignorable, repr, loads, parse);
    HookRules.MergeThenStrip(Obj([]), requests, repr);
    NothingToStrip(repr);
  }

  /** The parser reads what is written for the hooks. */
  predicate ReadsBack(t: string, v: Json, loads: KeyReader, parse: Parser) {
    && ParseMembers(t, loads).Ok?
    && (ParsedWithin(t, loads); parse(InsertedValue(t, ParseMembers(t, loads).value, "hooks", v)) == Some(v))
  }

  lemma ReadsBackIs(t: string, v: Json, loads: KeyReader, parse: Parser)
    requires ReadsBack(t, v, loads, parse)
    ensures ParseMembers(t, loads).Ok? && Within(t, ParseMembers(t, loads).value)
    ensures parse(InsertedValue(t, ParseMembers(t, loads).value, "hooks", v)) == Some(v)
  {
    hide ParseMembers, InsertedValue;
    ParsedWithin(t, loads);
  }

  lemma FirstIsNew(t: string, loads: KeyReader)
    requires AreNew(t, ["hooks"], loads)
    ensures ParseMembers(t, loads).Ok?
    ensures IndexOfKey(ParseMembers(t, loads).value.members, "hooks") == |ParseMembers(t, loads).value.members|
  {
    hide ParseMembers;
    assert ["hooks"][0] == "hooks";
  }

  lemma PutOther(data: Dictionary, v: Json, ignorable: set<string>)
    ensures HooksIn(HookRules.Put(data, "hooks", v)) == Some(v)
    ensures HasOthers(HookRules.Put(data, "hooks", v), ignorable) <==> HasOthers(data, ignorable)
  {
    var more, i := HookRules.Put(data, "hooks", v), HookRules.At(data, "hooks");
    forall j | 0 <= j < |data| && j != i
      ensures more[j] == data[j]
    {
    }
    if HasOthers(data, ignorable) {
      var j :| 0 <= j < |data| && data[j].name != "hooks" && data[j].name !in ignorable;
      assert more[j] == data[j];
    }
  }

  /** The removal of rules that the file's dict has under `hooks`. */
  lemma RemovalIs(t: string, hookOnly: bool, ignorable: set<string>, repr: HookRules.Repr, loads: KeyReader, parse: Parser)
    requires LoadData(t, parse).Some? && HooksIn(LoadData(t, parse).value).Some?
    ensures var data, v := LoadData(t, parse).value, HooksIn(LoadData(t, parse).value).value;
            var (remaining, removed) := HookRules.Strip(v, repr);
            var alone, r := remaining == [] && !HasOthers(data, ignorable), WithoutRules(t, Some(v), repr, loads);
            Removal(t, hookOnly, ignorable, repr, loads, parse)
            == if removed == 0 then (Untouched, 0)
               else if alone && hookOnly then (Deleted, removed)
               else if r.Err? then (Failed(r.error), 0)
               else (if alone && IsEmptyObject(r.value) then Deleted else Written(r.value), removed)
  {
    hide LoadData, WithoutRules, IsEmptyObject, HasOthers;
  }

  /** The text after installing and removing is the one before, when there was a rule to remove. */
  lemma RemovedText(t: string, requests: seq<HookRules.Event>, repr: HookRules.Repr, loads: KeyReader)
    requires AreNew(t, ["hooks"], loads) && NotHollow(t, loads) && Reads(loads, "hooks")
    requires Proper(Obj(HookRules.Merge(Obj([]), requests, repr)))
    ensures var v := Obj(HookRules.Merge(Obj([]), requests, repr));
            && SetText(t, "hooks", v, loads).Ok?
            && (HookRules.Installed([], requests) > 0 ==>
                  WithoutRules(SetText(t, "hooks", v, loads).value, Some(v), repr, loads) == Ok(t))
  {
    hide ParseMembers, SetText, DeleteText, NotHollow, HollowText, Within, IndexOfKey, Reads, Proper;
    hide HookRules.Merge, HookRules.Strip, HookRules.Installed, UpdateText;
    var v := Obj(HookRules.Merge(Obj([]), requests, repr));
    FirstIsNew(t, loads);
    HookRules.MergeThenStrip(Obj([]), requests, repr);
    NothingToStrip(repr);
    SetThenDelete(t, "hooks", v, loads);
    NotHollowIs(t, loads);
    OneUpdate(SetText(t, "hooks", v, loads).value, Update("hooks", None), loads);
  }

  lemma NothingToStrip(repr: HookRules.Repr)
    ensures HookRules.Strip(Obj([]), repr) == ([], 0)
  {
  }

  /** A file with no rule of ours, or with no hooks at all, is not touched. */
  lemma NothingToRemove(t: string, hookOnly: bool, ignorable: set<string>, repr: HookRules.Repr, loads: KeyReader, parse: Parser)
    requires LoadData(t, parse).Some?
    requires var hooks := HooksIn(LoadData(t, parse).value);
             hooks.Some? && hooks.value.Obj? ==> NoRulesOfOurs(hooks.value.fields, repr)
    ensures Removal(t, hookOnly, ignorable, repr, loads, parse) == (Untouched, 0)
  {
    hide LoadData, HookRules.KeptEvents, HookRules.IsOurs, WithoutRules, HookRules.Get, HookRules.Has;
    var hooks := HooksIn(LoadData(t, parse).value);
    if hooks.Some? && hooks.value.Obj? {
      NoneOurs(hooks.value.fields, repr);
    }
  }

  predicate NoRulesOfOurs(hooks: Dictionary, repr: HookRules.Repr) {
    forall i :: 0 <= i < |hooks| && hooks[i].value.Arr? ==> AllTheirs(hooks[i].value.items, repr)
  }

  type Dictionary = seq<Field>

  predicate AllTheirs(rules: seq<Json>, repr: HookRules.Repr) {
    forall k :: 0 <= k < |rules| ==> !HookRules.IsOurs(rules[k], repr)
  }

  lemma {:induction false} NoneOurs(hooks: Dictionary, repr: HookRules.Repr)
    requires NoRulesOfOurs(hooks, repr)
    ensures HookRules.OursIn(hooks, repr) == 0
  {
    hide HookRules.IsOurs, HookRules.KeptRules;
    if hooks != [] {
      if hooks[0].value.Arr? {
        HookRules.TheirsStay(hooks[0].value.items, repr);
      }
      NoneOurs(hooks[1..], repr);
    }
  }

  /** The text of an object is no scalar, so it runs on into nothing. */
  lemma ObjectsEnd(t: string, p: Parsed, key: string, fields: seq<Field>, m: Member)
    requires Within(t, p) && 0 <= m.valueEnd <= |t|
    ensures !RunsOn(t, m, NewValue(t, p, key, Obj(fields)))
  {
    hide NewValue;
    NewObjectStarts(t, p, key, fields);
  }

  /** The content of the text without the rules that `hooks` holds. */
  lemma WithoutRulesContents(t: string, hooks: Dictionary, repr: HookRules.Repr, loads: KeyReader)
    requires ParseMembers(t, loads).Ok? && Proper(Obj(HookRules.KeptEvents(hooks, repr)))
    requires IndexOfKey(ParseMembers(t, loads).value.members, "hooks") < |ParseMembers(t, loads).value.members|
    ensures var p, kept := ParseMembers(t, loads).value, HookRules.KeptEvents(hooks, repr);
            var i, r := IndexOfKey(p.members, "hooks"), WithoutRules(t, Some(Obj(hooks)), repr, loads);
            && Within(t, p) && r.Ok?
            && (HookRules.OursIn(hooks, repr) == 0 ==> r == Ok(t))
            && (HookRules.OursIn(hooks, repr) > 0 && kept != [] ==>
                  && ParseMembers(r.value, loads).Ok? && Within(r.value, ParseMembers(r.value, loads).value)
                  && Pairs(r.value, ParseMembers(r.value, loads).value)
                     == Pairs(t, p)[i := ("hooks", NewValue(t, p, "hooks", Obj(kept)))])
            && (HookRules.OursIn(hooks, repr) > 0 && kept == [] && DeletionIsSafe(t, p, i) ==>
                  && ParseMembers(r.value, loads).Ok? && Within(r.value, ParseMembers(r.value, loads).value)
                  && Pairs(r.value, ParseMembers(r.value, loads).value) == Pairs(t, p)[..i] + Pairs(t, p)[i + 1..])
  {
    hide ParseMembers, SetText, DeleteText, Within, NewValue, RunsOn, DeletionIsSafe, Pairs, IndexOfKey, UpdateText;
    hide HookRules.KeptEvents, HookRules.OursIn, MemberWithin;
    ParsedWithin(t, loads);
    var p, kept := ParseMembers(t, loads).value, HookRules.KeptEvents(hooks, repr);
    var i := IndexOfKey(p.members, "hooks");
    DeleteContents(t, "hooks", loads);
    SetContents(t, "hooks", Obj(kept), loads);
    assert 0 <= p.members[i].valueEnd <= |t| by { EndInside(t, p, i); }
    ObjectsEnd(t, p, "hooks", kept, p.members[i]);
    OneUpdate(t, Update("hooks", if kept == [] then None else Some(Obj(kept))), loads);
  }

  lemma EndInside(t: string, p: Parsed, i: nat)
    requires Within(t, p) && i < |p.members|
    ensures 0 <= p.members[i].valueEnd <= |t|
  {
    assert MemberWithin(p.members[i], p.close);
  }

  /** What is read under `hooks` is the value of that member, stripped. */
  lemma HooksAreRead(t: string, loads: KeyReader, parse: Parser)
    requires IsParser(parse, loads) && Loadable(t, loads) && LoadData(t, parse).Some?
    requires var ms := ParseMembers(t, loads).value.members; IndexOfKey(ms, "hooks") < |ms| && Single(ms, IndexOfKey(ms, "hooks"))
    ensures Within(t, ParseMembers(t, loads).value)
    ensures var p := ParseMembers(t, loads).value;
            var i := IndexOfKey(p.members, "hooks");
            HooksIn(LoadData(t, parse).value).Some?
            && parse(StrictValue(Pairs(t, p)[i].1)) == HooksIn(LoadData(t, parse).value)
  {
    hide Loadable, IsParser, LoadData, ParseMembers, Within, MemberWithin, FieldsOf, StrictValue, HookRules.Has, HookRules.Get;
    LoadableIs(t, loads);
    LoadIs(t, loads, parse);
    var p := ParseMembers(t, loads).value;
    FieldsHave(StrictPairs(Pairs(t, p)), IndexOfKey(p.members, "hooks"), parse);
  }

  /**
   Taking the rules out of a file: what stays is computed from the value that stands under `hooks` in its
   text. The file is not touched when no rule is ours. It is deleted exactly when no rule of anybody stays,
   no other key is the user's, and its name or an empty object says that it served nothing else. Otherwise
   the value of `hooks` changes and no other, or, when no rule stays, that one member goes.
   */
  lemma RemovalContents(t: string, hookOnly: bool, ignorable: set<string>, repr: HookRules.Repr, loads: KeyReader, parse: Parser)
    requires IsParser(parse, loads) && Loadable(t, loads) && LoadData(t, parse).Some?
    requires var ms := ParseMembers(t, loads).value.members; IndexOfKey(ms, "hooks") < |ms| && Single(ms, IndexOfKey(ms, "hooks"))
    requires HooksIn(LoadData(t, parse).value).Some? ==> Proper(Obj(HookRules.Strip(HooksIn(LoadData(t, parse).value).value, repr).0))
    ensures var p, data := ParseMembers(t, loads).value, LoadData(t, parse).value;
            var i := IndexOfKey(p.members, "hooks");
            && Within(t, p) && HooksIn(data).Some? && parse(StrictValue(Pairs(t, p)[i].1)) == HooksIn(data)
            && (var (kept, n) := HookRules.Strip(HooksIn(data).value, repr);
                var (outcome, m) := Removal(t, hookOnly, ignorable, repr, loads, parse);
                && m == n && (outcome == Untouched <==> n == 0) && DeleteText(t, "hooks", loads).Ok?
                && (outcome == Deleted <==>
                      n > 0 && kept == [] && !HasOthers(data, ignorable)
                      && (hookOnly || IsEmptyObject(DeleteText(t, "hooks", loads).value)))
                && (n > 0 && outcome != Deleted ==> outcome.Written?)
                && (outcome.Written? && kept != [] ==>
                      var r := outcome.text;
                      && ParseMembers(r, loads).Ok? && Within(r, ParseMembers(r, loads).value)
                      && Pairs(r, ParseMembers(r, loads).value)
                         == Pairs(t, p)[i := ("hooks", NewValue(t, p, "hooks", Obj(kept)))])
                && (outcome.Written? && kept == [] && DeletionIsSafe(t, p, i) ==>
                      var r := outcome.text;
                      && ParseMembers(r, loads).Ok? && Within(r, ParseMembers(r, loads).value)
                      && Pairs(r, ParseMembers(r, loads).value) == Pairs(t, p)[..i] + Pairs(t, p)[i + 1..]))
  {
    hide *;
    LoadableIs(t, loads);
    HooksAreRead(t, loads, parse);
    var v := HooksIn(LoadData(t, parse).value).value;
    StripIs(v, repr);
    RemovalIs(t, hookOnly, ignorable, repr, loads, parse);
    WithoutRulesUnfold(t, v, repr, loads);
    DeleteContents(t, "hooks", loads);
    if v.Obj? {
      WithoutRulesContents(t, v.fields, repr, loads);
    }
  }

  lemma LoadableIs(t: string, loads: KeyReader)
    requires Loadable(t, loads)
    ensures ParseMembers(t, loads).Ok?
  {
  }

  lemma StripIs(v: Json, repr: HookRules.Repr)
    ensures HookRules.Strip(v, repr)
            == if v.Obj? then (HookRules.KeptEvents(v.fields, repr), HookRules.OursIn(v.fields, repr)) else ([], 0)
  {
  }

  lemma WithoutRulesUnfold(t: string, v: Json, repr: HookRules.Repr, loads: KeyReader)
    ensures var (kept, n) := HookRules.Strip(v, repr);
            && (n > 0 && kept == [] ==> WithoutRules(t, Some(v), repr, loads) == DeleteText(t, "hooks", loads))
            && (n == 0 ==> WithoutRules(t, Some(v), repr, loads) == Ok(t))
  {
    hide DeleteText, UpdateText, HookRules.Strip;
    OneUpdate(t, Update("hooks", None), loads);
  }

  method Others(data: Dictionary, ignorable: set<string>) returns (found: bool)
    ensures found == HasOthers(data, ignorable)
  {
    found := false;
    for i := 0 to |data|
      invariant found == HasOthers(data[..i], ignorable)
    {
      var other := data[i].name != "hooks" && data[i].name !in ignorable;
      OneMoreKey(data, i, ignorable);
      found := found || other;
    }
    assert data[..|data|] == data;
  }

  lemma OneMoreKey(data: Dictionary, i: nat, ignorable: set<string>)
    requires i < |data|
    ensures HasOthers(data[..i + 1], ignorable)
            <==> HasOthers(data[..i], ignorable) || (data[i].name != "hooks" && data[i].name !in ignorable)
  {
    var more, before := data[..i + 1], data[..i];
    if HasOthers(before, ignorable) {
      var j :| 0 <= j < |before| && before[j].name != "hooks" && before[j].name !in ignorable;
      assert more[j] == before[j];
    }
    if data[i].name != "hooks" && data[i].name !in ignorable {
      assert more[i] == data[i];
    }
  }

  /** `remove_from_hook_file`, but for the file operations. */
  method RemoveFromHookFile(t: string, hookOnly: bool, ignorable: set<string>, repr: HookRules.Repr, loads: KeyReader, parse: Parser)
    returns (outcome: Outcome, removed: nat)
    requires LoadData(t, parse).Some? ==> DictsAreDistinct(LoadData(t, parse).value)
    ensures (outcome, removed) == Removal(t, hookOnly, ignorable, repr, loads, parse)
  {
    hide LoadData, HookRules.Strip, HookRules.Get, HookRules.Has, HasOthers, IsEmptyObject, UpdateText, HookRules.Distinct;
    var data := Load(t, parse);
    if data.None? {
      return Unreadable, 0;
    }
    var hooks := HooksIn(data.value);
    var remaining: Dictionary := [];
    removed := 0;
    if hooks.Some? {
      remaining, removed := HookRules.StripRules(hooks.value, repr);
    }
    if removed == 0 {
      return Untouched, 0;
    }
    var others := Others(data.value, ignorable);
    if remaining == [] && !others && hookOnly {
      return Deleted, removed;
    }
    var text := UpdateAll(t, [Update("hooks", if remaining == [] then None else Some(Obj(remaining)))], loads);
    if text.Err? {
      return Failed(text.error), 0;
    }
    if remaining == [] && !others && IsEmptyObject(text.value) {
      return Deleted, removed;
    }
    outcome := Written(text.value);
  }

  /** What a dict of the parser's holds under `hooks` is a dict too, when it is an object. */
  predicate DictsAreDistinct(data: Dictionary) {
    var hooks := HooksIn(data);
    hooks.Some? && hooks.value.Obj? ==> HookRules.Distinct(hooks.value.fields)
  }
}
