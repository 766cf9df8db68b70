/**
 Which hook rules belong to aictl, taking them out, and putting new ones in.

 A Python dict is the sequence of its fields in insertion order, with distinct names.
 */
module HookRules {
  import opened JsonDump

  const OWNER_MARKER := "aictl.managed"
  const OWNER_KEY := "_aictl_owner"
  const COMMAND_MARKERS := ["/api/hooks", "aictl.hook_handler", "aictl/hook_handler.py", "aictl\\hook_handler.py"]
  const COMMAND_FIELDS := ["command", "url", "bash", "powershell"]

  /** `str` on a value that is no string. */
  type Repr = Json -> string

  // ----- Dicts -----

  type Dict = seq<Field>

  predicate Distinct(d: Dict) {
    forall i, j :: 0 <= i < j < |d| ==> d[i].name != d[j].name
  }

  /** The position of a name, or the number of fields. */
  function At(d: Dict, name: string): (i: nat)
    ensures i <= |d| && (i < |d| ==> d[i].name == name) && (forall j :: 0 <= j < i ==> d[j].name != name)
  {
    if d == [] || d[0].name == name then 0
    else
      var i := 1 + At(d[1..], name);
      assert forall j :: 0 < j < |d| ==> d[j] == d[1..][j - 1];
      i
  }

  predicate Has(d: Dict, name: string) { At(d, name) < |d| }

  function Get(d: Dict, name: string): Json
    requires Has(d, name)
  {
    d[At(d, name)].value
  }

  /** `d[name] = value`: in place when the name is there, and last otherwise. */
  function Put(d: Dict, name: string, value: Json): (r: Dict)
    ensures Has(r, name) && Get(r, name) == value
  {
    var i := At(d, name);
    var r := if i < |d| then d[i := Field(name, value)] else d + [Field(name, value)];
    assert At(r, name) == i by { AtUnique(r, name, i); }
    r
  }

  lemma AtUnique(d: Dict, name: string, i: nat)
    requires i <= |d| && (i < |d| ==> d[i].name == name) && (forall j :: 0 <= j < i ==> d[j].name != name)
    ensures At(d, name) == i
  {
  }

  lemma PutElsewhere(d: Dict, name: string, value: Json, other: string)
    requires other != name
    ensures Has(Put(d, name, value), other) <==> Has(d, other)
    ensures Has(d, other) ==> Get(Put(d, name, value), other) == Get(d, other)
  {
    var r, i := Put(d, name, value), At(d, other);
    AtUnique(r, other, if i < |d| then i else |r|);
  }

  // ----- Whose rule it is -----

  predicate StandsAt(hay: string, i: nat, needle: string) { i + |needle| <= |hay| && hay[i..i + |needle|] == needle }

  predicate Contains(hay: string, needle: string) { exists i :: 0 <= i <= |hay| && StandsAt(hay, i, needle) }

  function Text(v: Json, repr: Repr): string { if v.Str? then v.text else repr(v) }

  predicate Mentions(text: string) {
    exists k :: 0 <= k < |COMMAND_MARKERS| && Contains(text, COMMAND_MARKERS[k])
  }

  predicate CommandIsOurs(entry: Json, repr: Repr) {
    && entry.Obj?
    && exists k :: 0 <= k < |COMMAND_FIELDS| && Has(entry.fields, COMMAND_FIELDS[k])
                   && Mentions(Text(Get(entry.fields, COMMAND_FIELDS[k]), repr))
  }

  predicate IsGroup(rule: Dict) { Has(rule, "hooks") && Get(rule, "hooks").Arr? }

  predicate IsLegacy(rule: Dict, repr: Repr) {
    if IsGroup(rule) then
      var inner := Get(rule, "hooks").items;
      exists k :: 0 <= k < |inner| && CommandIsOurs(inner[k], repr)
    else CommandIsOurs(Obj(rule), repr)
  }

  /** The marker decides when there is one. */
  predicate IsOurs(rule: Json, repr: Repr) {
    && rule.Obj?
    && if Has(rule.fields, OWNER_KEY) then Get(rule.fields, OWNER_KEY) == Str(OWNER_MARKER)
       else IsLegacy(rule.fields, repr)
  }

  // ----- Taking the rules out -----

  function Users(inner: seq<Json>, repr: Repr): (users: seq<Json>)
    ensures forall k :: 0 <= k < |users| ==> !CommandIsOurs(users[k], repr)
  {
    if inner == [] then []
    else (if CommandIsOurs(inner[0], repr) then [] else [inner[0]]) + Users(inner[1..], repr)
  }

  /** What stays of one rule: the rule, what others put in its group, or nothing. */
  function Kept(rule: Json, repr: Repr): seq<Json> {
    if !IsOurs(rule, repr) then [rule]
    else if !Has(rule.fields, OWNER_KEY) && IsGroup(rule.fields) then
      var users := Users(Get(rule.fields, "hooks").items, repr);
      if users == [] then [] else [Obj(Put(rule.fields, "hooks", Arr(users)))]
    else []
  }

  function KeptRules(rules: seq<Json>, repr: Repr): seq<Json> {
    if rules == [] then [] else Kept(rules[0], repr) + KeptRules(rules[1..], repr)
  }

  function Ours(rules: seq<Json>, repr: Repr): nat {
    if rules == [] then 0 else (if IsOurs(rules[0], repr) then 1 else 0) + Ours(rules[1..], repr)
  }

  /** One event: as it is when it holds no list, and gone when no rule of it stays. */
  function KeptEvent(e: Field, repr: Repr): Dict {
    if !e.value.Arr? then [e]
    else
      var kept := KeptRules(e.value.items, repr);
      if kept == [] then [] else [Field(e.name, Arr(kept))]
  }

  function KeptEvents(hooks: Dict, repr: Repr): Dict {
    if hooks == [] then [] else KeptEvent(hooks[0], repr) + KeptEvents(hooks[1..], repr)
  }

  function OursIn(hooks: Dict, repr: Repr): nat {
    if hooks == [] then 0
    else (if hooks[0].value.Arr? then Ours(hooks[0].value.items, repr) else 0) + OursIn(hooks[1..], repr)
  }

  /** `strip_rules(hooks)` */
  function Strip(hooks: Json, repr: Repr): (Dict, nat) {
    if hooks.Obj? then (KeptEvents(hooks.fields, repr), OursIn(hooks.fields, repr)) else ([], 0)
  }

  // ----- Putting rules in -----

  datatype Event = Event(name: string, rules: seq<Dict>)

  function Tagged(rule: Dict): Dict { Put(rule, OWNER_KEY, Str(OWNER_MARKER)) }

  function TaggedRules(rules: seq<Dict>): (r: seq<Json>)
    ensures |r| == |rules|
  {
    seq(|rules|, i requires 0 <= i < |rules| => Obj(Tagged(rules[i])))
  }

  /** A value that is no list gets no rule from us. */
  predicate Accepts(hooks: Dict, name: string) { Has(hooks, name) ==> Get(hooks, name).Arr? }

  function Current(hooks: Dict, name: string): seq<Json>
    requires Accepts(hooks, name)
  {
    if Has(hooks, name) then Get(hooks, name).items else []
  }

  function Add(hooks: Dict, e: Event): Dict {
    if Accepts(hooks, e.name) then Put(hooks, e.name, Arr(Current(hooks, e.name) + TaggedRules(e.rules))) else hooks
  }

  function AddAll(hooks: Dict, events: seq<Event>): Dict
    decreases |events|
  {
    if events == [] then hooks else AddAll(Add(hooks, events[0]), events[1..])
  }

  /** `merge_aictl_hooks(existing, new)` */
  function Merge(existing: Json, events: seq<Event>, repr: Repr): Dict {
    AddAll(Strip(existing, repr).0, events)
  }

  // ----- What stays is nobody's but the user's -----

  /** A rule that stays, whole or in part, is not ours. */
  lemma KeptIsTheirs(rule: Json, repr: Repr)
    ensures forall k :: 0 <= k < |Kept(rule, repr)| ==> !IsOurs(Kept(rule, repr)[k], repr)
  {
    hide CommandIsOurs, Users;
    if IsOurs(rule, repr) && Kept(rule, repr) != [] {
      var users := Users(Get(rule.fields, "hooks").items, repr);
      PutElsewhere(rule.fields, "hooks", Arr(users), OWNER_KEY);
      assert forall k :: 0 <= k < |users| ==> !CommandIsOurs(users[k], repr);
    }
  }

  lemma {:induction false} KeptRulesAreTheirs(rules: seq<Json>, repr: Repr)
    ensures forall k :: 0 <= k < |KeptRules(rules, repr)| ==> !IsOurs(KeptRules(rules, repr)[k], repr)
  {
    hide IsOurs, Kept;
    if rules != [] {
      KeptIsTheirs(rules[0], repr);
      KeptRulesAreTheirs(rules[1..], repr);
    }
  }

  /** Rules that are not ours stay, in order and unchanged. */
  lemma {:induction false} TheirsStay(rules: seq<Json>, repr: Repr)
    requires forall k :: 0 <= k < |rules| ==> !IsOurs(rules[k], repr)
    ensures KeptRules(rules, repr) == rules && Ours(rules, repr) == 0
  {
    hide IsOurs;
    if rules != [] {
      TheirsStay(rules[1..], repr);
    }
  }

  lemma {:induction false} RulesConcat(a: seq<Json>, b: seq<Json>, repr: Repr)
    ensures KeptRules(a + b, repr) == KeptRules(a, repr) + KeptRules(b, repr)
    ensures Ours(a + b, repr) == Ours(a, repr) + Ours(b, repr)
  {
    hide IsOurs, Kept;
    if a == [] {
      assert a + b == b;
    } else {
      assert (a + b)[1..] == a[1..] + b;
      RulesConcat(a[1..], b, repr);
    }
  }

  lemma {:induction false} EventsConcat(a: Dict, b: Dict, repr: Repr)
    ensures KeptEvents(a + b, repr) == KeptEvents(a, repr) + KeptEvents(b, repr)
    ensures OursIn(a + b, repr) == OursIn(a, repr) + OursIn(b, repr)
  {
    hide KeptEvent, Ours;
    if a == [] {
      assert a + b == b;
    } else {
      assert (a + b)[1..] == a[1..] + b;
      EventsConcat(a[1..], b, repr);
    }
  }

  lemma OneEvent(e: Field, repr: Repr)
    ensures KeptEvents([e], repr) == KeptEvent(e, repr)
    ensures OursIn([e], repr) == if e.value.Arr? then Ours(e.value.items, repr) else 0
  {
    hide KeptEvent;
  }

  /** Stripping twice is stripping once, and the second time finds nothing. */
  lemma {:induction false} StripTwice(hooks: Dict, repr: Repr)
    ensures KeptEvents(KeptEvents(hooks, repr), repr) == KeptEvents(hooks, repr)
    ensures OursIn(KeptEvents(hooks, repr), repr) == 0
  {
    hide KeptRules, Ours;
    if hooks != [] {
      var e := hooks[0];
      StripTwice(hooks[1..], repr);
      EventsConcat(KeptEvent(e, repr), KeptEvents(hooks[1..], repr), repr);
      if KeptEvent(e, repr) != [] {
        OneEvent(KeptEvent(e, repr)[0], repr);
        if e.value.Arr? {
          KeptRulesAreTheirs(e.value.items, repr);
          TheirsStay(KeptRules(e.value.items, repr), repr);
        }
      }
    }
  }

  // ----- What we put in is ours -----

  lemma TaggedIsOurs(rule: Dict, repr: Repr)
    ensures Has(Tagged(rule), OWNER_KEY) && IsOurs(Obj(Tagged(rule)), repr) && Kept(Obj(Tagged(rule)), repr) == []
  {
    hide IsLegacy;
  }

  lemma {:induction false} TaggedGo(rules: seq<Dict>, repr: Repr)
    ensures KeptRules(TaggedRules(rules), repr) == [] && Ours(TaggedRules(rules), repr) == |rules|
  {
    hide IsOurs, Kept, Tagged;
    if rules != [] {
      TaggedIsOurs(rules[0], repr);
      assert TaggedRules(rules)[1..] == TaggedRules(rules[1..]);
      TaggedGo(rules[1..], repr);
    }
  }

  lemma AddGoes(hooks: Dict, e: Event, repr: Repr)
    ensures KeptEvents(Add(hooks, e), repr) == KeptEvents(hooks, repr)
    ensures OursIn(Add(hooks, e), repr) == OursIn(hooks, repr) + if Accepts(hooks, e.name) then |e.rules| else 0
  {
    hide KeptEvents, OursIn, KeptRules, Ours, TaggedRules, Put;
    if Accepts(hooks, e.name) {
      var current, tagged := Current(hooks, e.name), TaggedRules(e.rules);
      TaggedGo(e.rules, repr);
      RulesConcat(current, tagged, repr);
      var i, now := At(hooks, e.name), Field(e.name, Arr(current + tagged));
      OneEvent(now, repr);
      assert KeptRules(current, repr) + [] == KeptRules(current, repr);
      if i < |hooks| {
        assert Field(e.name, Arr(current)) == hooks[i];
        OneEvent(hooks[i], repr);
        Around(hooks, i, now, repr);
      } else {
        Behind(hooks, now, repr);
        assert KeptRules([], repr) == [] && Ours([], repr) == 0 by { Empty(repr); }
      }
    }
  }

  lemma Empty(repr: Repr)
    ensures KeptRules([], repr) == [] && Ours([], repr) == 0
  {
  }

  lemma Around(hooks: Dict, i: nat, now: Field, repr: Repr)
    requires i < |hooks| && At(hooks, now.name) == i
    requires KeptEvents([now], repr) == KeptEvents([hooks[i]], repr)
    ensures KeptEvents(Put(hooks, now.name, now.value), repr) == KeptEvents(hooks, repr)
    ensures OursIn(Put(hooks, now.name, now.value), repr) == OursIn(hooks, repr) + OursIn([now], repr) - OursIn([hooks[i]], repr)
  {
    hide KeptEvents, OursIn, At, Put;
    var a, b := hooks[..i], hooks[i + 1..];
    PutIn(hooks, i, now);
    EventsConcat(a, [hooks[i]] + b, repr);
    EventsConcat([hooks[i]], b, repr);
    EventsConcat(a, [now] + b, repr);
    EventsConcat([now], b, repr);
  }

  lemma PutIn(hooks: Dict, i: nat, now: Field)
    requires i < |hooks| && At(hooks, now.name) == i
    ensures hooks == hooks[..i] + ([hooks[i]] + hooks[i + 1..])
    ensures Put(hooks, now.name, now.value) == hooks[..i] + ([now] + hooks[i + 1..])
  {
    hide At;
    SplitAt(hooks, i);
    SplitAt(hooks[i := now], i);
  }

  lemma SplitAt(d: Dict, i: nat)
    requires i < |d|
    ensures d == d[..i] + ([d[i]] + d[i + 1..])
  {
  }

  lemma Behind(hooks: Dict, now: Field, repr: Repr)
    requires At(hooks, now.name) == |hooks|
    ensures KeptEvents(Put(hooks, now.name, now.value), repr) == KeptEvents(hooks, repr) + KeptEvents([now], repr)
    ensures OursIn(Put(hooks, now.name, now.value), repr) == OursIn(hooks, repr) + OursIn([now], repr)
  {
    hide KeptEvents, OursIn;
    EventsConcat(hooks, [now], repr);
  }

  lemma AddAccepts(hooks: Dict, e: Event, name: string)
    ensures Accepts(Add(hooks, e), name) <==> Accepts(hooks, name)
  {
    if Accepts(hooks, e.name) && name != e.name {
      PutElsewhere(hooks, e.name, Arr(Current(hooks, e.name) + TaggedRules(e.rules)), name);
    }
  }

  /** How many of the new rules are let in. */
  function Installed(hooks: Dict, events: seq<Event>): nat {
    if events == [] then 0
    else (if Accepts(hooks, events[0].name) then |events[0].rules| else 0) + Installed(hooks, events[1..])
  }

  lemma {:induction false} InstalledAfter(hooks: Dict, e: Event, events: seq<Event>)
    ensures Installed(Add(hooks, e), events) == Installed(hooks, events)
  {
    hide Add, Accepts;
    if events != [] {
      AddAccepts(hooks, e, events[0].name);
      InstalledAfter(hooks, e, events[1..]);
    }
  }

  lemma {:induction false} AddAllGoes(hooks: Dict, events: seq<Event>, repr: Repr)
    ensures KeptEvents(AddAll(hooks, events), repr) == KeptEvents(hooks, repr)
    ensures OursIn(AddAll(hooks, events), repr) == OursIn(hooks, repr) + Installed(hooks, events)
    decreases |events|
  {
    hide Add, Accepts, KeptEvents, OursIn;
    if events != [] {
      AddGoes(hooks, events[0], repr);
      InstalledAfter(hooks, events[0], events[1..]);
      AddAllGoes(Add(hooks, events[0]), events[1..], repr);
    }
  }

  // ----- The laws -----

  /**
   Uninstalling after installing is uninstalling: nothing of ours stays, everything else is where it
   was, and the rules taken out are the ones that were let in, counted one by one.
   */
  lemma MergeThenStrip(existing: Json, events: seq<Event>, repr: Repr)
    ensures var (kept, removed) := Strip(Obj(Merge(existing, events, repr)), repr);
            kept == Strip(existing, repr).0 && removed == Installed(Strip(existing, repr).0, events)
  {
    hide KeptEvents, OursIn, AddAll;
    var base := Strip(existing, repr).0;
    AddAllGoes(base, events, repr);
    if existing.Obj? {
      StripTwice(existing.fields, repr);
    } else {
      assert KeptEvents([], repr) == [] && OursIn([], repr) == 0 by { NoEvents(repr); }
    }
  }

  lemma NoEvents(repr: Repr)
    ensures KeptEvents([], repr) == [] && OursIn([], repr) == 0
  {
  }

  /** Installing again replaces what the first installation put in. */
  lemma MergeTwice(existing: Json, first: seq<Event>, second: seq<Event>, repr: Repr)
    ensures Merge(Obj(Merge(existing, first, repr)), second, repr) == Merge(existing, second, repr)
  {
    MergeThenStrip(existing, first, repr);
  }

  /** The other values under an event, and what the last installation for it asks for, are all there is. */
  lemma {:induction false} MergeAt(hooks: Dict, events: seq<Event>, name: string)
    requires forall i, j :: 0 <= i < j < |events| ==> events[i].name != events[j].name
    ensures (forall i :: 0 <= i < |events| ==> events[i].name != name) ==>
      && (Has(AddAll(hooks, events), name) <==> Has(hooks, name))
      && (Has(hooks, name) ==> Get(AddAll(hooks, events), name) == Get(hooks, name))
    ensures forall i :: 0 <= i < |events| && events[i].name == name ==>
      && (Accepts(hooks, name) ==>
            Has(AddAll(hooks, events), name)
            && Get(AddAll(hooks, events), name) == Arr(Current(hooks, name) + TaggedRules(events[i].rules)))
      && (!Accepts(hooks, name) ==> Has(AddAll(hooks, events), name) && Get(AddAll(hooks, events), name) == Get(hooks, name))
    decreases |events|
  {
    hide Put, TaggedRules;
    if events != [] {
      var e, more := events[0], events[1..];
      assert forall i :: 0 <= i < |more| ==> more[i] == events[i + 1];
      MergeAt(Add(hooks, e), more, name);
      if e.name != name {
        AddElsewhere(hooks, e, name);
      }
    }
  }

  lemma AddElsewhere(hooks: Dict, e: Event, name: string)
    requires e.name != name
    ensures Has(Add(hooks, e), name) <==> Has(hooks, name)
    ensures Has(hooks, name) ==> Get(Add(hooks, e), name) == Get(hooks, name)
    ensures Accepts(Add(hooks, e), name) <==> Accepts(hooks, name)
    ensures Accepts(hooks, name) ==> Current(Add(hooks, e), name) == Current(hooks, name)
  {
    if Accepts(hooks, e.name) {
      PutElsewhere(hooks, e.name, Arr(Current(hooks, e.name) + TaggedRules(e.rules)), name);
    }
  }

  // ----- The loops -----

  /** A rule dict, as an object that can be changed in place. */
  class Rule {
    var fields: Dict

    constructor (fields: Dict)
      ensures this.fields == fields
    {
      this.fields := fields;
    }
  }

  lemma RulesStep(rules: seq<Json>, i: nat, repr: Repr)
    requires i < |rules|
    ensures KeptRules(rules[..i + 1], repr) == KeptRules(rules[..i], repr) + Kept(rules[i], repr)
    ensures Ours(rules[..i + 1], repr) == Ours(rules[..i], repr) + if IsOurs(rules[i], repr) then 1 else 0
  {
    hide KeptRules, Ours, IsOurs, Kept;
    assert rules[..i + 1] == rules[..i] + [rules[i]];
    RulesConcat(rules[..i], [rules[i]], repr);
    OneRule(rules[i], repr);
  }

  lemma OneRule(rule: Json, repr: Repr)
    ensures KeptRules([rule], repr) == Kept(rule, repr) && Ours([rule], repr) == if IsOurs(rule, repr) then 1 else 0
  {
    hide IsOurs, Kept;
  }

  lemma EventsStep(hooks: Dict, i: nat, repr: Repr)
    requires i < |hooks|
    ensures KeptEvents(hooks[..i + 1], repr) == KeptEvents(hooks[..i], repr) + KeptEvent(hooks[i], repr)
    ensures OursIn(hooks[..i + 1], repr)
            == OursIn(hooks[..i], repr) + if hooks[i].value.Arr? then Ours(hooks[i].value.items, repr) else 0
  {
    hide KeptEvents, OursIn, KeptEvent, Ours;
    assert hooks[..i + 1] == hooks[..i] + [hooks[i]];
    EventsConcat(hooks[..i], [hooks[i]], repr);
    OneEvent(hooks[i], repr);
  }

  /** The loop over the rules of one event. */
  method StripEvent(rules: seq<Json>, repr: Repr) returns (kept: seq<Json>, removed: nat)
    ensures kept == KeptRules(rules, repr) && removed == Ours(rules, repr)
  {
    hide KeptRules, Ours, CommandIsOurs, IsLegacy, Users;
    kept, removed := [], 0;
    assert rules[..0] == [];
    Empty(repr);
    for i := 0 to |rules|
      invariant kept == KeptRules(rules[..i], repr) && removed == Ours(rules[..i], repr)
    {
      RulesStep(rules, i, repr);
      var rule := rules[i];
      if !IsOurs(rule, repr) {
        kept := kept + [rule];
        continue;
      }
      removed := removed + 1;
      if !Has(rule.fields, OWNER_KEY) && IsGroup(rule.fields) {
        var users := Users(Get(rule.fields, "hooks").items, repr);
        if users != [] {
          kept := kept + [Obj(Put(rule.fields, "hooks", Arr(users)))];
        }
      }
    }
    assert rules[..|rules|] == rules;
  }

  lemma PutLast(d: Dict, name: string, value: Json)
    requires !Has(d, name)
    ensures Put(d, name, value) == d + [Field(name, value)]
  {
  }

  /** `strip_rules`: the loop over the events. */
  method StripRules(hooks: Json, repr: Repr) returns (out: Dict, removed: nat)
    requires hooks.Obj? ==> Distinct(hooks.fields)
    ensures (out, removed) == Strip(hooks, repr)
  {
    hide KeptEvents, OursIn, KeptRules, Ours, Put, Has;
    out, removed := [], 0;
    if !hooks.Obj? {
      return;
    }
    var events := hooks.fields;
    assert events[..0] == [];
    NoEvents(repr);
    assert forall j :: 0 <= j < |events| ==> !Has(out, events[j].name) by { NoFields(); }
    for i := 0 to |events|
      invariant out == KeptEvents(events[..i], repr) && removed == OursIn(events[..i], repr)
      invariant forall j :: i <= j < |events| ==> !Has(out, events[j].name)
    {
      EventsStep(events, i, repr);
      var e := events[i];
      PutLast(out, e.name, e.value);
      ghost var before := out;
      if !e.value.Arr? {
        out := Put(out, e.name, e.value);
        OthersAbsent(before, events, i, e.value);
        continue;
      }
      var kept, n := StripEvent(e.value.items, repr);
      removed := removed + n;
      if kept != [] {
        PutLast(out, e.name, Arr(kept));
        out := Put(out, e.name, Arr(kept));
        OthersAbsent(before, events, i, Arr(kept));
      }
    }
    assert events[..|events|] == events;
  }

  lemma NoFields()
    ensures forall name :: !Has([], name)
  {
  }

  lemma OthersAbsent(out: Dict, events: Dict, i: nat, value: Json)
    requires Distinct(events) && i < |events| && forall j :: i <= j < |events| ==> !Has(out, events[j].name)
    ensures forall j :: i < j < |events| ==> !Has(Put(out, events[i].name, value), events[j].name)
  {
    forall j | i < j < |events|
      ensures !Has(Put(out, events[i].name, value), events[j].name)
    {
      PutElsewhere(out, events[i].name, value, events[j].name);
    }
  }

  lemma TaggedTwice(rule: Dict)
    ensures Tagged(Tagged(rule)) == Tagged(rule)
  {
    hide At;
  }

  /** `_tag_hooks` on the rules of one event: in place, whether or not an object stands there twice. */
  method Tag(rules: seq<Rule>)
    modifies rules
    ensures forall k :: 0 <= k < |rules| ==> rules[k].fields == Tagged(old(rules[k].fields))
  {
    hide Put;
    for i := 0 to |rules|
      invariant forall r <- rules :: r.fields == if r in rules[..i] then Tagged(old(r.fields)) else old(r.fields)
    {
      TaggedTwice(old(rules[i].fields));
      rules[i].fields := Put(rules[i].fields, OWNER_KEY, Str(OWNER_MARKER));
      assert forall r :: r in rules[..i + 1] <==> r in rules[..i] || r == rules[i];
    }
    assert rules[..|rules|] == rules;
  }

  ghost function Values(rules: seq<Rule>): (v: seq<Dict>)
    reads rules
    ensures |v| == |rules|
  {
    seq(|rules|, i requires 0 <= i < |rules| reads rules => rules[i].fields)
  }

  // ----- The merge -----

  /** The rules the caller asks for under one event. */
  datatype Request = Request(name: string, rules: seq<Rule>)

  ghost function Objects(requests: seq<Request>): set<Rule> {
    set i, k | 0 <= i < |requests| && 0 <= k < |requests[i].rules| :: requests[i].rules[k]
  }

  ghost function Asked(requests: seq<Request>): (events: seq<Event>)
    reads Objects(requests)
    ensures |events| == |requests|
  {
    seq(|requests|, i requires 0 <= i < |requests| reads Objects(requests) =>
      Event(requests[i].name, Values(requests[i].rules)))
  }

  /** `[dict(r) for r in rules]`, stamped. The caller's own dicts stay as they are. */
  method TaggedCopies(rules: seq<Rule>) returns (tagged: seq<Json>)
    ensures tagged == TaggedRules(Values(rules))
  {
    var copies: seq<Rule> := [];
    for i := 0 to |rules|
      invariant |copies| == i && fresh(copies)
      invariant forall k :: 0 <= k < i ==> copies[k].fields == rules[k].fields
    {
      var copy := new Rule(rules[i].fields);
      copies := copies + [copy];
    }
    Tag(copies);
    tagged := [];
    for i := 0 to |copies|
      invariant |tagged| == i && forall k :: 0 <= k < i ==> tagged[k] == Obj(copies[k].fields)
    {
      tagged := tagged + [Obj(copies[i].fields)];
    }
  }

  /** `merge_aictl_hooks` */
  method MergeHooks(existing: Json, requests: seq<Request>, repr: Repr) returns (hooks: Dict)
    requires existing.Obj? ==> Distinct(existing.fields)
    ensures hooks == Merge(existing, Asked(requests), repr)
  {
    hide Strip, Put, Has, Get, TaggedRules;
    var removed;
    hooks, removed := StripRules(existing, repr);
    ghost var base, events := hooks, Asked(requests);
    for i := 0 to |requests|
      invariant Asked(requests) == events
      invariant AddAll(hooks, events[i..]) == AddAll(base, events)
    {
      assert events[i..][1..] == events[i + 1..];
      var name := requests[i].name;
      var tagged := TaggedCopies(requests[i].rules);
      var present := Has(hooks, name);
      if !present {
        assert [] + tagged == tagged;
        hooks := Put(hooks, name, Arr([] + tagged));
      } else {
        var current := Get(hooks, name);
        if current.Arr? {
          hooks := Put(hooks, name, Arr(current.items + tagged));
        }
      }
    }
    assert events[|requests|..] == [];
  }
}
