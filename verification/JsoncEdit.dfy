/** `jsonc_set` and `jsonc_delete`: editing one top-level key of a JSON text with comments. */
module JsoncEdit {
  import opened Text
  import opened JsoncScanner
  import opened JsoncDoc
  import opened JsonDump

  // ----- What the edits return -----

  /** Python's `t[a:b]`: bounds past the end are cut back. */
  function Slice(t: string, a: int, b: int): string
    requires a >= 0
  {
    var e := if b < |t| then b else |t|;
    if a <= e then t[a..e] else ""
  }

  function NewlineOf(t: string): string { if HasCrLf(t) then "\r\n" else "\n" }

  function IndentOf(t: string, keyStart: nat): string
    requires keyStart <= |t|
  {
    var prefix := t[LineStart(t, keyStart)..keyStart];
    if Blank(prefix) then prefix else "  "
  }

  /** The first member with this name, or the number of members. */
  function IndexOfKey(ms: seq<Member>, key: string): (i: nat)
    ensures i <= |ms| && (i < |ms| ==> ms[i].key == key) && (forall j :: 0 <= j < i ==> ms[j].key != key)
  {
    if ms == [] || ms[0].key == key then 0
    else
      var i := 1 + IndexOfKey(ms[1..], key);
      assert forall j :: 0 < j < |ms| ==> ms[j] == ms[1..][j - 1];
      i
  }

  predicate WhiteText(t: string) { forall i :: 0 <= i < |t| ==> Ws(t[i]) || t[i] == BOM }

  /** `text.strip(" \t\r\n")` */
  function Strip(t: string): string { LTrim(RTrim(t)) }

  function LTrim(t: string): string { if t != [] && Ws(t[0]) then LTrim(t[1..]) else t }

  function NewFile(t: string, key: string, v: Json): string {
    Strip(t) + Dumps(Obj([Field(key, v)]), 2) + "\n"
  }

  /** The indentation a new or changed member gets. */
  function PadFor(t: string, p: Parsed, key: string): string
    requires Within(t, p)
  {
    var i := IndexOfKey(p.members, key);
    if i < |p.members| then IndentOf(t, p.members[i].keyStart)
    else if p.members == [] then "  "
    else IndentOf(t, p.members[|p.members| - 1].keyStart)
  }

  /** The text written for the value. */
  function NewValue(t: string, p: Parsed, key: string, v: Json): string
    requires Within(t, p)
  {
    ReplaceNewlines(DumpValue(v, PadFor(t, p, key)), NewlineOf(t))
  }

  /** A comma after the last value, and the new member in front of the trimmed white space. */
  function AddAfter(t: string, last: int, tail: int, entry: string): string
    requires 0 <= last <= |t| && 0 <= tail <= |t|
  {
    t[..last] + "," + Slice(t, last, tail) + entry + t[tail..]
  }

  /** The text written for a new member. */
  function MemberLine(t: string, p: Parsed, key: string, v: Json): string
    requires Within(t, p)
  {
    var pad := PadFor(t, p, key);
    ReplaceNewlines("\n" + pad + Quote(key, true) + ": " + DumpValue(v, pad), NewlineOf(t))
  }

  /** The text with a new member behind the value that ends at `last`. */
  function GrownAfter(t: string, last: nat, tail: nat, entry: string): string
    requires last <= |t| && tail <= |t|
  {
    match AfterTrivia(t[last..])
    case Ok(rest) => if CommaFollows(rest) then t[..tail] + entry + "," + t[tail..] else AddAfter(t, last, tail, entry)
    case Err(_) => t
  }

  /** The text with a new last member. */
  function Grown(t: string, p: Parsed, entry: string): string
    requires Within(t, p)
  {
    var ms, tail := p.members, TrimBack(t, p.open + 1, p.close);
    if ms == [] then t[..tail] + entry + t[tail..] else GrownAfter(t, ms[|ms| - 1].valueEnd, tail, entry)
  }

  function SetAccepted(t: string, p: Parsed, key: string, v: Json): string
    requires Within(t, p)
  {
    var ms := p.members;
    var i := IndexOfKey(ms, key);
    if i < |ms| then
      t[..ms[i].valueStart] + NewValue(t, p, key, v) + t[ms[i].valueEnd..]
    else if ms == [] && Blank(t[p.open + 1..p.close]) then
      t[..p.open] + "{\n  " + Quote(key, true) + ": " + DumpValue(v, "  ") + "\n}" + t[p.close + 1..]
    else Grown(t, p, MemberLine(t, p, key, v))
  }

  /** `jsonc_set(t, key, v)` */
  function SetText(t: string, key: string, v: Json, loads: KeyReader): Result<string> {
    if WhiteText(t) then Ok(NewFile(t, key, v))
    else
      match ParseMembers(t, loads)
      case Err(e) => Err(e)
      case Ok(p) =>
        ParsedWithin(t, loads);
        Ok(SetAccepted(t, p, key, v))
  }

  predicate BreaksLine(s: string) {
    Blanks(s) < |s| && (s[Blanks(s)] == '\r' || s[Blanks(s)] == '\n')
  }

  /** Past the blanks and the line end that `s` starts with. */
  function LineLen(s: string): (n: nat)
    requires BreaksLine(s)
    ensures n <= |s|
  {
    if CrLfAt(s, Blanks(s)) then Blanks(s) + 2 else Blanks(s) + 1
  }

  /** A member that is not the last: its whole line when it has one, or up to the next key. `rest` is the text after its comma. */
  function DeleteInner(t: string, keyStart: nat, rest: string): string
    requires keyStart <= |t|
  {
    var line := LineStart(t, keyStart);
    if Blank(t[line..keyStart]) && BreaksLine(rest) then t[..line] + rest[LineLen(rest)..]
    else
      match AfterTrivia(rest)
      case Ok(next) => t[..keyStart] + next
      case Err(_) => t
  }

  /** The last member, after a previous one whose comma goes too. */
  function DeleteWithComma(t: string, prevEnd: nat, begin: nat, tail: string): string
    requires prevEnd <= |t|
  {
    match AfterTrivia(t[prevEnd..])
    case Ok(r) => t[..|t| - |r|] + Slice(t, |t| - |r| + 1, begin) + tail
    case Err(_) => t
  }

  /** Whether the rest of the text after member `i`'s value starts with a comma. */
  predicate CommaFollows(rest: string) { rest != [] && rest[0] == ',' }

  /** The text without its last member, where `tail` is what is kept after it. */
  function DeletedLast(t: string, p: Parsed, i: nat, hasComma: bool, tail: string): string
    requires Within(t, p) && i < |p.members|
  {
    var m := p.members[i];
    assert MemberWithin(m, p.close);
    var begin := TrimBack(t, p.open + 1, m.keyStart);
    if i == 0 && Blank(Slice(t, p.open + 1, begin)) && Blank(Slice(tail, 0, p.close - m.valueEnd)) then
      t[..p.open + 1] + t[p.close..]
    else if i == 0 || hasComma then t[..begin] + tail
    else
      assert MemberWithin(p.members[i - 1], p.close);
      DeleteWithComma(t, p.members[i - 1].valueEnd, begin, tail)
  }

  function DeleteAccepted(t: string, p: Parsed, i: nat): string
    requires Within(t, p) && i < |p.members|
  {
    var m := p.members[i];
    assert MemberWithin(m, p.close);
    match AfterTrivia(t[m.valueEnd..])
    case Err(_) => t
    case Ok(rest) =>
      if i + 1 < |p.members| then DeleteInner(t, m.keyStart, if rest == [] then [] else rest[1..])
      else DeletedLast(t, p, i, CommaFollows(rest), if CommaFollows(rest) then rest[1..] else t[m.valueEnd..])
  }

  /** `jsonc_delete(t, key)` */
  function DeleteText(t: string, key: string, loads: KeyReader): Result<string> {
    match ParseMembers(t, loads)
    case Err(e) => Err(e)
    case Ok(p) =>
      ParsedWithin(t, loads);
      var i := IndexOfKey(p.members, key);
      Ok(if i < |p.members| then DeleteAccepted(t, p, i) else t)
  }

  // ----- Spans stay inside the text -----

  predicate Within(t: string, p: Parsed) {
    && p.open < p.close < |t|
    && (forall i :: 0 <= i < |p.members| ==> MemberWithin(p.members[i], p.close))
  }

  predicate MemberWithin(m: Member, close: nat) {
    0 <= m.keyStart < m.valueStart < m.valueEnd <= close
  }

  lemma {:induction false} MembersAreWithin(es: seq<Entry>, at: nat, loads: KeyReader)
    requires WellFormedEntries(es, loads)
    ensures forall i :: 0 <= i < |es| ==> MemberWithin(MembersOf(es, at)[i], at + EntriesLen(es))
  {
    if es != [] {
      assert WellFormedEntry(es[0], loads);
      assert WellFormedEntries(es[1..], loads);
      MembersAreWithin(es[1..], at + EntryLen(es[0]), loads);
    }
  }

  lemma WellFormedParts(d: Doc, loads: KeyReader)
    requires WellFormed(d, loads)
    ensures IsGap(d.pre) && IsGap(d.inner) && WellFormedEntries(d.entries, loads) && AfterTrivia(d.post) == Ok([])
  {
  }

  lemma ParsedWithin(t: string, loads: KeyReader)
    requires ParseMembers(t, loads).Ok?
    ensures Within(t, ParseMembers(t, loads).value)
  {
    hide ParseMembers, WellFormed, EntriesThen, MembersOf, EntriesLen;
    var d := ReadIsWritten(t, loads);
    WellFormedParts(d, loads);
    MembersAreWithin(d.entries, |d.pre| + 1 + |d.inner|, loads);
  }
}
