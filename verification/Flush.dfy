/**
 The write-behind buffers: rows wait, are taken by a flush, and are committed or given back. Others may
 append at any moment; one flush runs at a time.
 */
module Flush {
  import opened Options

  const REBUFFER_CAP := 10_000

  datatype Kind = SystemSnapshots | ProcessSnapshots | Events | Metrics | Requests | ToolInvocations

  datatype Buffers<R> = Buffers(system: seq<R>, process: seq<R>, events: seq<R>, metrics: seq<R>, requests: seq<R>, tools: seq<R>)

  function At<R>(b: Buffers<R>, k: Kind): seq<R> {
    match k
    case SystemSnapshots => b.system
    case ProcessSnapshots => b.process
    case Events => b.events
    case Metrics => b.metrics
    case Requests => b.requests
    case ToolInvocations => b.tools
  }

  function Empty<R>(): Buffers<R> { Buffers([], [], [], [], [], []) }

  predicate IsEmpty<R>(b: Buffers<R>) {
    |b.system| + |b.process| + |b.events| + |b.metrics| + |b.requests| + |b.tools| == 0
  }

  function Extended<R>(b: Buffers<R>, k: Kind, rows: seq<R>): Buffers<R> {
    match k
    case SystemSnapshots => b.(system := b.system + rows)
    case ProcessSnapshots => b.(process := b.process + rows)
    case Events => b.(events := b.events + rows)
    case Metrics => b.(metrics := b.metrics + rows)
    case Requests => b.(requests := b.requests + rows)
    case ToolInvocations => b.(tools := b.tools + rows)
  }

  /** How many rows are too many. */
  function Excess<R>(rows: seq<R>): nat { if |rows| > REBUFFER_CAP then |rows| - REBUFFER_CAP else 0 }

  function Newest<R>(rows: seq<R>): seq<R> { rows[Excess(rows)..] }

  /** The batch in front of what came meanwhile, without the oldest rows beyond the cap. */
  function GivenBack<R>(taken: Buffers<R>, b: Buffers<R>): Buffers<R> {
    Buffers(Newest(taken.system + b.system), Newest(taken.process + b.process), Newest(taken.events + b.events),
            Newest(taken.metrics + b.metrics), Newest(taken.requests + b.requests), Newest(taken.tools + b.tools))
  }

  // ----- Runs -----

  datatype State<R> = State(pending: Buffers<R>, taken: Option<Buffers<R>>)

  datatype Step<R> =
    | Append(kind: Kind, rows: seq<R>)
    | Take      // a flush swaps the buffers for empty ones
    | Commit    // its transaction commits
    | Fail      // its transaction is rolled back

  function Next<R>(s: State<R>, step: Step<R>): State<R> {
    match step
    case Append(kind, rows) => s.(pending := Extended(s.pending, kind, rows))
    case Take => if s.taken.None? && !IsEmpty(s.pending) then State(Empty(), Some(s.pending)) else s
    case Commit => s.(taken := None)
    case Fail => if s.taken.Some? then State(GivenBack(s.taken.value, s.pending), None) else s
  }

  function Run<R>(s: State<R>, steps: seq<Step<R>>): State<R> {
    if steps == [] then s else Next(Run(s, steps[..|steps| - 1]), steps[|steps| - 1])
  }

  // ----- Where every row goes -----

  datatype Fate = Committed | Dropped

  /** A row that has left, and how. */
  datatype Departure<R> = Departure(row: R, fate: Fate)

  function Marked<R>(rows: seq<R>, fate: Fate): (d: seq<Departure<R>>)
    ensures |d| == |rows|
  {
    seq(|rows|, i requires 0 <= i < |rows| => Departure(rows[i], fate))
  }

  function RowsOf<R>(d: seq<Departure<R>>): (rows: seq<R>)
    ensures |rows| == |d|
  {
    seq(|d|, i requires 0 <= i < |d| => d[i].row)
  }

  function InFlight<R>(s: State<R>, k: Kind): seq<R> { if s.taken.Some? then At(s.taken.value, k) else [] }

  /** The rows of one kind that leave in a step. */
  function Leaving<R>(s: State<R>, step: Step<R>, k: Kind): seq<Departure<R>> {
    match step
    case Commit => Marked(InFlight(s, k), Committed)
    case Fail =>
      var all := InFlight(s, k) + At(s.pending, k);
      if s.taken.Some? then Marked(all[..Excess(all)], Dropped) else []
    case _ => []
  }

  /** The rows of one kind that have left, in the order they left. */
  function Left<R>(s: State<R>, steps: seq<Step<R>>, k: Kind): seq<Departure<R>> {
    if steps == [] then []
    else
      var before := steps[..|steps| - 1];
      Left(s, before, k) + Leaving(Run(s, before), steps[|steps| - 1], k)
  }

  function Appended<R>(steps: seq<Step<R>>, k: Kind): seq<R> {
    if steps == [] then []
    else
      var last := steps[|steps| - 1];
      Appended(steps[..|steps| - 1], k) + if last.Append? && last.kind == k then last.rows else []
  }

  /** Everything of one kind that is still there, oldest first. */
  function Here<R>(s: State<R>, k: Kind): seq<R> { InFlight(s, k) + At(s.pending, k) }

  lemma MarkedRows<R>(rows: seq<R>, fate: Fate)
    ensures RowsOf(Marked(rows, fate)) == rows
  {
  }

  lemma RowsConcat<R>(a: seq<Departure<R>>, b: seq<Departure<R>>)
    ensures RowsOf(a + b) == RowsOf(a) + RowsOf(b)
  {
  }

  lemma AtGivenBack<R>(taken: Buffers<R>, b: Buffers<R>, k: Kind)
    ensures At(GivenBack(taken, b), k) == Newest(At(taken, k) + At(b, k))
  {
    hide Newest;
  }

  lemma AtExtended<R>(b: Buffers<R>, kind: Kind, rows: seq<R>, k: Kind)
    ensures At(Extended(b, kind, rows), k) == At(b, k) + if kind == k then rows else []
  {
    assert At(b, k) + [] == At(b, k);
  }

  lemma EmptyHasNone<R>(k: Kind, b: Buffers<R>)
    ensures At(Empty<R>(), k) == [] && (IsEmpty(b) ==> At(b, k) == [])
  {
  }

  lemma StepAccounts<R>(s: State<R>, step: Step<R>, k: Kind)
    ensures RowsOf(Leaving(s, step, k)) + Here(Next(s, step), k)
            == Here(s, k) + if step.Append? && step.kind == k then step.rows else []
  {
    hide Extended, GivenBack, Empty, IsEmpty, Newest;
    match step {
      case Append(kind, rows) =>
        AtExtended(s.pending, kind, rows, k);
        assert RowsOf(Leaving(s, step, k)) == [];
        AppendHere(InFlight(s, k), At(s.pending, k), if kind == k then rows else []);
      case Take =>
        EmptyHasNone(k, s.pending);
        assert RowsOf(Leaving(s, step, k)) == [];
        assert [] + At(s.pending, k) == At(s.pending, k);
        assert Here(s, k) + [] == Here(s, k);
        assert [] + Here(Next(s, step), k) == Here(Next(s, step), k);
        assert At(s.pending, k) + [] == At(s.pending, k);
      case Commit =>
        MarkedRows(InFlight(s, k), Committed);
        assert [] + At(s.pending, k) == At(s.pending, k);
      case Fail =>
        if s.taken.Some? {
          var all := InFlight(s, k) + At(s.pending, k);
          MarkedRows(all[..Excess(all)], Dropped);
          AtGivenBack(s.taken.value, s.pending, k);
          NewestRest(all);
          assert [] + Newest(all) == Newest(all);
        } else {
          assert RowsOf(Leaving(s, step, k)) == [];
        }
    }
  }

  lemma AppendHere<R>(a: seq<R>, b: seq<R>, c: seq<R>)
    ensures [] + (a + (b + c)) == (a + b) + c
  {
  }

  lemma NewestRest<R>(all: seq<R>)
    ensures all[..Excess(all)] + Newest(all) == all
  {
  }

  /**
   In every run, the rows of a kind that have left, committed or dropped, then those in flight, then
   those pending, are the rows appended, in their order: none is lost without a trace, none leaves
   twice, and what is dropped is always the oldest there is.
   */
  lemma {:induction false} EveryRowIsAccountedFor<R>(s: State<R>, steps: seq<Step<R>>, k: Kind)
    ensures RowsOf(Left(s, steps, k)) + Here(Run(s, steps), k) == Here(s, k) + Appended(steps, k)
  {
    hide Next, Leaving, Here, RowsOf;
    if steps == [] {
      NoRows<R>();
      assert [] + Here(s, k) == Here(s, k) + [];
    } else {
      var front, last := steps[..|steps| - 1], steps[|steps| - 1];
      EveryRowIsAccountedFor(s, front, k);
      StepAccounts(Run(s, front), last, k);
      RowsConcat(Left(s, front, k), Leaving(Run(s, front), last, k));
      Regroup(RowsOf(Left(s, front, k)), RowsOf(Leaving(Run(s, front), last, k)), Here(Run(s, steps), k),
              Here(Run(s, front), k), if last.Append? && last.kind == k then last.rows else [], Here(s, k), Appended(front, k));
    }
  }

  lemma NoRows<R>()
    ensures RowsOf<R>([]) == []
  {
  }

  lemma Regroup<R>(left: seq<R>, leaving: seq<R>, here: seq<R>, before: seq<R>, rows: seq<R>, first: seq<R>, appended: seq<R>)
    requires leaving + here == before + rows && left + before == first + appended
    ensures (left + leaving) + here == first + (appended + rows)
  {
    assert (left + leaving) + here == left + (leaving + here);
    assert left + (before + rows) == (left + before) + rows;
    assert (first + appended) + rows == first + (appended + rows);
  }

  /** A failed flush leaves no buffer over the cap, and drops nothing that fits. */
  lemma FailBounds<R>(s: State<R>, k: Kind)
    requires s.taken.Some?
    ensures var n := |InFlight(s, k)| + |At(s.pending, k)|;
            && |At(Next(s, Fail).pending, k)| == (if n <= REBUFFER_CAP then n else REBUFFER_CAP)
            && |Leaving(s, Fail, k)| == n - |At(Next(s, Fail).pending, k)|
  {
    AtGivenBack(s.taken.value, s.pending, k);
  }

  /** Without an overflow nothing is dropped: what left was committed. */
  lemma {:induction false} CommittedInOrder<R>(s: State<R>, steps: seq<Step<R>>, k: Kind)
    requires forall n :: 0 <= n < |steps| && steps[n].Fail? ==> |Here(Run(s, steps[..n]), k)| <= REBUFFER_CAP
    ensures forall i :: 0 <= i < |Left(s, steps, k)| ==> Left(s, steps, k)[i].fate == Committed
  {
    if steps != [] {
      var front, last := steps[..|steps| - 1], steps[|steps| - 1];
      forall n | 0 <= n < |front| && front[n].Fail?
        ensures |Here(Run(s, front[..n]), k)| <= REBUFFER_CAP
      {
        assert front[..n] == steps[..n];
      }
      CommittedInOrder(s, front, k);
      assert steps[..|steps| - 1] == front;
    }
  }

  // ----- The buffers as fields -----

  class Store<R> {
    var system: seq<R>
    var process: seq<R>
    var events: seq<R>
    var metrics: seq<R>
    var requests: seq<R>
    var tools: seq<R>

    function View(): Buffers<R>
      reads this
    {
      Buffers(system, process, events, metrics, requests, tools)
    }

    method AppendRows(kind: Kind, rows: seq<R>)
      modifies this
      ensures View() == Extended(old(View()), kind, rows)
    {
      match kind {
        case SystemSnapshots => system := system + rows;
        case ProcessSnapshots => process := process + rows;
        case Events => events := events + rows;
        case Metrics => metrics := metrics + rows;
        case Requests => requests := requests + rows;
        case ToolInvocations => tools := tools + rows;
      }
    }

    /** The first part of `flush`, under the lock. */
    method TakeAll() returns (taken: Buffers<R>)
      modifies this
      ensures taken == old(View()) && View() == Empty()
    {
      taken := View();
      system, process, events, metrics, requests, tools := [], [], [], [], [], [];
    }

    /** The last part of a `flush` that failed, under the lock. */
    method GiveBack(taken: Buffers<R>) returns (dropped: nat)
      modifies this
      ensures View() == GivenBack(taken, old(View()))
      ensures dropped == Excess(taken.system + old(system)) + Excess(taken.process + old(process))
                         + Excess(taken.events + old(events)) + Excess(taken.metrics + old(metrics))
                         + Excess(taken.requests + old(requests)) + Excess(taken.tools + old(tools))
    {
      system, process, events := taken.system + system, taken.process + process, taken.events + events;
      metrics, requests, tools := taken.metrics + metrics, taken.requests + requests, taken.tools + tools;
      var n;
      system, dropped := Bounded(system);
      process, n := Bounded(process);
      dropped := dropped + n;
      events, n := Bounded(events);
      dropped := dropped + n;
      metrics, n := Bounded(metrics);
      dropped := dropped + n;
      requests, n := Bounded(requests);
      dropped := dropped + n;
      tools, n := Bounded(tools);
      dropped := dropped + n;
    }

    /** `flush`, when nobody appends meanwhile; `fails` says whether its transaction does. */
    method FlushAlone(fails: bool) returns (written: Buffers<R>)
      modifies this
      ensures fails ==> written == Empty() && View() == Run(State(old(View()), None), [Take, Fail]).pending
      ensures !fails ==> written == old(View()) && View() == Empty()
    {
      written := Empty();
      ghost var s := State(View(), None);
      RunTwo(s, Take, Fail);
      if IsEmpty(View()) {
        FlushNothing(s);
        return;
      }
      var taken := TakeAll();
      if fails {
        var dropped := GiveBack(taken);
      } else {
        written := taken;
      }
    }
  }

  lemma RunTwo<R>(s: State<R>, a: Step<R>, b: Step<R>)
    ensures Run(s, [a, b]) == Next(Next(s, a), b)
  {
    hide Next;
    assert [a, b][..1] == [a] && [a][..0] == [];
    assert Run(s, [a]) == Next(Run(s, []), a);
  }

  lemma FlushNothing<R>(s: State<R>)
    requires s.taken.None? && IsEmpty(s.pending)
    ensures s.pending == Empty() && Next(Next(s, Take), Fail) == s
  {
  }

  /** The deletion of the oldest rows of one buffer. */
  method Bounded<R>(buf: seq<R>) returns (kept: seq<R>, dropped: nat)
    ensures kept == Newest(buf) && dropped == Excess(buf)
  {
    var excess := |buf| - REBUFFER_CAP;
    if excess > 0 {
      return buf[excess..], excess;
    }
    return buf, 0;
  }
}
