/**
 The file store: the tracked files, the history of their contents, and the blobs that hold large ones.
 */
module FileStore {
  import opened Options

  const LARGE_FILE_THRESHOLD := 100_000

  /** Hashes, and the length of a text in bytes. */
  datatype Env = Env(contentHash: string -> string, blobHash: string -> string, size: string -> nat)

  /** A row of `files`; `hash` is empty until a content was stored. */
  datatype File = File(content: string, blob: string, hash: string)

  datatype Version = Version(path: string, ts: real, content: string, blob: string)

  datatype Store = Store(files: map<string, File>, history: seq<Version>, blobs: map<string, string>)

  function NewStore(): Store { Store(map[], [], map[]) }

  // ----- What the statements do -----

  /** `INSERT OR REPLACE` under the key (path, ts) */
  function Replaced(h: seq<Version>, v: Version): seq<Version> { Others(h, v.path, v.ts) + [v] }

  function Others(h: seq<Version>, path: string, ts: real): seq<Version> {
    if h == [] then []
    else
      var last := h[|h| - 1];
      Others(h[..|h| - 1], path, ts) + if last.path == path && last.ts == ts then [] else [last]
  }

  predicate IsLarge(content: string, env: Env) { env.size(content) > LARGE_FILE_THRESHOLD }

  /** `_store_blob`: `INSERT OR IGNORE` */
  function WithBlob(blobs: map<string, string>, content: string, env: Env): map<string, string> {
    var h := env.blobHash(content);
    if h in blobs then blobs else blobs[h := content]
  }

  function BlobOf(content: string, env: Env): string { if IsLarge(content, env) then env.blobHash(content) else "" }

  predicate Changes(s: Store, path: string, content: string, env: Env) {
    !(path in s.files && s.files[path].hash == env.contentHash(content))
  }

  /** `upsert_file` with a content */
  function Upserted(s: Store, path: string, content: string, now: real, env: Env): Store {
    var blob := BlobOf(content, env);
    Store(
      s.files[path := File(content, blob, env.contentHash(content))],
      if Changes(s, path, content, env)
      then Replaced(s.history, Version(path, now, if IsLarge(content, env) then "" else content, blob)) else s.history,
      if IsLarge(content, env) then WithBlob(s.blobs, content, env) else s.blobs)
  }

  /** `upsert_file` without one */
  function Noted(s: Store, path: string): Store {
    if path in s.files then s else s.(files := s.files[path := File("", "", "")])
  }

  predicate IsReferenced(s: Store, h: string) {
    || (exists path :: path in s.files && s.files[path].blob == h && h != "")
    || (exists i :: 0 <= i < |s.history| && s.history[i].blob == h && h != "")
  }

  /** The blobs that neither a file nor a version refers to go. */
  function Collected(s: Store): Store { s.(blobs := map h | h in s.blobs && IsReferenced(s, h) :: s.blobs[h]) }

  /** What the deletion of `floor <= ts < cutoff` leaves. */
  function Outside(h: seq<Version>, floor: real, cutoff: real): seq<Version> {
    if h == [] then [] else Outside(h[..|h| - 1], floor, cutoff) + if floor <= h[|h| - 1].ts < cutoff then [] else [h[|h| - 1]]
  }

  // ----- Queries -----

  /** `_resolve_content` */
  function Resolved(content: string, blob: string, blobs: map<string, string>): string {
    if content != "" then content
    else if blob != "" && blob in blobs then blobs[blob]
    else ""
  }

  /** The newest version of the path at or before `ts`. */
  function Newest(h: seq<Version>, path: string, ts: real): Option<Version> {
    if h == [] then None
    else
      var best, last := Newest(h[..|h| - 1], path, ts), h[|h| - 1];
      if last.path == path && last.ts <= ts && (best.None? || last.ts >= best.value.ts) then Some(last) else best
  }

  /** `file_content_at` */
  function ContentAt(s: Store, path: string, ts: real): Option<string> {
    match Newest(s.history, path, ts)
    case None => None
    case Some(v) => Some(Resolved(v.content, v.blob, s.blobs))
  }

  // ----- Runs -----

  datatype Op =
    | Upsert(path: string, content: string, now: real)
    | Note(path: string)
    | Remove(path: string)
    | Collect
    | Retire(floor: real, cutoff: real)

  function Next(s: Store, op: Op, env: Env): Store {
    match op
    case Upsert(path, content, now) => Upserted(s, path, content, now, env)
    case Note(path) => Noted(s, path)
    case Remove(path) => s.(files := s.files - {path})
    case Collect => Collected(s)
    case Retire(floor, cutoff) => s.(history := Outside(s.history, floor, cutoff))
  }

  function Run(ops: seq<Op>, env: Env): Store {
    if ops == [] then NewStore() else Next(Run(ops[..|ops| - 1], env), ops[|ops| - 1], env)
  }

  /** What the last call that carried a content for the path, at or before `ts`, carried. */
  function LastContent(ops: seq<Op>, path: string, ts: real): Option<string> {
    if ops == [] then None
    else
      var last := ops[|ops| - 1];
      if last.Upsert? && last.path == path && last.now <= ts then Some(last.content) else LastContent(ops[..|ops| - 1], path, ts)
  }

  /** Different contents have different hashes, and no hash is empty. */
  ghost predicate Injective(env: Env) {
    && (forall a, b :: env.contentHash(a) == env.contentHash(b) ==> a == b)
    && (forall a, b :: env.blobHash(a) == env.blobHash(b) ==> a == b)
    && (forall a :: env.contentHash(a) != "" && env.blobHash(a) != "")
  }

  /** The clock does not go back. */
  predicate ClockOk(ops: seq<Op>) {
    forall i, j :: 0 <= i < j < |ops| && ops[i].Upsert? && ops[j].Upsert? ==> ops[i].now <= ops[j].now
  }

  // ----- No reference dangles -----

  predicate BlobThere(blob: string, blobs: map<string, string>) { blob == "" || blob in blobs }

  predicate NoneDangles(s: Store) {
    && (forall path :: path in s.files ==> BlobThere(s.files[path].blob, s.blobs))
    && (forall i :: 0 <= i < |s.history| ==> BlobThere(s.history[i].blob, s.blobs))
  }

  /** Every blob stands under the hash of its content. */
  predicate BlobsMatch(s: Store, env: Env) { forall h :: h in s.blobs ==> env.blobHash(s.blobs[h]) == h }

  lemma {:induction false} OthersAre(h: seq<Version>, path: string, ts: real)
    ensures forall v :: v in Others(h, path, ts) <==> v in h && !(v.path == path && v.ts == ts)
  {
    if h != [] {
      OthersAre(h[..|h| - 1], path, ts);
      assert h == h[..|h| - 1] + [h[|h| - 1]];
    }
  }

  lemma {:induction false} OutsideAre(h: seq<Version>, floor: real, cutoff: real)
    ensures forall v :: v in Outside(h, floor, cutoff) <==> v in h && !(floor <= v.ts < cutoff)
  {
    if h != [] {
      OutsideAre(h[..|h| - 1], floor, cutoff);
      assert h == h[..|h| - 1] + [h[|h| - 1]];
    }
  }

  predicate VersionsThere(h: seq<Version>, blobs: map<string, string>) { forall v :: v in h ==> BlobThere(v.blob, blobs) }

  lemma VersionsAre(s: Store)
    ensures (forall i :: 0 <= i < |s.history| ==> BlobThere(s.history[i].blob, s.blobs)) <==> VersionsThere(s.history, s.blobs)
  {
  }

  lemma StepDangles(s: Store, op: Op, env: Env)
    requires NoneDangles(s) && BlobsMatch(s, env)
    ensures NoneDangles(Next(s, op, env)) && BlobsMatch(Next(s, op, env), env)
  {
    var u := Next(s, op, env);
    VersionsAre(s);
    VersionsAre(u);
    match op {
      case Upsert(path, content, now) => OthersAre(s.history, path, now);
      case Retire(floor, cutoff) => OutsideAre(s.history, floor, cutoff);
      case Collect =>
        forall i | 0 <= i < |s.history|
          ensures BlobThere(s.history[i].blob, u.blobs)
        {
          var h := s.history[i].blob;
          if h != "" {
            assert IsReferenced(s, h);
          }
        }
      case _ =>
    }
  }

  /** Over every run, retirement of old versions included, every stored reference finds its blob. */
  lemma {:induction false} NothingDangles(ops: seq<Op>, env: Env)
    ensures NoneDangles(Run(ops, env)) && BlobsMatch(Run(ops, env), env)
  {
    hide Next;
    if ops != [] {
      NothingDangles(ops[..|ops| - 1], env);
      StepDangles(Run(ops[..|ops| - 1], env), ops[|ops| - 1], env);
    }
  }

  // ----- The history is the record -----

  lemma {:induction false} NewestIs(h: seq<Version>, path: string, ts: real)
    ensures var n := Newest(h, path, ts);
            && (n.Some? ==> n.value in h && n.value.path == path && n.value.ts <= ts)
            && forall v :: v in h && v.path == path && v.ts <= ts ==> n.Some? && v.ts <= n.value.ts
  {
    if h != [] {
      NewestIs(h[..|h| - 1], path, ts);
      assert h == h[..|h| - 1] + [h[|h| - 1]];
    }
  }

  /** A version that is not before any other of its path is the newest from then on, and changes nothing earlier or elsewhere. */
  lemma {:induction false} OthersNewest(h: seq<Version>, path: string, ts: real, p: string, t: real)
    requires p != path || t < ts
    ensures Newest(Others(h, path, ts), p, t) == Newest(h, p, t)
  {
    if h != [] {
      var front, last := h[..|h| - 1], h[|h| - 1];
      OthersNewest(front, path, ts, p, t);
      var o := Others(front, path, ts);
      assert (o + [last])[..|o|] == o;
      assert o + [] == o;
    }
  }

  lemma ReplacedNewest(h: seq<Version>, v: Version, p: string, t: real)
    requires forall w :: w in h && w.path == v.path ==> w.ts <= v.ts
    ensures Newest(Replaced(h, v), p, t) == if p == v.path && v.ts <= t then Some(v) else Newest(h, p, t)
  {
    var o := Others(h, v.path, v.ts);
    OthersAre(h, v.path, v.ts);
    assert (o + [v])[..|o|] == o;
    NewestIs(o, p, t);
    if p != v.path || t < v.ts {
      OthersNewest(h, v.path, v.ts, p, t);
    }
  }

  /** The versions of a path came at or before the clock. */
  predicate NotAfter(h: seq<Version>, clock: real) { forall v :: v in h ==> v.ts <= clock }

  /** The tracked content of a path is the last one it was given. */
  ghost predicate Current(s: Store, ops: seq<Op>, env: Env) {
    forall path :: path in s.files && s.files[path].hash != "" ==>
      exists c :: Given(ops, path, c) && env.contentHash(c) == s.files[path].hash
  }

  /** `c` is the last content the path was given. */
  predicate Given(ops: seq<Op>, path: string, c: string) {
    if ops == [] then false
    else
      var last := ops[|ops| - 1];
      if last.Upsert? && last.path == path then last.content == c else Given(ops[..|ops| - 1], path, c)
  }

  ghost predicate Records(s: Store, ops: seq<Op>) {
    forall path, ts :: ContentAt(s, path, ts) == LastContent(ops, path, ts)
  }

  /** The answer is right, or there is none. */
  predicate FineAt(s: Store, ops: seq<Op>, path: string, ts: real) {
    ContentAt(s, path, ts) == LastContent(ops, path, ts) || ContentAt(s, path, ts).None?
  }

  ghost predicate Fine(s: Store, ops: seq<Op>) { forall path, ts :: FineAt(s, ops, path, ts) }

  lemma {:induction false} GivenIsLast(ops: seq<Op>, path: string, c: string, ts: real)
    requires Given(ops, path, c) && forall i :: 0 <= i < |ops| && ops[i].Upsert? ==> ops[i].now <= ts
    ensures LastContent(ops, path, ts) == Some(c)
  {
    if !(ops[|ops| - 1].Upsert? && ops[|ops| - 1].path == path) {
      GivenIsLast(ops[..|ops| - 1], path, c, ts);
    }
  }

  lemma LastContentSnoc(ops: seq<Op>, op: Op, path: string, ts: real)
    ensures LastContent(ops + [op], path, ts)
            == if op.Upsert? && op.path == path && op.now <= ts then Some(op.content) else LastContent(ops, path, ts)
    ensures forall c :: Given(ops + [op], path, c) <==> if op.Upsert? && op.path == path then op.content == c else Given(ops, path, c)
  {
    assert (ops + [op])[..|ops|] == ops;
  }

  lemma WithBlobKeeps(s: Store, content: string, env: Env)
    requires BlobsMatch(s, env) && Injective(env)
    ensures var b := WithBlob(s.blobs, content, env);
            && env.blobHash(content) in b && b[env.blobHash(content)] == content
            && forall h :: h in s.blobs ==> h in b && b[h] == s.blobs[h]
  {
  }

  /** A version reads the same in a larger collection of blobs. */
  lemma ReadsSame(v: Version, blobs: map<string, string>, more: map<string, string>)
    requires BlobThere(v.blob, blobs) && forall h :: h in blobs ==> h in more && more[h] == blobs[h]
    ensures Resolved(v.content, v.blob, more) == Resolved(v.content, v.blob, blobs)
  {
  }

  /** What a call with a content changes about the answers. */
  lemma UpsertContent(s: Store, ops: seq<Op>, path: string, content: string, now: real, env: Env, p: string, ts: real)
    requires Current(s, ops, env) && NoneDangles(s) && BlobsMatch(s, env) && Injective(env)
    requires NotAfter(s.history, now) && forall i :: 0 <= i < |ops| && ops[i].Upsert? ==> ops[i].now <= now
    ensures var here := p == path && now <= ts;
            && ContentAt(Upserted(s, path, content, now, env), p, ts)
               == (if here && Changes(s, path, content, env) then Some(content) else ContentAt(s, p, ts))
            && (here && !Changes(s, path, content, env) ==> LastContent(ops, p, ts) == Some(content))
  {
    hide Newest, LastContent, Given, Replaced, Injective, Resolved;
    var u := Upserted(s, path, content, now, env);
    var v := Version(path, now, if IsLarge(content, env) then "" else content, BlobOf(content, env));
    WithBlobKeeps(s, content, env);
    NewestIs(s.history, p, ts);
    OldReadsSame(s, u, p, ts);
    if Changes(s, path, content, env) {
      ReplacedNewest(s.history, v, p, ts);
      NewReads(content, env, u.blobs);
    } else if p == path && now <= ts {
      SameContent(s, ops, path, content, ts, env);
    }
  }

  lemma UpsertRecords(s: Store, ops: seq<Op>, path: string, content: string, now: real, env: Env)
    requires Current(s, ops, env) && NoneDangles(s) && BlobsMatch(s, env) && Injective(env)
    requires NotAfter(s.history, now) && forall i :: 0 <= i < |ops| && ops[i].Upsert? ==> ops[i].now <= now
    ensures Records(s, ops) ==> Records(Upserted(s, path, content, now, env), ops + [Upsert(path, content, now)])
    ensures Fine(s, ops) ==> Fine(Upserted(s, path, content, now, env), ops + [Upsert(path, content, now)])
  {
    hide ContentAt, LastContent, Given, Injective, Current, NotAfter, Upserted, Changes;
    var u, op := Upserted(s, path, content, now, env), Upsert(path, content, now);
    forall p, ts
      ensures ContentAt(s, p, ts) == LastContent(ops, p, ts) ==> ContentAt(u, p, ts) == LastContent(ops + [op], p, ts)
      ensures FineAt(s, ops, p, ts) ==> FineAt(u, ops + [op], p, ts)
    {
      LastContentSnoc(ops, op, p, ts);
      UpsertContent(s, ops, path, content, now, env, p, ts);
    }
  }

  lemma OldReadsSame(s: Store, u: Store, p: string, ts: real)
    requires NoneDangles(s) && forall h :: h in s.blobs ==> h in u.blobs && u.blobs[h] == s.blobs[h]
    ensures var n := Newest(s.history, p, ts);
            n.Some? ==> Resolved(n.value.content, n.value.blob, u.blobs) == Resolved(n.value.content, n.value.blob, s.blobs)
  {
    hide Resolved;
    NewestIs(s.history, p, ts);
    VersionsAre(s);
    var n := Newest(s.history, p, ts);
    if n.Some? {
      ReadsSame(n.value, s.blobs, u.blobs);
    }
  }

  lemma NewReads(content: string, env: Env, blobs: map<string, string>)
    requires Injective(env) && (IsLarge(content, env) ==> env.blobHash(content) in blobs && blobs[env.blobHash(content)] == content)
    ensures Resolved(if IsLarge(content, env) then "" else content, BlobOf(content, env), blobs) == content
  {
  }

  /** An unchanged content is the last one given. */
  lemma SameContent(s: Store, ops: seq<Op>, path: string, content: string, ts: real, env: Env)
    requires Current(s, ops, env) && Injective(env) && !Changes(s, path, content, env)
    requires forall i :: 0 <= i < |ops| && ops[i].Upsert? ==> ops[i].now <= ts
    ensures LastContent(ops, path, ts) == Some(content)
  {
    var c :| Given(ops, path, c) && env.contentHash(c) == s.files[path].hash;
    GivenIsLast(ops, path, c, ts);
  }

  lemma UpsertCurrent(s: Store, ops: seq<Op>, path: string, content: string, now: real, env: Env)
    requires Current(s, ops, env)
    ensures Current(Upserted(s, path, content, now, env), ops + [Upsert(path, content, now)], env)
  {
    var u, op := Upserted(s, path, content, now, env), Upsert(path, content, now);
    forall p | p in u.files && u.files[p].hash != ""
      ensures exists c :: Given(ops + [op], p, c) && env.contentHash(c) == u.files[p].hash
    {
      LastContentSnoc(ops, op, p, now);
      if p == path {
        assert Given(ops + [op], p, content);
      } else {
        var c :| Given(ops, p, c) && env.contentHash(c) == s.files[p].hash;
        assert Given(ops + [op], p, c);
      }
    }
  }

  /** A call without a content, a removal, or a collection of blobs. */
  lemma OtherRecords(s: Store, ops: seq<Op>, op: Op, env: Env)
    requires NoneDangles(s) && (op.Note? || op.Remove? || op.Collect?)
    ensures Records(s, ops) ==> Records(Next(s, op, env), ops + [op])
    ensures Fine(s, ops) ==> Fine(Next(s, op, env), ops + [op])
  {
    hide Newest, LastContent, Given, Resolved;
    var u := Next(s, op, env);
    forall p, ts
      ensures ContentAt(u, p, ts) == ContentAt(s, p, ts) && LastContent(ops + [op], p, ts) == LastContent(ops, p, ts)
    {
      LastContentSnoc(ops, op, p, ts);
      if op.Collect? {
        NewestIs(s.history, p, ts);
        CollectedReads(s, p, ts);
      }
    }
    SameAnswers(s, u, ops, op);
  }

  lemma SameAnswers(s: Store, u: Store, ops: seq<Op>, op: Op)
    requires forall p, ts :: ContentAt(u, p, ts) == ContentAt(s, p, ts) && LastContent(ops + [op], p, ts) == LastContent(ops, p, ts)
    ensures Records(s, ops) ==> Records(u, ops + [op])
    ensures Fine(s, ops) ==> Fine(u, ops + [op])
  {
    hide ContentAt, LastContent;
    if Fine(s, ops) {
      forall p, ts
        ensures FineAt(u, ops + [op], p, ts)
      {
        assert FineAt(s, ops, p, ts);
        assert ContentAt(u, p, ts) == ContentAt(s, p, ts);
      }
    }
  }

  /** No other call changes what is known of the last content. */
  lemma OtherCurrent(s: Store, ops: seq<Op>, op: Op, env: Env)
    requires Current(s, ops, env) && !op.Upsert?
    ensures Current(Next(s, op, env), ops + [op], env)
  {
    hide LastContent, Given, Outside;
    var u := Next(s, op, env);
    forall p | p in u.files && u.files[p].hash != ""
      ensures exists c :: Given(ops + [op], p, c) && env.contentHash(c) == u.files[p].hash
    {
      LastContentSnoc(ops, op, p, 0.0);
      assert p in s.files && u.files[p] == s.files[p];
      var c :| Given(ops, p, c) && env.contentHash(c) == s.files[p].hash;
      assert Given(ops + [op], p, c);
    }
  }

  lemma CollectedReads(s: Store, p: string, ts: real)
    requires NoneDangles(s)
    ensures var n := Newest(s.history, p, ts);
            n.Some? ==> Resolved(n.value.content, n.value.blob, Collected(s).blobs) == Resolved(n.value.content, n.value.blob, s.blobs)
  {
    NewestIs(s.history, p, ts);
    var n := Newest(s.history, p, ts);
    if n.Some? && n.value.blob != "" {
      var i :| 0 <= i < |s.history| && s.history[i] == n.value;
      assert IsReferenced(s, n.value.blob);
    }
  }

  lemma UpsertNotAfter(s: Store, path: string, content: string, now: real, env: Env, before: real)
    requires NotAfter(s.history, before) && before <= now
    ensures NotAfter(Upserted(s, path, content, now, env).history, now)
  {
    OthersAre(s.history, path, now);
  }

  /** The latest time of an upsert. */
  ghost predicate Behind(s: Store, ops: seq<Op>) {
    forall clock: real :: (forall i :: 0 <= i < |ops| && ops[i].Upsert? ==> ops[i].now <= clock) ==> NotAfter(s.history, clock)
  }

  /**
   The content of a file at a time is what the last call at or before that time carried, for every
   path and every time: inline or in a blob, through calls without a content, removals, and
   collections of unused blobs.
   */
  lemma {:induction false} HistoryRecords(ops: seq<Op>, env: Env)
    requires Injective(env) && ClockOk(ops) && forall i :: 0 <= i < |ops| ==> !ops[i].Retire?
    ensures Records(Run(ops, env), ops) && Current(Run(ops, env), ops, env) && Behind(Run(ops, env), ops)
  {
    hide Next, Records, Current, Injective;
    if ops == [] {
      assert Records(NewStore(), []) && Current(NewStore(), [], env) by { NothingRecorded(env); }
    } else {
      var front, op := ops[..|ops| - 1], ops[|ops| - 1];
      assert front + [op] == ops;
      HistoryRecords(front, env);
      var s := Run(front, env);
      NothingDangles(front, env);
      if op.Upsert? {
        assert NotAfter(s.history, op.now);
        UpsertRecords(s, front, op.path, op.content, op.now, env);
        UpsertCurrent(s, front, op.path, op.content, op.now, env);
        UpsertNotAfter(s, op.path, op.content, op.now, env, op.now);
        NextIsUpserted(s, op, env);
        assert Behind(Run(ops, env), ops) by { UpsertBehind(Run(ops, env), ops, op.now); }
      } else {
        OtherRecords(s, front, op, env);
        OtherCurrent(s, front, op, env);
        OtherBehind(s, front, op, env);
      }
    }
  }

  lemma NextIsUpserted(s: Store, op: Op, env: Env)
    requires op.Upsert?
    ensures Next(s, op, env) == Upserted(s, op.path, op.content, op.now, env)
  {
  }

  lemma UpsertBehind(u: Store, ops: seq<Op>, now: real)
    requires NotAfter(u.history, now) && ops != [] && ops[|ops| - 1].Upsert? && ops[|ops| - 1].now == now
    ensures Behind(u, ops)
  {
    forall clock: real | forall i :: 0 <= i < |ops| && ops[i].Upsert? ==> ops[i].now <= clock
      ensures NotAfter(u.history, clock)
    {
      assert ops[|ops| - 1].now <= clock;
    }
  }

  lemma OtherBehind(s: Store, ops: seq<Op>, op: Op, env: Env)
    requires Behind(s, ops) && !op.Upsert?
    ensures Behind(Next(s, op, env), ops + [op])
  {
    forall clock: real | forall i :: 0 <= i < |ops + [op]| && (ops + [op])[i].Upsert? ==> (ops + [op])[i].now <= clock
      ensures NotAfter(Next(s, op, env).history, clock)
    {
      forall i | 0 <= i < |ops| && ops[i].Upsert?
        ensures ops[i].now <= clock
      {
        assert (ops + [op])[i] == ops[i];
      }
      assert NotAfter(s.history, clock);
      if op.Retire? {
        OutsideAre(s.history, op.floor, op.cutoff);
      }
    }
  }

  lemma NothingRecorded(env: Env)
    ensures Records(NewStore(), []) && Current(NewStore(), [], env)
  {
  }

  /** The theorem, for one path and one time. */
  lemma ContentAtIsLastContent(ops: seq<Op>, env: Env, path: string, ts: real)
    requires Injective(env) && ClockOk(ops) && forall i :: 0 <= i < |ops| ==> !ops[i].Retire?
    ensures ContentAt(Run(ops, env), path, ts) == LastContent(ops, path, ts)
  {
    hide Run, ContentAt, LastContent, Injective;
    HistoryRecords(ops, env);
  }

  // ----- Retiring old versions -----

  /** No path has a version that is deleted and an older one that stays. */
  predicate RetiresWhole(h: seq<Version>, floor: real, cutoff: real) {
    forall v, w :: v in h && w in h && v.path == w.path && v.ts < floor ==> !(floor <= w.ts < cutoff)
  }

  /** As the program calls it: the floor is at or above the cutoff, or below everything. */
  lemma CallersRetireWhole(h: seq<Version>, floor: real, cutoff: real)
    requires floor >= cutoff || forall v :: v in h ==> floor <= v.ts
    ensures RetiresWhole(h, floor, cutoff)
  {
  }

  /** A version that stays is still the newest where it was. */
  lemma {:induction false} NewestStays(h: seq<Version>, floor: real, cutoff: real, path: string, ts: real)
    requires Newest(h, path, ts).Some? && !(floor <= Newest(h, path, ts).value.ts < cutoff)
    ensures Newest(Outside(h, floor, cutoff), path, ts) == Newest(h, path, ts)
  {
    var front, last := h[..|h| - 1], h[|h| - 1];
    var f := Outside(front, floor, cutoff);
    assert (f + [last])[..|f|] == f;
    assert f + [] == f;
    NewestIs(front, path, ts);
    NewestIs(f, path, ts);
    OutsideAre(front, floor, cutoff);
    if Newest(h, path, ts) == Newest(front, path, ts) {
      NewestStays(front, floor, cutoff, path, ts);
    }
  }

  /** The answer at this path and time stays, or there is none any more. */
  predicate StaysOrGoes(h: seq<Version>, floor: real, cutoff: real, path: string, ts: real) {
    var n := Newest(Outside(h, floor, cutoff), path, ts); n == Newest(h, path, ts) || n.None?
  }

  lemma WholeForgets(h: seq<Version>, floor: real, cutoff: real, path: string, ts: real)
    requires RetiresWhole(h, floor, cutoff)
    ensures StaysOrGoes(h, floor, cutoff, path, ts)
  {
    hide Newest, Outside;
    NewestIs(h, path, ts);
    NewestIs(Outside(h, floor, cutoff), path, ts);
    OutsideAre(h, floor, cutoff);
    var n := Newest(h, path, ts);
    if n.Some? && !(floor <= n.value.ts < cutoff) {
      NewestStays(h, floor, cutoff, path, ts);
    }
  }

  /**
   Retiring versions never changes an answer, only forgets some, exactly when no path keeps a version that
   is older than one it loses.
   */
  lemma RetirementForgets(h: seq<Version>, floor: real, cutoff: real)
    ensures RetiresWhole(h, floor, cutoff) <==> forall path, ts :: StaysOrGoes(h, floor, cutoff, path, ts)
  {
    hide Newest, Outside, StaysOrGoes;
    if RetiresWhole(h, floor, cutoff) {
      forall path, ts
        ensures StaysOrGoes(h, floor, cutoff, path, ts)
      {
        WholeForgets(h, floor, cutoff, path, ts);
      }
    } else {
      var v, w :| v in h && w in h && v.path == w.path && v.ts < floor && floor <= w.ts < cutoff;
      OlderAnswers(h, floor, cutoff, v, w);
    }
  }

  /** Otherwise an older version becomes the answer. */
  lemma OlderAnswers(h: seq<Version>, floor: real, cutoff: real, v: Version, w: Version)
    requires v in h && w in h && v.path == w.path && v.ts < floor <= w.ts < cutoff
    ensures !StaysOrGoes(h, floor, cutoff, w.path, w.ts)
  {
    hide Newest, Outside;
    NewestIs(h, w.path, w.ts);
    NewestIs(Outside(h, floor, cutoff), w.path, w.ts);
    OutsideAre(h, floor, cutoff);
    assert v in Outside(h, floor, cutoff);
    assert w.ts <= Newest(h, w.path, w.ts).value.ts <= w.ts;
  }

  lemma RetireFine(s: Store, ops: seq<Op>, floor: real, cutoff: real, env: Env)
    requires Fine(s, ops) && RetiresWhole(s.history, floor, cutoff)
    ensures Fine(Next(s, Retire(floor, cutoff), env), ops + [Retire(floor, cutoff)])
  {
    hide Newest, Outside, LastContent, Given, Resolved, RetiresWhole;
    var op := Retire(floor, cutoff);
    forall p, ts
      ensures FineAt(Next(s, op, env), ops + [op], p, ts)
    {
      LastContentSnoc(ops, op, p, ts);
      assert FineAt(s, ops, p, ts);
      WholeForgets(s.history, floor, cutoff, p, ts);
      var n := Newest(Outside(s.history, floor, cutoff), p, ts);
      assert ContentAt(Next(s, op, env), p, ts)
          == (match n case None => None case Some(v) => Some(Resolved(v.content, v.blob, s.blobs)));
      if n.Some? {
        assert n == Newest(s.history, p, ts);
      }
    }
  }

  /** Every retirement of the run spares what is older than what it takes. */
  predicate AllWhole(ops: seq<Op>, env: Env) {
    forall n :: 0 <= n < |ops| && ops[n].Retire? ==> RetiresWhole(Run(ops[..n], env).history, ops[n].floor, ops[n].cutoff)
  }

  /**
   Over whole runs, retirements among the calls: the content of a file at a time is what the last call at
   or before it carried, or unknown.
   */
  lemma {:induction false} HistoryForgets(ops: seq<Op>, env: Env)
    requires Injective(env) && ClockOk(ops) && AllWhole(ops, env)
    ensures Fine(Run(ops, env), ops) && Current(Run(ops, env), ops, env) && Behind(Run(ops, env), ops)
  {
    hide Next, Fine, Records, Current, Injective, RetiresWhole;
    if ops == [] {
      assert Records(NewStore(), []) && Current(NewStore(), [], env) by { NothingRecorded(env); }
      assert Fine(NewStore(), []) by { RecordsIsFine(NewStore(), []); }
    } else {
      var front, op := ops[..|ops| - 1], ops[|ops| - 1];
      assert front + [op] == ops;
      FrontIsWhole(ops, env);
      HistoryForgets(front, env);
      var s := Run(front, env);
      NothingDangles(front, env);
      if op.Upsert? {
        assert NotAfter(s.history, op.now);
        UpsertRecords(s, front, op.path, op.content, op.now, env);
        UpsertCurrent(s, front, op.path, op.content, op.now, env);
        UpsertNotAfter(s, op.path, op.content, op.now, env, op.now);
        NextIsUpserted(s, op, env);
        assert Behind(Run(ops, env), ops) by { UpsertBehind(Run(ops, env), ops, op.now); }
      } else {
        if op.Retire? {
          RetireFine(s, front, op.floor, op.cutoff, env);
        } else {
          OtherRecords(s, front, op, env);
        }
        OtherCurrent(s, front, op, env);
        OtherBehind(s, front, op, env);
      }
    }
  }

  lemma RecordsIsFine(s: Store, ops: seq<Op>)
    requires Records(s, ops)
    ensures Fine(s, ops)
  {
    hide ContentAt, LastContent;
  }

  lemma FrontIsWhole(ops: seq<Op>, env: Env)
    requires ops != [] && AllWhole(ops, env)
    ensures AllWhole(ops[..|ops| - 1], env)
    ensures var n := |ops| - 1;
            ops[n].Retire? ==> RetiresWhole(Run(ops[..n], env).history, ops[n].floor, ops[n].cutoff)
  {
    hide Run, RetiresWhole;
    var front := ops[..|ops| - 1];
    forall n | 0 <= n < |front| && front[n].Retire?
      ensures RetiresWhole(Run(front[..n], env).history, front[n].floor, front[n].cutoff)
    {
      assert front[..n] == ops[..n];
    }
  }

  /** The theorem, for one path and one time. */
  lemma ContentAtOrUnknown(ops: seq<Op>, env: Env, path: string, ts: real)
    requires Injective(env) && ClockOk(ops) && AllWhole(ops, env)
    ensures ContentAt(Run(ops, env), path, ts) == LastContent(ops, path, ts) || ContentAt(Run(ops, env), path, ts).None?
  {
    hide Run, ContentAt, LastContent, Injective, AllWhole;
    HistoryForgets(ops, env);
    assert FineAt(Run(ops, env), ops, path, ts);
  }

  // ----- The tables as fields -----

  class Database {
    var files: map<string, File>
    var history: seq<Version>
    var blobs: map<string, string>

    function View(): Store
      reads this
    {
      Store(files, history, blobs)
    }

    method StoreBlob(content: string, env: Env) returns (hash: string)
      modifies this`blobs
      ensures hash == env.blobHash(content) && blobs == WithBlob(old(blobs), content, env)
    {
      hash := env.blobHash(content);
      if hash !in blobs {
        blobs := blobs[hash := content];
      }
    }

    method ReplaceVersion(v: Version)
      modifies this`history
      ensures history == Replaced(old(history), v)
    {
      var kept := [];
      for i := 0 to |history|
        invariant history == old(history) && kept == Others(history[..i], v.path, v.ts)
      {
        assert history[..i + 1] == history[..i] + [history[i]] && history[..i + 1][..i] == history[..i];
        if !(history[i].path == v.path && history[i].ts == v.ts) {
          kept := kept + [history[i]];
        }
      }
      assert history[..|history|] == history;
      history := kept + [v];
    }

    /** `upsert_file`: whether the content changed. */
    method UpsertFile(path: string, content: Option<string>, now: real, env: Env) returns (changed: bool)
      modifies this
      ensures content.Some? ==> View() == Next(old(View()), Upsert(path, content.value, now), env)
      ensures content.None? ==> View() == Next(old(View()), Note(path), env)
      ensures changed <==> content.Some? && Changes(old(View()), path, content.value, env)
    {
      hide Replaced, WithBlob;
      if content.None? {
        if path !in files {
          files := files[path := File("", "", "")];
        }
        return false;
      }
      var text := content.value;
      var newHash := env.contentHash(text);
      changed := !(path in files && files[path].hash == newHash);
      var blobHash := "";
      if env.size(text) > LARGE_FILE_THRESHOLD {
        blobHash := StoreBlob(text, env);
      }
      files := files[path := File(text, blobHash, newHash)];
      if changed {
        if env.size(text) > LARGE_FILE_THRESHOLD {
          ReplaceVersion(Version(path, now, "", blobHash));
        } else {
          ReplaceVersion(Version(path, now, text, ""));
        }
      }
    }

    /** `remove_file`: whether the file was tracked. */
    method RemoveFile(path: string) returns (existed: bool)
      modifies this`files
      ensures View() == Store(old(files) - {path}, history, blobs) && existed == (path in old(files))
    {
      existed := path in files;
      files := files - {path};
    }

    /** `file_content_at` */
    method FileContentAt(path: string, ts: real) returns (content: Option<string>)
      ensures content == ContentAt(View(), path, ts)
    {
      var best: Option<Version> := None;
      for i := 0 to |history|
        invariant best == Newest(history[..i], path, ts)
      {
        assert history[..i + 1] == history[..i] + [history[i]] && history[..i + 1][..i] == history[..i];
        var v := history[i];
        if v.path == path && v.ts <= ts && (best.None? || v.ts >= best.value.ts) {
          best := Some(v);
        }
      }
      assert history[..|history|] == history;
      content := match best case None => None case Some(v) => Some(Resolved(v.content, v.blob, blobs));
    }
  }
}
