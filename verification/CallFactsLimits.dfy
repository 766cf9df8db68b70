/** Batches that are not written once and for all. */
module CallFactsLimits {
  import opened Options
  import opened CallFacts
  import opened CallFactsMerge
  import opened CallFactsTheorems
  import opened CallFactsEdits

  const CALL := Row("k", "s", 1.0, "transcript", "", map[])
  const OTEL_ROW := Row("k", "s", 1.0, "otel", "", map[])

  lemma NewestOfOne(r: Row)
    requires r.ts >= 0.0
    ensures Newest([r], r.session) == Some(r.ts)
  {
    assert [r][..0] == [];
    assert Newest([], r.session) == None;
  }

  /** A call that has an OTel row under its key: the first write loses it, the second one brings it back. */
  lemma CallIsLost()
    ensures Clash([OTEL_ROW], [CALL], SUPERSEDED_REQUESTS)
    ensures WriteRequests(WriteRequests([OTEL_ROW], [CALL]), [CALL]) != WriteRequests([OTEL_ROW], [CALL])
    ensures !HasKey(WriteRequests([OTEL_ROW], [CALL]), "k")
  {
    hide UpsertAll, Drop, HasKey;
    NewestOfOne(CALL);
    assert [CALL][0].key == "k";
    assert Superseded([OTEL_ROW][0], [CALL], SUPERSEDED_REQUESTS);
    RequestsTwice([OTEL_ROW], [CALL]);
    ClashLoses([OTEL_ROW], [CALL], RequestPolicy, SUPERSEDED_REQUESTS, 0);
  }

  const HOOK_EDIT := Row("k", "s", 1.0, "hook", "e", map[])
  const FIRST_EDIT := Row("k", "s", 1.0, "", "", map[])
  const SECOND_EDIT := Row("m", "s", 2.0, "", "e", map[])

  /** An edit merged into a hook's row that a later edit of the same batch replaces. */
  lemma EditIsLost()
    ensures EditClash([HOOK_EDIT], [FIRST_EDIT, SECOND_EDIT])
    ensures var once := WriteEdits([HOOK_EDIT], [FIRST_EDIT, SECOND_EDIT]);
            WriteEdits(once, [FIRST_EDIT, SECOND_EDIT]) != once
  {
    var batch := [FIRST_EDIT, SECOND_EDIT];
    assert batch[0].key == "k" && batch[1].key == "m";
    assert RemovedAt([HOOK_EDIT][0], batch, 1);
    assert Doomed([HOOK_EDIT][0], batch) && InBatch(batch, "k");
    EditsTwice([HOOK_EDIT], batch);
  }
}
