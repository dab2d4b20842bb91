/** The SNUH sink: `batch_insert_to_db` as an upsert into a table keyed by
    URL, and the loop of `main` in `data_py/uni.py` that buffers successful
    details and flushes them twenty at a time. */
module UniStore {
  import opened Common
  import opened UniDetail

  /** Details buffered before a flush. */
  const BatchSize: nat := 20

  /** The non-key columns of `snuh_diseases`. */
  datatype Row = Row(nameKr: string, nameEng: string, department: Option<string>, symptoms: Option<string>)

  /** The table, one row per URL. */
  type Table = map<string, Row>

  function RowOf(d: UniRecord): Row
  {
    Row(d.nameKr, d.nameEng, d.department, d.symptoms)
  }

  /** Some record of `batch` carries URL `u`. */
  predicate Writes(batch: seq<UniRecord>, u: string)
  {
    exists i :: 0 <= i < |batch| && batch[i].url == u
  }

  /** `executemany` of `INSERT ... ON CONFLICT (url) DO UPDATE`: the records
      are applied in order, each inserting its row or overwriting every
      column of the row with the same URL. */
  function Upsert(t: Table, batch: seq<UniRecord>): (r: Table)
    ensures forall u :: u in r <==> u in t || Writes(batch, u)
  {
    if batch == [] then t
    else
      var n := |batch| - 1;
      WritesOfInit(batch);
      Upsert(t, batch[..n])[batch[n].url := RowOf(batch[n])]
  }

  /** A row no record of the batch mentions keeps its columns. */
  lemma {:induction false} UpsertUntouched(t: Table, batch: seq<UniRecord>, u: string)
    requires u in t && !Writes(batch, u)
    ensures Upsert(t, batch)[u] == t[u]
  {
    if batch != [] {
      var n := |batch| - 1;
      WritesOfInit(batch);
      UpsertUntouched(t, batch[..n], u);
    }
  }

  /** The last record with a given URL decides that URL's row. */
  lemma {:induction false} UpsertLastWins(t: Table, batch: seq<UniRecord>, i: nat)
    requires i < |batch|
    requires forall j :: i < j < |batch| ==> batch[j].url != batch[i].url
    ensures batch[i].url in Upsert(t, batch)
    ensures Upsert(t, batch)[batch[i].url] == RowOf(batch[i])
  {
    var n := |batch| - 1;
    if i < n {
      var init := batch[..n];
      assert init[i] == batch[i];
      assert forall j :: i < j < n ==> init[j].url != init[i].url by {
        assert forall j :: i < j < n ==> init[j] == batch[j];
      }
      UpsertLastWins(t, init, i);
    }
  }

  /** A batch writes what its prefix writes, and its last record's URL. */
  lemma WritesOfInit(batch: seq<UniRecord>)
    requires batch != []
    ensures forall u :: Writes(batch, u) <==> Writes(batch[..|batch| - 1], u) || batch[|batch| - 1].url == u
  {
    var n := |batch| - 1;
    forall u | Writes(batch, u)
      ensures Writes(batch[..n], u) || batch[n].url == u
    {
      var i :| 0 <= i < |batch| && batch[i].url == u;
      if i < n {
        assert batch[..n][i].url == u;
      }
    }
    forall u | Writes(batch[..n], u)
      ensures Writes(batch, u)
    {
      var i :| 0 <= i < n && batch[..n][i].url == u;
      assert batch[i].url == u;
    }
  }

  /** Upserting `a + b` is upserting `a`, then `b`. */
  lemma {:induction false} UpsertAppend(t: Table, a: seq<UniRecord>, b: seq<UniRecord>)
    ensures Upsert(t, a + b) == Upsert(Upsert(t, a), b)
    decreases |b|
  {
    if b == [] {
      assert a + b == a;
    } else {
      var n := |b| - 1;
      assert (a + b)[..|a + b| - 1] == a + b[..n];
      assert (a + b)[|a + b| - 1] == b[n];
      UpsertAppend(t, a, b[..n]);
    }
  }

  /** Applying a batch a second time changes nothing. */
  lemma UpsertIdempotent(t: Table, batch: seq<UniRecord>)
    ensures Upsert(Upsert(t, batch), batch) == Upsert(t, batch)
  {
    var once := Upsert(t, batch);
    var twice := Upsert(once, batch);
    forall u | u in twice
      ensures twice[u] == once[u]
    {
      if Writes(batch, u) {
        var i :| 0 <= i < |batch| && batch[i].url == u;
        var last := LastWrite(batch, i);
        UpsertLastWins(t, batch, last);
        UpsertLastWins(once, batch, last);
      } else {
        UpsertUntouched(once, batch, u);
      }
    }
  }

  /** The position of the last record of `batch` with the URL of `batch[i]`. */
  function LastWrite(batch: seq<UniRecord>, i: nat): (k: nat)
    requires i < |batch|
    ensures i <= k < |batch| && batch[k].url == batch[i].url
    ensures forall j :: k < j < |batch| ==> batch[j].url != batch[i].url
    decreases |batch| - i
  {
    if forall j :: i < j < |batch| ==> batch[j].url != batch[i].url then i
    else
      var j :| i < j < |batch| && batch[j].url == batch[i].url;
      LastWrite(batch, j)
  }

  /** `batch_insert_to_db`: an accepted batch is upserted and committed; a
      rejected one is rolled back and leaves the table as it was. */
  function WriteBatch(t: Table, batch: seq<UniRecord>, accepted: bool): (r: Table)
    ensures !accepted ==> r == t
    ensures accepted ==> r == Upsert(t, batch)
  {
    if accepted then Upsert(t, batch) else t
  }

  /** The table after flushing `batches` in order; flush number `k` is
      accepted when `accept(k)` holds. */
  function Persist(t: Table, batches: seq<seq<UniRecord>>, accept: nat -> bool): Table
  {
    if batches == [] then t
    else
      var n := |batches| - 1;
      WriteBatch(Persist(t, batches[..n], accept), batches[n], accept(n))
  }

  /** The flushed batches the database accepted, in flush order. */
  function AcceptedBatches(batches: seq<seq<UniRecord>>, accept: nat -> bool): (r: seq<seq<UniRecord>>)
    ensures |r| <= |batches|
    ensures forall b :: b in r ==> b in batches
  {
    if batches == [] then []
    else
      var n := |batches| - 1;
      AcceptedBatches(batches[..n], accept) + (if accept(n) then [batches[n]] else [])
  }

  /** Rollback: a rejected flush leaves no trace, so the table is one upsert
      of the accepted batches alone, in flush order. */
  lemma {:induction false} PersistRollback(t: Table, batches: seq<seq<UniRecord>>, accept: nat -> bool)
    ensures Persist(t, batches, accept) == Upsert(t, Flatten(AcceptedBatches(batches, accept)))
  {
    if batches != [] {
      var n := |batches| - 1;
      var kept := AcceptedBatches(batches[..n], accept);
      PersistRollback(t, batches[..n], accept);
      if accept(n) {
        FlattenAppend(kept, batches[n]);
        UpsertAppend(t, Flatten(kept), batches[n]);
      } else {
        assert kept + [] == kept;
      }
    }
  }

  /** All batches are accepted when every flush is. */
  lemma {:induction false} AcceptedAll(batches: seq<seq<UniRecord>>, accept: nat -> bool)
    requires forall k :: 0 <= k < |batches| ==> accept(k)
    ensures AcceptedBatches(batches, accept) == batches
  {
    if batches != [] {
      var n := |batches| - 1;
      AcceptedAll(batches[..n], accept);
      assert batches[..n] + [batches[n]] == batches;
    }
  }

  /** When every flush is accepted, the table is one upsert of everything
      flushed, in order. */
  lemma PersistAccepted(t: Table, batches: seq<seq<UniRecord>>, accept: nat -> bool)
    requires forall k :: 0 <= k < |batches| ==> accept(k)
    ensures Persist(t, batches, accept) == Upsert(t, Flatten(batches))
  {
    PersistRollback(t, batches, accept);
    AcceptedAll(batches, accept);
  }

  lemma PersistStep(t: Table, batches: seq<seq<UniRecord>>, b: seq<UniRecord>, accept: nat -> bool)
    ensures Persist(t, batches + [b], accept) == WriteBatch(Persist(t, batches, accept), b, accept(|batches|))
  {
    assert (batches + [b])[..|batches|] == batches;
  }

  lemma BufferStep(outcomes: seq<Option<UniRecord>>, i: nat, flushed: seq<UniRecord>, buffer: seq<UniRecord>)
    requires i < |outcomes|
    requires flushed + buffer == Successes(outcomes[..i])
    ensures outcomes[i].Some? ==> flushed + (buffer + [outcomes[i].value]) == Successes(outcomes[..i + 1])
    ensures outcomes[i].None? ==> flushed + buffer == Successes(outcomes[..i + 1])
    ensures Failures(outcomes[..i + 1]) == Failures(outcomes[..i]) + (if outcomes[i].None? then 1 else 0)
  {
    SuccessesStep(outcomes, i);
  }

  /** The detail loop of `main`: `outcomes[i]` is what `get_disease_detail`
      returned for candidate `i + 1`. A success is buffered and the buffer is
      flushed once it holds twenty details; a failure is only counted; a
      non-empty remainder is flushed at the end. The buffer is cleared after
      a flush whether or not the flush was accepted. */
  method RunBatches(t: Table, outcomes: seq<Option<UniRecord>>, accept: nat -> bool)
    returns (table: Table, batches: seq<seq<UniRecord>>, success: nat, fail: nat)
    ensures Flatten(batches) == Successes(outcomes)
    ensures forall k :: 0 <= k < |batches| ==> 1 <= |batches[k]| <= BatchSize
    ensures forall k :: 0 <= k < |batches| - 1 ==> |batches[k]| == BatchSize
    ensures success == |Successes(outcomes)| && fail == Failures(outcomes)
    ensures success + fail == |outcomes|
    ensures table == Persist(t, batches, accept)
  {
    table := t;
    batches := [];
    success, fail := 0, 0;
    var buffer: seq<UniRecord> := [];
    for i := 0 to |outcomes|
      invariant Flatten(batches) + buffer == Successes(outcomes[..i])
      invariant |buffer| < BatchSize
      invariant forall k :: 0 <= k < |batches| ==> |batches[k]| == BatchSize
      invariant success == |Successes(outcomes[..i])| && fail == Failures(outcomes[..i])
      invariant table == Persist(t, batches, accept)
    {
      BufferStep(outcomes, i, Flatten(batches), buffer);
      match outcomes[i]
      case Some(detail) =>
        buffer := buffer + [detail];
        success := success + 1;
        if |buffer| >= BatchSize {
          PersistStep(t, batches, buffer, accept);
          FlattenAppend(batches, buffer);
          table := WriteBatch(table, buffer, accept(|batches|));
          batches := batches + [buffer];
          buffer := [];
        }
      case None =>
        fail := fail + 1;
    }
    assert outcomes[..|outcomes|] == outcomes;
    if buffer != [] {
      PersistStep(t, batches, buffer, accept);
      FlattenAppend(batches, buffer);
      table := WriteBatch(table, buffer, accept(|batches|));
      batches := batches + [buffer];
    }
  }

  /** With every flush accepted, the table ends as one upsert of all
      successful details in candidate order. */
  method RunAllAccepted(t: Table, outcomes: seq<Option<UniRecord>>) returns (table: Table)
    ensures table == Upsert(t, Successes(outcomes))
  {
    var accept := (k: nat) => true;
    var batches, success, fail;
    table, batches, success, fail := RunBatches(t, outcomes, accept);
    PersistAccepted(t, batches, accept);
  }
}
