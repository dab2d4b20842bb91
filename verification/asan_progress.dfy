/** The detail loop of `main` in `data_py/asan.py`: successful details are
    collected in memory, every twentieth candidate triggers a progress
    backup (`save_progress`) that overwrites the previous one, and the whole
    collection is saved at the end. A backup is skipped while there is
    nothing to save. */
module AsanProgress {
  import opened Common
  import opened AsanDetail

  /** Candidates between two progress backups. */
  const BackupEvery: nat := 20

  /** The backup file after the first `n` candidates have been handled
      (None while it has never been written): candidate `idx` (1-based,
      failures included) triggers a backup when `idx % 20 == 0`, and the
      backup is written only when there is data. */
  function Backup(outcomes: seq<Option<AsanRecord>>, n: nat): Option<seq<AsanRecord>>
    requires n <= |outcomes|
  {
    if n == 0 then None
    else if n % BackupEvery == 0 && Successes(outcomes[..n]) != [] then Some(Successes(outcomes[..n]))
    else Backup(outcomes, n - 1)
  }

  /** The last candidate count not above `n` that triggered a backup. */
  function LastMultiple(n: nat): (k: nat)
    ensures k <= n && k % BackupEvery == 0 && n - k < BackupEvery
  {
    n - n % BackupEvery
  }

  /** What the backup holds once the first `k` candidates are handled, if
      `k` triggered it. */
  function BackupOf(outcomes: seq<Option<AsanRecord>>, k: nat): Option<seq<AsanRecord>>
    requires k <= |outcomes|
  {
    if Successes(outcomes[..k]) != [] then Some(Successes(outcomes[..k])) else None
  }

  /** The last multiple of twenty not above `n`, from that of `n - 1`. */
  lemma LastMultipleStep(n: nat)
    requires n > 0
    ensures n % BackupEvery != 0 ==> LastMultiple(n - 1) == LastMultiple(n)
    ensures n % BackupEvery == 0 ==> LastMultiple(n - 1) == n - BackupEvery
  {
    var q := n / BackupEvery;
    var r := n % BackupEvery;
    assert n == BackupEvery * q + r;
    if r != 0 {
      assert n - 1 == BackupEvery * q + (r - 1);
    } else {
      assert n - 1 == BackupEvery * (q - 1) + (BackupEvery - 1);
    }
  }

  /** The backup holds exactly the successes among the candidates up to the
      last multiple of twenty, or is absent when there were none. */
  lemma {:induction false} BackupClosedForm(outcomes: seq<Option<AsanRecord>>, n: nat)
    requires n <= |outcomes|
    ensures Backup(outcomes, n) == BackupOf(outcomes, LastMultiple(n))
  {
    if n == 0 {
      assert outcomes[..0] == [];
    } else if n % BackupEvery != 0 {
      BackupClosedForm(outcomes, n - 1);
      LastMultipleStep(n);
    } else if Successes(outcomes[..n]) == [] {
      BackupClosedForm(outcomes, n - 1);
      LastMultipleStep(n);
      var k' := LastMultiple(n - 1);
      SuccessesOfPrefix(outcomes[..n], k');
      assert outcomes[..n][..k'] == outcomes[..k'];
    }
  }

  /** Stopping after candidate 25 leaves the backup of candidate 20: the
      successes among the first twenty candidates, if any. */
  lemma CrashAfterTwentyFive(outcomes: seq<Option<AsanRecord>>)
    requires |outcomes| >= 25
    ensures Backup(outcomes, 25) == BackupOf(outcomes, 20)
  {
    BackupClosedForm(outcomes, 25);
  }

  /** A backup is always an in-order prefix of the final collection. */
  lemma BackupIsPrefix(outcomes: seq<Option<AsanRecord>>, n: nat)
    requires n <= |outcomes|
    ensures Backup(outcomes, n).Some? ==> Backup(outcomes, n).value <= Successes(outcomes)
  {
    BackupClosedForm(outcomes, n);
    SuccessesOfPrefix(outcomes, LastMultiple(n));
  }

  /** The loop of `main`: `outcomes[i]` is what `get_disease_detail` returned
      for candidate `i + 1`. Returns the collected details, the backup file
      and the final save (None when there was nothing to save). */
  method Harvest(outcomes: seq<Option<AsanRecord>>)
    returns (collected: seq<AsanRecord>, backup: Option<seq<AsanRecord>>, saved: Option<seq<AsanRecord>>)
    ensures collected == Successes(outcomes)
    ensures backup == BackupOf(outcomes, LastMultiple(|outcomes|))
    ensures saved.None? <==> collected == []
    ensures saved.Some? ==> saved.value == collected
  {
    collected := [];
    backup := None;
    for i := 0 to |outcomes|
      invariant collected == Successes(outcomes[..i])
      invariant backup == Backup(outcomes, i)
    {
      SuccessesStep(outcomes, i);
      if outcomes[i].Some? {
        collected := collected + [outcomes[i].value];
      }
      assert collected == Successes(outcomes[..i + 1]);
      var idx := i + 1;
      if idx % BackupEvery == 0 && |collected| > 0 {
        backup := Some(collected);
      }
      assert backup == Backup(outcomes, i + 1);
    }
    assert outcomes[..|outcomes|] == outcomes;
    BackupClosedForm(outcomes, |outcomes|);
    saved := if collected != [] then Some(collected) else None;
  }
}
