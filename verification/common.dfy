/** Small shared vocabulary of the two crawlers: optional values, the outcome
    of rendering one page, and the sequence helpers used by their main loops. */
module Common {

  /** Python's `None`-or-value. */
  datatype Option<+T> = None | Some(value: T)

  /** What the browser hands back for one URL: either a rendered document of
      the page layout `D`, or a failure (navigation error, timeout, or any
      exception the crawler's catch-all turns into a failed result). */
  datatype Fetch<+D> = FetchFailed | Rendered(doc: D)

  /** The values of the successful outcomes, in order: what the crawlers
      append to their in-memory buffers while walking the candidates. */
  function Successes<D>(outcomes: seq<Option<D>>): (r: seq<D>)
    ensures |r| <= |outcomes|
    ensures forall d :: d in r ==> Some(d) in outcomes
  {
    if outcomes == [] then []
    else
      var init := outcomes[..|outcomes| - 1];
      match outcomes[|outcomes| - 1]
      case Some(d) => Successes(init) + [d]
      case None => Successes(init)
  }

  /** Number of failed outcomes. */
  function Failures<D>(outcomes: seq<Option<D>>): (n: nat)
    ensures n + |Successes(outcomes)| == |outcomes|
  {
    if outcomes == [] then 0
    else
      var init := outcomes[..|outcomes| - 1];
      Failures(init) + (if outcomes[|outcomes| - 1].None? then 1 else 0)
  }

  /** Successes of a longer prefix extend those of a shorter one. */
  lemma {:induction false} SuccessesOfPrefix<D>(outcomes: seq<Option<D>>, j: nat)
    requires j <= |outcomes|
    ensures Successes(outcomes[..j]) <= Successes(outcomes)
    decreases |outcomes|
  {
    if j < |outcomes| {
      var init := outcomes[..|outcomes| - 1];
      assert init[..j] == outcomes[..j];
      SuccessesOfPrefix(init, j);
    } else {
      assert outcomes[..j] == outcomes;
    }
  }

  /** Successes after one more outcome. */
  lemma SuccessesStep<D>(outcomes: seq<Option<D>>, i: nat)
    requires i < |outcomes|
    ensures Successes(outcomes[..i + 1])
            == Successes(outcomes[..i]) + (if outcomes[i].Some? then [outcomes[i].value] else [])
    ensures Failures(outcomes[..i + 1])
            == Failures(outcomes[..i]) + (if outcomes[i].None? then 1 else 0)
  {
    assert outcomes[..i + 1][..i] == outcomes[..i];
  }

  /** Concatenation of a sequence of batches. */
  function Flatten<D>(batches: seq<seq<D>>): (r: seq<D>)
  {
    if batches == [] then []
    else Flatten(batches[..|batches| - 1]) + batches[|batches| - 1]
  }

  lemma FlattenAppend<D>(batches: seq<seq<D>>, b: seq<D>)
    ensures Flatten(batches + [b]) == Flatten(batches) + b
  {
    assert (batches + [b])[..|batches|] == batches;
  }
}
