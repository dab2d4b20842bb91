/** Candidate records found on listing pages, and the URL-keyed,
    order-preserving deduplication both crawlers apply to the whole
    crawl (`seen_urls` loop in `get_all_disease_list`). */
module Candidates {

  /** One listing entry: display name, absolute detail URL, listing page. */
  datatype Candidate = Candidate(name: string, url: string, page: int)

  /** What one listing page yields: its records and the `has_data` flag. */
  datatype Listing = Listing(records: seq<Candidate>, hasData: bool)

  /** Some candidate of `cs` carries URL `u`. */
  predicate HasUrl(cs: seq<Candidate>, u: string)
  {
    exists i :: 0 <= i < |cs| && cs[i].url == u
  }

  /** No URL occurs twice. */
  predicate DistinctUrls(cs: seq<Candidate>)
  {
    forall i, j :: 0 <= i < j < |cs| ==> cs[i].url != cs[j].url
  }

  /** Position of the first candidate carrying `u`. */
  function FirstIndex(cs: seq<Candidate>, u: string): (k: nat)
    requires HasUrl(cs, u)
    ensures k < |cs| && cs[k].url == u
    ensures forall j :: 0 <= j < k ==> cs[j].url != u
  {
    if cs[0].url == u then 0
    else
      var i :| 0 <= i < |cs| && cs[i].url == u;
      assert cs[1..][i - 1].url == u;
      1 + FirstIndex(cs[1..], u)
  }

  /** `xs` is obtained from `ys` by deleting elements. */
  predicate IsSubsequence<T(==)>(xs: seq<T>, ys: seq<T>)
    decreases |ys|
  {
    if xs == [] then true
    else if ys == [] then false
    else if xs[0] == ys[0] then IsSubsequence(xs[1..], ys[1..])
    else IsSubsequence(xs, ys[1..])
  }

  /** The loop of the source, with the set `seen` of URLs already kept. */
  function DedupFrom(cs: seq<Candidate>, seen: set<string>): (r: seq<Candidate>)
    ensures DistinctUrls(r)
    ensures forall c :: c in r ==> c in cs && c.url !in seen
  {
    if cs == [] then []
    else if cs[0].url in seen then DedupFrom(cs[1..], seen)
    else
      var tail := DedupFrom(cs[1..], seen + {cs[0].url});
      assert forall c :: c in tail ==> c.url != cs[0].url;
      [cs[0]] + tail
  }

  /** Every URL not yet seen survives. */
  lemma {:induction false} DedupFromCovers(cs: seq<Candidate>, seen: set<string>, u: string)
    requires HasUrl(cs, u) && u !in seen
    ensures HasUrl(DedupFrom(cs, seen), u)
  {
    var r := DedupFrom(cs, seen);
    if cs[0].url == u {
      assert r[0] == cs[0];
    } else {
      assert HasUrl(cs[1..], u) by {
        var i :| 0 <= i < |cs| && cs[i].url == u;
        assert cs[1..][i - 1].url == u;
      }
      if cs[0].url in seen {
        DedupFromCovers(cs[1..], seen, u);
      } else {
        var tail := DedupFrom(cs[1..], seen + {cs[0].url});
        DedupFromCovers(cs[1..], seen + {cs[0].url}, u);
        var k :| 0 <= k < |tail| && tail[k].url == u;
        assert r[k + 1].url == u;
      }
    }
  }

  /** The kept candidates appear in the input in the same order. */
  lemma {:induction false} DedupFromSubsequence(cs: seq<Candidate>, seen: set<string>)
    ensures IsSubsequence(DedupFrom(cs, seen), cs)
  {
    if cs != [] {
      var r := DedupFrom(cs, seen);
      if cs[0].url in seen {
        DedupFromSubsequence(cs[1..], seen);
        assert r == [] || r[0] != cs[0] by {
          if r != [] {
            assert r[0] in r;
          }
        }
      } else {
        DedupFromSubsequence(cs[1..], seen + {cs[0].url});
        assert r[1..] == DedupFrom(cs[1..], seen + {cs[0].url});
      }
    }
  }

  /** Each kept candidate is the first one in the input with its URL. */
  lemma {:induction false} DedupFromFirst(cs: seq<Candidate>, seen: set<string>, k: nat)
    requires k < |DedupFrom(cs, seen)|
    ensures HasUrl(cs, DedupFrom(cs, seen)[k].url)
    ensures DedupFrom(cs, seen)[k] == cs[FirstIndex(cs, DedupFrom(cs, seen)[k].url)]
  {
    var r := DedupFrom(cs, seen);
    var rest := cs[1..];
    if cs[0].url in seen {
      DedupFromFirst(rest, seen, k);
      var i := FirstIndex(rest, r[k].url);
      assert r[k] in r;
      assert cs[i + 1] == rest[i];
      assert FirstIndex(cs, r[k].url) == i + 1;
    } else if k > 0 {
      var tail := DedupFrom(rest, seen + {cs[0].url});
      assert r[k] == tail[k - 1];
      DedupFromFirst(rest, seen + {cs[0].url}, k - 1);
      var i := FirstIndex(rest, r[k].url);
      assert tail[k - 1] in tail;
      assert cs[i + 1] == rest[i];
      assert FirstIndex(cs, r[k].url) == i + 1;
    } else {
      assert cs[0].url == r[0].url;
    }
  }

  /** `get_all_disease_list`'s deduplication: keep the first candidate of
      every URL, in crawl order. Together the four clauses determine the
      result: distinct URLs, the same URL set, first occurrences only, in
      input order. */
  function Dedup(cs: seq<Candidate>): (r: seq<Candidate>)
    ensures DistinctUrls(r)
    ensures IsSubsequence(r, cs)
    ensures forall c :: c in r ==> c in cs
    ensures forall u :: HasUrl(cs, u) <==> HasUrl(r, u)
    ensures forall k :: 0 <= k < |r| ==> HasUrl(cs, r[k].url) && r[k] == cs[FirstIndex(cs, r[k].url)]
  {
    var r := DedupFrom(cs, {});
    DedupFromSubsequence(cs, {});
    assert forall k :: 0 <= k < |r| ==> HasUrl(cs, r[k].url) && r[k] == cs[FirstIndex(cs, r[k].url)] by {
      forall k | 0 <= k < |r|
        ensures HasUrl(cs, r[k].url) && r[k] == cs[FirstIndex(cs, r[k].url)]
      {
        DedupFromFirst(cs, {}, k);
      }
    }
    assert forall u :: HasUrl(cs, u) <==> HasUrl(r, u) by {
      forall u
        ensures HasUrl(cs, u) <==> HasUrl(r, u)
      {
        if HasUrl(cs, u) {
          DedupFromCovers(cs, {}, u);
        }
        if HasUrl(r, u) {
          var k :| 0 <= k < |r| && r[k].url == u;
          DedupFromFirst(cs, {}, k);
        }
      }
    }
    r
  }

  /** A sequence that already has distinct URLs is left alone. */
  lemma {:induction false} DedupDistinct(cs: seq<Candidate>, seen: set<string>)
    requires DistinctUrls(cs)
    requires forall c :: c in cs ==> c.url !in seen
    ensures DedupFrom(cs, seen) == cs
  {
    if cs != [] {
      var c := cs[0];
      assert forall d :: d in cs[1..] ==> d.url !in seen + {c.url} by {
        forall d | d in cs[1..]
          ensures d.url !in seen + {c.url}
        {
          var j :| 0 <= j < |cs[1..]| && cs[1..][j] == d;
          assert cs[j + 1] == d;
        }
      }
      DedupDistinct(cs[1..], seen + {c.url});
    }
  }

  /** Deduplicating twice changes nothing. */
  lemma DedupIdempotent(cs: seq<Candidate>)
    ensures Dedup(Dedup(cs)) == Dedup(cs)
  {
    DedupDistinct(Dedup(cs), {});
  }
}
