/** Splitting a display name that embeds an alternate name in a bracket pair,
    `"편두통(Migraine)"` or `"편두통 [Migraine]"`. Both crawlers apply the same
    rule and differ only in the bracket characters: the source of record
    `data_py/uni.py` uses `[`/`]` on the page title and `data_py/asan.py`
    uses `(`/`)` on the listing name. */
module Names {
  import opened Text

  datatype NamePair = NamePair(primary: string, alternate: string)

  /** `if open in s and close in s: (s.split(open)[0].strip(),
      s.split(open)[1].split(close)[0].strip()) else (s, "")`. */
  function SplitName(s: string, open: char, close: char): (r: NamePair)
    ensures !(open in s && close in s) ==> r == NamePair(s, "")
    ensures open in s && close in s ==>
              open !in r.primary && open !in r.alternate && close !in r.alternate
    ensures |r.primary| <= |s| && |r.alternate| <= |s|
  {
    if open in s && close in s then
      var first := Before(s, open);
      var second := Before(After(s, open), open);
      NamePair(Strip(first), Strip(Before(second, close)))
    else
      NamePair(s, "")
  }

  /** Cutting at the first separator when the prefix is free of it. */
  lemma CutAtFirst(a: string, t: string, c: char)
    requires c !in a
    ensures c in a + [c] + t
    ensures Before(a + [c] + t, c) == a
    ensures After(a + [c] + t, c) == t
  {
    assert a + [c] + t == a + ([c] + t);
    BeforeAppend(a, [c] + t, c);
  }

  /** The value of the split on every name holding both brackets: `k` is the
      first opening bracket, and the alternate runs from just after it up to
      the next bracket of either kind, or to the end of the name. A closing
      bracket before `k` stays in the primary part. */
  lemma SplitNameValue(s: string, open: char, close: char, k: nat, m: nat)
    requires open != close && open in s && close in s
    requires k < m <= |s| && s[k] == open
    requires forall j :: 0 <= j < k ==> s[j] != open
    requires forall j :: k < j < m ==> s[j] != open && s[j] != close
    requires m == |s| || s[m] == open || s[m] == close
    ensures SplitName(s, open, close) == NamePair(Strip(s[..k]), Strip(s[k + 1..m]))
  {
    var a, b, tail := s[..k], s[k + 1..m], s[m..];
    assert s == a + [open] + (b + tail);
    assert open !in a by {
      forall j | 0 <= j < |a| ensures a[j] != open { assert a[j] == s[j]; }
    }
    assert open !in b && close !in b by {
      forall j | 0 <= j < |b| ensures b[j] != open && b[j] != close { assert b[j] == s[k + 1 + j]; }
    }
    CutAtFirst(a, b + tail, open);
    BeforeAppend(b, tail, open);
    var cut := Before(tail, open);
    assert Before(cut, close) == [] by {
      if tail != [] {
        assert tail[0] == s[m];
        if s[m] == close {
          assert cut == [close] + Before(tail[1..], open);
        }
      }
    }
    BeforeAppend(b, cut, close);
    assert b + [] == b;
  }

  /** The shape the rule is written for: with `a` free of the opening bracket
      and `b` free of both, `a open b close c` splits into `a` and `b`, each
      stripped, whatever follows the closing bracket. */
  lemma SplitNameShape(a: string, b: string, c: string, open: char, close: char)
    requires open != close
    requires open !in a && open !in b && close !in b
    ensures SplitName(a + [open] + b + [close] + c, open, close) == NamePair(Strip(a), Strip(b))
  {
    var s := a + [open] + b + [close] + c;
    var k, m := |a|, |a| + 1 + |b|;
    assert s[k] == open && s[m] == close;
    assert forall j :: 0 <= j < k ==> s[j] == a[j];
    assert forall j :: k < j < m ==> s[j] == b[j - k - 1];
    assert s[..k] == a && s[k + 1..m] == b;
    SplitNameValue(s, open, close, k, m);
  }

  /** The worked example of the naming convention: `"Migraine(Hemicrania)"`
      splits into `"Migraine"` and `"Hemicrania"`. */
  lemma SplitNameExample(name: string, kr: string, eng: string)
    requires kr == "Migraine" && eng == "Hemicrania"
    requires name == kr + ['('] + eng + [')']
    ensures SplitName(name, '(', ')') == NamePair(kr, eng)
  {
    assert name == kr + ['('] + eng + [')'] + "";
    SplitNameShape(kr, eng, "", '(', ')');
    TrimmedExamples(kr, eng);
  }

  lemma TrimmedExamples(kr: string, eng: string)
    requires kr == "Migraine" && eng == "Hemicrania"
    ensures Strip(kr) == kr && Strip(eng) == eng
  {
    TrimmedKeeps(kr, 'M', 'e');
    TrimmedKeeps(eng, 'H', 'a');
  }

  lemma TrimmedKeeps(s: string, first: char, last: char)
    requires s != [] && s[0] == first && s[|s| - 1] == last
    requires !IsSpace(first) && !IsSpace(last)
    ensures Strip(s) == s
  {
    StripTrimmed(s);
  }
}
