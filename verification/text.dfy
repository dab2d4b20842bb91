/** The string operations the crawlers borrow from Python: `strip`, `split`
    on one character, `', '.join`, `str.replace` and whitespace `split()`.
    Whitespace is a declared character class (the characters Python's
    `str.isspace` accepts) rather than full Unicode semantics. */
module Text {

  /** Python's whitespace characters. */
  predicate IsSpace(c: char)
  {
    || c == ' '
    || '\t' <= c <= '\r'
    || '\U{001C}' <= c <= '\U{001F}'
    || c == '\U{0085}' || c == '\U{00A0}' || c == '\U{1680}'
    || '\U{2000}' <= c <= '\U{200A}'
    || c == '\U{2028}' || c == '\U{2029}' || c == '\U{202F}' || c == '\U{205F}'
    || c == '\U{3000}'
  }

  predicate NoSpace(s: string)
  {
    forall i :: 0 <= i < |s| ==> !IsSpace(s[i])
  }

  predicate AllSpace(s: string)
  {
    forall i :: 0 <= i < |s| ==> IsSpace(s[i])
  }

  // ---------------------------------------------------------------- strip

  /** The first index at or after `i` that does not hold whitespace, or `|s|`. */
  function SkipSpace(s: string, i: nat): (k: nat)
    requires i <= |s|
    ensures i <= k <= |s|
    ensures forall j :: i <= j < k ==> IsSpace(s[j])
    ensures k == |s| || !IsSpace(s[k])
    decreases |s| - i
  {
    if i < |s| && IsSpace(s[i]) then SkipSpace(s, i + 1) else i
  }

  /** The end of `s[..j]` once its trailing whitespace is cut off. */
  function SkipSpaceBack(s: string, j: nat): (k: nat)
    requires j <= |s|
    ensures k <= j
    ensures forall i :: k <= i < j ==> IsSpace(s[i])
    ensures k == 0 || !IsSpace(s[k - 1])
  {
    if j > 0 && IsSpace(s[j - 1]) then SkipSpaceBack(s, j - 1) else j
  }

  /** `s.strip()`: `s` without its leading and trailing whitespace. */
  function Strip(s: string): (r: string)
    ensures |r| <= |s|
    ensures r == [] || (!IsSpace(r[0]) && !IsSpace(r[|r| - 1]))
    ensures forall c :: c in r ==> c in s
  {
    var lo := SkipSpace(s, 0);
    var hi := SkipSpaceBack(s, |s|);
    if lo < hi then
      assert forall c :: c in s[lo..hi] ==> c in s by {
        forall c | c in s[lo..hi]
          ensures c in s
        {
          var i :| 0 <= i < hi - lo && s[lo..hi][i] == c;
          assert s[lo + i] == c;
        }
      }
      s[lo..hi]
    else []
  }

  /** The stripped text is the infix of `s` that starts after its leading
      whitespace, and everything outside it is whitespace. */
  lemma StripIsInfix(s: string)
    ensures var lo := SkipSpace(s, 0);
            && lo + |Strip(s)| <= |s|
            && Strip(s) == s[lo..lo + |Strip(s)|]
            && AllSpace(s[..lo]) && AllSpace(s[lo + |Strip(s)|..])
  {
    var lo := SkipSpace(s, 0);
    var hi := SkipSpaceBack(s, |s|);
    assert AllSpace(s[..lo]) by {
      forall i | 0 <= i < lo
        ensures IsSpace(s[..lo][i])
      {
        assert s[..lo][i] == s[i];
      }
    }
    var end := if lo < hi then hi else lo;
    assert lo == |s| || lo < hi;
    assert AllSpace(s[end..]) by {
      forall i | 0 <= i < |s| - end
        ensures IsSpace(s[end..][i])
      {
        assert s[end..][i] == s[end + i];
      }
    }
  }

  /** A string with no whitespace at either end is its own `strip()`. */
  lemma StripTrimmed(s: string)
    requires s == [] || (!IsSpace(s[0]) && !IsSpace(s[|s| - 1]))
    ensures Strip(s) == s
  {
  }

  /** `strip()` is idempotent. */
  lemma StripIdempotent(s: string)
    ensures Strip(Strip(s)) == Strip(s)
  {
    StripTrimmed(Strip(s));
  }

  // ------------------------------------------------------- split on a char

  /** `s.split(c)[0]`: the text before the first `c`, or all of `s`. */
  function Before(s: string, c: char): (r: string)
    ensures c !in r
    ensures |r| <= |s| && r == s[..|r|]
    ensures c in s ==> |r| < |s| && s[|r|] == c
    ensures c !in s ==> r == s
  {
    if s == [] then []
    else if s[0] == c then []
    else [s[0]] + Before(s[1..], c)
  }

  /** The text after the first `c` of `s`; `s.split(c)[1]` is `Before(After(s, c), c)`. */
  function After(s: string, c: char): (r: string)
    requires c in s
    ensures s == Before(s, c) + [c] + r
  {
    s[|Before(s, c)| + 1..]
  }

  /** `Before` skips over a prefix that does not hold the separator. */
  lemma {:induction false} BeforeAppend(a: string, t: string, c: char)
    requires c !in a
    ensures Before(a + t, c) == a + Before(t, c)
  {
    if a != [] {
      BeforeAppend(a[1..], t, c);
      BeforeStep(a, t, c);
    } else {
      assert a + t == t;
    }
  }

  /** One step of `Before` past a character other than the separator. */
  lemma BeforeStep(a: string, t: string, c: char)
    requires a != [] && a[0] != c
    ensures Before(a + t, c) == [a[0]] + Before(a[1..] + t, c)
    ensures a + Before(t, c) == [a[0]] + (a[1..] + Before(t, c))
  {
    ConsSplit(a, t);
    ConsSplit(a, Before(t, c));
  }

  lemma ConsSplit<T>(a: seq<T>, u: seq<T>)
    requires a != []
    ensures (a + u)[0] == a[0] && (a + u)[1..] == a[1..] + u
    ensures a + u == [a[0]] + (a[1..] + u)
  {
  }

  lemma SeqAssoc<T>(x: seq<T>, y: seq<T>, z: seq<T>)
    ensures x + (y + z) == (x + y) + z
  {
  }

  // ----------------------------------------------------------- substrings

  predicate StartsWith(s: string, p: string)
  {
    |p| <= |s| && s[..|p|] == p
  }

  /** A prefix survives appending. */
  lemma {:induction false} StartsWithAppend(a: string, b: string, p: string)
    requires StartsWith(a, p)
    ensures StartsWith(a + b, p)
  {
    assert (a + b)[..|p|] == a[..|p|];
  }

  /** Python's `p in s` for strings. */
  predicate Contains(s: string, p: string)
    decreases |s|
  {
    StartsWith(s, p) || (s != [] && Contains(s[1..], p))
  }

  /** An occurrence survives putting anything in front. */
  lemma {:induction false} ContainsAfterPrefix(a: string, b: string, p: string)
    requires Contains(b, p)
    ensures Contains(a + b, p)
  {
    if a != [] {
      assert (a + b)[1..] == a[1..] + b;
      ContainsAfterPrefix(a[1..], b, p);
    } else {
      assert a + b == b;
    }
  }

  /** An occurrence that cannot start at either of the first two
      positions lies in the rest. */
  lemma ContainsPastTwo(s: string, p: string)
    requires Contains(s, p) && p != [] && |s| >= 2
    requires s[0] != p[0] && s[1] != p[0]
    ensures Contains(s[2..], p)
  {
    assert !StartsWith(s, p) by {
      if |p| <= |s| {
        assert s[..|p|][0] == s[0];
      }
    }
    assert !StartsWith(s[1..], p) by {
      assert s[1..][0] == s[1];
      if |p| <= |s[1..]| {
        assert s[1..][..|p|][0] == s[1];
      }
    }
    assert s[1..][1..] == s[2..];
  }

  // ----------------------------------------------------------------- join

  /** `sep.join(xs)`. */
  function Join(xs: seq<string>, sep: string): (r: string)
    ensures xs == [] ==> r == []
    ensures |xs| == 1 ==> r == xs[0]
    ensures xs != [] ==> |r| == TotalLength(xs) + (|xs| - 1) * |sep|
  {
    if xs == [] then []
    else if |xs| == 1 then xs[0]
    else xs[0] + sep + Join(xs[1..], sep)
  }

  /** The summed lengths of the parts. */
  function TotalLength(xs: seq<string>): nat
  {
    if xs == [] then 0 else |xs[0]| + TotalLength(xs[1..])
  }

  /** A join of two or more parts holds the separator at least once, and
      always starts with the first part. */
  lemma {:induction false} JoinShape(xs: seq<string>, sep: string)
    requires xs != []
    ensures StartsWith(Join(xs, sep), xs[0])
    ensures |xs| >= 2 ==> |Join(xs, sep)| >= |xs[0]| + |sep|
  {
  }

  /** With a non-empty separator, a join is empty exactly when it joins the
      single empty string or nothing at all. */
  lemma JoinEmpty(xs: seq<string>, sep: string)
    requires sep != []
    ensures Join(xs, sep) == [] <==> xs == [] || xs == [[]]
  {
    if |xs| >= 2 {
      JoinShape(xs, sep);
    }
  }

  // ---------------------------------------------------------- str.replace

  /** Python's `s.replace(pat, rep)`: one left-to-right scan that replaces
      each non-overlapping occurrence of `pat` and resumes after it. */
  function ReplaceAll(s: string, pat: string, rep: string): (r: string)
    requires pat != []
    ensures !Contains(s, pat) ==> r == s
    ensures |rep| <= |pat| ==> |r| <= |s|
    decreases |s|
  {
    if |s| < |pat| then s
    else if StartsWith(s, pat) then rep + ReplaceAll(s[|pat|..], pat, rep)
    else [s[0]] + ReplaceAll(s[1..], pat, rep)
  }

  lemma {:induction false} ContainsFits(s: string, p: string)
    requires Contains(s, p)
    ensures |p| <= |s|
    decreases |s|
  {
    if !StartsWith(s, p) {
      ContainsFits(s[1..], p);
    }
  }

  /** When the replacement is shorter, any occurrence shortens the string,
      so `replace` leaves `s` unchanged exactly when `pat` is absent. */
  lemma {:induction false} ReplaceShrinks(s: string, pat: string, rep: string)
    requires pat != [] && |rep| < |pat|
    ensures |ReplaceAll(s, pat, rep)| <= |s|
    ensures Contains(s, pat) ==> |ReplaceAll(s, pat, rep)| < |s|
    decreases |s|
  {
    if |s| < |pat| {
      if Contains(s, pat) {
        ContainsFits(s, pat);
      }
    } else if StartsWith(s, pat) {
      ReplaceShrinks(s[|pat|..], pat, rep);
    } else {
      ReplaceShrinks(s[1..], pat, rep);
    }
  }

  lemma ReplaceUnchangedIff(s: string, pat: string, rep: string)
    requires pat != [] && |rep| < |pat|
    ensures ReplaceAll(s, pat, rep) == s <==> !Contains(s, pat)
  {
    ReplaceShrinks(s, pat, rep);
  }

  /** A prefix in which no occurrence of `pat` starts is copied unchanged. */
  lemma {:induction false} ReplaceKeepsPrefix(a: string, b: string, pat: string, rep: string)
    requires pat != []
    requires forall k :: 0 <= k < |a| ==> !StartsWith((a + b)[k..], pat)
    ensures ReplaceAll(a + b, pat, rep) == a + ReplaceAll(b, pat, rep)
    decreases |a|
  {
    if a == [] {
      assert a + b == b;
    } else if |a + b| < |pat| {
      assert ReplaceAll(b, pat, rep) == b;
    } else {
      var s, t := a + b, a[1..] + b;
      ConsSplit(a, b);
      assert !StartsWith(s, pat) by {
        assert s[0..] == s;
      }
      assert ReplaceAll(s, pat, rep) == [a[0]] + ReplaceAll(t, pat, rep);
      forall k | 0 <= k < |a[1..]|
        ensures !StartsWith(t[k..], pat)
      {
        assert t[k..] == s[k + 1..];
      }
      ReplaceKeepsPrefix(a[1..], b, pat, rep);
      SeqAssoc([a[0]], a[1..], ReplaceAll(b, pat, rep));
      assert [a[0]] + a[1..] == a;
    }
  }

  /** Characters: no `/` followed by `.` and no trailing `/`, so no `/./`
      can start inside it whatever follows. */
  predicate NoDotSegmentStart(a: string)
  {
    && (forall k :: 0 <= k < |a| - 1 && a[k] == '/' ==> a[k + 1] != '.')
    && (a == [] || a[|a| - 1] != '/')
  }

  lemma DotSegmentFreePrefix(a: string, b: string, rep: string)
    requires NoDotSegmentStart(a)
    ensures ReplaceAll(a + b, "/./", rep) == a + ReplaceAll(b, "/./", rep)
  {
    forall k | 0 <= k < |a|
      ensures !StartsWith((a + b)[k..], "/./")
    {
      var t := (a + b)[k..];
      assert a[k] != '/' || (k + 1 < |a| && a[k + 1] != '.');
      if |t| >= 3 {
        assert t[..3][0] == t[0] && t[..3][1] == t[1];
      }
    }
    ReplaceKeepsPrefix(a, b, "/./", rep);
  }

  // ------------------------------------------------ whitespace split()

  /** The maximal run of non-whitespace characters at the front of `s`. */
  function WordRun(s: string): (r: string)
    ensures |r| <= |s| && r == s[..|r|] && NoSpace(r)
    ensures |r| == |s| || IsSpace(s[|r|])
  {
    if s == [] || IsSpace(s[0]) then [] else [s[0]] + WordRun(s[1..])
  }

  /** Python's `s.split()` with no argument: the maximal whitespace-free runs,
      with no empty strings. */
  function Words(s: string): (r: seq<string>)
    ensures forall w :: w in r ==> w != [] && NoSpace(w)
    ensures forall w, c :: w in r && c in w ==> c in s
    decreases |s|
  {
    if s == [] then []
    else if IsSpace(s[0]) then Words(s[1..])
    else
      var w := WordRun(s);
      assert forall c :: c in w ==> c in s;
      assert forall c :: c in s[|w|..] ==> c in s;
      [w] + Words(s[|w|..])
  }

  /** The concatenation of the words of `s`. */
  function Concat(ws: seq<string>): string
  {
    if ws == [] then [] else ws[0] + Concat(ws[1..])
  }

  /** `s` with its whitespace removed. */
  function DropSpaces(s: string): (r: string)
    ensures NoSpace(r)
  {
    if s == [] then []
    else if IsSpace(s[0]) then DropSpaces(s[1..])
    else [s[0]] + DropSpaces(s[1..])
  }

  lemma {:induction false} DropSpacesAppend(a: string, b: string)
    ensures DropSpaces(a + b) == DropSpaces(a) + DropSpaces(b)
    decreases |a|
  {
    if a != [] {
      assert (a + b)[0] == a[0];
      assert (a + b)[1..] == a[1..] + b;
      DropSpacesAppend(a[1..], b);
      if IsSpace(a[0]) {
        assert DropSpaces(a + b) == DropSpaces(a[1..] + b);
      } else {
        assert DropSpaces(a + b) == [a[0]] + DropSpaces(a[1..] + b);
      }
    } else {
      assert a + b == b;
    }
  }

  lemma {:induction false} DropSpacesOfWord(w: string)
    requires NoSpace(w)
    ensures DropSpaces(w) == w
    decreases |w|
  {
    if w != [] {
      DropSpacesOfWord(w[1..]);
    }
  }

  /** Splitting keeps every non-whitespace character, in order. */
  lemma {:induction false} WordsKeepContent(s: string)
    ensures Concat(Words(s)) == DropSpaces(s)
    decreases |s|
  {
    if s != [] {
      if IsSpace(s[0]) {
        WordsKeepContent(s[1..]);
      } else {
        var w := WordRun(s);
        WordsKeepContent(s[|w|..]);
        assert s == w + s[|w|..];
        DropSpacesAppend(w, s[|w|..]);
        DropSpacesOfWord(w);
        assert Words(s)[1..] == Words(s[|w|..]);
      }
    }
  }

  lemma {:induction false} WordRunAppend(a: string, t: string)
    ensures NoSpace(a) ==> WordRun(a + t) == a + WordRun(t)
    ensures !NoSpace(a) ==> WordRun(a + t) == WordRun(a)
    decreases |a|
  {
    if a != [] {
      assert (a + t)[0] == a[0];
      assert (a + t)[1..] == a[1..] + t;
      WordRunAppend(a[1..], t);
      assert a == [a[0]] + a[1..];
      if IsSpace(a[0]) {
        assert !NoSpace(a);
        assert WordRun(a + t) == [] == WordRun(a);
      } else {
        assert NoSpace(a) <==> NoSpace(a[1..]);
        assert WordRun(a + t) == [a[0]] + WordRun(a[1..] + t);
        assert WordRun(a) == [a[0]] + WordRun(a[1..]);
      }
    } else {
      assert a + t == t;
    }
  }

  /** A non-empty whitespace-free string is one word. */
  lemma WordsOfWord(w: string)
    requires w != [] && NoSpace(w)
    ensures Words(w) == [w]
  {
    WordRunAppend(w, []);
    assert w + [] == w;
  }

  /** One whitespace character separates the words on its two sides; with
      `WordsOfWord` this pins `Words` down on every input. */
  lemma {:induction false} WordsSplit(a: string, x: char, b: string)
    requires IsSpace(x)
    ensures Words(a + [x] + b) == Words(a) + Words(b)
    decreases |a|
  {
    if a == [] {
      WordsAfterSpace(x, b);
    } else if IsSpace(a[0]) {
      WordsSplit(a[1..], x, b);
      WordsSkipSpace(a, x, b);
    } else if NoSpace(a) {
      WordsSplitWhole(a, x, b);
    } else {
      WordRunShorter(a);
      WordsSplit(a[|WordRun(a)|..], x, b);
      WordsSplitRun(a, x, b);
    }
  }

  /** A leading whitespace character is dropped. */
  lemma WordsAfterSpace(x: char, b: string)
    requires IsSpace(x)
    ensures Words([] + [x] + b) == Words([]) + Words(b)
  {
    assert [] + [x] + b == [x] + b;
    assert ([x] + b)[1..] == b;
  }

  /** The split step past a leading whitespace character of `a`. */
  lemma WordsSkipSpace(a: string, x: char, b: string)
    requires a != [] && IsSpace(a[0])
    requires Words(a[1..] + [x] + b) == Words(a[1..]) + Words(b)
    ensures Words(a + [x] + b) == Words(a) + Words(b)
  {
    var s := a + [x] + b;
    assert s[0] == a[0];
    assert s[1..] == a[1..] + [x] + b;
  }

  /** A word followed by whitespace is one token. */
  lemma WordsSplitWhole(a: string, x: char, b: string)
    requires a != [] && NoSpace(a) && IsSpace(x)
    ensures Words(a + [x] + b) == Words(a) + Words(b)
  {
    var s := a + [x] + b;
    assert s == a + ([x] + b);
    WordRunAppend(a, [x] + b);
    assert WordRun([x] + b) == [];
    assert WordRun(s) == a;
    assert s[0] == a[0];
    assert s[|a|..] == [x] + b;
    assert ([x] + b)[1..] == b;
    WordsOfWord(a);
  }

  /** A text that holds whitespace has a first word shorter than itself. */
  lemma WordRunShorter(a: string)
    requires !NoSpace(a)
    ensures |WordRun(a)| < |a|
  {
  }

  /** The split step past the first word of `a`, when whitespace follows
      that word inside `a`. */
  lemma WordsSplitRun(a: string, x: char, b: string)
    requires a != [] && !IsSpace(a[0]) && !NoSpace(a) && IsSpace(x)
    requires |WordRun(a)| < |a|
    requires Words(a[|WordRun(a)|..] + [x] + b) == Words(a[|WordRun(a)|..]) + Words(b)
    ensures Words(a + [x] + b) == Words(a) + Words(b)
  {
    WordsAfterRun(a, x, b);
    WordsHead(a);
  }

  /** The first word of `a + [x] + b` is that of `a` when `a` holds whitespace. */
  lemma WordsAfterRun(a: string, x: char, b: string)
    requires a != [] && !IsSpace(a[0]) && !NoSpace(a)
    requires |WordRun(a)| < |a|
    ensures Words(a + [x] + b) == [WordRun(a)] + Words(a[|WordRun(a)|..] + [x] + b)
  {
    var s := a + [x] + b;
    var w := WordRun(a);
    assert s == a + ([x] + b);
    WordRunAppend(a, [x] + b);
    WordsHead(s);
    assert s[|w|..] == a[|w|..] + [x] + b;
  }

  /** `Words` of a text that starts with a word. */
  lemma WordsHead(s: string)
    requires s != [] && !IsSpace(s[0])
    ensures Words(s) == [WordRun(s)] + Words(s[|WordRun(s)|..])
  {
  }

  /** `s.replace(from, to)` for single characters. */
  function ReplaceChar(s: string, from: char, to: char): (r: string)
    ensures |r| == |s|
    ensures forall i :: 0 <= i < |s| ==> r[i] == (if s[i] == from then to else s[i])
  {
    seq(|s|, i requires 0 <= i < |s| => if s[i] == from then to else s[i])
  }

  /** Replacing a character by a different one removes it, keeps every
      other character, and changes the text exactly when it occurs. */
  lemma ReplaceCharEffect(s: string, from: char, to: char)
    requires from != to
    ensures from !in ReplaceChar(s, from, to)
    ensures forall c :: c in s && c != from ==> c in ReplaceChar(s, from, to)
    ensures ReplaceChar(s, from, to) == s <==> from !in s
  {
    var r := ReplaceChar(s, from, to);
    forall c | c in s && c != from
      ensures c in r
    {
      var i :| 0 <= i < |s| && s[i] == c;
      assert r[i] == c;
    }
    if from in s {
      var i :| 0 <= i < |s| && s[i] == from;
      assert r[i] != s[i];
    }
  }
}
