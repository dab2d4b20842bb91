/** The shape of every per-field extraction in the detail pages: try one
    source after another until one yields a non-empty text. */
module Fallback {
  import opened Common
  import opened Text

  /** The first non-empty text of `tiers`, or `""` when all are empty. */
  function FirstNonEmpty(tiers: seq<string>): (r: string)
    ensures r == "" <==> forall i :: 0 <= i < |tiers| ==> tiers[i] == ""
    ensures r in tiers || r == ""
  {
    if tiers == [] then ""
    else if tiers[0] != "" then tiers[0]
    else FirstNonEmpty(tiers[1..])
  }

  /** The tier chosen is the first non-empty one. */
  lemma {:induction false} FirstNonEmptyPicks(tiers: seq<string>, k: nat)
    requires k < |tiers| && tiers[k] != ""
    requires forall j :: 0 <= j < k ==> tiers[j] == ""
    ensures FirstNonEmpty(tiers) == tiers[k]
  {
    if k > 0 {
      FirstNonEmptyPicks(tiers[1..], k - 1);
    }
  }

  /** Three tiers tried in turn. */
  lemma FirstNonEmptyOfThree(a: string, b: string, c: string)
    ensures FirstNonEmpty([a, b, c]) == if a != "" then a else if b != "" then b else c
  {
    if a == "" {
      assert [a, b, c][1..] == [b, c];
      assert FirstNonEmpty([a, b, c]) == FirstNonEmpty([b, c]);
      if b == "" {
        assert [b, c][1..] == [c];
        assert FirstNonEmpty([b, c]) == FirstNonEmpty([c]);
        assert [c][1..] == [];
      }
    }
  }

  /** `value if value else None`. */
  function NoneIfEmpty(s: string): (r: Option<string>)
    ensures r.None? <==> s == ""
    ensures r.Some? ==> r.value == s && r.value != ""
  {
    if s == "" then None else Some(s)
  }

  /** `[t for t in texts if t]`. */
  function NonEmptyTexts(texts: seq<string>): (r: seq<string>)
    ensures |r| <= |texts|
    ensures forall t :: t in r ==> t != "" && t in texts
    ensures r == [] <==> forall i :: 0 <= i < |texts| ==> texts[i] == ""
  {
    if texts == [] then []
    else
      var rest := NonEmptyTexts(texts[1..]);
      if texts[0] != "" then [texts[0]] + rest
      else
        assert forall i :: 1 <= i < |texts| ==> texts[i] == texts[1..][i - 1];
        rest
  }

  /** Texts already free of empty strings pass the filter unchanged. */
  lemma {:induction false} NonEmptyTextsKeeps(texts: seq<string>)
    requires forall i :: 0 <= i < |texts| ==> texts[i] != ""
    ensures NonEmptyTexts(texts) == texts
  {
    if texts != [] {
      NonEmptyTextsKeeps(texts[1..]);
    }
  }

  /** The filter works text by text: every non-empty text is kept, in
      order, and with the contract above this fixes the result. */
  lemma {:induction false} NonEmptyTextsAppend(a: seq<string>, b: seq<string>)
    ensures NonEmptyTexts(a + b) == NonEmptyTexts(a) + NonEmptyTexts(b)
  {
    if a == [] {
      assert a + b == b;
    } else {
      assert (a + b)[0] == a[0];
      assert (a + b)[1..] == a[1..] + b;
      NonEmptyTextsAppend(a[1..], b);
    }
  }

  /** `' '.join([p for p in paragraphs if p])`. */
  function Paragraphs(paragraphs: seq<string>): string
  {
    Join(NonEmptyTexts(paragraphs), " ")
  }

  /** Joined paragraphs are empty exactly when every paragraph is. */
  lemma ParagraphsEmpty(paragraphs: seq<string>)
    ensures Paragraphs(paragraphs) == "" <==> forall i :: 0 <= i < |paragraphs| ==> paragraphs[i] == ""
  {
    var kept := NonEmptyTexts(paragraphs);
    JoinEmpty(kept, " ");
    if kept != [] {
      assert kept[0] in kept;
    }
  }
}
