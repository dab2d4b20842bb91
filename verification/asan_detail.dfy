/** `get_disease_detail` of `data_py/asan.py`: each field is read from the
    `dd` that follows a labelled `dt`, rendered as a `", "`-joined list, and
    replaced by the sentinel `"정보 없음"` when the list is empty. */
module AsanDetail {
  import opened Common
  import opened Text
  import opened Names

  /** "No information": what an empty field is rendered as. */
  const Sentinel := "정보 없음"
  const ListSeparator := ", "

  /** The `dd` after a labelled `dt`: the stripped texts of its `li` items,
      of its links, and its own stripped text. */
  datatype Dd = Dd(items: seq<string>, links: seq<string>, text: string)

  /** The four labelled sections of a detail page; None when the `dt` or the
      `dd` after it is missing. */
  datatype AsanDetailDoc = AsanDetailDoc(
    symptoms: Option<Dd>,     // dt '증상'
    department: Option<Dd>,   // dt '진료과'
    synonyms: Option<Dd>,     // dt '동의어'
    related: Option<Dd>)      // dt '관련질환'

  /** One extracted record, as written to the CSV. */
  datatype AsanRecord = AsanRecord(
    nameKr: string, nameEng: string,
    symptoms: string, department: string, synonyms: string, related: string,
    url: string)

  // ----------------------------------------------------------- list fields

  /** The preferred elements when there are any, otherwise the plain text as
      a single element unless it is empty. The preferred elements are taken
      as they are, empty ones included. */
  function Preferred(elements: seq<string>, text: string): (r: seq<string>)
    ensures elements != [] ==> r == elements
    ensures elements == [] ==> (r == [] <==> text == "")
    ensures elements == [] && text != "" ==> r == [text]
  {
    if elements != [] then elements else if text != "" then [text] else []
  }

  /** Symptoms: the `li` items of the `dd`, or its text. The items win
      whenever there are any; the text is the one element otherwise; a
      missing section, or one with neither, gives nothing. */
  function ItemsOrText(dd: Option<Dd>): (r: seq<string>)
    ensures r == [] <==> dd.None? || (dd.value.items == [] && dd.value.text == "")
    ensures dd.Some? && dd.value.items != [] ==> r == dd.value.items
    ensures dd.Some? && dd.value.items == [] && dd.value.text != "" ==> r == [dd.value.text]
  {
    if dd.Some? then Preferred(dd.value.items, dd.value.text) else []
  }

  /** Department and related diseases: the link texts of the `dd`, or its
      text, with the same precedence as `ItemsOrText`. */
  function LinksOrText(dd: Option<Dd>): (r: seq<string>)
    ensures r == [] <==> dd.None? || (dd.value.links == [] && dd.value.text == "")
    ensures dd.Some? && dd.value.links != [] ==> r == dd.value.links
    ensures dd.Some? && dd.value.links == [] && dd.value.text != "" ==> r == [dd.value.text]
  {
    if dd.Some? then Preferred(dd.value.links, dd.value.text) else []
  }

  /** `', '.join(xs) if xs else "정보 없음"`: nothing found reads as the
      sentinel, one element is the field itself, and two or more are
      separated by commas. */
  function Render(xs: seq<string>): (r: string)
    ensures xs == [] ==> r == Sentinel
    ensures |xs| == 1 ==> r == xs[0]
    ensures |xs| >= 2 ==> ',' in r && StartsWith(r, xs[0])
  {
    JoinHasComma(xs);
    if xs != [] then Join(xs, ListSeparator) else Sentinel
  }

  /** A join of two or more parts holds a comma. */
  lemma JoinHasComma(xs: seq<string>)
    ensures |xs| >= 2 ==> ',' in Join(xs, ListSeparator) && StartsWith(Join(xs, ListSeparator), xs[0])
  {
    if |xs| >= 2 {
      var j := Join(xs, ListSeparator);
      assert j == xs[0] + ListSeparator + Join(xs[1..], ListSeparator);
      assert j[|xs[0]|] == ',';
      JoinShape(xs, ListSeparator);
    }
  }

  lemma SentinelShape()
    ensures ',' !in Sentinel && Sentinel != ""
    ensures Sentinel[2] == ' ' && IsSpace(Sentinel[2])
  {
  }

  /** A field reads as the sentinel exactly when nothing was found or when
      the one thing found is the sentinel text itself. */
  lemma RenderSentinel(xs: seq<string>)
    ensures Render(xs) == Sentinel <==> xs == [] || xs == [Sentinel]
  {
    SentinelShape();
    if |xs| >= 2 {
      JoinHasComma(xs);
    }
  }

  /** A field is the empty string exactly when the one element found is
      empty: an empty list never renders as `""`. */
  lemma RenderEmpty(xs: seq<string>)
    ensures Render(xs) == "" <==> xs == [""]
  {
    SentinelShape();
    if xs != [] {
      JoinEmpty(xs, ListSeparator);
    }
  }

  /** A missing section, and a present section with nothing in it, both read
      as the sentinel. */
  lemma MissingSectionIsSentinel(dd: Option<Dd>)
    requires dd.None? || (dd.value.items == [] && dd.value.links == [] && dd.value.text == "")
    ensures Render(ItemsOrText(dd)) == Sentinel
    ensures Render(LinksOrText(dd)) == Sentinel
  {
  }

  /** The `li` items win over the text, even when every item is blank. */
  lemma ItemsWin(items: seq<string>, links: seq<string>, text: string)
    requires items != []
    ensures Render(ItemsOrText(Some(Dd(items, links, text)))) == Join(items, ListSeparator)
  {
  }

  // -------------------------------------------------------------- synonyms

  /** A token as the comprehension keeps it: non-empty, with no whitespace
      at either end. */
  predicate Stripped(w: string)
  {
    w != [] && !IsSpace(w[0]) && !IsSpace(w[|w| - 1])
  }

  /** `[s.strip() for s in ws if s.strip()]`. */
  function StripAll(ws: seq<string>): (r: seq<string>)
    ensures |r| <= |ws|
    ensures forall w :: w in r ==> Stripped(w)
  {
    if ws == [] then []
    else
      var w := Strip(ws[0]);
      var rest := StripAll(ws[1..]);
      if w != "" then
        assert Stripped(w);
        [w] + rest
      else rest
  }

  /** No text that strips to something non-empty is lost. */
  lemma {:induction false} StripAllKeeps(ws: seq<string>, i: nat)
    requires i < |ws| && Strip(ws[i]) != []
    ensures Strip(ws[i]) in StripAll(ws)
  {
    var w := Strip(ws[i]);
    if i == 0 {
      assert StripAll(ws) == [w] + StripAll(ws[1..]);
    } else {
      assert ws[1..][i - 1] == ws[i];
      StripAllKeeps(ws[1..], i - 1);
      assert w in StripAll(ws[1..]);
    }
  }

  /** The words of `split()` are already stripped and non-empty, so the
      comprehension leaves them alone. */
  lemma {:induction false} StripAllOfWords(ws: seq<string>)
    requires forall w :: w in ws ==> w != [] && NoSpace(w)
    ensures StripAll(ws) == ws
  {
    if ws != [] {
      assert ws[0] in ws;
      StripTrimmed(ws[0]);
      assert forall w :: w in ws[1..] ==> w in ws;
      StripAllOfWords(ws[1..]);
      assert ws == [ws[0]] + ws[1..];
    }
  }

  /** The synonym tokens: commas become spaces and the text is split on
      whitespace runs. An empty text yields no tokens. */
  function SynonymTokens(dd: Option<Dd>): (r: seq<string>)
    ensures forall w :: w in r ==> w != "" && NoSpace(w) && ',' !in w
  {
    if dd.Some? && dd.value.text != "" then
      var words := Words(ReplaceChar(dd.value.text, ',', ' '));
      StripAllOfWords(words);
      words
    else []
  }

  /** Tokenising keeps every character of the text that is neither a comma
      nor whitespace, in order. */
  lemma SynonymContent(dd: Dd)
    ensures Concat(SynonymTokens(Some(dd))) == DropSpaces(ReplaceChar(dd.text, ',', ' '))
  {
    WordsKeepContent(ReplaceChar(dd.text, ',', ' '));
  }

  /** Tokens are separated at commas: `"a,b"` splits like `"a b"`. */
  lemma SynonymCommaSplits(a: string, b: string)
    ensures SynonymTokens(Some(Dd([], [], a + [','] + b)))
         == SynonymTokens(Some(Dd([], [], a + [' '] + b)))
  {
    var s := a + [','] + b;
    var t := a + [' '] + b;
    assert ReplaceChar(s, ',', ' ') == ReplaceChar(t, ',', ' ');
  }

  /** Since no token holds whitespace, the synonym field is the sentinel
      exactly when there are no tokens. */
  lemma SynonymsSentinel(dd: Option<Dd>)
    ensures Render(SynonymTokens(dd)) == Sentinel <==> SynonymTokens(dd) == []
  {
    var tokens := SynonymTokens(dd);
    RenderSentinel(tokens);
    SentinelShape();
    if tokens != [] {
      assert tokens[0] in tokens;
    }
  }

  /** Tokens are never empty, so the synonym field is never `""`. */
  lemma SynonymsNeverEmpty(dd: Option<Dd>)
    ensures Render(SynonymTokens(dd)) != ""
  {
    var tokens := SynonymTokens(dd);
    RenderEmpty(tokens);
    if |tokens| == 1 {
      assert tokens[0] in tokens;
    }
  }

  // ----------------------------------------------------------------- record

  /** `get_disease_detail`: the listing name split at `(`...`)` and the four
      rendered fields; None when the page could not be rendered. */
  function GetDetail(page: Fetch<AsanDetailDoc>, url: string, listingName: string): (r: Option<AsanRecord>)
    ensures r.None? <==> page.FetchFailed?
    ensures r.Some? ==> r.value.url == url && r.value.synonyms != ""
    ensures r.Some? && !('(' in listingName && ')' in listingName) ==> r.value.nameKr == listingName && r.value.nameEng == ""
  {
    match page
    case FetchFailed => None
    case Rendered(doc) =>
      var names := SplitName(listingName, '(', ')');
      var synonyms := SynonymTokens(doc.synonyms);
      SynonymsNeverEmpty(doc.synonyms);
      Some(AsanRecord(
        names.primary, names.alternate,
        Render(ItemsOrText(doc.symptoms)),
        Render(LinksOrText(doc.department)),
        Render(synonyms),
        Render(LinksOrText(doc.related)),
        url))
  }
}
