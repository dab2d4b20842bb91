/** `get_disease_detail` of `data_py/uni.py`: the names from the page title,
    and the department and symptom fields, each a chain of fallbacks whose
    empty outcome becomes `None`. */
module UniDetail {
  import opened Common
  import opened Text
  import opened Names
  import opened Fallback

  /** The label a department row carries in its `em`. */
  const DepartmentLabel := "진료과"
  /** The word a symptom heading contains. */
  const SymptomLabel := "증상"
  /** How many definition paragraphs stand in for missing symptoms. */
  const DefinitionParagraphs: nat := 2

  /** A `div.viewRow`: the text of its first `em` and the stripped texts of
      the links inside its first `p`, each None when the element is missing. */
  datatype ViewRow = ViewRow(emText: Option<string>, linkTexts: Option<seq<string>>)

  /** An `h5` of the page: its text, and the stripped texts of the
      paragraphs of its nearest enclosing `div` (None without such a div). */
  datatype Heading = Heading(text: string, parentParagraphs: Option<seq<string>>)

  /** The parts of a rendered detail page that the extraction reads. */
  datatype UniDetailDoc = UniDetailDoc(
    title: Option<string>,                  // stripped text of the first `h3`
    tooltipRow: Option<ViewRow>,            // the `div.viewRow.tooltipRow`
    rows: seq<ViewRow>,                     // every `div.viewRow`, in order
    symptomSection: Option<seq<string>>,    // paragraphs of `#section-증상`
    headings: seq<Heading>,                 // every `h5`, in order
    definitionSection: Option<seq<string>>) // paragraphs of `#section-정의`

  /** One extracted record, the dictionary the crawler hands to the sink. */
  datatype UniRecord = UniRecord(
    nameKr: string, nameEng: string,
    department: Option<string>, symptoms: Option<string>, url: string)

  // ------------------------------------------------------------------ names

  /** The `h3` title split at `[`...`]`; the listing name without a title. */
  function DetailNames(title: Option<string>, listingName: string): (r: NamePair)
    ensures title.None? ==> r == NamePair(listingName, "")
    ensures title.Some? && !('[' in title.value && ']' in title.value) ==> r == NamePair(title.value, "")
    ensures title.Some? && '[' in title.value && ']' in title.value ==> '[' !in r.primary && ']' !in r.alternate
  {
    match title
    case None => NamePair(listingName, "")
    case Some(t) => SplitName(t, '[', ']')
  }

  /** The title form the split is written for. */
  lemma DetailNamesShape(kr: string, eng: string, rest: string, listingName: string)
    requires '[' !in kr && '[' !in eng && ']' !in eng
    ensures DetailNames(Some(kr + ['['] + eng + [']'] + rest), listingName) == NamePair(Strip(kr), Strip(eng))
  {
    SplitNameShape(kr, eng, rest, '[', ']');
  }

  /** The value of a split title: the text before its first `[`, and the
      text from there up to the next `[` or `]` (or the end), both stripped. */
  lemma DetailNamesValue(t: string, listingName: string, k: nat, m: nat)
    requires '[' in t && ']' in t
    requires k < m <= |t| && t[k] == '['
    requires forall j :: 0 <= j < k ==> t[j] != '['
    requires forall j :: k < j < m ==> t[j] != '[' && t[j] != ']'
    requires m == |t| || t[m] == '[' || t[m] == ']'
    ensures DetailNames(Some(t), listingName) == NamePair(Strip(t[..k]), Strip(t[k + 1..m]))
  {
    SplitNameValue(t, '[', ']', k, m);
  }

  // ------------------------------------------------------------- department

  /** A row that ends the department scan: its `em` mentions the label and
      it has a `p`. */
  predicate IsDepartmentRow(row: ViewRow)
  {
    row.emText.Some? && Contains(row.emText.value, DepartmentLabel) && row.linkTexts.Some?
  }

  /** `', '.join(link texts)` when the `p` holds links, `""` otherwise. */
  function RowDepartment(row: ViewRow): (d: string)
    requires row.linkTexts.Some?
    ensures d == "" <==> row.linkTexts.value == [] || row.linkTexts.value == [""]
  {
    var links := row.linkTexts.value;
    JoinEmpty(links, ", ");
    if links != [] then Join(links, ", ") else ""
  }

  /** Tier 1: the tooltip row, when it is a department row. It yields
      nothing exactly when the row is missing, is not a department row, or
      its `p` holds no link or a single blank one. */
  function TooltipDepartment(tooltipRow: Option<ViewRow>): (d: string)
    ensures d == "" <==>
      || !(tooltipRow.Some? && IsDepartmentRow(tooltipRow.value))
      || tooltipRow.value.linkTexts.value == []
      || tooltipRow.value.linkTexts.value == [""]
    ensures d != "" ==> d == RowDepartment(tooltipRow.value)
  {
    if tooltipRow.Some? && IsDepartmentRow(tooltipRow.value) then RowDepartment(tooltipRow.value) else ""
  }

  /** Tier 2: the loop over every `viewRow` that stops at the first
      department row, whatever that row yields. */
  function ScanDepartment(rows: seq<ViewRow>): (d: string)
    ensures (forall i :: 0 <= i < |rows| ==> !IsDepartmentRow(rows[i])) ==> d == ""
  {
    if rows == [] then ""
    else if IsDepartmentRow(rows[0]) then RowDepartment(rows[0])
    else ScanDepartment(rows[1..])
  }

  /** The scan's answer is that of the first department row. */
  lemma {:induction false} ScanDepartmentFirst(rows: seq<ViewRow>, k: nat)
    requires k < |rows| && IsDepartmentRow(rows[k])
    requires forall j :: 0 <= j < k ==> !IsDepartmentRow(rows[j])
    ensures ScanDepartment(rows) == RowDepartment(rows[k])
  {
    if k > 0 {
      ScanDepartmentFirst(rows[1..], k - 1);
    }
  }

  /** Department rows after the first one are never looked at. */
  lemma {:induction false} ScanDepartmentStops(rows: seq<ViewRow>, more: seq<ViewRow>, k: nat)
    requires k < |rows| && IsDepartmentRow(rows[k])
    ensures ScanDepartment(rows + more) == ScanDepartment(rows)
  {
    if !IsDepartmentRow(rows[0]) {
      assert (rows + more)[1..] == rows[1..] + more;
      ScanDepartmentStops(rows[1..], more, k - 1);
    }
  }

  /** The department field: the tooltip row first, the scan only when that
      gave nothing, and `None` for an empty outcome. */
  function Department(doc: UniDetailDoc): (r: Option<string>)
    ensures r == NoneIfEmpty(FirstNonEmpty([TooltipDepartment(doc.tooltipRow), ScanDepartment(doc.rows)]))
  {
    var department := TooltipDepartment(doc.tooltipRow);
    var department := if department == "" then ScanDepartment(doc.rows) else department;
    NoneIfEmpty(department)
  }

  // --------------------------------------------------------------- symptoms

  /** Tier 1: the paragraphs of the symptom section. It yields nothing
      exactly when the section is missing or every paragraph is blank. */
  function SectionSymptoms(section: Option<seq<string>>): (r: string)
    ensures r == "" <==> section.None? || forall i :: 0 <= i < |section.value| ==> section.value[i] == ""
  {
    if section.Some? then ParagraphsEmpty(section.value); Paragraphs(section.value) else ""
  }

  /** The first paragraphs of `ps`, at most `n` of them: `ps[:n]`. */
  function Take(ps: seq<string>, n: nat): (r: seq<string>)
    ensures |r| <= n && r <= ps
    ensures |ps| <= n ==> r == ps
  {
    if |ps| <= n then ps else ps[..n]
  }

  /** A heading that ends the symptom scan: it mentions symptoms and its
      enclosing `div` has paragraphs. */
  predicate IsSymptomHeading(h: Heading)
  {
    Contains(h.text, SymptomLabel) && h.parentParagraphs.Some? && h.parentParagraphs.value != []
  }

  /** Tier 2: the loop over the `h5`s, stopping at the first symptom heading. */
  function ScanSymptoms(headings: seq<Heading>): (s: string)
    ensures (forall i :: 0 <= i < |headings| ==> !IsSymptomHeading(headings[i])) ==> s == ""
  {
    if headings == [] then ""
    else if IsSymptomHeading(headings[0]) then Paragraphs(headings[0].parentParagraphs.value)
    else ScanSymptoms(headings[1..])
  }

  lemma {:induction false} ScanSymptomsFirst(headings: seq<Heading>, k: nat)
    requires k < |headings| && IsSymptomHeading(headings[k])
    requires forall j :: 0 <= j < k ==> !IsSymptomHeading(headings[j])
    ensures ScanSymptoms(headings) == Paragraphs(headings[k].parentParagraphs.value)
  {
    if k > 0 {
      ScanSymptomsFirst(headings[1..], k - 1);
    }
  }

  /** Tier 3: the first two paragraphs of the definition section. It yields
      nothing exactly when the section is missing or its first two
      paragraphs are blank. */
  function DefinitionSymptoms(section: Option<seq<string>>): (r: string)
    ensures r == "" <==>
      || section.None?
      || forall i :: 0 <= i < |section.value| && i < DefinitionParagraphs ==> section.value[i] == ""
  {
    if section.Some? then
      var ps := section.value;
      var first := Take(ps, DefinitionParagraphs);
      ParagraphsEmpty(first);
      assert forall i :: 0 <= i < |first| ==> first[i] == ps[i];
      Paragraphs(first)
    else ""
  }

  /** Only the first two definition paragraphs matter. */
  lemma DefinitionSymptomsPrefix(ps: seq<string>, more: seq<string>)
    requires |ps| >= DefinitionParagraphs
    ensures DefinitionSymptoms(Some(ps + more)) == DefinitionSymptoms(Some(ps))
  {
    assert (ps + more)[..DefinitionParagraphs] == ps[..DefinitionParagraphs];
    if |ps| == DefinitionParagraphs {
      assert ps[..DefinitionParagraphs] == ps;
      if more == [] {
        assert ps + more == ps;
      }
    }
  }

  /** The symptom field: each tier runs only while the text is still empty. */
  function Symptoms(doc: UniDetailDoc): (r: Option<string>)
    ensures r == NoneIfEmpty(FirstNonEmpty([
      SectionSymptoms(doc.symptomSection), ScanSymptoms(doc.headings), DefinitionSymptoms(doc.definitionSection)]))
  {
    var symptoms := SectionSymptoms(doc.symptomSection);
    var symptoms := if symptoms == "" then ScanSymptoms(doc.headings) else symptoms;
    var symptoms := if symptoms == "" then DefinitionSymptoms(doc.definitionSection) else symptoms;
    FirstNonEmptyOfThree(
      SectionSymptoms(doc.symptomSection), ScanSymptoms(doc.headings), DefinitionSymptoms(doc.definitionSection));
    NoneIfEmpty(symptoms)
  }

  /** The symptom field is `None` exactly when the section, every symptom
      heading's paragraphs and the first definition paragraphs are all blank. */
  lemma SymptomsNone(doc: UniDetailDoc)
    ensures Symptoms(doc).None? <==>
      && (doc.symptomSection.Some? ==> forall i :: 0 <= i < |doc.symptomSection.value| ==> doc.symptomSection.value[i] == "")
      && ScanSymptoms(doc.headings) == ""
      && DefinitionSymptoms(doc.definitionSection) == ""
  {
    FirstNonEmptyOfThree(
      SectionSymptoms(doc.symptomSection), ScanSymptoms(doc.headings), DefinitionSymptoms(doc.definitionSection));
    if doc.symptomSection.Some? {
      ParagraphsEmpty(doc.symptomSection.value);
    }
  }

  /** A non-blank symptom section wins over everything else on the page. */
  lemma SectionWins(doc: UniDetailDoc, i: nat)
    requires doc.symptomSection.Some? && i < |doc.symptomSection.value| && doc.symptomSection.value[i] != ""
    ensures Symptoms(doc) == Some(Paragraphs(doc.symptomSection.value))
  {
    FirstNonEmptyOfThree(
      SectionSymptoms(doc.symptomSection), ScanSymptoms(doc.headings), DefinitionSymptoms(doc.definitionSection));
    ParagraphsEmpty(doc.symptomSection.value);
  }

  // ----------------------------------------------------------------- record

  /** `get_disease_detail`: None when the page could not be rendered. */
  function GetDetail(page: Fetch<UniDetailDoc>, url: string, listingName: string): (r: Option<UniRecord>)
    ensures r.None? <==> page.FetchFailed?
    ensures r.Some? ==> r.value.url == url && r.value.department != Some("") && r.value.symptoms != Some("")
  {
    match page
    case FetchFailed => None
    case Rendered(doc) =>
      var names := DetailNames(doc.title, listingName);
      Some(UniRecord(names.primary, names.alternate, Department(doc), Symptoms(doc), url))
  }
}
