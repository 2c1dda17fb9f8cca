/** The `Admin` dashboard component as a whole: normalise the fetched data,
    derive the lookups, figures and lists from it, and choose which body
    to show below the stat cards. */
module AdminView {
  import opened Wrappers
  import opened FormRecords
  import opened StableSort
  import opened DashboardStats
  import opened FormIndex
  import opened Rankings

  /** The four bodies the dashboard can show under its stat cards. */
  datatype View = Loading | LoadFailed | NoForms | FormLists

  /** `isLoading ? ... : hasError ? ... : forms.length === 0 ? ... : ...`:
      loading beats an error, an error beats an empty list, and the lists are
      shown only for a settled, error-free, non-empty fetch. */
  function SelectView(isLoading: bool, hasError: bool, forms: seq<FormRecord>): (v: View)
    ensures isLoading ==> v == Loading
    ensures !isLoading && hasError ==> v == LoadFailed
    ensures v == NoForms <==> !isLoading && !hasError && |forms| == 0
    ensures v == FormLists <==> !isLoading && !hasError && |forms| > 0
  {
    if isLoading then Loading
    else if hasError then LoadFailed
    else if |forms| == 0 then NoForms
    else FormLists
  }

  /** The placeholder shown for a missing date. */
  const Placeholder: string := "\U{2014}"

  /** The "last update" card's text: the placeholder when there is no
      timestamp, otherwise what the locale formatter `format` makes of it. */
  function DisplayLastUpdated(lastUpdated: Option<int>, format: int -> string): string {
    match lastUpdated
    case None => Placeholder
    case Some(t) => format(t)
  }

  /** The "last update" card shows the placeholder exactly when no form has a
      timestamp, whatever the formatter does. */
  lemma PlaceholderWhenNoTimestamp(forms: seq<FormRecord>, format: int -> string)
    requires forall t :: format(t) != Placeholder
    ensures DisplayLastUpdated(LastUpdated(forms), format) == Placeholder
        <==> forall i :: 0 <= i < |forms| ==> forms[i].updatedAt.None?
  {
    LastUpdatedIsLatest(forms);
  }

  /** Data that is not an array is shown as an empty dashboard: zero figures
      and never the lists. */
  lemma NonArrayDataIsEmpty(isLoading: bool, hasError: bool)
    ensures ComputeStats(NormalizeForms(OtherData)) == Stats(0, 0, 0, None)
    ensures SelectView(isLoading, hasError, NormalizeForms(OtherData)) != FormLists
  {
    EmptyStats();
  }

  /** When the lists are shown, each has between one and five forms. */
  lemma ShownListsAreNonEmpty(isLoading: bool, hasError: bool, forms: seq<FormRecord>, key: FormRecord -> int)
    requires SelectView(isLoading, hasError, forms) == FormLists
    ensures 0 < |TopRanked(forms, key)| <= TopCount
  {
  }

  /** One entry of a rendered list: the form and its resolved link. */
  datatype Row = Row(form: FormRecord, linked: LinkedLookup)

  /** `list.map((form) => ...)`: each form with its single-hop link. */
  function Rows(list: seq<FormRecord>, formsById: map<string, FormRecord>): seq<Row> {
    seq(|list|, i requires 0 <= i < |list| => Row(list[i], ResolveLinked(list[i], formsById)))
  }

  /** What the component derives for one render. */
  datatype Page = Page(stats: Stats, view: View, recent: seq<Row>, topResponded: seq<Row>)

  /** One render of the dashboard.  The stat cards are derived on every
      render, the lists only appear in the `FormLists` body. */
  method Admin(data: FetchedData, isLoading: bool, hasError: bool) returns (page: Page)
    ensures var forms := NormalizeForms(data);
      && page.stats == ComputeStats(forms)
      && page.view == SelectView(isLoading, hasError, forms)
    ensures page.view != FormLists ==> page.recent == [] && page.topResponded == []
    ensures page.view == FormLists ==>
      && page.recent == Rows(TopRanked(NormalizeForms(data), RecencyKey), IdIndex(NormalizeForms(data)))
      && page.topResponded == Rows(TopRanked(NormalizeForms(data), ResponseKey), IdIndex(NormalizeForms(data)))
    ensures forall i :: 0 <= i < |page.recent| && page.recent[i].linked.Found? ==>
      page.recent[i].linked.target in NormalizeForms(data)
    ensures forall i :: 0 <= i < |page.topResponded| && page.topResponded[i].linked.Found? ==>
      page.topResponded[i].linked.target in NormalizeForms(data)
  {
    var forms := NormalizeForms(data);
    var formsById := BuildIndex(forms);
    var stats := ComputeStats(forms);
    var recentForms := RecentForms(forms);
    var topRespondedForms := TopRespondedForms(forms);
    var view := SelectView(isLoading, hasError, forms);
    if view == FormLists {
      var recent := Rows(recentForms, formsById);
      var responded := Rows(topRespondedForms, formsById);
      forall i | 0 <= i < |recent| ensures recent[i].linked.Found? ==> recent[i].linked.target in forms {
        ResolveInIndex(recentForms[i], forms);
      }
      forall i | 0 <= i < |responded| ensures responded[i].linked.Found? ==> responded[i].linked.target in forms {
        ResolveInIndex(topRespondedForms[i], forms);
      }
      page := Page(stats, view, recent, responded);
    } else {
      page := Page(stats, view, [], []);
    }
  }

  /** The two-form example: `a` with 3 responses updated first, `b` with 10
      responses updated later; `b` leads both lists. */
  lemma TwoFormsExample()
    ensures
      var a := FormRecord(Some("a"), Some(3), None, Some(1704067200000));
      var b := FormRecord(Some("b"), Some(10), None, Some(1706745600000));
      && ComputeStats([a, b]) == Stats(2, 13, 0, Some(1706745600000))
      && SortDesc([a, b], ResponseKey) == [b, a]
      && SortDesc([a, b], RecencyKey) == [b, a]
  {
    var a := FormRecord(Some("a"), Some(3), None, Some(1704067200000));
    var b := FormRecord(Some("b"), Some(10), None, Some(1706745600000));
    assert [a, b][..1] == [a];
    assert Timestamps([a, b]) == [1704067200000, 1706745600000] by {
      assert [a, b][1..] == [b];
    }
    assert [1704067200000, 1706745600000][..1] == [1704067200000];
    assert TotalResponses([a]) == 3 by {
      assert [a][..0] == [];
    }
    assert TotalResponses([a, b]) == 13;
  }
}
