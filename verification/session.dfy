/** The table component's state and its transitions: loading a page,
    turning the paginator, and the user changing the selection. The fetch
    of a page is not modelled; its outcome is an input.
 */
module Session {
  import opened Records
  import opened Selection
  import opened Paging

  datatype Option<T> = None | Some(value: T)

  /** What the data source answers for one page: its records and the total
      number of records on the server. */
  datatype ArtworkPage = ArtworkPage(data: seq<Record>, total: int)

  /** The component's state. `selectedArtworks` is not stored: it is
      always re-derived from the page and the selected ids (see
      `SelectedArtworks`). */
  datatype State = State(
    artworks: seq<Record>,
    totalRecords: int,
    loading: bool,
    selectedIds: set<int>)

  /** State before anything is loaded: no records, nothing selected. */
  const Initial := State([], 0, false, {})

  /** The selection the table shows: the page's records whose id is selected. */
  function SelectedArtworks(s: State): (v: seq<Record>)
    ensures forall r :: r in v <==> r in s.artworks && r.id in s.selectedIds
  {
    VisibleSelection(s.artworks, s.selectedIds)
  }

  /** The count shown as "Selected Rows": every selected id, from any page,
      so at least the number of distinct ids ticked on the current page. */
  function SelectedCount(s: State): (n: nat)
    ensures n == |Ids(SelectedArtworks(s))| + |s.selectedIds - Ids(s.artworks)|
    ensures |Ids(SelectedArtworks(s))| <= n
    ensures n == 0 <==> s.selectedIds == {}
  {
    var here := Ids(SelectedArtworks(s));
    assert here == Ids(s.artworks) * s.selectedIds;
    assert here !! (s.selectedIds - Ids(s.artworks));
    assert here + (s.selectedIds - Ids(s.artworks)) == s.selectedIds;
    |s.selectedIds|
  }

  /** The count after a selection change: the ids kept from other pages
      plus the page's ids the report carries. */
  lemma SelectedCountAfterChange(s: State, selection: seq<Record>)
    ensures SelectedCount(OnSelectionChange(s, selection))
      == |s.selectedIds - Ids(s.artworks)| + |Ids(s.artworks) * Ids(selection)|
  {
    ReconcileSize(s.selectedIds, s.artworks, selection);
  }

  /** A page request is in flight; nothing else changes. */
  function BeginLoad(s: State): (s': State)
    ensures s'.loading
    ensures s'.artworks == s.artworks && s'.totalRecords == s.totalRecords
    ensures s'.selectedIds == s.selectedIds
  {
    s.(loading := true)
  }

  /** The request has settled. On success the page and the total are
      replaced; on failure they are kept. Either way loading ends and the
      selected ids are untouched. */
  function FinishLoad(s: State, response: Option<ArtworkPage>): (s': State)
    ensures !s'.loading
    ensures s'.selectedIds == s.selectedIds
    ensures response.Some? ==> s'.artworks == response.value.data && s'.totalRecords == response.value.total
    ensures response.None? ==> s'.artworks == s.artworks && s'.totalRecords == s.totalRecords
  {
    match response
    case Some(p) => s.(artworks := p.data, totalRecords := p.total, loading := false)
    case None => s.(loading := false)
  }

  /** `loadArtworks` run to completion without another call overlapping it. */
  function LoadArtworks(s: State, response: Option<ArtworkPage>): (s': State)
    ensures !s'.loading
    ensures s'.selectedIds == s.selectedIds
    ensures response.None? ==> s' == s.(loading := false)
    ensures response.Some? ==> s'.artworks == response.value.data && s'.totalRecords == response.value.total
    ensures response.Some? ==> SelectedArtworks(s') == VisibleSelection(response.value.data, s.selectedIds)
  {
    FinishLoad(BeginLoad(s), response)
  }

  /** `onPage`: the paginator moved to offset `first` with `rows` rows per
      page; the page with that 1-based index is loaded. `fetch` stands for
      what the data source answers for each page index. */
  function OnPage(s: State, first: int, rows: int, fetch: int -> Option<ArtworkPage>): (s': State)
    requires rows != 0
    ensures !s'.loading
    ensures s'.selectedIds == s.selectedIds
    ensures rows > 0 ==> s' == LoadArtworks(s, fetch(first / rows + 1))
  {
    var page := PageIndex(first, rows);
    LoadArtworks(s, fetch(page))
  }

  /** Mounting the component loads page 1 into the empty state. */
  function Mount(fetch: int -> Option<ArtworkPage>): (s': State)
    ensures !s'.loading && s'.selectedIds == {}
    ensures SelectedArtworks(s') == []
    ensures fetch(1).None? ==> s'.artworks == [] && s'.totalRecords == 0
    ensures fetch(1).Some? ==> s'.artworks == fetch(1).value.data && s'.totalRecords == fetch(1).value.total
  {
    LoadArtworks(Initial, fetch(1))
  }

  /** `onSelectionChange`: the table reports the full selection of the
      visible page. Only the selected ids change. */
  function OnSelectionChange(s: State, selection: seq<Record>): (s': State)
    ensures s'.artworks == s.artworks && s'.totalRecords == s.totalRecords && s'.loading == s.loading
    ensures forall x :: x in Ids(s.artworks) ==> (x in s'.selectedIds <==> x in Ids(selection))
    ensures forall x :: x !in Ids(s.artworks) ==> (x in s'.selectedIds <==> x in s.selectedIds)
  {
    s.(selectedIds := Reconcile(s.selectedIds, s.artworks, selection))
  }

  /** After a selection change the table shows exactly the page's records,
      in page order, that the report carried. */
  lemma ShownAfterSelectionChange(s: State, selection: seq<Record>)
    ensures SelectedArtworks(OnSelectionChange(s, selection)) == VisibleSelection(s.artworks, Ids(selection))
  {
    VisibleAfterReconcile(s.selectedIds, s.artworks, selection);
  }

  /** Re-reporting what is shown leaves the state as it was. */
  lemma SelectionChangeIdempotent(s: State)
    ensures OnSelectionChange(s, SelectedArtworks(s)) == s
  {
    ReconcileIdempotent(s.selectedIds, s.artworks);
  }

  /** Toggling while a page is loading acts on the page still shown, and the
      load that then completes shows the new page's records whose ids are
      selected: a record selected earlier appears checked again. */
  lemma SelectionSurvivesLoad(s: State, selection: seq<Record>, response: Option<ArtworkPage>)
    requires response.Some?
    ensures var s' := FinishLoad(OnSelectionChange(BeginLoad(s), selection), response);
      && s'.selectedIds == Reconcile(s.selectedIds, s.artworks, selection)
      && forall r :: r in SelectedArtworks(s') <==>
           r in response.value.data && r.id in Reconcile(s.selectedIds, s.artworks, selection)
  {
  }

  /** A failed load keeps the page and the total and stops loading. */
  lemma FailedLoadKeepsPage(s: State)
    ensures LoadArtworks(s, None).artworks == s.artworks
    ensures LoadArtworks(s, None).totalRecords == s.totalRecords
    ensures !LoadArtworks(s, None).loading
    ensures SelectedArtworks(LoadArtworks(s, None)) == SelectedArtworks(s)
  {
  }

  /** Select on page A, move to page B (no id in common) and select there,
      come back to A: A shows exactly what was selected on it before. */
  lemma ReturnToPageShowsEarlierSelection(s: State, a: ArtworkPage, sa: seq<Record>, b: ArtworkPage, sb: seq<Record>)
    requires Ids(a.data) !! Ids(b.data)
    ensures
      var s1 := OnSelectionChange(LoadArtworks(s, Some(a)), sa);
      var s2 := OnSelectionChange(LoadArtworks(s1, Some(b)), sb);
      SelectedArtworks(LoadArtworks(s2, Some(a))) == VisibleSelection(a.data, Ids(sa))
  {
    CrossPagePersistence(s.selectedIds, a.data, sa, b.data, sb);
  }

  /** The data source of the scenario below: two records per page, four in all. */
  function ScenarioPages(n: int): Option<ArtworkPage>
  {
    if n == 1 then Some(ArtworkPage([Record(1, "a"), Record(2, "b")], 4))
    else if n == 2 then Some(ArtworkPage([Record(3, "c"), Record(4, "d")], 4))
    else None
  }

  /** Two records per page: select id 1 on page 1, go to page 2 (offset 2)
      and select id 3 there, return to page 1 (offset 0): only the record
      with id 1 is shown selected, and two rows are counted. */
  lemma TwoPageScenario()
    ensures
      var s1 := OnSelectionChange(Mount(ScenarioPages), [Record(1, "a")]);
      var s3 := OnSelectionChange(OnPage(s1, 2, 2, ScenarioPages), [Record(3, "c")]);
      var s4 := OnPage(s3, 0, 2, ScenarioPages);
      && s3.selectedIds == {1, 3}
      && SelectedArtworks(s4) == [Record(1, "a")]
      && SelectedCount(s4) == 2
  {
    ScenarioFirstPage();
    ScenarioToSecondPage();
    ScenarioSelectOnSecondPage();
    ScenarioBackToFirstPage();
  }

  /** Scenario step: page 1 is mounted and id 1 is ticked. */
  lemma ScenarioFirstPage()
    ensures OnSelectionChange(Mount(ScenarioPages), [Record(1, "a")])
      == State([Record(1, "a"), Record(2, "b")], 4, false, {1})
  {
    assert Ids([Record(1, "a"), Record(2, "b")]) == {1, 2};
    assert Ids([Record(1, "a")]) == {1};
  }

  /** Scenario step: the paginator moves to offset 2, which is page 2. */
  lemma ScenarioToSecondPage()
    ensures OnPage(State([Record(1, "a"), Record(2, "b")], 4, false, {1}), 2, 2, ScenarioPages)
      == State([Record(3, "c"), Record(4, "d")], 4, false, {1})
  {
    var s1 := State([Record(1, "a"), Record(2, "b")], 4, false, {1});
    assert PageIndex(2, 2) == 2;
    assert OnPage(s1, 2, 2, ScenarioPages) == LoadArtworks(s1, ScenarioPages(2));
  }

  /** Scenario step: id 3 is ticked on page 2; id 1 stays selected. */
  lemma ScenarioSelectOnSecondPage()
    ensures OnSelectionChange(State([Record(3, "c"), Record(4, "d")], 4, false, {1}), [Record(3, "c")])
      == State([Record(3, "c"), Record(4, "d")], 4, false, {1, 3})
  {
    assert Ids([Record(3, "c"), Record(4, "d")]) == {3, 4};
    assert Ids([Record(3, "c")]) == {3};
  }

  /** Scenario step: back at offset 0, page 1 shows only id 1 ticked. */
  lemma ScenarioBackToFirstPage()
    ensures OnPage(State([Record(3, "c"), Record(4, "d")], 4, false, {1, 3}), 0, 2, ScenarioPages)
      == State([Record(1, "a"), Record(2, "b")], 4, false, {1, 3})
    ensures VisibleSelection([Record(1, "a"), Record(2, "b")], {1, 3}) == [Record(1, "a")]
  {
    assert PageIndex(0, 2) == 1;
  }
}
