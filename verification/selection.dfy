/** The persistent cross-page selection: how the set of selected ids is
    reconciled with the full selection the table reports for the visible
    page, and what that reconciliation guarantees.
 */
module Selection {
  import opened Records

  /** One iteration of the `forEach` over the page: the record's id goes in
      if some element of the reported selection carries it, and out
      otherwise. */
  function Toggle(ids: set<int>, artwork: Record, selection: seq<Record>): (r: set<int>)
    ensures artwork.id in r <==> artwork.id in Ids(selection)
    ensures forall x :: x != artwork.id ==> (x in r <==> x in ids)
  {
    if SomeHasId(selection, artwork.id) then ids + {artwork.id} else ids - {artwork.id}
  }

  /** The loop of `onSelectionChange`: starting from a copy of the selected
      ids, visit the page's records in order and toggle each one. Only ids
      of records on the page can change; on the page, membership follows
      the reported selection. */
  function Reconcile(ids: set<int>, page: seq<Record>, selection: seq<Record>): (r: set<int>)
    ensures forall x :: x in Ids(page) ==> (x in r <==> x in Ids(selection))
    ensures forall x :: x !in Ids(page) ==> (x in r <==> x in ids)
    decreases |page|
  {
    if |page| == 0 then ids
    else
      assert page == [page[0]] + page[1..];
      assert Ids(page) == {page[0].id} + Ids(page[1..]);
      Reconcile(Toggle(ids, page[0], selection), page[1..], selection)
  }

  /** The same result in closed form: the ids off the page, plus the page's
      ids that the reported selection carries. */
  lemma ReconcileClosedForm(ids: set<int>, page: seq<Record>, selection: seq<Record>)
    ensures Reconcile(ids, page, selection) == (ids - Ids(page)) + (Ids(page) * Ids(selection))
  {
  }

  /** Ids reported as selected but belonging to no record of the page are
      not added (nor removed). */
  lemma ReconcileIgnoresForeignIds(ids: set<int>, page: seq<Record>, selection: seq<Record>)
    ensures forall x :: x in Ids(selection) && x !in Ids(page) ==>
      (x in Reconcile(ids, page, selection) <==> x in ids)
    ensures Reconcile(ids, page, selection) - ids <= Ids(page)
  {
  }

  /** Reporting the selection that is currently shown changes nothing. */
  lemma ReconcileIdempotent(ids: set<int>, page: seq<Record>)
    ensures Reconcile(ids, page, VisibleSelection(page, ids)) == ids
  {
    var v := VisibleSelection(page, ids);
    assert Ids(v) == Ids(page) * ids;
  }

  /** Reconciling twice with the same report is the same as reconciling once. */
  lemma ReconcileTwice(ids: set<int>, page: seq<Record>, selection: seq<Record>)
    ensures Reconcile(Reconcile(ids, page, selection), page, selection) == Reconcile(ids, page, selection)
  {
  }

  /** Unchecking everything on the page removes exactly the page's ids. */
  lemma ReconcileFullDeselect(ids: set<int>, page: seq<Record>)
    ensures Reconcile(ids, page, []) == ids - Ids(page)
  {
  }

  /** Only id membership of the report matters: its order and any
      duplicates are irrelevant. */
  lemma ReconcileSelectionOrderIrrelevant(ids: set<int>, page: seq<Record>, s1: seq<Record>, s2: seq<Record>)
    requires Ids(s1) == Ids(s2)
    ensures Reconcile(ids, page, s1) == Reconcile(ids, page, s2)
  {
  }

  /** Nor does the order in which the page's records are visited. */
  lemma ReconcilePageOrderIrrelevant(ids: set<int>, p1: seq<Record>, p2: seq<Record>, selection: seq<Record>)
    requires Ids(p1) == Ids(p2)
    ensures Reconcile(ids, p1, selection) == Reconcile(ids, p2, selection)
  {
  }

  /** After reconciling, the derived visible selection is the page's
      records, in page order, whose id the report carries. */
  lemma {:induction false} VisibleAfterReconcile(ids: set<int>, page: seq<Record>, selection: seq<Record>)
    ensures VisibleSelection(page, Reconcile(ids, page, selection)) == VisibleSelection(page, Ids(selection))
    ensures forall r :: r in VisibleSelection(page, Reconcile(ids, page, selection)) <==>
      r in page && exists k :: 0 <= k < |selection| && selection[k].id == r.id
  {
    var r := Reconcile(ids, page, selection);
    forall k | 0 <= k < |page|
      ensures page[k].id in r <==> page[k].id in Ids(selection)
    {
      assert page[k] in page;
    }
    VisibleSelectionAgree(page, r, Ids(selection));
    forall rec | rec in page
      ensures rec.id in Ids(selection) <==> SomeHasId(selection, rec.id)
    {
    }
  }

  /** The selected count shown to the user: the ids kept from other pages
      plus the page's ids that are now checked. */
  lemma ReconcileSize(ids: set<int>, page: seq<Record>, selection: seq<Record>)
    ensures |Reconcile(ids, page, selection)| == |ids - Ids(page)| + |Ids(page) * Ids(selection)|
  {
    ReconcileClosedForm(ids, page, selection);
    var off, on := ids - Ids(page), Ids(page) * Ids(selection);
    assert off !! on;
  }

  /** Selections made on one page survive reconciling another page whose
      records carry different ids. */
  lemma CrossPagePersistence(ids: set<int>, a: seq<Record>, sa: seq<Record>, b: seq<Record>, sb: seq<Record>)
    requires Ids(a) !! Ids(b)
    ensures VisibleSelection(a, Reconcile(Reconcile(ids, a, sa), b, sb)) == VisibleSelection(a, Ids(sa))
  {
    var after := Reconcile(Reconcile(ids, a, sa), b, sb);
    forall k | 0 <= k < |a|
      ensures a[k].id in after <==> a[k].id in Ids(sa)
    {
      assert a[k] in a;
    }
    VisibleSelectionAgree(a, after, Ids(sa));
  }
}
