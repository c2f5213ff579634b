/** Artwork records as the table sees them, and the two queries the
    selection logic asks of a list of records: "does some element carry
    this id?" and "which of these records have their id in a set?".
 */
module Records {

  /** One artwork row. Identity is by `id` only; `title` stands for the
      display fields, which the selection logic never looks at. */
  datatype Record = Record(id: int, title: string)

  /** The ids carried by a list of records (a page, or a reported selection). */
  function Ids(rs: seq<Record>): set<int>
  {
    set r | r in rs :: r.id
  }

  /** `rs.some(selected => selected.id === id)`: a left-to-right scan that
      stops at the first record with the wanted id. */
  function SomeHasId(rs: seq<Record>, id: int): (b: bool)
    ensures b <==> id in Ids(rs)
    ensures b <==> exists k :: 0 <= k < |rs| && rs[k].id == id
  {
    if |rs| == 0 then false
    else if rs[0].id == id then
      assert rs[0] in rs;
      true
    else
      var b := SomeHasId(rs[1..], id);
      assert rs == [rs[0]] + rs[1..];
      assert forall k :: 0 < k < |rs| ==> rs[k] == rs[1..][k - 1];
      b
  }

  /** `page.filter(r => ids.has(r.id))`: the records of `page` whose id is
      in `ids`, in page order. */
  function VisibleSelection(page: seq<Record>, ids: set<int>): (v: seq<Record>)
    ensures |v| <= |page|
    ensures forall r :: r in v <==> r in page && r.id in ids
    ensures (forall k :: 0 <= k < |page| ==> page[k].id in ids) ==> v == page
    ensures (forall k :: 0 <= k < |page| ==> page[k].id !in ids) ==> v == []
  {
    if |page| == 0 then []
    else
      var rest := VisibleSelection(page[1..], ids);
      assert page == [page[0]] + page[1..];
      if page[0].id in ids then [page[0]] + rest else rest
  }

  /** Filtering distributes over concatenation: the filter keeps the
      relative order of the records it keeps. */
  lemma {:induction false} VisibleSelectionAppend(a: seq<Record>, b: seq<Record>, ids: set<int>)
    ensures VisibleSelection(a + b, ids) == VisibleSelection(a, ids) + VisibleSelection(b, ids)
  {
    if |a| == 0 {
      assert a + b == b;
    } else {
      assert (a + b)[1..] == a[1..] + b;
      VisibleSelectionAppend(a[1..], b, ids);
    }
  }

  /** The filter only depends on how the id set judges the page's own ids:
      two sets that agree on every id of the page give the same result. */
  lemma {:induction false} VisibleSelectionAgree(page: seq<Record>, a: set<int>, b: set<int>)
    requires forall k :: 0 <= k < |page| ==> (page[k].id in a <==> page[k].id in b)
    ensures VisibleSelection(page, a) == VisibleSelection(page, b)
  {
    if |page| > 0 {
      VisibleSelectionAgree(page[1..], a, b);
    }
  }
}
