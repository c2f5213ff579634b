/** The paginator reports the offset of the first visible row and the page
    size; the data source is asked for a 1-based page number.
 */
module Paging {

  /** `Math.floor(a / b)` on whole numbers. Dafny's `/` is Euclidean, which
      agrees with the floor only for a positive divisor, so the negative
      divisor is corrected explicitly. */
  function FloorDiv(a: int, b: int): (q: int)
    requires b != 0
    ensures b > 0 ==> q * b <= a < q * b + b
    ensures b < 0 ==> q * b + b < a <= q * b
  {
    if b > 0 || a % b == 0 then a / b else a / b - 1
  }

  /** The 1-based page number of the page starting at offset `first`. */
  function PageIndex(first: int, rows: int): (page: int)
    requires rows != 0
    ensures first >= 0 && rows > 0 ==> page >= 1
    ensures rows > 0 ==> (page - 1) * rows <= first < page * rows
    ensures rows > 0 ==> page == first / rows + 1
  {
    FloorDiv(first, rows) + 1
  }

  /** Every offset inside page `page` (1-based, `rows` rows per page) maps
      back to that page; in particular the paginator's own offset for it,
      `(page - 1) * rows`. */
  lemma PageIndexOfOffset(page: int, rows: int, k: int)
    requires rows > 0 && page >= 1 && 0 <= k < rows
    ensures PageIndex((page - 1) * rows + k, rows) == page
  {
    var first := (page - 1) * rows + k;
    var p := PageIndex(first, rows);
    assert (p - 1) * rows <= first < p * rows;
    assert page * rows == (page - 1) * rows + rows;
    if p < page {
      MulMonotone(p, page - 1, rows);
    } else if p > page {
      MulMonotone(page, p - 1, rows);
    }
  }

  /** Multiplying by a positive number keeps the order. */
  lemma MulMonotone(a: int, b: int, c: int)
    requires a <= b && c > 0
    ensures a * c <= b * c
  {
    assert b * c - a * c == (b - a) * c;
  }
}
