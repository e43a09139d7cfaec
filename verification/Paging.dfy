/** RamPageUtil.page and Pagination.buildTotalPage, in 32-bit arithmetic. */
module Paging {
  import opened Common

  datatype Failure = NullPointer | DivisionByZero | IndexOutOfBounds

  /** The size of a Java list is an int. */
  type List<T> = s: seq<T> | |s| < 0x8000_0000

  // ----- Java's division truncates towards zero -----

  function Quotient(x: int, y: int): int
    requires y != 0
  {
    if x < 0 then -(-x / y) else x / y
  }

  function Remainder(x: int, y: int): int
    requires y != 0
  {
    x - y * Quotient(x, y)
  }

  /** The quotient is rounded towards zero: the remainder is smaller than the divisor and has the sign of the dividend. */
  lemma DivisionTruncates(x: int, y: int)
    requires y != 0
    ensures x == y * Quotient(x, y) + Remainder(x, y)
    ensures Magnitude(Remainder(x, y)) < Magnitude(y)
    ensures Remainder(x, y) == 0 || (x < 0 <==> Remainder(x, y) < 0)
  {
    var a := Magnitude(x);
    assert a == y * (a / y) + a % y && 0 <= a % y < Magnitude(y);
    if x < 0 {
      assert y * -(a / y) == -(y * (a / y));
    }
  }

  function Magnitude(x: int): nat
  {
    if x < 0 then -x else x
  }

  function TotalPage(totalCount: int, pageSize: int32): int32
    requires pageSize != 0
  {
    var divisor := Wrap(Quotient(totalCount, pageSize as int));
    var remainder := Wrap(Remainder(totalCount, pageSize as int));
    if remainder == 0 then (if divisor == 0 then 1 else divisor) else Wrap(divisor as int + 1)
  }

  // ----- One page -----

  function Min(x: int, y: int): int
  {
    if x < y then x else y
  }

  function FirstPageOr(pageNo: int32): int32
  {
    if pageNo < 1 then 1 else pageNo
  }

  function To(size: nat, pageNo: int32, pageSize: int32): int
  {
    Min(Wrap(pageNo as int * pageSize as int) as int, size)
  }

  function From(size: nat, pageNo: int32, pageSize: int32): int
  {
    Min(Wrap((pageNo as int - 1) * pageSize as int) as int, To(size, pageNo, pageSize))
  }

  /** What a page of a list is, or the exception instead of it. */
  function PageOf<T>(list: List<T>, pageNo: int32, pageSize: int32): Result<seq<T>, Failure>
  {
    var no := FirstPageOr(pageNo);
    var from, to := From(|list|, no, pageSize), To(|list|, no, pageSize);
    if list == [] then Ok([])
    else if pageSize == 0 then Err(DivisionByZero)
    else if from < 0 then Err(IndexOutOfBounds)
    else Ok(list[from..to])
  }

  class Pagination<T> {
    var pageNo: int32
    var pageSize: int32
    var totalPage: int32
    var totalCount: int
    var result: seq<T>

    constructor (pageNo: int32, pageSize: int32)
      ensures this.pageNo == pageNo && this.pageSize == pageSize && totalPage == 0 && totalCount == 0 && result == []
    {
      this.pageNo, this.pageSize := pageNo, pageSize;
      totalPage, totalCount, result := 0, 0, [];
    }

    method BuildTotalPage()
      requires pageSize != 0
      modifies this`totalPage
      ensures totalPage == TotalPage(totalCount, pageSize)
      ensures totalCount == 0 ==> totalPage == 1
      ensures 1 <= totalCount < 0x8000_0000 && pageSize >= 1 ==>
                && totalPage >= 1
                && (totalPage as int - 1) * pageSize as int < totalCount <= totalPage as int * pageSize as int
    {
      if 1 <= totalCount < 0x8000_0000 && pageSize >= 1 {
        TotalPageIsCeiling(totalCount, pageSize);
      }
      var divisor := Wrap(Quotient(totalCount, pageSize as int));
      var remainder := Wrap(Remainder(totalCount, pageSize as int));
      totalPage := if remainder == 0 then (if divisor == 0 then 1 else divisor) else Wrap(divisor as int + 1);
    }
  }

  /** A missing page number or size fails before the defaults are reached: the constructor takes ints. */
  method Page<T>(list: Option<List<T>>, pageNo: Option<int32>, pageSize: Option<int32>)
    returns (r: Result<Pagination<T>, Failure>)
    ensures pageNo.None? || pageSize.None? ==> r == Err(NullPointer)
    ensures pageNo.Some? && pageSize.Some? ==>
              var page := PageOf(if list.Some? then list.value else [], pageNo.value, pageSize.value);
              && (page.Err? ==> r == Err(page.error))
              && (page.Ok? ==> r.Ok? && fresh(r.value) && r.value.result == page.value)
    ensures r.Ok? ==> r.value.pageNo == pageNo.value && r.value.pageSize == pageSize.value
    ensures r.Ok? && list.Some? && list.value != [] ==>
              && pageSize.value != 0
              && r.value.totalCount == |list.value|
              && r.value.totalPage == TotalPage(|list.value|, pageSize.value)
    ensures r.Ok? && (list.None? || list.value == []) ==> r.value.totalCount == 0 && r.value.totalPage == 0
  {
    if pageNo.None? || pageSize.None? {
      return Err(NullPointer);
    }
    var pagination := new Pagination<T>(pageNo.value, pageSize.value);
    if list.None? || list.value == [] {
      pagination.result := [];
      return Ok(pagination);
    }
    var no, size := pageNo.value, pageSize.value;
    if no < 1 {
      no := 1;
    }
    var from := Wrap((no as int - 1) * size as int) as int;
    var to := Min(Wrap(no as int * size as int) as int, |list.value|);
    if from > to {
      from := to;
    }
    pagination.totalCount := |list.value|;
    if pagination.pageSize == 0 {
      return Err(DivisionByZero);
    }
    pagination.BuildTotalPage();
    if from < 0 {
      return Err(IndexOutOfBounds);
    }
    pagination.result := list.value[from..to];
    return Ok(pagination);
  }

  // ----- Which pages are right -----

  /** The elements a page should show. */
  function Slice<T>(list: seq<T>, pageNo: nat, pageSize: nat): seq<T>
    requires pageNo >= 1
  {
    NoNegativeProduct(pageNo, pageSize);
    list[Min((pageNo - 1) * pageSize, |list|)..Min(pageNo * pageSize, |list|)]
  }

  lemma NoNegativeProduct(n: nat, m: nat)
    requires n >= 1
    ensures 0 <= (n - 1) * m == n * m - m <= n * m
  {
  }

  /**
   * A page is right exactly when its last index fits in an int, or the page lies beyond the list and its two ends
   * happen to wrap around to a non-negative and not increasing pair.
   */
  lemma PageRightIff<T>(list: List<T>, pageNo: int32, pageSize: int32)
    requires list != [] && pageNo >= 1 && pageSize >= 1
    ensures var no, size := pageNo as int, pageSize as int;
            PageOf(list, pageNo, pageSize) == Ok(Slice(list, no, size)) <==>
            || no * size < 0x8000_0000
            || (|list| <= (no - 1) * size && 0 <= To(|list|, pageNo, pageSize) <= Wrap((no - 1) * size) as int)
  {
    var no, size := pageNo as int, pageSize as int;
    NoNegativeProduct(no, size);
    RightIff(list, (no - 1) * size, size, Wrap((no - 1) * size) as int, Wrap(no * size) as int);
  }

  lemma RightIff<T>(list: List<T>, start: nat, size: nat, start': int, end': int)
    requires list != [] && 1 <= size < 0x8000_0000
    requires start' == Wrap(start) as int && end' == Wrap(start + size) as int
    ensures var to := Min(end', |list|);
            var from := Min(start', to);
            from >= 0 && list[from..to] == list[Min(start, |list|)..Min(start + size, |list|)] <==>
            start + size < 0x8000_0000 || (|list| <= start && 0 <= to <= start')
  {
    var to := Min(end', |list|);
    var from := Min(start', to);
    if start + size >= 0x8000_0000 {
      if start < 0x8000_0000 {
        assert end' == start + size - 0x1_0000_0000;
      } else {
        assert |list| <= start;
        assert list[Min(start, |list|)..Min(start + size, |list|)] == [];
        assert from >= 0 ==> |list[from..to]| == to - from;
      }
    }
  }

  /** With a wrapped product, a page far beyond the list shows its beginning again. */
  lemma OverflowRepeatsFirstPage<T>(list: List<T>)
    requires list != []
    ensures Slice(list, 65537, 65536) == []
    ensures PageOf(list, 65537, 65536) == PageOf(list, 1, 65536)
    ensures PageOf(list, 1, 65536) == Ok(list[..Min(65536, |list|)])
  {
  }

  /** Every page number below one shows the first page. */
  lemma BelowOneIsFirst<T>(list: List<T>, pageNo: int32, pageSize: int32)
    requires pageNo < 1
    ensures PageOf(list, pageNo, pageSize) == PageOf(list, 1, pageSize)
    ensures pageSize >= 1 ==> PageOf(list, pageNo, pageSize) == Ok(list[..Min(pageSize as int, |list|)])
  {
    if pageSize >= 1 && list != [] {
      PageRightIff(list, 1, pageSize);
    }
  }

  /** When a page raises: for size zero, and whenever one of its two ends wraps around to a negative number. */
  lemma PageFailsIff<T>(list: List<T>, pageNo: int32, pageSize: int32)
    ensures var no, size := if pageNo < 1 then 1 else pageNo as int, pageSize as int;
            && (PageOf(list, pageNo, pageSize) == Err(DivisionByZero) <==> list != [] && size == 0)
            && (PageOf(list, pageNo, pageSize) == Err(IndexOutOfBounds) <==>
                list != [] && size != 0 && (Wrap((no - 1) * size) < 0 || Wrap(no * size) < 0))
            && PageOf(list, pageNo, pageSize) != Err(NullPointer)
  {
  }

  /** While the product fits, exactly the sizes below one raise. */
  lemma FittingPageFailsIff<T>(list: List<T>, pageNo: int32, pageSize: int32)
    requires list != []
    requires -0x8000_0000 <= FirstPageOr(pageNo) as int * pageSize as int < 0x8000_0000
    ensures PageOf(list, pageNo, pageSize).Err? <==> pageSize < 1
  {
    var no, size := FirstPageOr(pageNo) as int, pageSize as int;
    if size < 0 {
      NoNegativeProduct(no, -size);
      assert no * size == -(no * -size) < 0;
    } else {
      NoNegativeProduct(no, size);
    }
  }

  // ----- Pages partition the list -----

  /** The number of pages is the ceiling of the quotient. */
  lemma TotalPageIsCeiling(count: nat, pageSize: int32)
    requires 1 <= count < 0x8000_0000 && pageSize >= 1
    ensures var pages := TotalPage(count, pageSize) as int;
            pages >= 1 && (pages - 1) * pageSize as int < count <= pages * pageSize as int
  {
    var size := pageSize as int;
    QuotientBound(count, size);
    Ceiling(count, size, count / size, count % size);
    assert Remainder(count, size) == count % size;
  }

  lemma Ceiling(count: nat, size: nat, d: nat, r: nat)
    requires 1 <= count == size * d + r && r < size
    ensures r == 0 ==> d >= 1 && (d - 1) * size < count <= d * size
    ensures r > 0 ==> d * size < count <= (d + 1) * size
  {
    assert (d - 1) * size == size * d - size;
    assert (d + 1) * size == size * d + size;
  }

  lemma QuotientBound(count: nat, size: nat)
    requires size >= 1
    ensures 0 <= count / size <= count
    ensures count == size * (count / size) + count % size && count % size < size
  {
  }

  /** Pages 1 to n, one after the other. */
  function Pages<T>(list: List<T>, pageSize: int32, n: nat): seq<T>
    requires pageSize >= 1 && list != [] && n * pageSize as int < 0x8000_0000
  {
    if n == 0 then []
    else
      ProductBounds(n, pageSize as int);
      Pages(list, pageSize, n - 1) + PageOf(list, n as int32, pageSize).value
  }

  lemma ProductBounds(n: nat, size: nat)
    requires n >= 1 && size >= 1
    ensures n <= n * size && 0 <= (n - 1) * size < n * size
  {
  }

  lemma {:induction false} PagesArePrefix<T>(list: List<T>, pageSize: int32, n: nat)
    requires pageSize >= 1 && list != [] && n * pageSize as int < 0x8000_0000
    ensures Pages(list, pageSize, n) == list[..Min(n * pageSize as int, |list|)]
  {
    if n > 0 {
      ProductBounds(n, pageSize as int);
      PagesArePrefix(list, pageSize, n - 1);
      PageRightIff(list, n as int32, pageSize);
    }
  }

  /** Pages 1 to the total give back the list in order, and every later page is empty. */
  lemma PagesPartition<T>(list: List<T>, pageSize: int32)
    requires pageSize >= 1 && list != []
    requires TotalPage(|list|, pageSize) as int * pageSize as int < 0x8000_0000
    ensures TotalPage(|list|, pageSize) >= 1
    ensures Pages(list, pageSize, TotalPage(|list|, pageSize) as nat) == list
    ensures forall n: int32 ::
              n > TotalPage(|list|, pageSize) && n as int * pageSize as int < 0x8000_0000
              ==> PageOf(list, n, pageSize) == Ok([])
  {
    TotalPageIsCeiling(|list|, pageSize);
    PagesArePrefix(list, pageSize, TotalPage(|list|, pageSize) as int);
    forall n: int32 | n > TotalPage(|list|, pageSize) && n as int * pageSize as int < 0x8000_0000
      ensures PageOf(list, n, pageSize) == Ok([])
    {
      LaterPageEmpty(list, TotalPage(|list|, pageSize) as nat, n, pageSize);
    }
  }

  lemma LaterPageEmpty<T>(list: List<T>, total: nat, n: int32, pageSize: int32)
    requires list != [] && pageSize >= 1 && 1 <= total < n as int
    requires |list| <= total * pageSize as int && n as int * pageSize as int < 0x8000_0000
    ensures PageOf(list, n, pageSize) == Ok([])
  {
    PageRightIff(list, n, pageSize);
    Monotone(total, n as int - 1, pageSize as int);
    SliceBeyond(list, n as nat, pageSize as nat);
  }

  lemma SliceBeyond<T>(list: seq<T>, pageNo: nat, pageSize: nat)
    requires pageNo >= 1 && |list| <= (pageNo - 1) * pageSize
    ensures Slice(list, pageNo, pageSize) == []
  {
    NoNegativeProduct(pageNo, pageSize);
  }

  lemma Monotone(a: nat, b: nat, size: nat)
    requires a <= b
    ensures a * size <= b * size
  {
  }
}
