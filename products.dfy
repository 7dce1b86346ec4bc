/**
 * The product listing endpoint (Tienda/Controllers/ProductController.cs):
 * count the products, compute the number of pages, and return one page as a
 * skip/take slice of the Products table.
 */
module Products {
  import opened Models

  const DefaultPage: int := 1
  const DefaultPageSize: int := 6
  const InternalErrorPrefix: string := "Error interno: "

  /** `PagedResult<T>`: one page of items and the numbers that locate it. */
  datatype PagedResult<T> = PagedResult(items: seq<T>, total: int, page: int, pageSize: int, totalPages: int)

  /** 200 with a page, or 500 with a text that ends in the exception's message. */
  datatype Response = Ok(result: PagedResult<Product>) | ServerError(body: string)

  function Min(a: int, b: int): int {
    if a <= b then a else b
  }

  /** `(int)Math.Ceiling(total / (double)size)`: the least number of pages of `size` items that hold `total` items. */
  function CeilDiv(total: nat, size: nat): (r: nat)
    requires size >= 1
    ensures r * size >= total
    ensures r > 0 ==> (r - 1) * size < total
  {
    var q := (total + size - 1) / size;
    var m := (total + size - 1) % size;
    assert q * size + m == total + size - 1;
    assert (q - 1) * size == q * size - size;
    q
  }

  /** `Skip(skip).Take(take)` over the table in its query order. */
  function SkipTake<T>(s: seq<T>, skip: nat, take: nat): (r: seq<T>)
    ensures |r| <= take
    ensures skip >= |s| ==> r == []
    ensures skip < |s| ==> |r| == Min(take, |s| - skip)
    ensures forall i :: 0 <= i < |r| ==> r[i] == s[skip + i]
  {
    if skip >= |s| then [] else s[skip..Min(skip + take, |s|)]
  }

  /** The items of page `page` (counted from 1) when pages hold `size` items. */
  function PageItems<T>(s: seq<T>, page: int, size: int): seq<T>
    requires page >= 1 && size >= 1
  {
    SkipTake(s, (page - 1) * size, size)
  }

  /**
   * GetProducts with the defaults for absent query parameters, over a query
   * that either yields the table or throws with a message.
   */
  function GetProducts(store: Result<seq<Product>, string>, page: Option<int>, pageSize: Option<int>): (r: Response)
    requires page.GetOr(DefaultPage) >= 1 && pageSize.GetOr(DefaultPageSize) >= 1
    ensures r.ServerError? <==> store.Failure?
    ensures store.Failure? ==> r.body == InternalErrorPrefix + store.error
    ensures store.Success? ==>
      && r.result.total == |store.value|
      && r.result.page == page.GetOr(DefaultPage)
      && r.result.pageSize == pageSize.GetOr(DefaultPageSize)
      && r.result.totalPages == CeilDiv(r.result.total, r.result.pageSize)
      && r.result.items == PageItems(store.value, r.result.page, r.result.pageSize)
      && |r.result.items| <= r.result.pageSize
  {
    match store
    case Failure(message) => ServerError(InternalErrorPrefix + message)
    case Success(products) =>
      var p := page.GetOr(DefaultPage);
      var size := pageSize.GetOr(DefaultPageSize);
      Ok(PagedResult(PageItems(products, p, size), |products|, p, size, CeilDiv(|products|, size)))
  }

  /** Omitted query parameters mean page 1 of 6 items. */
  lemma DefaultsArePageOneOfSix(store: seq<Product>)
    ensures var r := GetProducts(Success(store), None, None).result;
      r.page == 1 && r.pageSize == 6 && r.items == store[..Min(6, |store|)]
  {
  }

  /** A page is the contiguous run of the table that starts at `(page - 1) * pageSize`. */
  lemma PageIsSlice(store: seq<Product>, page: int, size: int)
    requires page >= 1 && size >= 1
    ensures var items := GetProducts(Success(store), Some(page), Some(size)).result.items;
      var start := (page - 1) * size;
      items == if start < |store| then store[start..Min(start + size, |store|)] else []
  {
  }

  /** Every page after the last one is empty. */
  lemma PageBeyondLastIsEmpty(store: seq<Product>, page: int, size: int)
    requires page >= 1 && size >= 1
    requires page > CeilDiv(|store|, size)
    ensures GetProducts(Success(store), Some(page), Some(size)).result.items == []
  {
    var last := CeilDiv(|store|, size);
    assert (page - 1) * size >= last * size by {
      assert page - 1 >= last;
      MulMonotone(last, page - 1, size);
    }
  }

  lemma MulMonotone(a: nat, b: nat, c: nat)
    requires a <= b
    ensures a * c <= b * c
  {
  }

  /** Pages 1 through `n`, one after the other. */
  function PagesUpTo<T>(s: seq<T>, size: int, n: nat): seq<T>
    requires size >= 1
  {
    if n == 0 then [] else PagesUpTo(s, size, n - 1) + PageItems(s, n, size)
  }

  /** The first `n` pages are the first `n * size` items (or the whole table, if shorter). */
  lemma {:induction false} PagesUpToIsPrefix<T>(s: seq<T>, size: int, n: nat)
    requires size >= 1
    ensures PagesUpTo(s, size, n) == s[..Min(n * size, |s|)]
  {
    if n > 0 {
      PagesUpToIsPrefix(s, size, n - 1);
      var start := (n - 1) * size;
      assert n * size == start + size;
      if start < |s| {
        assert s[..Min(n * size, |s|)] == s[..start] + s[start..Min(start + size, |s|)];
      } else {
        assert Min(n * size, |s|) == |s|;
      }
    }
  }

  /** Reading pages 1 to TotalPages in order gives back the whole table. */
  lemma PagesReconstructStore(store: seq<Product>, size: int)
    requires size >= 1
    ensures PagesUpTo(store, size, GetProducts(Success(store), Some(1), Some(size)).result.totalPages) == store
  {
    var n := CeilDiv(|store|, size);
    PagesUpToIsPrefix(store, size, n);
    assert Min(n * size, |store|) == |store|;
  }

  /*
   * The offset as the source computes it: `(page - 1) * pageSize` in 32-bit
   * arithmetic, which wraps around (C#'s default unchecked context).
   */

  const Int32Modulus: int := 0x1_0000_0000
  const Int32Max: int := 0x7FFF_FFFF

  predicate IsInt32(x: int) {
    -0x8000_0000 <= x <= Int32Max
  }

  /** The 32-bit two's-complement value of `x`. */
  function WrapInt32(x: int): (r: int)
    ensures IsInt32(r)
    ensures (r - x) % Int32Modulus == 0
    ensures IsInt32(x) ==> r == x
  {
    var m := x % Int32Modulus;
    if m <= Int32Max then m else m - Int32Modulus
  }

  /**
   * GetProducts as written, for 32-bit arguments and a table whose count fits
   * in an `int`: the offset wraps; a negative offset makes the store's
   * OFFSET clause fail, which the catch turns into a 500 with the store's
   * message.
   */
  function GetProductsAsWritten(store: seq<Product>, page: int, size: int, offsetError: string): (r: Response)
    requires IsInt32(page) && IsInt32(size) && page >= 1 && size >= 1 && |store| <= Int32Max
    ensures r.Ok? ==> r.result.total == |store| && r.result.page == page && r.result.pageSize == size
    ensures r.ServerError? <==> WrapInt32((page - 1) * size) < 0
    ensures r.Ok? ==>
      && r.result.items == SkipTake(store, WrapInt32((page - 1) * size), size)
      && r.result.totalPages == CeilDiv(|store|, size)
  {
    var offset := WrapInt32((page - 1) * size);
    if offset < 0 then ServerError(InternalErrorPrefix + offsetError)
    else Ok(PagedResult(SkipTake(store, offset, size), |store|, page, size, CeilDiv(|store|, size)))
  }

  /**
   * Where the two agree: while `(page - 1) * pageSize` fits in an `int`, the
   * source's result is the one `GetProducts` describes.
   */
  lemma AsWrittenAgreesWithoutOverflow(store: seq<Product>, page: int, size: int, offsetError: string)
    requires IsInt32(page) && IsInt32(size) && page >= 1 && size >= 1 && |store| <= Int32Max
    requires (page - 1) * size <= Int32Max
    ensures GetProductsAsWritten(store, page, size, offsetError) == GetProducts(Success(store), Some(page), Some(size))
  {
    var offset := (page - 1) * size;
    MulMonotone(0, page - 1, size);
    assert WrapInt32(offset) == offset;
  }

  /**
   * The wrap-around shows: page 65537 of 65536 items starts at offset
   * 65536 * 65536 = 2^32, which wraps to 0, so a page far past the last one
   * returns the first page of a non-empty table instead of nothing.
   */
  lemma WrappedOffsetRepeatsFirstPage(store: seq<Product>)
    requires 0 < |store| <= Int32Max
    ensures var r := GetProductsAsWritten(store, 65537, 65536, "");
      && r.Ok?
      && r.result.page > r.result.totalPages
      && r.result.items == store[..Min(65536, |store|)]
      && r.result.items != []
  {
    assert (65537 - 1) * 65536 == Int32Modulus;
    assert WrapInt32(Int32Modulus) == 0;
  }

  /**
   * The wrap-around shows a second way: page 3 of 2^30 items starts at offset
   * 2^31, which wraps to -2^31, so the source answers 500 where the intended
   * endpoint gives an empty page.
   */
  lemma WrappedOffsetFailsRequest(store: seq<Product>, offsetError: string)
    requires |store| <= Int32Max
    ensures GetProductsAsWritten(store, 3, 0x4000_0000, offsetError).ServerError?
    ensures GetProducts(Success(store), Some(3), Some(0x4000_0000)).result.items == []
  {
    assert (3 - 1) * 0x4000_0000 == 0x8000_0000;
    assert WrapInt32(0x8000_0000) == -0x8000_0000;
  }
}
