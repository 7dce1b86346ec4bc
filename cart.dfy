/**
 * The cart endpoints (Tienda/Controllers/CartController.cs) over the
 * CartItems table, a sequence of rows keyed by their identity column.
 */
module Cart {
  import opened Models

  /** How an endpoint ends: with a body, with no content, or not found. */
  datatype Outcome = Created(item: CartItem) | NoContent | NotFound | StoreFailure

  ghost predicate UniqueIds(items: seq<CartItem>) {
    forall i, j :: 0 <= i < j < |items| ==> items[i].id != items[j].id
  }

  /** `FindAsync(id)`: the position of the row whose key is `id`, if there is one. */
  function IndexOf(items: seq<CartItem>, id: int): (r: Option<nat>)
    ensures r.None? <==> forall i :: 0 <= i < |items| ==> items[i].id != id
    ensures r.Some? ==> r.value < |items| && items[r.value].id == id
  {
    if items == [] then None
    else if items[0].id == id then Some(0)
    else match IndexOf(items[1..], id)
      case None => None
      case Some(i) => Some(i + 1)
  }

  /** The table after `Remove` of the row with key `id`; `None` when there is no such row. */
  function Deleted(items: seq<CartItem>, id: int): Option<seq<CartItem>> {
    match IndexOf(items, id)
    case None => None
    case Some(k) => Some(items[..k] + items[k + 1..])
  }

  /** The table after `item.Quantity = quantity` on the row with key `id`; `None` when there is no such row. */
  function Updated(items: seq<CartItem>, id: int, quantity: int): Option<seq<CartItem>> {
    match IndexOf(items, id)
    case None => None
    case Some(k) => Some(items[k := items[k].(quantity := quantity)])
  }

  class CartController {
    /** The CartItems table, the next value of its identity column, and the keys of the Products table. */
    var items: seq<CartItem>
    var nextId: int
    const productIds: set<int>

    ghost predicate Valid()
      reads this
    {
      && nextId >= 1
      && UniqueIds(items)
      && forall i :: 0 <= i < |items| ==> 0 < items[i].id < nextId
    }

    constructor (productIds: set<int>)
      ensures Valid()
      ensures items == [] && nextId == 1 && this.productIds == productIds
    {
      items := [];
      nextId := 1;
      this.productIds := productIds;
    }

    /** GetCart: every stored row, nothing changed. */
    method GetCart() returns (r: seq<CartItem>)
      ensures r == items
    {
      r := items;
    }

    /**
     * AddToCart: the body becomes one new row with the next id; it is never
     * merged with a row for the same product and its quantity is not checked.
     * The store refuses an explicit id (the key is an identity column) and a
     * product id with no product (the foreign key); then nothing changes.
     */
    method AddToCart(body: CartItem) returns (r: Outcome)
      requires Valid()
      modifies this`items, this`nextId
      ensures Valid()
      ensures body.id != 0 || body.productId !in productIds ==>
        r == StoreFailure && items == old(items) && nextId == old(nextId)
      ensures body.id == 0 && body.productId in productIds ==>
        && r == Created(CartItem(old(nextId), body.productId, body.quantity))
        && items == old(items) + [r.item]
        && nextId == old(nextId) + 1
    {
      if body.id != 0 || body.productId !in productIds {
        return StoreFailure;
      }
      var row := CartItem(nextId, body.productId, body.quantity);
      items := items + [row];
      nextId := nextId + 1;
      r := Created(row);
    }

    /** DeleteCartItem: NotFound with the table unchanged, or the one row with that key removed. */
    method DeleteCartItem(id: int) returns (r: Outcome)
      requires Valid()
      modifies this`items
      ensures Valid()
      ensures Deleted(old(items), id).None? ==> r == NotFound && items == old(items)
      ensures Deleted(old(items), id).Some? ==> r == NoContent && items == Deleted(old(items), id).value
    {
      var k := IndexOf(items, id);
      if k.None? {
        return NotFound;
      }
      items := items[..k.value] + items[k.value + 1..];
      r := NoContent;
    }

    /**
     * UpdateCartItem: NotFound with the table unchanged, or the quantity of
     * the row with that key set to the body's; the body's id and product id
     * are ignored.
     */
    method UpdateCartItem(id: int, body: CartItem) returns (r: Outcome)
      requires Valid()
      modifies this`items
      ensures Valid()
      ensures Updated(old(items), id, body.quantity).None? ==> r == NotFound && items == old(items)
      ensures Updated(old(items), id, body.quantity).Some? ==>
        r == NoContent && items == Updated(old(items), id, body.quantity).value
    {
      var k := IndexOf(items, id);
      if k.None? {
        return NotFound;
      }
      items := items[k.value := items[k.value].(quantity := body.quantity)];
      r := NoContent;
    }
  }

  /**
   * Deleting a present key removes exactly that row: the rest keep their
   * order, the key is gone, and deleting it again finds nothing.
   */
  lemma DeleteRemovesExactlyOne(items: seq<CartItem>, id: int)
    requires UniqueIds(items)
    requires IndexOf(items, id).Some?
    ensures var k := IndexOf(items, id).value;
      && Deleted(items, id) == Some(items[..k] + items[k + 1..])
      && |Deleted(items, id).value| == |items| - 1
      && multiset(Deleted(items, id).value) + multiset{items[k]} == multiset(items)
      && Deleted(Deleted(items, id).value, id).None?
  {
    var k := IndexOf(items, id).value;
    var rest := items[..k] + items[k + 1..];
    assert items == items[..k] + [items[k]] + items[k + 1..];
    forall i | 0 <= i < |rest|
      ensures rest[i].id != id
    {
      if i < k {
        assert rest[i] == items[i];
      } else {
        assert rest[i] == items[i + 1];
      }
    }
  }

  /** Deleting an absent key changes nothing. */
  lemma DeleteAbsent(items: seq<CartItem>, id: int)
    requires forall i :: 0 <= i < |items| ==> items[i].id != id
    ensures Deleted(items, id).None?
  {
  }

  /**
   * Updating a present key changes that row's quantity and nothing else: the
   * row keeps its id and product, every other row is as it was.
   */
  lemma UpdateChangesOnlyQuantity(items: seq<CartItem>, id: int, quantity: int)
    requires IndexOf(items, id).Some?
    ensures var k := IndexOf(items, id).value;
      var after := Updated(items, id, quantity).value;
      && |after| == |items|
      && after[k] == CartItem(id, items[k].productId, quantity)
      && forall i :: 0 <= i < |items| && i != k ==> after[i] == items[i]
  {
  }

  /** Applying the same update twice leaves the table as applying it once. */
  lemma UpdateIdempotent(items: seq<CartItem>, id: int, quantity: int)
    ensures Updated(items, id, quantity).Some? ==>
      Updated(Updated(items, id, quantity).value, id, quantity) == Updated(items, id, quantity)
  {
    match IndexOf(items, id)
    case None =>
    case Some(k) =>
      var once := items[k := items[k].(quantity := quantity)];
      IndexOfSameKeys(items, once, id);
      assert once[k := once[k].(quantity := quantity)] == once;
  }

  /** Rewriting rows without touching their keys leaves every key where it was. */
  lemma {:induction false} IndexOfSameKeys(a: seq<CartItem>, b: seq<CartItem>, id: int)
    requires |a| == |b|
    requires forall i :: 0 <= i < |a| ==> a[i].id == b[i].id
    ensures IndexOf(a, id) == IndexOf(b, id)
  {
    if a != [] {
      IndexOfSameKeys(a[1..], b[1..], id);
    }
  }
}
