/** A sale record: who bought what, at which price, with the buyer's role at the time. */
module SaleModel {
  import opened Wrappers
  import opened Allocation

  /** The value of a sale's fields. */
  datatype SaleRec = SaleRec(id: int, username: string, product: string, quantity: int,
                             price: int, role: int)

  /** Price times quantity. */
  function RecTotal(s: SaleRec): int
  {
    s.price * s.quantity
  }

  class Sale {
    const saleID: int
    /** Read-only after construction. */
    const username: string
    const product: string
    const role: int
    /** The only fields with setters. */
    var quantity: int
    var price: int

    /** Same id rule as the other entities; quantity, price and role are stored as the
        numbers given (the original coerces them to int, float and int). */
    constructor (ids: Allocator, username: string, product: string, quantity: int,
                 price: int, role: int, saleId: Option<int>)
      requires ids.Valid()
      modifies ids
      ensures ids.Valid()
      ensures saleId.None? ==> saleID == old(ids.next) && ids.next == old(ids.next) + 1
      ensures saleId.Some? ==>
        saleID == saleId.value && ids.next == Advance(old(ids.next), saleId.value)
      ensures saleID < ids.next && ids.seen == old(ids.seen) + {saleID}
      ensures forall x :: x in old(ids.seen) && saleId.None? ==> x < saleID
      ensures Rec() == SaleRec(saleID, username, product, quantity, price, role)
    {
      var id: int;
      if saleId.None? {
        id := ids.Issue();
      } else {
        id := saleId.value;
        ids.Observe(id);
      }
      saleID := id;
      this.username := username;
      this.product := product;
      this.role := role;
      this.quantity := quantity;
      this.price := price;
    }

    function Rec(): SaleRec
      reads this
    {
      SaleRec(saleID, username, product, quantity, price, role)
    }

    function Total(): int
      reads this
    {
      price * quantity
    }

    method SetQuantity(value: int)
      modifies this`quantity
      ensures quantity == value && Total() == price * value
    {
      quantity := value;
    }

    method SetPrice(value: int)
      modifies this`price
      ensures price == value && Total() == value * quantity
    {
      price := value;
    }
  }
}
