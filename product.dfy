/** A product record in the inventory. */
module ProductModel {
  import opened Wrappers
  import opened Allocation

  class Product {
    /** Fixed at construction: there is no setter. */
    const productID: int
    var name: string
    var author: string
    var category: string
    var quantity: int
    /** Prices are whole units here; see the README for floating point. */
    var price: int

    /** Without `productId` the id is taken from the counter; with it, that id is used
        and the counter is moved past it. */
    constructor (ids: Allocator, name: string, author: string, category: string,
                 quantity: int, price: int, productId: Option<int>)
      requires ids.Valid()
      modifies ids
      ensures ids.Valid()
      ensures productId.None? ==> productID == old(ids.next) && ids.next == old(ids.next) + 1
      ensures productId.Some? ==>
        productID == productId.value && ids.next == Advance(old(ids.next), productId.value)
      ensures productID < ids.next && ids.seen == old(ids.seen) + {productID}
      ensures forall x :: x in old(ids.seen) && productId.None? ==> x < productID
      ensures this.name == name && this.author == author && this.category == category
      ensures this.quantity == quantity && this.price == price
    {
      var id: int;
      if productId.None? {
        id := ids.Issue();
      } else {
        id := productId.value;
        ids.Observe(id);
      }
      productID := id;
      this.name := name;
      this.author := author;
      this.category := category;
      this.quantity := quantity;
      this.price := price;
    }

    /** The stock value: price times quantity, always from the current fields. */
    function Total(): int
      reads this
    {
      price * quantity
    }

    method SetName(value: string)
      modifies this`name
      ensures name == value
    {
      name := value;
    }

    method SetAuthor(value: string)
      modifies this`author
      ensures author == value
    {
      author := value;
    }

    method SetCategory(value: string)
      modifies this`category
      ensures category == value
    {
      category := value;
    }

    method SetQuantity(value: int)
      modifies this`quantity
      ensures quantity == value && Total() == price * value
    {
      quantity := value;
    }

    method SetPrice(value: int)
      modifies this`price
      ensures price == value && Total() == value * quantity
    {
      price := value;
    }
  }
}
