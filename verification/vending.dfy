/** `VendingMachine::purchase` (2_idioms/src/main.rs). The machine is only a
    stock table and the coins it holds; there is no restocking and no state
    tag. */
module Vending {
  import opened Base
  import opened Coins

  /** `Product`: a name and a price; it is the key of the stock table. */
  datatype Product = Product(name: string, price: u32)

  /** `VendingMachine { stored: HashMap<Product, u8>, has: InCoins }`. */
  datatype VendingMachine = VendingMachine(stored: map<Product, u8>, has: InCoins)

  /** What a successful purchase hands back: `([Product; 1], InCoins)`. */
  datatype Sale = Sale(items: seq<Product>, change: InCoins)

  /** `VendingMachine::purchase`, with `&mut self` as the returned machine.
      Indexing the stock table panics on an unknown product, so the product
      must be stocked. A purchase is refused when at most one unit is left,
      when `total` of the money is below the price, or when `trade` fails; a
      refused purchase leaves the machine as it was. The stock count is never
      changed, not even by a sale. */
  function Purchase(vm: VendingMachine, what: Product, money: InCoins): (r: (VendingMachine, Option<Sale>))
    requires what in vm.stored
    ensures r.0.stored == vm.stored
    ensures r.1.None? ==> r.0 == vm
    ensures vm.stored[what] <= 1 ==> r.1.None?
    ensures Total(money) < what.price ==> r.1.None?
    ensures r.1.Some? <==> vm.stored[what] > 1 && Trade(vm.has, money, what.price).Some?
    ensures r.1.Some? ==>
      && r.1.value.items == [what]
      && Trade(vm.has, money, what.price) == Some((r.0.has, r.1.value.change))
  {
    if vm.stored[what] > 1 then
      if Total(money) < what.price then (vm, None)
      else
        match Trade(vm.has, money, what.price)
        case None => (vm, None)
        case Some((inner, change)) => (vm.(has := inner), Some(Sale([what], change)))
    else (vm, None)
  }

  /** As written, a purchase goes through exactly when more than one unit is
      stocked and the price is 3030; the machine then keeps all the customer's
      coins, gives no change, and its stock count stays the same. */
  lemma PurchaseSucceedsOnlyAt3030(vm: VendingMachine, what: Product, money: InCoins)
    requires what in vm.stored
    ensures (Purchase(vm, what, money).1.Some?) <==> vm.stored[what] > 1 && what.price == 3030
    ensures Purchase(vm, what, money).1.Some? ==>
      Purchase(vm, what, money) == (VendingMachine(vm.stored, Pool(vm.has, money)), Some(Sale([what], NoCoins)))
  {
    TradeSucceedsOnlyAt3030(vm.has, money, what.price);
  }

  /** However many purchases are made, the stock table never changes. */
  lemma {:induction false} PurchasesNeverDecrementStock(vm: VendingMachine, orders: seq<(Product, InCoins)>)
    requires forall k | 0 <= k < |orders| :: orders[k].0 in vm.stored
    ensures PurchaseAll(vm, orders).stored == vm.stored
    decreases |orders|
  {
    if |orders| > 0 {
      var next := Purchase(vm, orders[0].0, orders[0].1).0;
      PurchasesNeverDecrementStock(next, orders[1..]);
    }
  }

  /** A sequence of `purchase` calls on one machine. */
  function PurchaseAll(vm: VendingMachine, orders: seq<(Product, InCoins)>): VendingMachine
    requires forall k | 0 <= k < |orders| :: orders[k].0 in vm.stored
    decreases |orders|
  {
    if |orders| == 0 then vm
    else
      var next := Purchase(vm, orders[0].0, orders[0].1).0;
      PurchaseAll(next, orders[1..])
  }
}
