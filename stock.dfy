/**
 * The `Stock` entity: an id, a quantity and the JPA version attribute, with the
 * guarded in-place decrement `decrease`.
 */
module StockDomain {
  import opened Results
  import opened JavaLong

  /** The exceptions the stock code paths raise, as values. */
  datatype Exception =
    | ItemNotFound          // RuntimeException("아이템이 존재하지 않습니다"): `findById(..).orElseThrow`
    | NullPointer           // a locked finder returned null for a missing id and `stock.decrease` was called on it
    | InsufficientStock     // RuntimeException("재고가 부족합니다"): thrown by `Stock.decrease`
    | OptimisticLockFailure // the version-guarded UPDATE of `saveAndFlush` matched no row

  /** The field values of a `Stock` object; `version` is None while it is null. */
  datatype StockState = StockState(id: Long, quantity: Long, version: Option<nat>)

  /**
   * What `decrease(amount)` does to a stock of `quantity`: the guard
   * `quantity - amount < 0` and the new value are both computed in `long`
   * arithmetic, and the sign of `amount` is not checked.
   */
  function Decreased(quantity: Long, amount: Long): (r: Result<Long, Exception>)
    ensures r.Failure? ==> r.error == InsufficientStock
    ensures r.Success? ==> r.value >= 0
    ensures InLongRange(quantity - amount) ==>
              (r.Success? <==> amount <= quantity) && (r.Success? ==> r.value == quantity - amount)
  {
    var remaining := Sub(quantity, amount);
    if remaining < 0 then Failure(InsufficientStock) else Success(remaining)
  }

  /** On the non-negative values the service is used with, `long` arithmetic never wraps. */
  lemma DecreaseOfNonNegative(quantity: Long, amount: Long)
    requires quantity >= 0 && amount >= 0
    ensures Decreased(quantity, amount).Success? <==> amount <= quantity
    ensures amount <= quantity ==> Decreased(quantity, amount) == Success(quantity - amount)
  {
  }

  /** Taking the whole quantity is allowed: the guard is a strict `< 0`. */
  lemma DecreaseByEverything(quantity: Long)
    ensures Decreased(quantity, quantity) == Success(0)
  {
  }

  /** A negative amount passes the guard and raises the quantity. */
  lemma NegativeAmountIncreases(quantity: Long, amount: Long)
    requires quantity >= 0 && amount < 0
    requires quantity - amount <= LONG_MAX
    ensures Decreased(quantity, amount) == Success(quantity - amount)
    ensures Decreased(quantity, amount).value > quantity
  {
  }

  /**
   * A negative amount large enough to overflow the subtraction is rejected as
   * insufficient stock, although the true difference is positive.
   */
  lemma OverflowingAmountRejected(quantity: Long, amount: Long)
    requires quantity >= 0 && amount < 0
    requires quantity - amount > LONG_MAX
    ensures Decreased(quantity, amount) == Failure(InsufficientStock)
  {
  }

  /**
   * A negative stored quantity (the builder accepts one) and a large amount can
   * wrap to a non-negative remainder that passes the guard.
   */
  lemma UnderflowingDifferenceAccepted()
    ensures Decreased(-2, LONG_MAX) == Success(LONG_MAX)
  {
  }

  class Stock {
    var id: Long
    var quantity: Long
    var version: Option<nat>

    function State(): (s: StockState)
      reads this
    {
      StockState(id, quantity, version)
    }

    /** `Stock.builder().id(id).quantity(quantity).build()`: the version stays null. */
    constructor (id: Long, quantity: Long)
      ensures this.id == id && this.quantity == quantity && version == None
    {
      this.id := id;
      this.quantity := quantity;
      version := None;
    }

    /** An entity hydrated by JPA from a stored row, through the no-argument constructor. */
    constructor Load(id: Long, quantity: Long, version: nat)
      ensures this.id == id && this.quantity == quantity && this.version == Some(version)
    {
      this.id := id;
      this.quantity := quantity;
      this.version := Some(version);
    }

    /**
     * `decrease(amount)`: throws before any assignment when the guard fails,
     * otherwise overwrites `quantity`; `id` and `version` are never touched.
     */
    method Decrease(amount: Long) returns (r: Outcome<Exception>)
      modifies this`quantity
      ensures id == old(id) && version == old(version)
      ensures match Decreased(old(quantity), amount)
                case Success(q) => r == Pass && quantity == q
                case Failure(e) => r == Fail(e) && quantity == old(quantity)
      ensures r.Pass? ==> quantity >= 0
    {
      var remaining := Sub(quantity, amount);
      if remaining < 0 {
        return Fail(InsufficientStock);
      }
      quantity := remaining;
      r := Pass;
    }
  }
}
