/**
 * `StockService`: four ways of running read, `Stock.decrease`, `saveAndFlush`
 * against the repository, here in a single sequential run.
 */
module Service {
  import opened Results
  import opened JavaLong
  import opened StockDomain
  import opened Repository

  /**
   * One read-decrease-save on the table `rows`: look up `id`, apply the entity's
   * guarded decrement, and save the entity with the version it was read at.
   */
  function ReadDecreaseSave(rows: map<Long, Row>, id: Long, amount: Long): (r: Result<map<Long, Row>, Exception>)
    ensures r == Failure(ItemNotFound) <==> id !in rows
    ensures r == Failure(InsufficientStock) <==> id in rows && Decreased(rows[id].quantity, amount).Failure?
    ensures r.Failure? ==> r.error == ItemNotFound || r.error == InsufficientStock
    ensures r.Success? ==> id in rows && r.value.Keys == rows.Keys
    ensures r.Success? ==> r.value[id].quantity == Decreased(rows[id].quantity, amount).value
    ensures r.Success? ==> r.value[id].version == rows[id].version + 1
    ensures r.Success? ==> forall k :: k in rows && k != id ==> r.value[k] == rows[k]
  {
    if id !in rows then Failure(ItemNotFound)
    else
      var read := Loaded(id, rows[id]);
      match Decreased(read.quantity, amount)
      case Failure(e) => Failure(e)
      case Success(q) => Save(rows, read.(quantity := q))
  }

  /** With a stored quantity and an amount in the service's non-negative domain, it takes off exactly `amount`. */
  lemma ReadDecreaseSaveExact(rows: map<Long, Row>, id: Long, amount: Long)
    requires id in rows && 0 <= rows[id].quantity && 0 <= amount
    ensures ReadDecreaseSave(rows, id, amount).Success? <==> amount <= rows[id].quantity
    ensures amount <= rows[id].quantity ==>
              ReadDecreaseSave(rows, id, amount) == Success(rows[id := Row(rows[id].quantity - amount, rows[id].version + 1)])
  {
  }

  /** `times` calls in a row with the same arguments; the first failure ends the run. */
  function RunSequentially(rows: map<Long, Row>, id: Long, amount: Long, times: nat): (r: Result<map<Long, Row>, Exception>)
    decreases times
  {
    if times == 0 then Success(rows)
    else
      match ReadDecreaseSave(rows, id, amount)
      case Failure(e) => Failure(e)
      case Success(after) => RunSequentially(after, id, amount, times - 1)
  }

  /**
   * Run one after another, `n` unit decrements of a stock of `n` all succeed,
   * leave quantity 0 with the version advanced by `n`, and one more is rejected.
   */
  lemma {:induction false} SequentialDrain(rows: map<Long, Row>, id: Long, n: nat)
    requires id in rows && rows[id].quantity == n
    ensures RunSequentially(rows, id, 1, n) == Success(rows[id := Row(0, rows[id].version + n)])
    ensures ReadDecreaseSave(rows[id := Row(0, rows[id].version + n)], id, 1) == Failure(InsufficientStock)
  {
    var drained := rows[id := Row(0, rows[id].version + n)];
    if n > 0 {
      ReadDecreaseSaveExact(rows, id, 1);
      var after := rows[id := Row(rows[id].quantity - 1, rows[id].version + 1)];
      assert ReadDecreaseSave(rows, id, 1) == Success(after);
      SequentialDrain(after, id, n - 1);
      assert after[id := Row(0, after[id].version + (n - 1))] == drained;
    } else {
      assert drained == rows;
    }
    DecreaseOfNonNegative(0, 1);
  }

  /**
   * The repository calls of one read-decrease-save that reads with `read`:
   * the read, then `saveAndFlush` only when the row exists and `decrease` passed.
   */
  ghost function Accesses(read: Call, rows: map<Long, Row>, id: Long, amount: Long): (calls: seq<Call>)
  {
    [read] + if id in rows && Decreased(rows[id].quantity, amount).Success? then [SaveAndFlushCall(id)] else []
  }

  class StockService {
    const repository: StockRepository

    constructor (repository: StockRepository)
      ensures this.repository == repository
    {
      this.repository := repository;
    }

    /** `decrease(id, quantity)`: `findById`, `stock.decrease`, `saveAndFlush`. */
    method Decrease(id: Long, quantity: Long) returns (r: Outcome<Exception>)
      modifies repository`rows, repository`calls
      ensures repository.calls == old(repository.calls) + Accesses(FindByIdCall(id), old(repository.rows), id, quantity)
      ensures Reflects(r, repository.rows, ReadDecreaseSave(old(repository.rows), id, quantity), old(repository.rows))
    {
      var found := repository.FindById(id);
      if found.None? {
        return Fail(ItemNotFound);
      }
      var stock := found.value;
      r := stock.Decrease(quantity);
      if r.Fail? {
        return;
      }
      r := repository.SaveAndFlush(stock);
    }

    /** `decrease_pessimistic_lock(id, quantity)`: the row is read `for update`; a missing row reads as null. */
    method DecreasePessimisticLock(id: Long, quantity: Long) returns (r: Outcome<Exception>)
      modifies repository`rows, repository`calls
      ensures repository.calls == old(repository.calls) + Accesses(FindByIdWithPessimisticLockCall(id), old(repository.rows), id, quantity)
      ensures id !in old(repository.rows) ==> r == Fail(NullPointer) && repository.rows == old(repository.rows)
      ensures id in old(repository.rows) ==>
                Reflects(r, repository.rows, ReadDecreaseSave(old(repository.rows), id, quantity), old(repository.rows))
    {
      var stock := repository.FindByIdWithPessimisticLock(id);
      if stock == null {
        return Fail(NullPointer);
      }
      r := stock.Decrease(quantity);
      if r.Fail? {
        return;
      }
      r := repository.SaveAndFlush(stock);
    }

    /** `decrease_optimistic_lock(id, quantity)`: the save is guarded by the version read; a missing row reads as null. */
    method DecreaseOptimisticLock(id: Long, quantity: Long) returns (r: Outcome<Exception>)
      modifies repository`rows, repository`calls
      ensures repository.calls == old(repository.calls) + Accesses(FindByIdWithOptimisticLockCall(id), old(repository.rows), id, quantity)
      ensures id !in old(repository.rows) ==> r == Fail(NullPointer) && repository.rows == old(repository.rows)
      ensures id in old(repository.rows) ==>
                Reflects(r, repository.rows, ReadDecreaseSave(old(repository.rows), id, quantity), old(repository.rows))
    {
      var stock := repository.FindByIdWithOptimisticLock(id);
      if stock == null {
        return Fail(NullPointer);
      }
      r := stock.Decrease(quantity);
      if r.Fail? {
        return;
      }
      r := repository.SaveAndFlush(stock);
    }

    /**
     * `decrease_named_lock(id, quantity)`: `getLock(id.toString())`, the body of
     * `decrease`, and in `finally` `releaseLock(id.toString())`. Whether the lock
     * was obtained is not looked at.
     */
    method DecreaseNamedLock(id: Long, quantity: Long) returns (r: Outcome<Exception>)
      requires repository.Valid()
      modifies repository`rows, repository`sessionLocks, repository`calls
      ensures repository.Valid()
      ensures repository.sessionLocks == old(repository.sessionLocks)
      ensures repository.calls ==
                old(repository.calls) + [GetLockCall(ToString(id), LOCK_TIMEOUT_SECONDS)]
                + Accesses(FindByIdCall(id), old(repository.rows), id, quantity)
                + [ReleaseLockCall(ToString(id))]
      ensures Reflects(r, repository.rows, ReadDecreaseSave(old(repository.rows), id, quantity), old(repository.rows))
    {
      var key := ToString(id);
      // try
      var acquired := repository.GetLock(key);
      ghost var locked := repository.calls;
      var found := repository.FindById(id);
      if found.None? {
        r := Fail(ItemNotFound);
      } else {
        var stock := found.value;
        r := stock.Decrease(quantity);
        if r.Pass? {
          r := repository.SaveAndFlush(stock);
        }
      }
      assert repository.calls == locked + Accesses(FindByIdCall(id), old(repository.rows), id, quantity);
      // finally
      var released := repository.ReleaseLock(key);
      GetThenReleaseRestores(old(repository.sessionLocks), repository.foreignLocks, key);
    }
  }
}
