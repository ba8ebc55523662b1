/**
 * `StockRepository` over an abstract database: the table of stock rows and the
 * MySQL named-lock state seen by the service's database session.
 */
module Repository {
  import opened Results
  import opened JavaLong
  import opened StockDomain

  /** The persisted columns of one stock row (its key is the map key). */
  datatype Row = Row(quantity: Long, version: nat)

  /** The timeout argument of `get_lock(:key, 3000)`; MySQL reads it as seconds. */
  const LOCK_TIMEOUT_SECONDS: nat := 3000

  /** A repository call the service issued, in the order issued. */
  datatype Call =
    | FindByIdCall(id: Long)
    | FindByIdWithPessimisticLockCall(id: Long)
    | FindByIdWithOptimisticLockCall(id: Long)
    | SaveAndFlushCall(id: Long)
    | GetLockCall(name: string, timeoutSeconds: nat)
    | ReleaseLockCall(name: string)

  /** The managed entity JPA builds for the row stored under `id`. */
  function Loaded(id: Long, row: Row): (s: StockState)
  {
    StockState(id, row.quantity, Some(row.version))
  }

  /**
   * `saveAndFlush` of a managed, versioned entity: the UPDATE carries
   * `where version = <version read>`, writes the entity's quantity and bumps the
   * version; when it matches no row the save fails and nothing is written.
   */
  function Save(rows: map<Long, Row>, s: StockState): (r: Result<map<Long, Row>, Exception>)
    requires s.version.Some?
    ensures r.Failure? <==> s.id !in rows || rows[s.id].version != s.version.value
    ensures r.Failure? ==> r.error == OptimisticLockFailure
    ensures r.Success? ==> r.value.Keys == rows.Keys
    ensures r.Success? ==> r.value[s.id].quantity == s.quantity
    ensures r.Success? ==> r.value[s.id].version == rows[s.id].version + 1
    ensures r.Success? ==> forall k :: k in rows && k != s.id ==> r.value[k] == rows[k]
  {
    if s.id in rows && rows[s.id].version == s.version.value then
      Success(rows[s.id := Row(s.quantity, s.version.value + 1)])
    else
      Failure(OptimisticLockFailure)
  }

  /** Saving an entity straight after reading it always passes the version guard. */
  lemma FreshReadSaves(rows: map<Long, Row>, id: Long, quantity: Long)
    requires id in rows
    ensures Save(rows, Loaded(id, rows[id]).(quantity := quantity)) == Success(rows[id := Row(quantity, rows[id].version + 1)])
  {
  }

  /**
   * Two entities read from the same row: once one of them is saved, saving the
   * other fails, because the stored version moved on.
   */
  lemma StaleSaveRejected(rows: map<Long, Row>, id: Long, first: Long, second: Long)
    requires id in rows
    ensures var after := Save(rows, Loaded(id, rows[id]).(quantity := first)).value;
            Save(after, Loaded(id, rows[id]).(quantity := second)) == Failure(OptimisticLockFailure)
  {
  }

  /** The session never holds a name another session holds. */
  ghost predicate Exclusive(held: multiset<string>, foreign: set<string>) {
    forall name :: name in held ==> name !in foreign
  }

  /** `get_lock(name, ..)` in this session: it re-enters a lock the session already holds. */
  function AfterGetLock(held: multiset<string>, foreign: set<string>, name: string): (h: multiset<string>)
    ensures name in foreign ==> h == held
    ensures name !in foreign ==> h[name] == held[name] + 1
    ensures forall other :: other != name ==> h[other] == held[other]
  {
    if name in foreign then held else held + multiset{name}
  }

  /** `release_lock(name)` in this session: a no-op for a lock the session does not hold. */
  function AfterReleaseLock(held: multiset<string>, name: string): (h: multiset<string>)
    ensures name in held ==> h[name] == held[name] - 1
    ensures name !in held ==> h == held
    ensures forall other :: other != name ==> h[other] == held[other]
  {
    held - multiset{name}
  }

  /** Acquiring and then releasing the same name restores the session's locks, whether or not the acquisition succeeded. */
  lemma GetThenReleaseRestores(held: multiset<string>, foreign: set<string>, name: string)
    requires Exclusive(held, foreign)
    ensures AfterReleaseLock(AfterGetLock(held, foreign, name), name) == held
  {
  }

  lemma GetLockKeepsExclusive(held: multiset<string>, foreign: set<string>, name: string)
    requires Exclusive(held, foreign)
    ensures Exclusive(AfterGetLock(held, foreign, name), foreign)
  {
  }

  /** The method outcome `r` and the rows `after` are those `expected` describes; on failure nothing was written. */
  ghost predicate Reflects(r: Outcome<Exception>, after: map<Long, Row>,
                           expected: Result<map<Long, Row>, Exception>, before: map<Long, Row>)
  {
    match expected
    case Success(m) => r == Pass && after == m
    case Failure(e) => r == Fail(e) && after == before
  }

  class StockRepository {
    /** The stock table. */
    var rows: map<Long, Row>
    /** Named locks held by this session, with their re-entry counts. */
    var sessionLocks: multiset<string>
    /** Named locks held by other sessions; this session cannot change them. */
    const foreignLocks: set<string>
    /** The repository calls issued so far, oldest first. */
    ghost var calls: seq<Call>

    ghost predicate Valid()
      reads this
    {
      Exclusive(sessionLocks, foreignLocks)
    }

    /** A database whose table was provisioned with `rows`. */
    constructor (rows: map<Long, Row>, foreignLocks: set<string>)
      ensures Valid()
      ensures this.rows == rows && this.foreignLocks == foreignLocks
      ensures sessionLocks == multiset{} && calls == []
    {
      this.rows := rows;
      this.foreignLocks := foreignLocks;
      sessionLocks := multiset{};
      calls := [];
    }

    /** `findById(id)`: the entity, or an empty Optional. */
    method FindById(id: Long) returns (found: Option<Stock>)
      modifies this`calls
      ensures calls == old(calls) + [FindByIdCall(id)]
      ensures found.None? <==> id !in rows
      ensures found.Some? ==> fresh(found.value) && found.value.State() == Loaded(id, rows[id])
    {
      calls := calls + [FindByIdCall(id)];
      if id !in rows {
        return None;
      }
      var stock := new Stock.Load(id, rows[id].quantity, rows[id].version);
      found := Some(stock);
    }

    /** `findByIdWithPessimisticLock(id)`: `select .. for update`; null when there is no row. */
    method FindByIdWithPessimisticLock(id: Long) returns (stock: Stock?)
      modifies this`calls
      ensures calls == old(calls) + [FindByIdWithPessimisticLockCall(id)]
      ensures stock == null <==> id !in rows
      ensures stock != null ==> fresh(stock) && stock.State() == Loaded(id, rows[id])
    {
      calls := calls + [FindByIdWithPessimisticLockCall(id)];
      if id !in rows {
        return null;
      }
      stock := new Stock.Load(id, rows[id].quantity, rows[id].version);
    }

    /** `findByIdWithOptimisticLock(id)`: a plain read in OPTIMISTIC mode; null when there is no row. */
    method FindByIdWithOptimisticLock(id: Long) returns (stock: Stock?)
      modifies this`calls
      ensures calls == old(calls) + [FindByIdWithOptimisticLockCall(id)]
      ensures stock == null <==> id !in rows
      ensures stock != null ==> fresh(stock) && stock.State() == Loaded(id, rows[id])
    {
      calls := calls + [FindByIdWithOptimisticLockCall(id)];
      if id !in rows {
        return null;
      }
      stock := new Stock.Load(id, rows[id].quantity, rows[id].version);
    }

    /** `saveAndFlush(stock)` of a managed entity; on success the entity's version follows the row's. */
    method SaveAndFlush(stock: Stock) returns (r: Outcome<Exception>)
      requires stock.version.Some?
      modifies this`rows, this`calls, stock`version
      ensures calls == old(calls) + [SaveAndFlushCall(stock.id)]
      ensures Reflects(r, rows, Save(old(rows), old(stock.State())), old(rows))
      ensures stock.id == old(stock.id) && stock.quantity == old(stock.quantity)
      ensures stock.version == (if r.Pass? then Some(old(stock.version.value) + 1) else old(stock.version))
    {
      calls := calls + [SaveAndFlushCall(stock.id)];
      var saved := Save(rows, stock.State());
      match saved
      case Success(m) =>
        rows := m;
        stock.version := Some(stock.version.value + 1);
        r := Pass;
      case Failure(e) =>
        r := Fail(e);
    }

    /** `getLock(name)`: `select get_lock(:key, 3000)`; the Java method is void, so the result is only informative. */
    method GetLock(name: string) returns (acquired: bool)
      requires Valid()
      modifies this`sessionLocks, this`calls
      ensures Valid()
      ensures acquired <==> name !in foreignLocks
      ensures sessionLocks == AfterGetLock(old(sessionLocks), foreignLocks, name)
      ensures calls == old(calls) + [GetLockCall(name, LOCK_TIMEOUT_SECONDS)]
    {
      GetLockKeepsExclusive(sessionLocks, foreignLocks, name);
      acquired := name !in foreignLocks;
      sessionLocks := AfterGetLock(sessionLocks, foreignLocks, name);
      calls := calls + [GetLockCall(name, LOCK_TIMEOUT_SECONDS)];
    }

    /** `releaseLock(name)`: `select release_lock(:key)`. */
    method ReleaseLock(name: string) returns (released: bool)
      requires Valid()
      modifies this`sessionLocks, this`calls
      ensures Valid()
      ensures released <==> name in old(sessionLocks)
      ensures sessionLocks == AfterReleaseLock(old(sessionLocks), name)
      ensures calls == old(calls) + [ReleaseLockCall(name)]
    {
      released := name in sessionLocks;
      sessionLocks := AfterReleaseLock(sessionLocks, name);
      calls := calls + [ReleaseLockCall(name)];
    }
  }
}
