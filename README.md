# Stock decrement service — a Dafny model

This project models the sequential behaviour of a small Spring/JPA stock service.
A `Stock` entity holds an `id`, a `quantity` and a JPA `@Version` counter.
Its `decrease(amount)` method rejects a decrement whose result would be negative and otherwise subtracts in place.
`StockService` runs read → `stock.decrease` → `saveAndFlush` against the repository in four forms:

- plain `findById`;
- a pessimistic `select … for update` read;
- a read in OPTIMISTIC lock mode;
- the plain form wrapped in a MySQL named lock (`get_lock(id.toString(), 3000)` with `release_lock` in `finally`).

Modules: one per source file, plus two support modules (`Results`, `JavaLong`):

- `Results`: `Option`, `Result`, and `Outcome` (what a `void` Java method does: return or throw).
- `JavaLong`: the `long` range, subtraction with two's-complement wrap-around (`Sub`), and `Long.toString` (`ToString`) read back by its left inverse `ParseSigned`.
- `StockDomain` (`Stock.java`): the exception kinds as values, the specification function `Decreased`, and the class `Stock` with its builder constructor, the JPA hydration constructor `Load` and the mutating method `Decrease`.
- `Repository` (`StockRepository.java`, the store under it): the table is a `map<Long, Row>`. `Save` is the version-guarded UPDATE that `@Version` produces. The MySQL named-lock state is the session's held names as a `multiset<string>`, because MySQL named locks re-enter within one session. Names held by other sessions are a `set<string>`. A ghost log `calls` records the repository calls issued, in order: the reads, `saveAndFlush`, `get_lock` and `release_lock`. The class `StockRepository` has the finders, `SaveAndFlush`, `GetLock` and `ReleaseLock`.
- `Service` (`StockService.java`): `ReadDecreaseSave`, the effect of one call on the table, and the class `StockService` with the four variants. Each variant is proved against `ReadDecreaseSave`.

Behaviour of the code that the model keeps as written:

- The amount's sign is not checked. For a non-negative stock, a negative amount that does not overflow passes the guard and raises the stock. On a negative stock (the builder accepts one) a negative amount is still rejected whenever the difference stays negative, as for `-5` decreased by `-1`.
- The guard `this.quantity - quantity < 0` is evaluated in `long` arithmetic. An overflowing negative amount is therefore rejected as insufficient stock. A negative stored quantity with a large amount can wrap around and be accepted (`OverflowingAmountRejected`, `UnderflowingDifferenceAccepted`). For non-negative stock and amounts nothing wraps (`DecreaseOfNonNegative`).
- The pessimistic and optimistic finders return null for a missing id. The following `stock.decrease` then throws a NullPointerException rather than the "item does not exist" exception of the other two variants (`NullPointer`).
- With `@Version` on the entity, every `saveAndFlush` of a managed entity is version-guarded, not only the optimistic variant's. In a single run the guard always matches, so no variant fails with `OptimisticLockFailure` (`ReadDecreaseSave`).
- `decrease_named_lock` discards the result of `getLock`. The read/decrease/save runs whether or not the lock was obtained, and there is no lock-timeout failure.

Inputs the model takes as parameters instead of observing them: the initial table and the names locked by other sessions (constructor of `StockRepository`). Nothing else is external.

## Model

| member | source | states |
|---|---|---|
| `JavaLong.Sub` | src/main/java/com/example/stock/domain/Stock.java:28-31 | the 64-bit difference is the `long` congruent to `a - b` modulo 2^64; it equals `a - b` when that is in range, is negative on overflow and non-negative on underflow |
| `JavaLong.ToString` | src/main/java/com/example/stock/service/StockService.java:58-64 | `id.toString()` is non-empty, starts with `-` exactly for negative ids, and is otherwise made of decimal digits |
| `JavaLong.ParseSignedOfToString` | src/main/java/com/example/stock/service/StockService.java:58-64 | reading the lock name back as a signed decimal gives the id again |
| `JavaLong.ToStringInjective` | src/main/java/com/example/stock/service/StockService.java:58-64 | two stock ids with the same lock name are the same id, so different stocks use different named locks |
| `StockDomain.Decreased` | src/main/java/com/example/stock/domain/Stock.java:27-32 | the specification of `decrease`: it fails only with insufficient stock; on success the new quantity is never negative; without overflow it succeeds exactly when `amount <= quantity`, and then the new quantity is `quantity - amount` |
| `StockDomain.DecreaseOfNonNegative` | src/main/java/com/example/stock/domain/Stock.java:28-31 | for a non-negative quantity and amount, `decrease` succeeds exactly when `amount <= quantity`, giving `quantity - amount` |
| `StockDomain.DecreaseByEverything` | src/main/java/com/example/stock/domain/Stock.java:28 | taking the whole quantity is allowed and leaves 0, because the guard is strict |
| `StockDomain.NegativeAmountIncreases` | src/main/java/com/example/stock/domain/Stock.java:27-31 | for a non-negative quantity, a negative amount whose difference does not overflow passes the guard and leaves more stock than before |
| `StockDomain.OverflowingAmountRejected` | src/main/java/com/example/stock/domain/Stock.java:28-29 | a negative amount whose subtraction overflows is rejected as insufficient stock even though the true difference is positive |
| `StockDomain.UnderflowingDifferenceAccepted` | src/main/java/com/example/stock/domain/Stock.java:28-31 | a stored quantity of -2 decreased by `Long.MAX_VALUE` wraps to `Long.MAX_VALUE` and is accepted |
| `StockDomain.Stock.constructor` | src/main/java/com/example/stock/domain/Stock.java:21-25 | the builder sets `id` and `quantity` to the given values and leaves `version` null |
| `StockDomain.Stock.Load` | src/main/java/com/example/stock/domain/Stock.java:10-19 | an entity loaded by JPA carries the stored id, quantity and version |
| `StockDomain.Stock.Decrease` | src/main/java/com/example/stock/domain/Stock.java:27-32 | when `Decreased` succeeds, the quantity becomes its value; when it fails, the method throws insufficient stock and leaves the quantity as it was; `id` and `version` never change; after a success the quantity is non-negative |
| `Repository.FreshReadSaves` | src/main/java/com/example/stock/service/StockService.java:23-27 | an entity saved straight after it was read, whatever quantity it was given, always passes the version guard: the row takes the new quantity and a version one higher |
| `Repository.Save` | src/main/java/com/example/stock/domain/Stock.java:18-19 | saving a versioned entity fails with an optimistic-lock failure exactly when the row is missing or its version differs from the entity's; on success the key set stays the same, the row gets the entity's quantity, its version goes up by exactly 1, and every other row is unchanged |
| `Repository.StaleSaveRejected` | src/main/java/com/example/stock/repository/StockRepository.java:18-21 | of two entities read from the same row, the second one saved is rejected with an optimistic-lock failure |
| `Repository.AfterGetLock` | src/main/java/com/example/stock/repository/StockRepository.java:24-25 | `get_lock` adds one hold on the name unless another session holds it, and leaves every other name alone |
| `Repository.AfterReleaseLock` | src/main/java/com/example/stock/repository/StockRepository.java:27-28 | `release_lock` removes one hold on a name the session holds, is a no-op otherwise, and leaves every other name alone |
| `Repository.GetThenReleaseRestores` | src/main/java/com/example/stock/service/StockService.java:57-65 | acquiring and then releasing the same name gives back exactly the locks held before, whether or not the acquisition succeeded |
| `Repository.GetLockKeepsExclusive` | src/main/java/com/example/stock/repository/StockRepository.java:24-25 | acquiring never gives this session a name another session holds |
| `Repository.StockRepository.constructor` | src/test/java/com/example/stock/service/StockServiceTest.java:26-29 | a provisioned database holds the given rows and foreign locks; the session holds no lock |
| `Repository.StockRepository.FindById` | src/main/java/com/example/stock/service/StockService.java:23 | returns nothing exactly when the id has no row, otherwise a fresh entity carrying the row; the read is logged |
| `Repository.StockRepository.FindByIdWithPessimisticLock` | src/main/java/com/example/stock/repository/StockRepository.java:14-16 | returns null exactly when the id has no row, otherwise a fresh entity carrying the row; the read is logged |
| `Repository.StockRepository.FindByIdWithOptimisticLock` | src/main/java/com/example/stock/repository/StockRepository.java:19-21 | returns null exactly when the id has no row, otherwise a fresh entity carrying the row; the read is logged |
| `Repository.StockRepository.SaveAndFlush` | src/main/java/com/example/stock/service/StockService.java:27 | the table becomes what `Save` gives, or stays unchanged when `Save` fails; on success the entity's version goes up by 1; its id and quantity stay as they were; the save is logged |
| `Repository.StockRepository.GetLock` | src/main/java/com/example/stock/repository/StockRepository.java:24-25 | succeeds exactly when no other session holds the name; the session's locks become `AfterGetLock`; the call is logged with its timeout argument 3000, which MySQL reads as seconds; mutual exclusion is kept |
| `Repository.StockRepository.ReleaseLock` | src/main/java/com/example/stock/repository/StockRepository.java:27-28 | reports whether the session held the name; the session's locks become `AfterReleaseLock`; the call is logged |
| `Service.ReadDecreaseSave` | src/main/java/com/example/stock/service/StockService.java:22-28 | one call fails with item-not-found exactly when the id is absent and with insufficient stock exactly when `Decreased` rejects; it never fails with an optimistic-lock failure; on success exactly the row for `id` changes, to the decreased quantity and a version one higher, and the key set stays the same |
| `Service.ReadDecreaseSaveExact` | src/main/java/com/example/stock/service/StockService.java:22-28 | for non-negative stock and amount, a call succeeds exactly when `amount <= quantity` and lowers that row by exactly `amount` |
| `Service.SequentialDrain` | src/main/java/com/example/stock/service/StockService.java:21-28 | `n` unit decreases run one after another on a stock of `n` all succeed, leave quantity 0 with the version up by `n`, and the next call fails with insufficient stock |
| `Service.StockService.constructor` | src/main/java/com/example/stock/service/StockService.java:17-19 | the service uses the repository it is given |
| `Service.StockService.Decrease` | src/main/java/com/example/stock/service/StockService.java:21-28 | result and new table are those of `ReadDecreaseSave`; a failure leaves the table unchanged; the calls issued are the `findById` read, then `saveAndFlush` only when the row exists and `decrease` passed |
| `Service.StockService.DecreasePessimisticLock` | src/main/java/com/example/stock/service/StockService.java:30-38 | a missing id fails with a null-pointer failure and changes nothing; otherwise the result and the table are those of `ReadDecreaseSave`, the same as `Decrease`; the calls issued are the `for update` read, then `saveAndFlush` only when the row exists and `decrease` passed |
| `Service.StockService.DecreaseOptimisticLock` | src/main/java/com/example/stock/service/StockService.java:40-51 | a missing id fails with a null-pointer failure and changes nothing; otherwise the result and the table are those of `ReadDecreaseSave`, the same as `Decrease`; the calls issued are the OPTIMISTIC read, then `saveAndFlush` only when the row exists and `decrease` passed |
| `Service.StockService.DecreaseNamedLock` | src/main/java/com/example/stock/service/StockService.java:54-66 | whether or not the lock was obtained, the result and the table are those of `ReadDecreaseSave`; the calls issued are `get_lock(id.toString(), 3000)`, the `findById` read, `saveAndFlush` only when the row exists and `decrease` passed, and last `release_lock(id.toString())`, so the read/decrease/save happens between the two; on every exit path the session's held locks end as they were before the call |

## Left out

- Concurrency: thread pools, interleavings, blocking on `PESSIMISTIC_WRITE` row locks and on `get_lock`, and the linearizability of the locked variants. The model follows one caller. The acquisition outcome of `get_lock` comes from the names other sessions hold, and the timeout argument 3000 (seconds, for MySQL) is only recorded.
- Transactions: `@Transactional` commit, rollback and propagation are not modelled. So is the fact that the named lock is released before the surrounding transaction commits. Every failure happens before any write, so there is nothing to roll back.
- The OPTIMISTIC lock mode's version re-check at commit is not modelled. Only the version guard on the UPDATE is.
- Repository.StockRepository.SaveAndFlush: Hibernate dirty checking is not modelled. A decrease by 0 leaves the entity clean, and Hibernate then issues no UPDATE and keeps the version. The model always writes and bumps the version.
- Service.ReadDecreaseSave: for the same reason, an amount of 0 raises the stored version by 1 in the model, where Hibernate would leave it; this carries over to `Service.StockService.Decrease`, `Service.StockService.DecreasePessimisticLock`, `Service.StockService.DecreaseOptimisticLock` and `Service.StockService.DecreaseNamedLock`.
- Repository.StockRepository.SaveAndFlush: only a managed entity (version present) can be saved. The insert of a new entity, with its database-generated id, belongs to provisioning. The model's table is given to the constructor instead.
- The persistence context: within one transaction JPA hands back the same managed instance for repeated reads. The model builds a fresh `Stock` on every read.
- Null arguments and null fields of the boxed `Long`s are not modelled.
- The version counter is an unbounded `nat`, not a 64-bit `Long`.
- The test-side retry driver `decrease_optimistic_lock_facade` is left out. It is an unbounded loop around `Thread.sleep`, and it means something only under contention.
- The test assertions are left out. They demonstrate races, not sequential contracts.
