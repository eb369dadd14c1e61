# XADisk session registry — a Dafny model

This project models `XADiskSessionFactory`, the component of the example application
that binds one XADisk session (`XASession`) to each JTA transaction. On the first
file access within a transaction, `getXASession` creates a session, enlists the
session's `XAResource` with the transaction as a two-phase-commit participant, and
registers a `Synchronization` whose `afterCompletion` drops the map entry again; only
then does it put the transaction → session entry into `xaSessionMap`. Every later
call within the same transaction finds the entry and returns the same session.

The model has three modules:

- `SessionModel` (session_model.dfy) describes the registry as values. `Registry` holds
  the map and a log of every effect `getXASession` has had (`Created`, `Enlisted`,
  `Registered`, `Inserted`). `GetOrCreate` is one `getXASession` call and `Evict` is the
  registered `afterCompletion`. The module also holds the registry's invariants
  (`WellOrdered`, `WellFormed`, `Distinct`) and the lemmas about one or two calls.
- `SessionTraces` (session_traces.dfy) covers arbitrary interleavings of calls and
  completion notifications, for any transactions and any answers from the outside
  world (`Run`). Its lemmas are proved by induction over the run.
- `SessionFactory` (session_factory.dfy) holds the class `XADiskSessionFactory`. Its
  field `xaSessionMap` is updated in place, and a ghost field `log` records the
  effects. `GetXASession` and `AfterCompletion` are proved to change the state exactly
  as `GetOrCreate` and `Evict` say. So every property proved about those functions
  (the invariants included) holds for the class.

The calls the source makes to code outside the model are parameters of a
`GetXASession` call, gathered in the value `Env`:

- `TransactionManager.getTransaction`;
- `XAFileSystem.createSessionForXATransaction`;
- `Transaction.enlistResource`;
- `Transaction.registerSynchronization`.

Each of them either returns a value or throws one of the exceptions in `Exception`. A
transaction is a `Tx`, and equality of `Tx` values stands for the key equality of
`xaSessionMap`, a `WeakHashMap` that compares keys with `equals` and `hashCode`. A
session is a `Session`, and its equality is object identity; the map never compares
sessions, only `Distinct` and `NewSession` do.

Three behaviours of the code differ from what a registry that disposes of every session exactly once would do. The model follows the code:

- A failed enlistment or registration leaves the session it has just created
  unclosed. The code does not discard it. The log keeps its `Created` (and
  `Enlisted`) event, and the next call for that transaction creates another session.
- The boolean that `enlistResource` returns is not looked at. A `false` reply, which
  means the transaction did not take the resource on, is treated like `true`: the
  session is bound all the same. The `Enlisted` event records the reply, so the log
  shows which bound sessions the transaction actually accepted.
- `afterCompletion` removes the entry whatever the status. The code has no separate
  "completing" state for a session.

## Model

| member | source | states |
|---|---|---|
| SessionModel.GetOrCreate | src/main/java/io/strandberg/xadisk/XADiskSessionFactory.java:60-100 | one call only appends effects to the log, at most the four of one binding; it never changes the entry of any transaction other than the current one; when it throws, the map is unchanged; when it returns a session, the current transaction is bound to that session |
| SessionModel.GetWithoutTransaction | src/main/java/io/strandberg/xadisk/XADiskSessionFactory.java:62-64 | when `getTransaction` throws, its exception propagates; when it answers null, `synchronized` throws a NullPointerException; either way nothing changes |
| SessionModel.GetHit | src/main/java/io/strandberg/xadisk/XADiskSessionFactory.java:67-98 | on a hit, the stored session is returned and the registry is unchanged: nothing is created, enlisted, registered or put |
| SessionModel.GetMiss | src/main/java/io/strandberg/xadisk/XADiskSessionFactory.java:69-92 | a miss succeeds iff creation, enlistment and registration all succeed; it then binds the created session and logs create, enlist, register and put in that order; the first step that throws propagates its exception, and nothing after it happens |
| SessionModel.GetAddsAtMostOne | src/main/java/io/strandberg/xadisk/XADiskSessionFactory.java:91 | the map grows by at most one entry per call |
| SessionModel.Evict | src/main/java/io/strandberg/xadisk/XADiskSessionFactory.java:84-86 | afterCompletion removes the transaction's entry, whatever the status; every other entry is unchanged; if the key is already absent, the registry is unchanged |
| SessionModel.EvictIsIdempotent | src/main/java/io/strandberg/xadisk/XADiskSessionFactory.java:85 | after completion a lookup finds nothing, and a second completion notification changes nothing |
| SessionModel.GetOrCreateKeepsWellFormed | src/main/java/io/strandberg/xadisk/XADiskSessionFactory.java:72-91 | getXASession preserves the invariant: the log is well ordered and every map entry was put |
| SessionModel.EvictKeepsWellFormed | src/main/java/io/strandberg/xadisk/XADiskSessionFactory.java:84-86 | afterCompletion preserves the same invariant |
| SessionModel.MappedSessionWasOffered | src/main/java/io/strandberg/xadisk/XADiskSessionFactory.java:72-91 | every session in the map was created for its transaction, `enlistResource` was called with its XAResource and returned (true or false) rather than throwing, and its eviction callback was registered, in that order, right before the put |
| SessionModel.RejectedEnlistmentStillBinds | src/main/java/io/strandberg/xadisk/XADiskSessionFactory.java:76-91 | when `enlistResource` answers false, the session is still registered, put and returned, and the log records the rejected enlistment |
| SessionModel.GetOrCreateKeepsDistinct | src/main/java/io/strandberg/xadisk/XADiskSessionFactory.java:72-91 | one call keeps every bound session distinct, provided XADisk hands out a session it never handed out before |
| SessionModel.GetOrCreateIsIdempotent | src/main/java/io/strandberg/xadisk/XADiskSessionFactory.java:67-98 | after a successful call, a second call for the same transaction returns the identical session and changes nothing |
| SessionModel.FailedGetRetries | src/main/java/io/strandberg/xadisk/XADiskSessionFactory.java:72-91 | a call that throws on a miss binds nothing, so the next call for that transaction misses again and creates a new session |
| SessionTraces.RunKeepsWellFormed | src/main/java/io/strandberg/xadisk/XADiskSessionFactory.java:60-100 | every interleaving of calls and completions keeps the registry well formed |
| SessionTraces.RunKeepsDistinct | src/main/java/io/strandberg/xadisk/XADiskSessionFactory.java:60-100 | as long as every creation during a run yields a session XADisk never handed out before, no two transactions are bound to the same session at the end of any interleaving of calls and completions |
| SessionTraces.BindingSurvives | src/main/java/io/strandberg/xadisk/XADiskSessionFactory.java:67-91 | once bound, a transaction keeps its session until it completes, whatever happens to other transactions; in between, nothing is created, enlisted, registered or put for it |
| SessionTraces.SameTxSameSession | src/main/java/io/strandberg/xadisk/XADiskSessionFactory.java:67-98 | every call for a bound transaction before it completes returns the bound session and changes nothing |
| SessionTraces.GetBinds | src/main/java/io/strandberg/xadisk/XADiskSessionFactory.java:91 | one call puts an entry for a transaction exactly when it binds that transaction anew |
| SessionTraces.BindsAtMostOnce | src/main/java/io/strandberg/xadisk/XADiskSessionFactory.java:69-91 | while a transaction does not complete, at most one session is bound to it: the run puts an entry for it exactly once if it went from unbound to bound, and never if it was bound already |
| SessionFactory.XADiskSessionFactory.constructor | src/main/java/io/strandberg/xadisk/XADiskSessionFactory.java:54-58 | the factory starts with an empty map and an empty log, which is well formed |
| SessionFactory.XADiskSessionFactory.GetXASession | src/main/java/io/strandberg/xadisk/XADiskSessionFactory.java:60-100 | the in-place lookup, create, enlist, register and put change the map and the log, and give the result, exactly as `GetOrCreate` does |
| SessionFactory.XADiskSessionFactory.AfterCompletion | src/main/java/io/strandberg/xadisk/XADiskSessionFactory.java:80-88 | the registered callback's removal changes the state exactly as `Evict` does |

## Left out

- The `synchronized (transaction)` block and the `Collections.synchronizedMap` wrapper (XADiskSessionFactory.java:57, 64) give thread safety. Each operation is modelled as one atomic step, and runs are sequential interleavings of such steps.
- `WeakHashMap` eviction by the garbage collector (XADiskSessionFactory.java:57) cannot be stated here. The map is a plain map, and `afterCompletion` is its only removal path.
- `init` and `destroy` (XADiskSessionFactory.java:102-113) boot and shut down the native XADisk file system. This is library lifecycle and I/O. If `init` never ran, session creation fails; the model covers that as a creation that throws.
- The logging calls are left out, and so is the empty `beforeCompletion`.
- The value of `status` in `afterCompletion` is carried but never inspected, as in the source.
- SessionFactory.XADiskSessionFactory.GetXASession: the class does not carry the invariant `WellFormed` as a precondition and postcondition of its own. The method is proved equal to `GetOrCreate`, and `GetOrCreateKeepsWellFormed` and `RunKeepsWellFormed` prove that function preserves the invariant.
- XADiskFileServiceImpl.java delegates each file operation to the session in one line and wraps exceptions in `XADiskException`. It is a thin wrapper over the XADisk library, which is not part of this model. XADiskFileService.java only declares the interface.
- PersonService.java, Person.java and PersonServiceTest.java are left out. They are Spring, JPA and JMS composition, an entity, and end-to-end tests. The commit and rollback atomicity they observe comes from the external transaction coordinator.
