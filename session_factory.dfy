/**
 XADiskSessionFactory: the object that keeps xaSessionMap and hands out one XADisk
 session per JTA transaction. Its two operations change the map in place and are
 proved to do exactly what GetOrCreate and Evict of module SessionModel say.
 */
module SessionFactory {
  import opened SessionModel

  class XADiskSessionFactory {
    /** The transaction -> session map (xaSessionMap). */
    var xaSessionMap: map<Tx, Session>
    /** Every effect getXASession has had on the outside world or the map, oldest first. */
    ghost var log: seq<Event>

    ghost function Model(): Registry
      reads this
    {
      Registry(xaSessionMap, log)
    }

    constructor ()
      ensures Model() == Empty() && WellFormed(Model())
    {
      xaSessionMap := map[];
      log := [];
    }

    /**
     getXASession: the session bound to the current transaction, created, enlisted and
     bound on the first call. `env` gives the answers of the calls the method makes to
     the transaction manager, the XADisk file system and the transaction.
     */
    method GetXASession(env: Env) returns (result: Reply<Session>)
      modifies this
      ensures Step(Model(), result) == GetOrCreate(old(Model()), env)
    {
      ghost var r := Model();
      if env.current.Threw? || env.current.value.None? {
        GetWithoutTransaction(r, env);
        if env.current.Threw? {
          return Threw(env.current.exception);
        }
        return Threw(NullPointerException);
      }
      var transaction := env.current.value.value;
      var found := Lookup(xaSessionMap, transaction);
      if found.Some? {
        GetHit(r, env);
        return Returned(found.value);
      }
      GetMiss(r, env);
      if env.create.Threw? {
        return Threw(env.create.exception);
      }
      var xaSession := env.create.value;
      log := log + [Created(transaction, xaSession)];
      assert log == r.log + BindEvents(transaction, xaSession, Accepted(env))[..1];
      if env.enlist.Threw? {
        return Threw(env.enlist.exception);
      }
      // the answer is kept in the log only; the source does not look at it
      var accepted := env.enlist.value;
      ghost var bind := BindEvents(transaction, xaSession, accepted);
      log := log + [Enlisted(transaction, xaSession, accepted)];
      assert log == r.log + bind[..2];
      if env.register.Failed? {
        return Threw(env.register.exception);
      }
      log := log + [Registered(transaction)];
      xaSessionMap := xaSessionMap[transaction := xaSession];
      log := log + [Inserted(transaction, xaSession)];
      assert log == r.log + bind;
      result := Returned(xaSession);
    }

    /**
     The afterCompletion(status) of the Synchronization that GetXASession registers
     with `transaction`: drop the transaction's entry, whatever the status.
     */
    method AfterCompletion(transaction: Tx, status: int)
      modifies this
      ensures Model() == Evict(old(Model()), transaction, status)
    {
      xaSessionMap := xaSessionMap - {transaction};
    }
  }
}
