/**
 The per-transaction XADisk session registry of XADiskSessionFactory, as values.

 `GetOrCreate` is what one call of getXASession does to the registry (the map from
 JTA transactions to XADisk sessions, together with a log of the effects it had on the
 outside world), and `Evict` is what the completion callback that getXASession
 registers does to it. The class in module SessionFactory is proved to behave exactly
 like these two functions.
 */
module SessionModel {

  /** A JTA transaction, identified as the map key identifies it. */
  datatype Tx = Tx(id: nat)

  /** An XADisk session (XASession), identified by object identity. */
  datatype Session = Session(id: nat)

  datatype Option<T> = None | Some(value: T)

  /** The exceptions that can leave getXASession. */
  datatype Exception =
    | SystemException        // from getTransaction, enlistResource or registerSynchronization
    | RollbackException      // the transaction is marked for rollback
    | IllegalStateException  // the transaction is not in a state that accepts participants
    | NullPointerException   // no current transaction: `synchronized` on null
    | FileSystemException    // XADisk could not create a session

  /** The reply of a call into code outside the model: a value, or an exception. */
  datatype Reply<T> = Returned(value: T) | Threw(exception: Exception)

  /** The reply of a call that returns nothing. */
  datatype Outcome = Done | Failed(exception: Exception)

  /**
   What the outside world answers during one getXASession call, one field per call the
   source makes, in the order it makes them:
   `current`  transactionManager.getTransaction() (null when there is no transaction),
   `create`   xaFileSystem.createSessionForXATransaction(),
   `enlist`   transaction.enlistResource(xaSession.getXAResource()),
   `register` transaction.registerSynchronization(callback).
   A field is only consulted if the source gets that far.
   */
  datatype Env = Env(
    current: Reply<Option<Tx>>,
    create: Reply<Session>,
    enlist: Reply<bool>,
    register: Outcome)

  /** An effect of getXASession on the outside world, or on the map. */
  datatype Event =
    | Created(tx: Tx, session: Session)                   // a session was created on behalf of tx
    | Enlisted(tx: Tx, session: Session, accepted: bool)  // enlistResource returned `accepted` for the session's XAResource
    | Registered(tx: Tx)                                  // the evicting Synchronization was registered with tx
    | Inserted(tx: Tx, session: Session)                  // xaSessionMap.put(tx, session)

  /** xaSessionMap, and every effect getXASession has had so far, oldest first. */
  datatype Registry = Registry(sessions: map<Tx, Session>, log: seq<Event>)

  /** The registry after a getXASession call, and what the call returned or threw. */
  datatype Step = Step(after: Registry, result: Reply<Session>)

  /** The empty registry the factory's constructor makes. */
  function Empty(): Registry
  {
    Registry(map[], [])
  }

  /** xaSessionMap.get(t): the bound session, or none (null). */
  function Lookup(m: map<Tx, Session>, t: Tx): Option<Session>
  {
    if t in m then Some(m[t]) else None
  }

  /** The transaction getXASession works for, if getTransaction returns one. */
  function Current(env: Env): Option<Tx>
  {
    if env.current.Returned? then env.current.value else None
  }

  /** What enlistResource answered, when it returned at all. */
  function Accepted(env: Env): bool
  {
    env.enlist.Returned? && env.enlist.value
  }

  /**
   The four effects of a miss that succeeds, in the order the source has them;
   `accepted` is enlistResource's answer.
   */
  function BindEvents(t: Tx, s: Session, accepted: bool): seq<Event>
  {
    [Created(t, s), Enlisted(t, s, accepted), Registered(t), Inserted(t, s)]
  }

  /**
   One call of getXASession: look the current transaction up; on a hit return the
   bound session; on a miss create a session, enlist its XAResource, register the
   evicting callback and only then bind the transaction to the session. An exception
   at any step propagates unchanged and leaves the map as it was.
   */
  function GetOrCreate(r: Registry, env: Env): (out: Step)
    // effects are only ever appended, at most the four of one binding
    ensures r.log <= out.after.log && |out.after.log| <= |r.log| + 4
    // whatever happens, the entries of every other transaction are untouched
    ensures forall u :: Some(u) != Current(env) ==> Lookup(out.after.sessions, u) == Lookup(r.sessions, u)
    // error path: the map is unchanged
    ensures out.result.Threw? ==> out.after.sessions == r.sessions
    // success: the returned session is the one the current transaction is now bound to
    ensures out.result.Returned? ==>
              Current(env).Some? && Lookup(out.after.sessions, Current(env).value) == Some(out.result.value)
  {
    match env.current
    case Threw(e) => Step(r, Threw(e))
    case Returned(None) => Step(r, Threw(NullPointerException))
    case Returned(Some(t)) =>
      match Lookup(r.sessions, t)
      case Some(s) => Step(r, Returned(s))
      case None =>
        match env.create
        case Threw(e) => Step(r, Threw(e))
        case Returned(s) =>
          var created := r.log + [Created(t, s)];
          match env.enlist
          case Threw(e) => Step(Registry(r.sessions, created), Threw(e))
          case Returned(accepted) =>
            // the boolean enlistResource answers is recorded, but nothing depends on it
            var enlisted := created + [Enlisted(t, s, accepted)];
            match env.register
            case Failed(e) => Step(Registry(r.sessions, enlisted), Threw(e))
            case Done =>
              Step(Registry(r.sessions[t := s], enlisted + [Registered(t), Inserted(t, s)]), Returned(s))
  }

  /**
   The registered Synchronization's afterCompletion(status): remove the transaction's
   entry, whatever the status.
   */
  function Evict(r: Registry, t: Tx, status: int): (r': Registry)
    ensures t !in r'.sessions
    ensures forall u :: u != t ==> Lookup(r'.sessions, u) == Lookup(r.sessions, u)
    ensures r'.sessions.Keys == r.sessions.Keys - {t}
    ensures r'.log == r.log
    // Map.remove on an absent key changes nothing
    ensures t !in r.sessions ==> r' == r
  {
    Registry(r.sessions - {t}, r.log)
  }

  /**
   Without a current transaction getXASession throws (getTransaction's own exception,
   or a NullPointerException when it answers null) and changes nothing.
   */
  lemma GetWithoutTransaction(r: Registry, env: Env)
    requires Current(env).None?
    ensures GetOrCreate(r, env).after == r
    ensures env.current.Threw? ==> GetOrCreate(r, env).result == Threw(env.current.exception)
    ensures env.current == Returned(None) ==> GetOrCreate(r, env).result == Threw(NullPointerException)
  {
  }

  /** A hit returns the bound session; nothing is created, enlisted, registered or put. */
  lemma GetHit(r: Registry, env: Env)
    requires Current(env).Some? && Current(env).value in r.sessions
    ensures GetOrCreate(r, env) == Step(r, Returned(r.sessions[Current(env).value]))
  {
  }

  /**
   A miss creates a session, enlists it, registers the evicting callback and puts the
   entry, in that order, and succeeds only if all three calls do. The first call that
   throws ends it: its exception propagates and nothing after it happens, so the map is
   left as it was.
   */
  lemma GetMiss(r: Registry, env: Env)
    requires Current(env).Some? && Current(env).value !in r.sessions
    ensures var t, out := Current(env).value, GetOrCreate(r, env);
            && (out.result.Returned? <==> env.create.Returned? && env.enlist.Returned? && env.register.Done?)
            && (out.result.Returned? ==>
                  env.create == out.result && out.after.sessions == r.sessions[t := out.result.value] &&
                  out.after.log == r.log + BindEvents(t, out.result.value, env.enlist.value))
            && (env.create.Threw? ==> out == Step(r, Threw(env.create.exception)))
            && (env.create.Returned? && env.enlist.Threw? ==>
                  out == Step(Registry(r.sessions, r.log + BindEvents(t, env.create.value, Accepted(env))[..1]), Threw(env.enlist.exception)))
            && (env.create.Returned? && env.enlist.Returned? && env.register.Failed? ==>
                  out == Step(Registry(r.sessions, r.log + BindEvents(t, env.create.value, env.enlist.value)[..2]), Threw(env.register.exception)))
  {
  }

  /** getXASession adds at most one entry to the map. */
  lemma GetAddsAtMostOne(r: Registry, env: Env)
    ensures |GetOrCreate(r, env).after.sessions| <= |r.sessions| + 1
  {
  }

  /**
   The log holds, from index `i` on, the four effects of binding `t` to `s`, in order,
   whatever enlistResource answered.
   */
  ghost predicate BindingAt(log: seq<Event>, i: int, t: Tx, s: Session)
  {
    && 0 <= i < |log| - 3
    && log[i] == Created(t, s)
    && log[i + 1].Enlisted? && log[i + 1].tx == t && log[i + 1].session == s
    && log[i + 2] == Registered(t) && log[i + 3] == Inserted(t, s)
  }

  /**
   The log is made of whole or cut-short bindings: every put is immediately preceded
   by the creation, enlistment and callback registration it completes.
   */
  ghost predicate WellOrdered(log: seq<Event>)
  {
    forall i :: 0 <= i < |log| && log[i].Inserted? ==> BindingAt(log, i - 3, log[i].tx, log[i].session)
  }

  /** The registry's invariant: the log is well ordered and every entry was put. */
  ghost predicate WellFormed(r: Registry)
  {
    && WellOrdered(r.log)
    && forall t :: t in r.sessions ==> Inserted(t, r.sessions[t]) in r.log
  }

  /** No two transactions share a session. */
  ghost predicate Distinct(r: Registry)
  {
    forall t, u :: t in r.sessions && u in r.sessions && t != u ==> r.sessions[t] != r.sessions[u]
  }

  /** `s` is a session XADisk has not handed out before. */
  ghost predicate NewSession(r: Registry, s: Session)
  {
    forall i :: 0 <= i < |r.log| && r.log[i].Created? ==> r.log[i].session != s
  }

  /** getXASession keeps the registry well formed. */
  lemma GetOrCreateKeepsWellFormed(r: Registry, env: Env)
    requires WellFormed(r)
    ensures WellFormed(GetOrCreate(r, env).after)
  {
  }

  /** afterCompletion keeps the registry well formed. */
  lemma EvictKeepsWellFormed(r: Registry, t: Tx, status: int)
    requires WellFormed(r)
    ensures WellFormed(Evict(r, t, status))
  {
  }

  /**
   Every session in the map was created for its transaction, enlistResource was called
   with its XAResource and returned (true or false: the answer is not looked at), and
   the evicting callback was registered, in that order, right before the session was put.
   */
  lemma MappedSessionWasOffered(r: Registry, t: Tx)
    requires WellFormed(r) && t in r.sessions
    ensures exists i :: BindingAt(r.log, i, t, r.sessions[t])
  {
  }

  /**
   enlistResource answering false, i.e. the transaction did not take the resource on,
   does not stop the binding: the session is registered and put all the same.
   */
  lemma RejectedEnlistmentStillBinds(r: Registry, env: Env)
    requires Current(env).Some? && Current(env).value !in r.sessions
    requires env.create.Returned? && env.enlist == Returned(false) && env.register.Done?
    ensures var t, s, out := Current(env).value, env.create.value, GetOrCreate(r, env);
            && out.result == Returned(s)
            && out.after.sessions == r.sessions[t := s]
            && Enlisted(t, s, false) in out.after.log
  {
    var t, s := Current(env).value, env.create.value;
    assert GetOrCreate(r, env).after.log[|r.log| + 1] == Enlisted(t, s, false);
  }

  /**
   As long as XADisk hands out a new session on every creation, no two
   transactions are ever bound to the same session.
   */
  lemma GetOrCreateKeepsDistinct(r: Registry, env: Env)
    requires WellFormed(r) && Distinct(r)
    requires env.create.Returned? ==> NewSession(r, env.create.value)
    ensures Distinct(GetOrCreate(r, env).after)
  {
  }

  /**
   Two calls for the same transaction with no completion in between: if the first
   succeeds, the second returns the identical session and changes nothing.
   */
  lemma GetOrCreateIsIdempotent(r: Registry, env1: Env, env2: Env)
    requires Current(env1).Some? && Current(env2) == Current(env1)
    requires GetOrCreate(r, env1).result.Returned?
    ensures var first := GetOrCreate(r, env1);
            GetOrCreate(first.after, env2) == Step(first.after, first.result)
  {
  }

  /**
   A call that throws binds nothing, so the next call for the same transaction misses
   again and goes back to XADisk for a new session.
   */
  lemma FailedGetRetries(r: Registry, env1: Env, env2: Env)
    requires Current(env1).Some? && Current(env1).value !in r.sessions
    requires GetOrCreate(r, env1).result.Threw?
    requires Current(env2) == Current(env1) && env2.create.Returned?
    ensures var first := GetOrCreate(r, env1);
            var second := GetOrCreate(first.after, env2);
            |second.after.log| > |first.after.log| &&
            second.after.log[|first.after.log|] == Created(Current(env1).value, env2.create.value)
  {
  }

  /**
   After completion the transaction misses, and another completion notification for
   it changes nothing.
   */
  lemma EvictIsIdempotent(r: Registry, t: Tx, status1: int, status2: int)
    ensures Lookup(Evict(r, t, status1).sessions, t) == None
    ensures Evict(Evict(r, t, status1), t, status2) == Evict(r, t, status1)
  {
  }
}
