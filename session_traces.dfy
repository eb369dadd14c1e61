/**
 Runs of the session registry: any interleaving of getXASession calls (for any
 transactions, with any answers from the outside world) and completion
 notifications, and what holds over all of them.
 */
module SessionTraces {
  import opened SessionModel

  /** One thing that happens to the registry. */
  datatype Op =
    | Get(env: Env)                  // a getXASession call
    | Complete(tx: Tx, status: int)  // the coordinator calls afterCompletion(status) for tx

  function Apply(r: Registry, op: Op): Registry
  {
    match op
    case Get(env) => GetOrCreate(r, env).after
    case Complete(t, status) => Evict(r, t, status)
  }

  /** The registry after `ops`, applied oldest first. */
  function Run(r: Registry, ops: seq<Op>): Registry
    decreases |ops|
  {
    if ops == [] then r else Apply(Run(r, ops[..|ops| - 1]), ops[|ops| - 1])
  }

  /** Transaction `t` does not complete during `ops`. */
  predicate NoCompletion(ops: seq<Op>, t: Tx)
  {
    forall i :: 0 <= i < |ops| ==> !(ops[i].Complete? && ops[i].tx == t)
  }

  /** The number of times the log binds transaction `t`. */
  function Binds(log: seq<Event>, t: Tx): nat
    decreases |log|
  {
    if log == [] then 0
    else Binds(log[..|log| - 1], t) + (if log[|log| - 1].Inserted? && log[|log| - 1].tx == t then 1 else 0)
  }

  lemma {:induction false} BindsAppend(a: seq<Event>, b: seq<Event>, t: Tx)
    ensures Binds(a + b, t) == Binds(a, t) + Binds(b, t)
    decreases |b|
  {
    if b != [] {
      var b' := b[..|b| - 1];
      assert (a + b)[..|a + b| - 1] == a + b';
      BindsAppend(a, b', t);
    } else {
      assert a + b == a;
    }
  }

  /** Every run from a well-formed registry ends in a well-formed registry. */
  lemma {:induction false} RunKeepsWellFormed(r: Registry, ops: seq<Op>)
    requires WellFormed(r)
    ensures WellFormed(Run(r, ops))
    decreases |ops|
  {
    if ops != [] {
      var before := Run(r, ops[..|ops| - 1]);
      RunKeepsWellFormed(r, ops[..|ops| - 1]);
      match ops[|ops| - 1]
      case Get(env) => GetOrCreateKeepsWellFormed(before, env);
      case Complete(t, status) => EvictKeepsWellFormed(before, t, status);
    }
  }

  /**
   As long as XADisk hands out a new session on every creation during the run, no two
   transactions are bound to the same session at any point of it.
   */
  lemma {:induction false} RunKeepsDistinct(r: Registry, ops: seq<Op>)
    requires WellFormed(r) && Distinct(r)
    requires forall k :: 0 <= k < |ops| && ops[k].Get? && ops[k].env.create.Returned? ==>
               NewSession(Run(r, ops[..k]), ops[k].env.create.value)
    ensures Distinct(Run(r, ops))
    decreases |ops|
  {
    if ops != [] {
      var init := ops[..|ops| - 1];
      forall k | 0 <= k < |init| && init[k].Get? && init[k].env.create.Returned?
        ensures NewSession(Run(r, init[..k]), init[k].env.create.value)
      {
        assert init[..k] == ops[..k];
      }
      RunKeepsDistinct(r, init);
      RunKeepsWellFormed(r, init);
      var before := Run(r, init);
      match ops[|ops| - 1]
      case Get(env) =>
        assert ops[..|ops| - 1] == init;
        GetOrCreateKeepsDistinct(before, env);
      case Complete(t, status) =>
    }
  }

  /**
   A run only ever appends to the log, and a session, once bound to a transaction,
   stays bound to it until that transaction completes: in between, nothing is
   created, enlisted, registered or put for that transaction.
   */
  lemma {:induction false} BindingSurvives(r: Registry, ops: seq<Op>, t: Tx)
    requires t in r.sessions && NoCompletion(ops, t)
    ensures var r' := Run(r, ops);
            r.log <= r'.log && t in r'.sessions && r'.sessions[t] == r.sessions[t] &&
            forall i :: |r.log| <= i < |r'.log| ==> r'.log[i].tx != t
    decreases |ops|
  {
    if ops != [] {
      var init := ops[..|ops| - 1];
      assert NoCompletion(init, t) by {
        forall i | 0 <= i < |init| ensures !(init[i].Complete? && init[i].tx == t) {
          assert init[i] == ops[i];
        }
      }
      BindingSurvives(r, init, t);
      var before := Run(r, init);
      match ops[|ops| - 1]
      case Get(env) =>
        var out := GetOrCreate(before, env);
        if Current(env) == Some(t) {
          assert out.after == before;
        } else if Current(env).Some? && Current(env).value !in before.sessions && env.create.Returned? {
          var u := Current(env).value;
          var n := |out.after.log| - |before.log|;
          assert out.after.log == before.log + BindEvents(u, env.create.value, Accepted(env))[..n];
        } else {
          assert out.after == before;
        }
      case Complete(u, status) =>
        assert u != t;
    }
  }

  /**
   The same transaction always gets the same session: once bound, every later
   getXASession call for that transaction before it completes, interleaved with any
   calls for other transactions and any other completions, returns the bound session
   and changes nothing.
   */
  lemma SameTxSameSession(r: Registry, ops: seq<Op>, t: Tx)
    requires t in r.sessions && NoCompletion(ops, t)
    ensures forall k :: 0 <= k < |ops| && ops[k].Get? && Current(ops[k].env) == Some(t) ==>
              GetOrCreate(Run(r, ops[..k]), ops[k].env) == Step(Run(r, ops[..k]), Returned(r.sessions[t]))
  {
    forall k | 0 <= k < |ops| && ops[k].Get? && Current(ops[k].env) == Some(t)
      ensures GetOrCreate(Run(r, ops[..k]), ops[k].env) == Step(Run(r, ops[..k]), Returned(r.sessions[t]))
    {
      var init := ops[..k];
      assert NoCompletion(init, t) by {
        forall i | 0 <= i < |init| ensures !(init[i].Complete? && init[i].tx == t) {
          assert init[i] == ops[i];
        }
      }
      BindingSurvives(r, init, t);
    }
  }

  /** Of the four effects of a binding, only the last, the put, counts as binding its transaction. */
  lemma BindsOfBindEvents(u: Tx, s: Session, accepted: bool, k: nat, t: Tx)
    requires k <= 4
    ensures Binds(BindEvents(u, s, accepted)[..k], t) == if k == 4 && u == t then 1 else 0
  {
    var e := BindEvents(u, s, accepted);
    assert e[..1][..0] == [];
    assert Binds(e[..1], t) == 0;
    assert e[..2][..1] == e[..1];
    assert Binds(e[..2], t) == 0;
    assert e[..3][..2] == e[..2];
    assert Binds(e[..3], t) == 0;
    assert e[..4][..3] == e[..3];
    assert e[..4][3] == Inserted(u, s);
  }

  /** One getXASession call puts an entry for `t` exactly when it binds `t` anew. */
  lemma GetBinds(r: Registry, env: Env, t: Tx)
    ensures var out := GetOrCreate(r, env);
            Binds(out.after.log, t) ==
              Binds(r.log, t) + (if Current(env) == Some(t) && t !in r.sessions && out.result.Returned? then 1 else 0)
  {
    var out := GetOrCreate(r, env);
    if Current(env).Some? && Current(env).value !in r.sessions && env.create.Returned? {
      var u, s := Current(env).value, env.create.value;
      var n := |out.after.log| - |r.log|;
      var added := BindEvents(u, s, Accepted(env))[..n];
      assert out.after.log == r.log + added;
      BindsAppend(r.log, added, t);
      BindsOfBindEvents(u, s, Accepted(env), n, t);
    } else {
      assert out.after == r;
    }
  }

  /**
   Within one transaction (no completion of it in the run) a session is bound at most
   once: the run puts an entry for `t` exactly when `t` went from unbound to bound,
   and never when it was bound to begin with.
   */
  lemma {:induction false} BindsAtMostOnce(r: Registry, ops: seq<Op>, t: Tx)
    requires NoCompletion(ops, t)
    ensures var r' := Run(r, ops);
            (t in r.sessions ==> t in r'.sessions) &&
            Binds(r'.log, t) == Binds(r.log, t) + (if t !in r.sessions && t in r'.sessions then 1 else 0)
    decreases |ops|
  {
    if ops != [] {
      var init := ops[..|ops| - 1];
      assert NoCompletion(init, t) by {
        forall i | 0 <= i < |init| ensures !(init[i].Complete? && init[i].tx == t) {
          assert init[i] == ops[i];
        }
      }
      BindsAtMostOnce(r, init, t);
      var before := Run(r, init);
      match ops[|ops| - 1]
      case Get(env) =>
        GetBinds(before, env, t);
      case Complete(u, status) =>
        assert u != t;
    }
  }
}
