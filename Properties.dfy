/** The promises of the resolver, stated for one call of initializeInterface. */
module Properties {
  import opened Wrappers
  import opened Model
  import opened Resolution

  /** Every parameter type of every registered implementation is itself registered. */
  ghost predicate Closed(rf: Reflection, impls: map<Class, Class>)
  {
    forall t, p :: t in impls && p in rf.ctorParams(impls[t]) ==> p in impls
  }

  /** Every registered implementation is a @Component whose constructor returns. */
  ghost predicate Buildable(rf: Reflection, impls: map<Class, Class>)
  {
    forall t :: t in impls ==> rf.isComponent(impls[t]) && !rf.constructorThrows(impls[t])
  }

  /** No registered implementation class is itself registered as an interface. A scan
      builds such a registry as long as `@Component` is put only on classes, since the
      keys it registers are the interfaces those classes implement; the container does
      not check this. */
  ghost predicate ImplsNotKeys(impls: map<Class, Class>)
  {
    forall t, u :: t in impls && u in impls ==> impls[t] != u
  }

  /** No registered interface is on the creation stack. */
  ghost predicate StackApart(stack: set<Class>, impls: map<Class, Class>)
  {
    forall u :: u in impls ==> u !in stack
  }

  /** Idempotence: a type that already has an instance is a no-op. */
  lemma ResolveCachedIsNoOp(rf: Reflection, rank: Class -> nat, s: State, t: Class)
    requires Acyclic(rf, rank, s.impls)
    requires t in s.instances
    ensures Resolve(rf, rank, s, t) == (Pass, s)
  {
  }

  /** Resolving a type a second time after it succeeded changes nothing; this is what
      makes a dependency reached along several paths be built only once. */
  lemma ResolveAgainIsNoOp(rf: Reflection, rank: Class -> nat, s: State, t: Class)
    requires Acyclic(rf, rank, s.impls)
    ensures var res := Resolve(rf, rank, s, t);
      res.0.Pass? ==> Resolve(rf, rank, res.1, t) == (Pass, res.1)
  {
  }

  /** The order of the checks: the in-progress check on the type itself comes before
      the registry lookup, the @Component check happens after the implementation was
      pushed (and leaves it on the stack), and every later failure is wrapped as
      CreationFailed for the implementation. */
  lemma ResolveChecksInOrder(rf: Reflection, rank: Class -> nat, s: State, t: Class)
    requires Acyclic(rf, rank, s.impls)
    requires t !in s.instances
    ensures var res := Resolve(rf, rank, s, t);
      && (t in s.stack ==> res == (Fail(CircularDependency(t)), s))
      && (t !in s.stack && t !in s.impls ==> res == (Fail(NotRegistered(t)), s))
      && (t !in s.stack && t in s.impls && !rf.isComponent(s.impls[t]) ==>
            res == (Fail(NotComponent(s.impls[t])), s.(stack := s.stack + {s.impls[t]})))
      && (t !in s.stack && t in s.impls && rf.isComponent(s.impls[t]) && res.0.Fail? ==>
            res.0.error.CreationFailed? && res.0.error.impl == s.impls[t])
  {
  }

  /** Wiring: after a successful resolution of a type that had no instance, it has a
      new instance with a fresh identity, built from its registered implementation,
      whose constructor arguments are, one per parameter and in declared order, the
      cached instances of the parameter types. */
  lemma ResolveWires(rf: Reflection, rank: Class -> nat, s: State, t: Class)
    requires Acyclic(rf, rank, s.impls)
    requires t !in s.instances
    ensures var res := Resolve(rf, rank, s, t);
      res.0.Pass? ==>
        && t in s.impls
        && var v := res.1.instances[t];
        && v.impl == s.impls[t]
        && s.nextId <= v.id < res.1.nextId
        && |v.args| == |rf.ctorParams(v.impl)|
        && forall j :: 0 <= j < |v.args| ==>
             rf.ctorParams(v.impl)[j] in res.1.instances && v.args[j] == res.1.instances[rf.ctorParams(v.impl)[j]]
  {
    if t !in s.stack && t in s.impls {
      var x := s.impls[t];
      var s1 := s.(stack := s.stack + {x});
      BuildAdds(rf, rank, rank(t), s1, x);
      var b := Build(rf, rank, rank(t), s1, x);
      if b.0.Success? {
        WiredGrows(rf, b.1.instances, Resolve(rf, rank, s, t).1.instances, b.0.value);
      }
    }
  }

  /** The cache only grows: no entry is replaced or removed, every added key is a
      registered interface, and exactly one object (one fresh identity) was
      constructed per added key. */
  lemma ResolveOnlyAdds(rf: Reflection, rank: Class -> nat, s: State, t: Class)
    requires Acyclic(rf, rank, s.impls)
    ensures var res := Resolve(rf, rank, s, t);
      && res.1.impls == s.impls
      && (forall k :: k in s.instances ==> k in res.1.instances && res.1.instances[k] == s.instances[k])
      && res.1.instances.Keys - s.instances.Keys <= s.impls.Keys
      && res.1.nextId - s.nextId == |res.1.instances| - |s.instances|
  {
    ResolveAdds(rf, rank, s, t);
    ResolveCounted(rf, rank, s, t);
  }

  /** The creation stack after a successful top-level resolution equals the stack
      before it: exactly so when no implementation built during the call was already
      on it, and in particular an empty stack stays empty. */
  lemma ResolveRestoresStack(rf: Reflection, rank: Class -> nat, s: State, t: Class)
    requires Acyclic(rf, rank, s.impls)
    ensures var res := Resolve(rf, rank, s, t);
      && (res.0.Pass? && s.stack !! NewImpls(s.instances, res.1.instances) ==> res.1.stack == s.stack)
      && (res.0.Pass? && s.stack == {} ==> res.1.stack == {})
  {
    ResolveStack(rf, rank, s, t);
  }

  /** The cache invariant (distinct identities, every object wired to the cached
      objects of its parameter types) holds after every call, successful or not. */
  lemma ResolveKeepsCacheConsistent(rf: Reflection, rank: Class -> nat, s: State, t: Class)
    requires Acyclic(rf, rank, s.impls)
    requires Consistent(rf, s)
    ensures var res := Resolve(rf, rank, s, t);
      && (forall k :: k in res.1.instances ==> res.1.instances[k].id < res.1.nextId)
      && (forall k1, k2 :: k1 in res.1.instances && k2 in res.1.instances && k1 != k2 ==>
            res.1.instances[k1] != res.1.instances[k2])
  {
    ResolveConsistent(rf, rank, s, t);
  }

  /** When every registered implementation is a buildable component whose parameters
      are registered interfaces and no interface is on the stack, every registered
      interface resolves successfully. */
  lemma {:induction false} ResolveSucceeds(rf: Reflection, rank: Class -> nat, s: State, t: Class)
    requires Acyclic(rf, rank, s.impls)
    requires Closed(rf, s.impls) && Buildable(rf, s.impls) && ImplsNotKeys(s.impls)
    requires StackApart(s.stack, s.impls)
    requires t in s.impls
    ensures Resolve(rf, rank, s, t).0.Pass?
    decreases rank(t), 2
  {
    if t !in s.instances {
      var x := s.impls[t];
      BuildSucceeds(rf, rank, rank(t), s.(stack := s.stack + {x}), x);
    }
  }

  lemma {:induction false} BuildSucceeds(rf: Reflection, rank: Class -> nat, bound: nat, s: State, x: Class)
    requires Acyclic(rf, rank, s.impls)
    requires forall p :: p in rf.ctorParams(x) ==> rank(p) < bound
    requires Closed(rf, s.impls) && Buildable(rf, s.impls) && ImplsNotKeys(s.impls)
    requires StackApart(s.stack, s.impls)
    requires rf.isComponent(x) && !rf.constructorThrows(x)
    requires forall p :: p in rf.ctorParams(x) ==> p in s.impls
    ensures Build(rf, rank, bound, s, x).0.Success?
    decreases bound, 1
  {
    ArgsSucceed(rf, rank, bound, s, rf.ctorParams(x), |rf.ctorParams(x)|);
  }

  lemma {:induction false} ArgsSucceed(rf: Reflection, rank: Class -> nat, bound: nat, s: State, ps: seq<Class>, k: nat)
    requires Acyclic(rf, rank, s.impls)
    requires forall p :: p in ps ==> rank(p) < bound
    requires k <= |ps|
    requires Closed(rf, s.impls) && Buildable(rf, s.impls) && ImplsNotKeys(s.impls)
    requires StackApart(s.stack, s.impls)
    requires forall p :: p in ps ==> p in s.impls
    ensures ResolveArgs(rf, rank, bound, s, ps, k).0.Success?
    decreases bound, 0, k, 1
  {
    if k > 0 {
      ArgsSucceed(rf, rank, bound, s, ps, k - 1);
      ArgsStack(rf, rank, bound, s, ps, k - 1);
      var a := ResolveArgs(rf, rank, bound, s, ps, k - 1);
      assert ps[k - 1] in ps;
      RoundSucceeds(rf, rank, bound, a.0.value, a.1, ps[k - 1]);
    }
  }

  lemma {:induction false} RoundSucceeds(rf: Reflection, rank: Class -> nat, bound: nat, args: seq<Instance>, s: State, p: Class)
    requires Acyclic(rf, rank, s.impls)
    requires rank(p) < bound
    requires Closed(rf, s.impls) && Buildable(rf, s.impls) && ImplsNotKeys(s.impls)
    requires StackApart(s.stack, s.impls)
    requires p in s.impls
    ensures ArgsRound(rf, rank, bound, args, s, p).0.Success?
    decreases bound, 0, 0, 0
  {
    ResolveSucceeds(rf, rank, s, p);
  }
}
