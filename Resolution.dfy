/** The depth-first resolver of the container (initializeInterface, createInstance and
    resolveParameters) as functions of the container state, with the invariants every
    resolution keeps. The methods of `Di.Container` are proved to compute exactly these. */
module Resolution {
  import opened Wrappers
  import opened Model

  /** The termination argument: along every edge from a registered interface to a
      constructor parameter of its implementation, `rank` strictly decreases. Without
      it a dependency cycle through interfaces recurses without end. */
  ghost predicate Acyclic(rf: Reflection, rank: Class -> nat, impls: map<Class, Class>)
  {
    forall t, p :: t in impls && p in rf.ctorParams(impls[t]) ==> rank(p) < rank(t)
  }

  /** Every entry added between `s` and `s'` belongs to a type of rank below `bound`. */
  ghost predicate AddedBelow(rank: Class -> nat, s: State, s': State, bound: nat)
  {
    forall k :: k in AddedKeys(s, s') ==> rank(k) < bound
  }

  /** The cache keys present in `s'` but not in `s`. */
  ghost function AddedKeys(s: State, s': State): (r: set<Class>)
  {
    s'.instances.Keys - s.instances.Keys
  }

  /** Each of the first `k` parameter types in `ps` has an entry in `m`, and `args`
      lists those entries in the same order. */
  ghost predicate Aligned(ps: seq<Class>, k: nat, args: seq<Instance>, m: map<Class, Instance>)
    requires k <= |ps|
  {
    |args| == k && forall j :: 0 <= j < k ==> ps[j] in m && m[ps[j]] == args[j]
  }

  /** initializeInterface(t): cache hit, then the in-progress check on `t` itself,
      then the registry lookup; otherwise push the implementation, build it, cache the
      result under `t` and pop the implementation. */
  ghost function Resolve(rf: Reflection, rank: Class -> nat, s: State, t: Class): (res: (Outcome<Error>, State))
    requires Acyclic(rf, rank, s.impls)
    ensures res.1.impls == s.impls
    ensures res.0.Pass? ==> t in res.1.instances
    decreases rank(t), 2
  {
    if t in s.instances then (Pass, s)
    else if t in s.stack then (Fail(CircularDependency(t)), s)
    else if t !in s.impls then (Fail(NotRegistered(t)), s)
    else
      var x := s.impls[t];
      var b := Build(rf, rank, rank(t), s.(stack := s.stack + {x}), x);
      if b.0.Failure? then (Fail(b.0.error), b.1)
      else (Pass, b.1.(instances := b.1.instances[t := b.0.value], stack := b.1.stack - {x}))
  }

  /** createInstance(x): the @Component check, then the constructor parameters, then
      the constructor call; an object it returns consumes one fresh identity. Every failure after the
      annotation check is reported as CreationFailed(x, cause). */
  ghost function Build(rf: Reflection, rank: Class -> nat, bound: nat, s: State, x: Class): (res: (Result<Instance, Error>, State))
    requires Acyclic(rf, rank, s.impls)
    requires forall p :: p in rf.ctorParams(x) ==> rank(p) < bound
    ensures res.1.impls == s.impls
    decreases bound, 1
  {
    if !rf.isComponent(x) then (Failure(NotComponent(x)), s)
    else
      var a := ResolveArgs(rf, rank, bound, s, rf.ctorParams(x), |rf.ctorParams(x)|);
      if a.0.Failure? then (Failure(CreationFailed(x, a.0.error)), a.1)
      else if rf.constructorThrows(x) then (Failure(CreationFailed(x, ConstructorThrew(x))), a.1)
      else (Success(Instance(a.1.nextId, x, a.0.value)), a.1.(nextId := a.1.nextId + 1))
  }

  /** resolveParameters: for each parameter type in declared order, one round of
      ArgsRound; the first failure ends the loop. `k` counts the rounds done, so
      ResolveArgs(.., ps, k) is the loop's state after k rounds. */
  ghost function ResolveArgs(rf: Reflection, rank: Class -> nat, bound: nat, s: State, ps: seq<Class>, k: nat): (res: (Result<seq<Instance>, Error>, State))
    requires Acyclic(rf, rank, s.impls)
    requires forall p :: p in ps ==> rank(p) < bound
    requires k <= |ps|
    ensures res.1.impls == s.impls
    decreases bound, 0, k, 1
  {
    if k == 0 then (Success([]), s)
    else
      var a := ResolveArgs(rf, rank, bound, s, ps, k - 1);
      if a.0.Failure? then a
      else ArgsRound(rf, rank, bound, a.0.value, a.1, ps[k - 1])
  }

  /** One round of the parameter loop: initializeInterface on the parameter type,
      then getInstance of it appended to the arguments found so far. */
  ghost function ArgsRound(rf: Reflection, rank: Class -> nat, bound: nat, args: seq<Instance>, s: State, p: Class): (res: (Result<seq<Instance>, Error>, State))
    requires Acyclic(rf, rank, s.impls)
    requires rank(p) < bound
    ensures res.1.impls == s.impls
    decreases bound, 0, 0, 0
  {
    var o := Resolve(rf, rank, s, p);
    if o.0.Fail? then (Failure(o.0.error), o.1)
    else (Success(args + [o.1.instances[p]]), o.1)
  }

  /** A failure of the parameter loop ends it: all later rounds are skipped. */
  lemma {:induction false} ResolveArgsFailureStays(rf: Reflection, rank: Class -> nat, bound: nat, s: State, ps: seq<Class>, k: nat, n: nat)
    requires Acyclic(rf, rank, s.impls)
    requires forall p :: p in ps ==> rank(p) < bound
    requires k <= n <= |ps|
    requires ResolveArgs(rf, rank, bound, s, ps, k).0.Failure?
    ensures ResolveArgs(rf, rank, bound, s, ps, n) == ResolveArgs(rf, rank, bound, s, ps, k)
    decreases n
  {
    if k < n {
      ResolveArgsFailureStays(rf, rank, bound, s, ps, k, n - 1);
    }
  }

  // ---------------------------------------------------------------------------
  // What a resolution adds: old entries kept, new entries
  // only for types below the current one, and constructor arguments that are the
  // cached instances of the parameter types.

  lemma {:induction false} ResolveAdds(rf: Reflection, rank: Class -> nat, s: State, t: Class)
    requires Acyclic(rf, rank, s.impls)
    ensures var res := Resolve(rf, rank, s, t);
      Extends(s, res.1) && AddedBelow(rank, s, res.1, rank(t) + 1)
    decreases rank(t), 2
  {
    if t !in s.instances && t !in s.stack && t in s.impls {
      var x := s.impls[t];
      var s1 := s.(stack := s.stack + {x});
      BuildAdds(rf, rank, rank(t), s1, x);
    }
  }

  lemma {:induction false} BuildAdds(rf: Reflection, rank: Class -> nat, bound: nat, s: State, x: Class)
    requires Acyclic(rf, rank, s.impls)
    requires forall p :: p in rf.ctorParams(x) ==> rank(p) < bound
    ensures var res := Build(rf, rank, bound, s, x);
      && Extends(s, res.1)
      && AddedBelow(rank, s, res.1, bound)
      && (res.0.Success? ==>
            && res.0.value.impl == x
            && s.nextId <= res.0.value.id
            && res.0.value.id + 1 == res.1.nextId
            && WiredIn(rf, res.1.instances, res.0.value))
    decreases bound, 1
  {
    if rf.isComponent(x) {
      ArgsAdds(rf, rank, bound, s, rf.ctorParams(x), |rf.ctorParams(x)|);
    }
  }

  lemma {:induction false} ArgsAdds(rf: Reflection, rank: Class -> nat, bound: nat, s: State, ps: seq<Class>, k: nat)
    requires Acyclic(rf, rank, s.impls)
    requires forall p :: p in ps ==> rank(p) < bound
    requires k <= |ps|
    ensures var res := ResolveArgs(rf, rank, bound, s, ps, k);
      && Extends(s, res.1)
      && AddedBelow(rank, s, res.1, bound)
      && (res.0.Success? ==> Aligned(ps, k, res.0.value, res.1.instances))
    decreases bound, 0, k, 1
  {
    if k > 0 {
      ArgsAdds(rf, rank, bound, s, ps, k - 1);
      var a := ResolveArgs(rf, rank, bound, s, ps, k - 1);
      if a.0.Success? {
        assert ps[k - 1] in ps;
        RoundAdds(rf, rank, bound, a.0.value, a.1, ps[k - 1]);
        var r := ArgsRound(rf, rank, bound, a.0.value, a.1, ps[k - 1]);
        AddsCompose(rank, s, a.1, r.1, bound, bound);
        if r.0.Success? {
          AlignedAppend(ps, k, a.0.value, a.1.instances, r.1.instances);
        }
      }
    }
  }

  lemma {:induction false} RoundAdds(rf: Reflection, rank: Class -> nat, bound: nat, args: seq<Instance>, s: State, p: Class)
    requires Acyclic(rf, rank, s.impls)
    requires rank(p) < bound
    ensures var res := ArgsRound(rf, rank, bound, args, s, p);
      && Extends(s, res.1)
      && AddedBelow(rank, s, res.1, bound)
      && (res.0.Success? ==> p in res.1.instances && res.0.value == args + [res.1.instances[p]])
    decreases bound, 0, 0, 0
  {
    ResolveAdds(rf, rank, s, p);
  }

  /** Appending the instance of parameter k-1 extends the alignment to k rounds. */
  lemma AlignedAppend(ps: seq<Class>, k: nat, args: seq<Instance>, m: map<Class, Instance>, m': map<Class, Instance>)
    requires 0 < k <= |ps|
    requires Aligned(ps, k - 1, args, m)
    requires forall c :: c in m ==> c in m' && m'[c] == m[c]
    requires ps[k - 1] in m'
    ensures Aligned(ps, k, args + [m'[ps[k - 1]]], m')
  {
  }

  // ---------------------------------------------------------------------------
  // Counting: one constructed object (one fresh identity) per cache entry a
  // resolution adds; a constructor that throws consumes no identity.

  lemma {:induction false} ResolveCounted(rf: Reflection, rank: Class -> nat, s: State, t: Class)
    requires Acyclic(rf, rank, s.impls)
    ensures Counted(s, Resolve(rf, rank, s, t).1)
    decreases rank(t), 2
  {
    if t !in s.instances && t !in s.stack && t in s.impls {
      var x := s.impls[t];
      var s1 := s.(stack := s.stack + {x});
      BuildCounted(rf, rank, rank(t), s1, x);
      var b := Build(rf, rank, rank(t), s1, x);
      if b.0.Success? {
        BuildAdds(rf, rank, rank(t), s1, x);
        assert t !in AddedKeys(s1, b.1);
      }
    }
  }

  lemma {:induction false} BuildCounted(rf: Reflection, rank: Class -> nat, bound: nat, s: State, x: Class)
    requires Acyclic(rf, rank, s.impls)
    requires forall p :: p in rf.ctorParams(x) ==> rank(p) < bound
    ensures var res := Build(rf, rank, bound, s, x);
      && (res.0.Failure? ==> Counted(s, res.1))
      && (res.0.Success? ==> res.1.nextId + |s.instances| == s.nextId + |res.1.instances| + 1)
    decreases bound, 1
  {
    if rf.isComponent(x) {
      ArgsCounted(rf, rank, bound, s, rf.ctorParams(x), |rf.ctorParams(x)|);
    }
  }

  lemma {:induction false} ArgsCounted(rf: Reflection, rank: Class -> nat, bound: nat, s: State, ps: seq<Class>, k: nat)
    requires Acyclic(rf, rank, s.impls)
    requires forall p :: p in ps ==> rank(p) < bound
    requires k <= |ps|
    ensures Counted(s, ResolveArgs(rf, rank, bound, s, ps, k).1)
    decreases bound, 0, k, 1
  {
    if k > 0 {
      ArgsCounted(rf, rank, bound, s, ps, k - 1);
      var a := ResolveArgs(rf, rank, bound, s, ps, k - 1);
      if a.0.Success? {
        assert ps[k - 1] in ps;
        RoundCounted(rf, rank, bound, a.0.value, a.1, ps[k - 1]);
      }
    }
  }

  lemma {:induction false} RoundCounted(rf: Reflection, rank: Class -> nat, bound: nat, args: seq<Instance>, s: State, p: Class)
    requires Acyclic(rf, rank, s.impls)
    requires rank(p) < bound
    ensures Counted(s, ArgsRound(rf, rank, bound, args, s, p).1)
    decreases bound, 0, 0, 0
  {
    ResolveCounted(rf, rank, s, p);
  }

  // ---------------------------------------------------------------------------
  // The creation stack: a successful resolution pops everything it pushed, so the
  // stack afterwards is the stack before minus the implementations it built (the
  // stack is a set, so popping an implementation that was already on it removes it).
  // A failed one pops nothing on the way out.

  lemma {:induction false} ResolveStack(rf: Reflection, rank: Class -> nat, s: State, t: Class)
    requires Acyclic(rf, rank, s.impls)
    ensures var res := Resolve(rf, rank, s, t);
      && (res.0.Pass? ==> res.1.stack == s.stack - NewImpls(s.instances, res.1.instances))
      && s.stack - NewImpls(s.instances, res.1.instances) <= res.1.stack
    decreases rank(t), 2
  {
    if t !in s.instances && t !in s.stack && t in s.impls {
      var x := s.impls[t];
      var s1 := s.(stack := s.stack + {x});
      BuildStack(rf, rank, rank(t), s1, x);
      BuildAdds(rf, rank, rank(t), s1, x);
      var b := Build(rf, rank, rank(t), s1, x);
      if b.0.Success? {
        NewImplsPut(s.instances, b.1.instances, t, b.0.value);
      }
    }
  }

  lemma {:induction false} BuildStack(rf: Reflection, rank: Class -> nat, bound: nat, s: State, x: Class)
    requires Acyclic(rf, rank, s.impls)
    requires forall p :: p in rf.ctorParams(x) ==> rank(p) < bound
    ensures var res := Build(rf, rank, bound, s, x);
      && (res.0.Success? ==> res.1.stack == s.stack - NewImpls(s.instances, res.1.instances))
      && s.stack - NewImpls(s.instances, res.1.instances) <= res.1.stack
    decreases bound, 1
  {
    if rf.isComponent(x) {
      ArgsStack(rf, rank, bound, s, rf.ctorParams(x), |rf.ctorParams(x)|);
    }
  }

  lemma {:induction false} ArgsStack(rf: Reflection, rank: Class -> nat, bound: nat, s: State, ps: seq<Class>, k: nat)
    requires Acyclic(rf, rank, s.impls)
    requires forall p :: p in ps ==> rank(p) < bound
    requires k <= |ps|
    ensures var res := ResolveArgs(rf, rank, bound, s, ps, k);
      && (res.0.Success? ==> res.1.stack == s.stack - NewImpls(s.instances, res.1.instances))
      && s.stack - NewImpls(s.instances, res.1.instances) <= res.1.stack
    decreases bound, 0, k, 1
  {
    if k > 0 {
      ArgsStack(rf, rank, bound, s, ps, k - 1);
      var a := ResolveArgs(rf, rank, bound, s, ps, k - 1);
      if a.0.Success? {
        assert ps[k - 1] in ps;
        RoundStack(rf, rank, bound, a.0.value, a.1, ps[k - 1]);
        ArgsAdds(rf, rank, bound, s, ps, k - 1);
        RoundAdds(rf, rank, bound, a.0.value, a.1, ps[k - 1]);
        var r := ArgsRound(rf, rank, bound, a.0.value, a.1, ps[k - 1]);
        StackCompose(s, a.1, r.1, r.0.Success?);
      }
    }
  }

  lemma {:induction false} RoundStack(rf: Reflection, rank: Class -> nat, bound: nat, args: seq<Instance>, s: State, p: Class)
    requires Acyclic(rf, rank, s.impls)
    requires rank(p) < bound
    ensures var res := ArgsRound(rf, rank, bound, args, s, p);
      && (res.0.Success? ==> res.1.stack == s.stack - NewImpls(s.instances, res.1.instances))
      && s.stack - NewImpls(s.instances, res.1.instances) <= res.1.stack
    decreases bound, 0, 0, 0
  {
    ResolveStack(rf, rank, s, p);
  }

  // ---------------------------------------------------------------------------
  // The cache invariant: identities stay distinct and every cached object stays wired
  // to the cached objects of its parameter types.

  lemma {:induction false} ResolveConsistent(rf: Reflection, rank: Class -> nat, s: State, t: Class)
    requires Acyclic(rf, rank, s.impls)
    requires Consistent(rf, s)
    ensures Consistent(rf, Resolve(rf, rank, s, t).1)
    decreases rank(t), 2
  {
    if t !in s.instances && t !in s.stack && t in s.impls {
      var x := s.impls[t];
      var s1 := s.(stack := s.stack + {x});
      BuildConsistent(rf, rank, rank(t), s1, x);
      BuildAdds(rf, rank, rank(t), s1, x);
      var b := Build(rf, rank, rank(t), s1, x);
      if b.0.Success? {
        CachePut(rf, b.1, t, b.0.value, Resolve(rf, rank, s, t).1);
      }
    }
  }

  lemma {:induction false} BuildConsistent(rf: Reflection, rank: Class -> nat, bound: nat, s: State, x: Class)
    requires Acyclic(rf, rank, s.impls)
    requires forall p :: p in rf.ctorParams(x) ==> rank(p) < bound
    requires Consistent(rf, s)
    ensures var res := Build(rf, rank, bound, s, x);
      && Consistent(rf, res.1)
      && (res.0.Success? ==> forall k :: k in res.1.instances ==> res.1.instances[k].id < res.0.value.id)
    decreases bound, 1
  {
    if rf.isComponent(x) {
      ArgsConsistent(rf, rank, bound, s, rf.ctorParams(x), |rf.ctorParams(x)|);
    }
  }

  lemma {:induction false} ArgsConsistent(rf: Reflection, rank: Class -> nat, bound: nat, s: State, ps: seq<Class>, k: nat)
    requires Acyclic(rf, rank, s.impls)
    requires forall p :: p in ps ==> rank(p) < bound
    requires k <= |ps|
    requires Consistent(rf, s)
    ensures Consistent(rf, ResolveArgs(rf, rank, bound, s, ps, k).1)
    decreases bound, 0, k, 1
  {
    if k > 0 {
      ArgsConsistent(rf, rank, bound, s, ps, k - 1);
      var a := ResolveArgs(rf, rank, bound, s, ps, k - 1);
      if a.0.Success? {
        assert ps[k - 1] in ps;
        RoundConsistent(rf, rank, bound, a.0.value, a.1, ps[k - 1]);
      }
    }
  }

  lemma {:induction false} RoundConsistent(rf: Reflection, rank: Class -> nat, bound: nat, args: seq<Instance>, s: State, p: Class)
    requires Acyclic(rf, rank, s.impls)
    requires rank(p) < bound
    requires Consistent(rf, s)
    ensures Consistent(rf, ArgsRound(rf, rank, bound, args, s, p).1)
    decreases bound, 0, 0, 0
  {
    ResolveConsistent(rf, rank, s, p);
  }

  /** Caching a freshly built, wired object under a new key keeps the cache invariant. */
  lemma CachePut(rf: Reflection, b: State, t: Class, v: Instance, s': State)
    requires Consistent(rf, b) && t !in b.instances
    requires v.id + 1 == b.nextId && WiredIn(rf, b.instances, v)
    requires forall k :: k in b.instances ==> b.instances[k].id < v.id
    requires s'.instances == b.instances[t := v] && s'.nextId == b.nextId
    ensures Consistent(rf, s')
  {
    WiredGrows(rf, b.instances, s'.instances, v);
    forall k | k in s'.instances ensures WiredIn(rf, s'.instances, s'.instances[k]) {
      if k != t {
        WiredGrows(rf, b.instances, s'.instances, b.instances[k]);
      }
    }
  }

  // ---------------------------------------------------------------------------
  // Helpers about maps of instances.

  /** Two consecutive growth steps make one. */
  lemma AddsCompose(rank: Class -> nat, s0: State, s1: State, s2: State, bound: nat, inner: nat)
    requires inner <= bound
    requires Extends(s0, s1) && AddedBelow(rank, s0, s1, bound)
    requires Extends(s1, s2) && AddedBelow(rank, s1, s2, inner)
    ensures Extends(s0, s2) && AddedBelow(rank, s0, s2, bound)
  {
    ExtendsTrans(s0, s1, s2);
    forall k | k in AddedKeys(s0, s2) ensures rank(k) < bound {
      if k in s1.instances {
        assert k in AddedKeys(s0, s1);
      } else {
        assert k in AddedKeys(s1, s2);
      }
    }
  }

  /** Two consecutive stack steps make one; `ok` says the second one succeeded. */
  lemma StackCompose(s0: State, s1: State, s2: State, ok: bool)
    requires Extends(s0, s1) && Extends(s1, s2)
    requires s1.stack == s0.stack - NewImpls(s0.instances, s1.instances)
    requires ok ==> s2.stack == s1.stack - NewImpls(s1.instances, s2.instances)
    requires s1.stack - NewImpls(s1.instances, s2.instances) <= s2.stack
    ensures ok ==> s2.stack == s0.stack - NewImpls(s0.instances, s2.instances)
    ensures s0.stack - NewImpls(s0.instances, s2.instances) <= s2.stack
  {
    ExtendsTrans(s0, s1, s2);
  }

  lemma ExtendsTrans(s0: State, s1: State, s2: State)
    requires Extends(s0, s1) && Extends(s1, s2)
    ensures Extends(s0, s2)
    ensures NewImpls(s0.instances, s2.instances)
         == NewImpls(s0.instances, s1.instances) + NewImpls(s1.instances, s2.instances)
  {
    var n02 := NewImpls(s0.instances, s2.instances);
    var n01 := NewImpls(s0.instances, s1.instances);
    var n12 := NewImpls(s1.instances, s2.instances);
    forall c | c in n02 ensures c in n01 + n12 {
      var k :| k in s2.instances && k !in s0.instances && s2.instances[k].impl == c;
      if k in s1.instances {
        assert s1.instances[k].impl == c;
      }
    }
    forall c | c in n01 + n12 ensures c in n02 {
      if c in n01 {
        var k :| k in s1.instances && k !in s0.instances && s1.instances[k].impl == c;
        assert s2.instances[k].impl == c;
      } else {
        var k :| k in s2.instances && k !in s1.instances && s2.instances[k].impl == c;
        assert k !in s0.instances;
      }
    }
  }

  /** Caching one more entry adds its implementation to the new implementations. */
  lemma NewImplsPut(m: map<Class, Instance>, m': map<Class, Instance>, t: Class, v: Instance)
    requires t !in m'
    requires forall k :: k in m ==> k in m'
    ensures NewImpls(m, m'[t := v]) == NewImpls(m, m') + {v.impl}
  {
    var lhs := NewImpls(m, m'[t := v]);
    forall c | c in lhs ensures c in NewImpls(m, m') + {v.impl} {
      var k :| k in m'[t := v] && k !in m && m'[t := v][k].impl == c;
      if k != t {
        assert m'[k].impl == c;
      }
    }
    assert t in m'[t := v] && t !in m && m'[t := v][t].impl == v.impl;
  }

  /** Wiring survives growth of the cache. */
  lemma WiredGrows(rf: Reflection, m: map<Class, Instance>, m': map<Class, Instance>, v: Instance)
    requires forall k :: k in m ==> k in m' && m'[k] == m[k]
    requires WiredIn(rf, m, v)
    ensures WiredIn(rf, m', v)
  {
  }
}
