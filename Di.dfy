/** The container object: a registry, a cache of created instances and the set of
    implementations currently being built, updated in place by its methods. */
module Di {
  import opened Wrappers
  import opened Model
  import opened Resolution
  import opened Properties
  import opened Scanning

  class Container {
    /** What reflection reports about classes (annotations, interfaces, constructors). */
    const reflection: Reflection
    /** implementationPerInterface: interface -> implementation. */
    var impls: map<Class, Class>
    /** createdInstances: interface -> the instance built for it. */
    var instances: map<Class, Instance>
    /** creationStack: the implementations currently being built. */
    var stack: set<Class>
    /** The identity the next constructed object receives. */
    var nextId: nat

    /** The container's state as a value. */
    function Snapshot(): (s: State)
      reads this
    {
      State(impls, instances, stack, nextId)
    }

    /** The cache invariant, and every cached type is a registered interface;
        established by the constructor and kept by every method that requires it. */
    ghost predicate Valid()
      reads this
    {
      Consistent(reflection, Snapshot()) && instances.Keys <= impls.Keys
    }

    constructor (reflection: Reflection)
      ensures this.reflection == reflection
      ensures impls == map[] && instances == map[] && stack == {} && nextId == 0
      ensures Valid()
    {
      this.reflection := reflection;
      impls, instances, stack, nextId := map[], map[], {}, 0;
    }

    /** getInstance: a read of the cache; `None` stands for a null argument. */
    method GetInstance(ty: Option<Class>) returns (r: Result<Instance, Error>)
      ensures ty.None? ==> r == Failure(NullType)
      ensures ty.Some? && ty.value !in instances ==> r == Failure(NotRegistered(ty.value))
      ensures ty.Some? && ty.value in instances ==> r == Success(instances[ty.value])
    {
      if ty.None? {
        return Failure(NullType);
      }
      if ty.value !in instances {
        return Failure(NotRegistered(ty.value));
      }
      r := Success(instances[ty.value]);
    }

    /** register: records one mapping, replacing any earlier one for the interface. */
    method Register(iface: Option<Class>, impl: Option<Class>) returns (r: Outcome<Error>)
      modifies this`impls
      ensures r.Fail? <==> iface.None? || impl.None?
      ensures r.Fail? ==> r.error == NullRegistration && impls == old(impls)
      ensures r.Pass? ==> impls == old(impls)[iface.value := impl.value]
    {
      if iface.None? || impl.None? {
        return Fail(NullRegistration);
      }
      impls := impls[iface.value := impl.value];
      r := Pass;
    }

    /** The registration loop of a scan: each @Component class among the scanned
        classes is registered under every interface it implements. */
    method RegisterScanned(classes: seq<Class>)
      modifies this`impls
      ensures impls == ScanRegistry(reflection, old(impls), classes)
    {
      for i := 0 to |classes|
        invariant impls == ScanRegistry(reflection, old(impls), classes[..i])
      {
        assert classes[..i + 1][..i] == classes[..i];
        var c := classes[i];
        if reflection.isComponent(c) {
          var interfaces := reflection.interfacesOf(c);
          ghost var before := impls;
          for j := 0 to |interfaces|
            invariant impls == RegisterEach(before, interfaces[..j], c)
          {
            assert interfaces[..j + 1][..j] == interfaces[..j];
            var _ := Register(Some(interfaces[j]), Some(c));
          }
          assert interfaces[..|interfaces|] == interfaces;
        }
      }
      assert classes[..|classes|] == classes;
    }

    /** initializeAll: resolves every registered interface, in an unspecified order,
        and stops at the first failure. */
    method InitializeAll(ghost rank: Class -> nat) returns (r: Outcome<Error>)
      requires Valid()
      requires Acyclic(reflection, rank, impls)
      modifies this
      ensures Valid()
      ensures Extends(old(Snapshot()), Snapshot()) && Counted(old(Snapshot()), Snapshot())
      ensures r.Pass? ==> instances.Keys == impls.Keys
      ensures r.Pass? ==> stack == old(stack) - NewImpls(old(instances), instances)
      ensures old(stack) - NewImpls(old(instances), instances) <= stack
      ensures (Closed(reflection, impls) && Buildable(reflection, impls) && ImplsNotKeys(impls)
               && StackApart(old(stack), impls)) ==> r.Pass?
    {
      ghost var s0 := Snapshot();
      var todo := impls.Keys;
      while todo != {}
        invariant todo <= impls.Keys && impls == s0.impls
        invariant InitProgress(reflection, s0, Snapshot(), todo) && Valid()
        decreases todo
      {
        var t :| t in todo;
        InitStep(reflection, rank, s0, Snapshot(), todo, t);
        r := InitializeInterface(t, rank);
        if r.Fail? {
          return;
        }
        todo := todo - {t};
      }
      r := Pass;
    }

    /** initializeInterface: the spec function Resolve computed in place. */
    method InitializeInterface(t: Class, ghost rank: Class -> nat) returns (r: Outcome<Error>)
      requires Acyclic(reflection, rank, impls)
      modifies this
      ensures (r, Snapshot()) == Resolve(reflection, rank, old(Snapshot()), t)
      decreases rank(t), 2
    {
      if t in instances {
        return Pass;
      }
      if t in stack {
        return Fail(CircularDependency(t));
      }
      if t !in impls {
        return Fail(NotRegistered(t));
      }
      var impl := impls[t];
      stack := stack + {impl};
      var built := CreateInstance(impl, rank, rank(t));
      if built.Failure? {
        return Fail(built.error);
      }
      instances := instances[t := built.value];
      stack := stack - {impl};
      r := Pass;
    }

    /** createInstance: the spec function Build computed in place. */
    method CreateInstance(impl: Class, ghost rank: Class -> nat, ghost bound: nat) returns (r: Result<Instance, Error>)
      requires Acyclic(reflection, rank, impls)
      requires forall p :: p in reflection.ctorParams(impl) ==> rank(p) < bound
      modifies this
      ensures (r, Snapshot()) == Build(reflection, rank, bound, old(Snapshot()), impl)
      decreases bound, 1
    {
      if !reflection.isComponent(impl) {
        return Failure(NotComponent(impl));
      }
      var parameters := ResolveParameters(reflection.ctorParams(impl), rank, bound);
      if parameters.Failure? {
        return Failure(CreationFailed(impl, parameters.error));
      }
      if reflection.constructorThrows(impl) {
        return Failure(CreationFailed(impl, ConstructorThrew(impl)));
      }
      r := Success(Instance(nextId, impl, parameters.value));
      nextId := nextId + 1;
    }

    /** resolveParameters: the spec function ResolveArgs computed in place, filling an
        array of arguments one parameter at a time. */
    method ResolveParameters(parameterTypes: seq<Class>, ghost rank: Class -> nat, ghost bound: nat)
      returns (r: Result<seq<Instance>, Error>)
      requires Acyclic(reflection, rank, impls)
      requires forall p :: p in parameterTypes ==> rank(p) < bound
      modifies this
      ensures (r, Snapshot()) == ResolveArgs(reflection, rank, bound, old(Snapshot()), parameterTypes, |parameterTypes|)
      decreases bound, 0, |parameterTypes|, 1
    {
      var parameters := new Instance[|parameterTypes|];
      ghost var s0 := Snapshot();
      for i := 0 to |parameterTypes|
        invariant impls == s0.impls
        invariant ResolveArgs(reflection, rank, bound, s0, parameterTypes, i) == (Success(parameters[..i]), Snapshot())
      {
        var paramType := parameterTypes[i];
        assert paramType in parameterTypes;
        ghost var done := parameters[..i];
        var o := InitializeInterface(paramType, rank);
        if o.Fail? {
          ResolveArgsFailureStays(reflection, rank, bound, s0, parameterTypes, i + 1, |parameterTypes|);
          return Failure(o.error);
        }
        var got := GetInstance(Some(paramType));
        parameters[i] := got.value;
        assert parameters[..i + 1] == done + [got.value];
      }
      assert parameters[..] == parameters[..|parameterTypes|];
      r := Success(parameters[..]);
    }

    /** scanPackage: registration of the scanned classes, then eager initialization;
        every failure is reported as ScanFailed for the package. `found` is the list of
        classes the class-path walk found, or None when the package does not exist. */
    method ScanPackage(packageName: string, found: Option<seq<Class>>, ghost rank: Class -> nat)
      returns (r: Outcome<Error>)
      requires Valid()
      requires found.Some? ==> Acyclic(reflection, rank, ScanRegistry(reflection, impls, found.value))
      modifies this
      ensures Valid()
      ensures found.None? ==>
        r == Fail(ScanFailed(packageName, PackageNotFound(packageName))) && Snapshot() == old(Snapshot())
      ensures found.Some? ==> impls == ScanRegistry(reflection, old(impls), found.value)
      ensures r.Fail? ==> r.error.ScanFailed? && r.error.packageName == packageName
      ensures forall k :: k in old(instances) ==> k in instances && instances[k] == old(instances)[k]
      ensures r.Pass? ==> instances.Keys == impls.Keys
      ensures r.Pass? && old(stack) == {} ==> stack == {}
      ensures (found.Some? && Closed(reflection, impls) && Buildable(reflection, impls) && ImplsNotKeys(impls)
               && StackApart(old(stack), impls)) ==> r.Pass?
    {
      if found.None? {
        return Fail(ScanFailed(packageName, PackageNotFound(packageName)));
      }
      RegisterScanned(found.value);
      var o := InitializeAll(rank);
      if o.Fail? {
        return Fail(ScanFailed(packageName, o.error));
      }
      r := Pass;
    }
  }

  /** What initializeAll has achieved from `s0` when `todo` is still to be done. */
  ghost predicate InitProgress(rf: Reflection, s0: State, s: State, todo: set<Class>)
  {
    && Extends(s0, s) && Counted(s0, s)
    && (forall k :: k in s.impls && k !in todo ==> k in s.instances)
    && s.stack == s0.stack - NewImpls(s0.instances, s.instances)
  }

  /** One round of initializeAll: resolving `t` either extends the progress by `t`
      or fails with the invariants intact, and cannot fail on a well-formed registry. */
  lemma InitStep(rf: Reflection, rank: Class -> nat, s0: State, s: State, todo: set<Class>, t: Class)
    requires Acyclic(rf, rank, s.impls)
    requires InitProgress(rf, s0, s, todo) && Consistent(rf, s) && t in todo && todo <= s.impls.Keys
    ensures var res := Resolve(rf, rank, s, t);
      && (res.0.Pass? ==> InitProgress(rf, s0, res.1, todo - {t}))
      && Extends(s0, res.1) && Counted(s0, res.1) && Consistent(rf, res.1)
      && s0.stack - NewImpls(s0.instances, res.1.instances) <= res.1.stack
      && ((Closed(rf, s.impls) && Buildable(rf, s.impls) && ImplsNotKeys(s.impls)
             && StackApart(s0.stack, s.impls)) ==> res.0.Pass?)
  {
    var res := Resolve(rf, rank, s, t);
    ResolveAdds(rf, rank, s, t);
    ResolveCounted(rf, rank, s, t);
    ResolveStack(rf, rank, s, t);
    ResolveConsistent(rf, rank, s, t);
    InitCompose(rf, s0, s, res.1, todo, t, res.0.Pass?);
    if Closed(rf, s.impls) && Buildable(rf, s.impls) && ImplsNotKeys(s.impls) && StackApart(s0.stack, s.impls) {
      assert StackApart(s.stack, s.impls);
      ResolveSucceeds(rf, rank, s, t);
    }
  }

  /** The bookkeeping of one round of initializeAll, on plain states: `s'` is the state
      after resolving `t`, and `ok` says whether that succeeded. */
  lemma InitCompose(rf: Reflection, s0: State, s: State, s': State, todo: set<Class>, t: Class, ok: bool)
    requires InitProgress(rf, s0, s, todo)
    requires Extends(s, s') && Counted(s, s')
    requires ok ==> t in s'.instances && s'.stack == s.stack - NewImpls(s.instances, s'.instances)
    requires s.stack - NewImpls(s.instances, s'.instances) <= s'.stack
    ensures ok ==> InitProgress(rf, s0, s', todo - {t})
    ensures Extends(s0, s') && Counted(s0, s')
    ensures s0.stack - NewImpls(s0.instances, s'.instances) <= s'.stack
  {
    StackCompose(s0, s, s', ok);
  }
}
