/** The entities the container works with: classes, instances, errors and its state. */
module Model {

  /** A Java `Class<?>`, identified by its binary name split into the package and the
      part after it: `localName` is `Outer$Inner` for a nested class, so two nested
      classes with the same simple name in different outer classes stay different. */
  datatype Class = Class(packageName: string, localName: string)

  /** An object built by the container. `id` is its identity (a fresh value for every
      object a constructor returns), `impl` the class it was built from and `args` the objects
      passed to its constructor, in declared order. */
  datatype Instance = Instance(id: nat, impl: Class, args: seq<Instance>)

  /** The exceptions the container raises. */
  datatype Error =
    | NullRegistration                    // "Interface and implementation types cannot be null"
    | NullType                            // "Type cannot be null"
    | NotRegistered(ty: Class)            // "Type isn't registered: <name>"
    | CircularDependency(ty: Class)       // "Circular dependency detected for: <name>"
    | NotComponent(impl: Class)           // "<name> is not annotated with @Component"
    | ConstructorThrew(impl: Class)       // the constructor itself raised an exception
    | CreationFailed(impl: Class, cause: Error)       // "Failed to create instance of <name>"
    | PackageNotFound(packageName: string)            // "Package not found: <package>"
    | ScanFailed(packageName: string, cause: Error)   // "Failed to scan package: <package>"

  /** What reflection tells the container about a class. */
  datatype Reflection = Reflection(
    ctorParams: Class -> seq<Class>,      // parameter types of the first declared constructor
    isComponent: Class -> bool,           // annotated with @Component
    interfacesOf: Class -> seq<Class>,    // getInterfaces()
    constructorThrows: Class -> bool)     // newInstance raises

  /** The container's three structures and its identity counter:
      `impls` is implementationPerInterface, `instances` is createdInstances and
      `stack` is creationStack. */
  datatype State = State(
    impls: map<Class, Class>,
    instances: map<Class, Instance>,
    stack: set<Class>,
    nextId: nat)

  /** True if `v` was built from the cached instances of its constructor's parameter
      types, one per parameter and in declared order. */
  ghost predicate WiredIn(rf: Reflection, m: map<Class, Instance>, v: Instance)
  {
    && |v.args| == |rf.ctorParams(v.impl)|
    && forall j :: 0 <= j < |v.args| ==>
         rf.ctorParams(v.impl)[j] in m && m[rf.ctorParams(v.impl)[j]] == v.args[j]
  }

  /** The cache invariant: identities are below the counter and pairwise distinct, and
      every cached object is wired to the cached objects of its parameter types. */
  ghost predicate Consistent(rf: Reflection, s: State)
  {
    && (forall k :: k in s.instances ==> s.instances[k].id < s.nextId)
    && (forall k1, k2 :: k1 in s.instances && k2 in s.instances && k1 != k2 ==>
          s.instances[k1].id != s.instances[k2].id)
    && (forall k {:trigger WiredIn(rf, s.instances, s.instances[k])} ::
          k in s.instances ==> WiredIn(rf, s.instances, s.instances[k]))
  }

  /** The implementation classes of the entries of `m'` that `m` does not have. */
  ghost function NewImpls(m: map<Class, Instance>, m': map<Class, Instance>): (r: set<Class>)
  {
    set k | k in m' && k !in m :: m'[k].impl
  }

  /** How a resolution step may change the state: the registry is untouched, cached
      entries are never replaced or removed, and every added entry is a registered
      interface built from its registered implementation with a fresh identity. */
  ghost predicate Extends(s: State, s': State)
  {
    && s'.impls == s.impls
    && (forall k :: k in s.instances ==> k in s'.instances && s'.instances[k] == s.instances[k])
    && (forall k :: k in s'.instances && k !in s.instances ==>
          k in s.impls && s'.instances[k].impl == s.impls[k] && s.nextId <= s'.instances[k].id)
    && s.nextId <= s'.nextId
  }

  /** Exactly one constructed object (one fresh identity) per added cache entry. */
  ghost predicate Counted(s: State, s': State)
  {
    s'.nextId + |s.instances| == s.nextId + |s'.instances|
  }
}
