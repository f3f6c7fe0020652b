# A verified model of the dependency-injection container

This project models `com.di.Container` in Dafny. The container is a small
dependency-injection container written in Java. It works in two phases:

- A **package scan** finds the classes annotated with `@Component`. Each one is
  registered under every interface it implements.
- **Eager initialization** then builds one object per registered interface. It
  resolves constructor parameters depth first, caches each object under its
  interface, and tracks the implementations currently being built in a creation
  stack.

The model is organised the way the Java class is:

- `Model.dfy` holds the entities:
  - classes, identified by package and the binary name after it (`Outer$Inner` for
    a nested class);
  - the objects the container builds, each with an identity, its class and its
    constructor arguments;
  - the container's exceptions;
  - what reflection reports about a class;
  - the container's state as a value.
- `Scanning.dfy` holds the registration loop of a scan as functions over the list
  of scanned classes, with the "later registration wins" and coverage lemmas.
- `Resolution.dfy` holds `initializeInterface`, `createInstance` and
  `resolveParameters` as mutually recursive functions of the container state (`Resolve`,
  `Build`, `ResolveArgs`/`ArgsRound`). The invariants every resolution keeps are
  proved by induction, one family of lemmas per invariant:
  - what gets added: old entries kept, new keys registered, arguments aligned with
    parameters;
  - counting: one constructed object (one fresh identity) per new entry;
  - the creation stack;
  - cache consistency.
- `Properties.dfy` holds what one call of `initializeInterface` promises:
  - idempotence;
  - the order of the checks;
  - wiring;
  - the cache only grows;
  - stack restoration;
  - success on well-formed registries.
- `Di.dfy` holds the container itself. It is a class whose fields are the
  registry, the cache, the creation stack and an identity counter. Its methods
  update these fields in place:
  - `InitializeInterface`, `CreateInstance` and `ResolveParameters` are proved to
    compute exactly the corresponding function of `Resolution`;
  - `RegisterScanned` is proved to leave exactly the registry of `Scanning`;
  - `GetInstance`, `Register`, `InitializeAll` and `ScanPackage` carry contracts
    that state their results and new state directly.
- `Fixtures.dfy` holds the example applications of the repository as concrete
  graphs:
  - the example application's scan and its resolution;
  - the circular example;
  - a constructor that takes its own class, for which the circular check fires;
  - a failure after one dependency was already built;
  - one implementation behind two interfaces;
  - a dependency requested twice.

Behaviour of the code that the model keeps on purpose:

- **The circular check looks up the interface in a set of implementation
  classes.**
  - `Container.java:180` tests the requested *interface* against `creationStack`.
    Lines 191 and 194, however, add and remove the *implementation* class.
  - The model keeps this. The check therefore fires only when a requested type is
    an implementation class that is on the stack. That is either a class being
    built, when a constructor parameter names it (`Fixtures.SelfParameterIsCircular`),
    or a class an earlier failed call left on the stack.
  - A cycle through interfaces is not detected. In the circular example the user
    service is requested again while its implementation is on the stack. The check
    passes, and pushing the implementation again leaves the state unchanged
    (`Fixtures.CircularGuardMisses`). Such a registry has no rank
    (`Fixtures.CircularHasNoRank`).
  - The recursion is given a termination argument by a ghost `rank` on types. It must
    strictly decrease from each registered interface to the parameter types of its
    implementation (`Resolution.Acyclic`).
- **A failed resolution is not rolled back.** There is no `finally`:
  - the implementations it pushed stay on the creation stack
    (`Fixtures.SelfParameterIsCircular`, `Properties.ResolveChecksInOrder`);
  - the entries it already built for other interfaces stay in the cache
    (`Fixtures.FailureKeepsBuiltDependency`).
- **The creation stack is a set.**
  - Pushing an implementation that is already on it changes nothing, and popping
    removes it.
  - After a successful call, the stack is the old stack minus the
    implementations built during the call (`Resolution.ResolveStack`).
  - The stack is exactly restored when none of those was on it before, and an
    empty stack stays empty (`Properties.ResolveRestoresStack`).
- **The order of `initializeAll` is unspecified.**
  - `HashMap.keySet()` has no defined order, so `Di.Container.InitializeAll`
    picks the next interface nondeterministically.
  - Its contract holds for every order.

## Model

| member | source | states |
|---|---|---|
| Di.Container.constructor | src/main/java/com/di/Container.java:30-37 | a new container has an empty registry, an empty cache and an empty creation stack, and satisfies the cache invariant |
| Di.Container.GetInstance | src/main/java/com/di/Container.java:89-98 | fails with "Type cannot be null" for null, and with "Type isn't registered" for a type without a created instance; otherwise returns exactly the cached object; changes nothing |
| Di.Container.Register | src/main/java/com/di/Container.java:140-145 | fails exactly when either argument is null, and then changes nothing; otherwise maps the interface to the implementation, replacing any earlier mapping; only the registry may change |
| Di.Container.RegisterScanned | src/main/java/com/di/Container.java:113-130 | the nested registration loop leaves exactly the registry `Scanning.ScanRegistry` describes: each component class, in scan order, registered under each of its interfaces |
| Di.Container.InitializeAll | src/main/java/com/di/Container.java:156-160 | for any iteration order: the cache invariant holds and every cached type is registered, old cache entries stay, new keys are registered interfaces, there is one constructed object (one fresh identity) per new entry, and on success the cached types are exactly the registered interfaces. It succeeds on every ranked, closed, buildable registry in which no implementation class is also a registered interface and no interface is on the stack |
| Di.Container.InitializeInterface | src/main/java/com/di/Container.java:173-195 | the in-place resolution computes exactly the result and the new state of `Resolution.Resolve` |
| Di.Container.CreateInstance | src/main/java/com/di/Container.java:208-225 | the in-place construction computes exactly the result and new state of `Resolution.Build` |
| Di.Container.ResolveParameters | src/main/java/com/di/Container.java:234-245 | the loop that fills the argument array computes exactly `Resolution.ResolveArgs` over all the parameters, stopping at the first failure |
| Di.Container.ScanPackage | src/main/java/com/di/Container.java:51-73 | an unknown package fails as "Failed to scan package" wrapping "Package not found" and changes nothing. Otherwise the registry becomes the scanned registry, and every failure is reported as a scan failure for the package. Old cache entries stay. On success the cached types are exactly the registered interfaces, and an empty stack stays empty. The scan cannot fail on a ranked, closed, buildable registry in which no implementation class is also a registered interface and no interface is on the stack |
| Di.InitStep | src/main/java/com/di/Container.java:157-159 | one round of the `initializeAll` loop either covers one more interface with all loop invariants kept, or fails with the invariants still holding; it cannot fail on a ranked, closed, buildable registry in which no implementation class is also a registered interface and no interface is on the stack |
| Di.InitCompose | src/main/java/com/di/Container.java:157-159 | the loop's bookkeeping (growth from the starting state, counting, coverage, stack) composes across rounds |
| Scanning.RegisterEach | src/main/java/com/di/Container.java:124-127 | registering one class under its interfaces adds exactly those interfaces as keys, maps each to the class, and leaves all other mappings alone |
| Scanning.LastDeclarer | src/main/java/com/di/Container.java:120-125 | finds a scanned component implementing the interface such that no later scanned class is one, and finds none exactly when no scanned class declares it |
| Scanning.ScanRegistry | src/main/java/com/di/Container.java:113-130 | the scan loop keeps every interface registered before, and each registered interface either keeps its earlier mapping or is mapped to a scanned component that implements it |
| Scanning.ScanLastWins | src/main/java/com/di/Container.java:113-130 | after the scan, an interface is registered exactly when it was before or some scanned component implements it. It is then mapped to the last such component in scan order, and other mappings are unchanged |
| Scanning.ScanCovers | src/main/java/com/di/Container.java:120-127 | every interface of every scanned component ends up registered, to a scanned component implementing it |
| Resolution.Resolve | src/main/java/com/di/Container.java:173-195 | `initializeInterface` never changes the registry, and when it returns normally the requested type has a cached object |
| Resolution.Build | src/main/java/com/di/Container.java:208-225 | `createInstance` never changes the registry |
| Resolution.ResolveArgs | src/main/java/com/di/Container.java:234-245 | the parameter loop, after any number of rounds, never changes the registry |
| Resolution.ArgsRound | src/main/java/com/di/Container.java:239-241 | one round of the parameter loop never changes the registry |
| Resolution.ResolveArgsFailureStays | src/main/java/com/di/Container.java:238-242 | a failed round ends the loop: later rounds change neither the result nor the state |
| Resolution.ResolveAdds | src/main/java/com/di/Container.java:173-195 | a resolution keeps every old cache entry. Each new key is a registered interface of rank at most the requested type's, whose object is built from its registered implementation and has a fresh identity |
| Resolution.BuildAdds | src/main/java/com/di/Container.java:208-225 | a construction keeps every old cache entry and adds only entries of lower rank. A successful one yields an object of the implementation with a fresh identity, advances the counter by one, and wires the object to the cached objects of its parameter types |
| Resolution.ArgsAdds | src/main/java/com/di/Container.java:234-245 | the parameter loop keeps every old cache entry and adds only entries of lower rank. After `k` successful rounds, the arguments are the cached objects of the first `k` parameter types, in order |
| Resolution.RoundAdds | src/main/java/com/di/Container.java:239-241 | one round keeps every old cache entry. A successful round caches its parameter type and appends that cached object to the arguments |
| Resolution.ResolveCounted | src/main/java/com/di/Container.java:191-193 | a resolution constructs exactly one object (one fresh identity) per cache entry it adds |
| Resolution.BuildCounted | src/main/java/com/di/Container.java:218-221 | a failed construction uses one fresh identity per entry it adds; a successful one uses one more, for the object it returns |
| Resolution.ArgsCounted | src/main/java/com/di/Container.java:238-242 | the parameter loop constructs one object per entry it adds |
| Resolution.RoundCounted | src/main/java/com/di/Container.java:240 | one round constructs one object per entry it adds |
| Resolution.ResolveStack | src/main/java/com/di/Container.java:191-194 | on success the stack is the old stack minus the implementations built; nothing of the old stack outside those is ever lost |
| Resolution.BuildStack | src/main/java/com/di/Container.java:213-221 | the same for a construction |
| Resolution.ArgsStack | src/main/java/com/di/Container.java:238-242 | the same for the parameter loop |
| Resolution.RoundStack | src/main/java/com/di/Container.java:240 | the same for one round |
| Resolution.ResolveConsistent | src/main/java/com/di/Container.java:173-195 | the cache invariant holds after every resolution, successful or not: identities below the counter and distinct, every object wired to the cached objects of its parameter types |
| Resolution.BuildConsistent | src/main/java/com/di/Container.java:208-225 | a construction keeps the cache invariant, and the new object is younger than every cached one |
| Resolution.ArgsConsistent | src/main/java/com/di/Container.java:234-245 | the parameter loop keeps the cache invariant |
| Resolution.RoundConsistent | src/main/java/com/di/Container.java:240 | one round keeps the cache invariant |
| Resolution.CachePut | src/main/java/com/di/Container.java:193 | caching a freshly built, wired object under a new key keeps the cache invariant |
| Properties.ResolveCachedIsNoOp | src/main/java/com/di/Container.java:175-177 | a type that already has an object resolves with no state change |
| Properties.ResolveAgainIsNoOp | src/main/java/com/di/Container.java:175-177 | resolving a type again after it succeeded changes nothing |
| Properties.ResolveChecksInOrder | src/main/java/com/di/Container.java:180-189 | the line-180 check comes before the registry lookup. A missing `@Component` fails after the push and leaves the implementation on the stack. Every later failure is wrapped for the implementation |
| Properties.ResolveWires | src/main/java/com/di/Container.java:185-193 | after a successful first resolution, the type has a fresh object built from its registered implementation, whose arguments are the cached objects of its parameter types, one per parameter, in order |
| Properties.ResolveOnlyAdds | src/main/java/com/di/Container.java:175-193 | the registry is unchanged, no cache entry is replaced or removed, every added key is a registered interface, and the counter grows by the number of added entries |
| Properties.ResolveRestoresStack | src/main/java/com/di/Container.java:191-194 | after success the stack equals the stack before when no implementation built was already on it; an empty stack stays empty |
| Properties.ResolveKeepsCacheConsistent | src/main/java/com/di/Container.java:187-193 | after any call, identities are below the counter and two interfaces never share an object, even when they share an implementation |
| Properties.ResolveSucceeds | src/main/java/com/di/Container.java:173-195 | every registered interface resolves, provided four conditions hold: the registry is ranked; its implementations are buildable components whose parameter types are registered; no implementation class is also a registered interface; and no interface is on the stack |
| Properties.BuildSucceeds | src/main/java/com/di/Container.java:208-225 | under the same conditions, a construction succeeds |
| Properties.ArgsSucceed | src/main/java/com/di/Container.java:234-245 | under the same conditions, the parameter loop succeeds |
| Properties.RoundSucceeds | src/main/java/com/di/Container.java:240-241 | under the same conditions, one round succeeds |
| Fixtures.AppScanRegisters | src/main/java/com/example/service/user/UserServiceImpl.java:8-9 | scanning the classes of the example application registers UserService, EmailService and UserRepository to their implementations |
| Fixtures.AppFirstRound | src/main/java/com/example/service/user/UserServiceImpl.java:13 | the first constructor parameter of UserServiceImpl builds the repository with no arguments |
| Fixtures.AppSecondRound | src/main/java/com/example/service/email/EmailServiceImpl.java:8 | the second parameter builds the e-mail service with no arguments |
| Fixtures.AppResolvesUserService | src/main/java/com/example/service/user/UserServiceImpl.java:13-16 | resolving UserService builds the repository, then the e-mail service, then the user service with both as arguments, and leaves an empty stack |
| Fixtures.CircularHasNoRank | src/main/java/com/example/cirucalrcheckfail/service/email/EmailServiceImpl.java:11 | the circular example, where EmailServiceImpl needs a UserService, has no rank |
| Fixtures.CircularGuardMisses | src/main/java/com/di/Container.java:175-191 | in the circular example, when the user service or the e-mail service is requested again while both implementations are on the stack, it is not cached and passes the line-180 check although its implementation is on the stack; pushing it again leaves the state unchanged |
| Fixtures.SelfParameterIsCircular | src/main/java/com/di/Container.java:180-182 | a constructor taking its own implementation class fails with "Circular dependency" wrapped in "Failed to create instance", and leaves the implementation on the stack |
| Fixtures.FailureKeepsBuiltDependency | src/main/java/com/di/Container.java:191-194 | a constructor whose first parameter is built and whose second is unregistered fails with "Failed to create instance" wrapping "Type isn't registered". The first parameter's object stays cached, and the implementation stays on the stack |
| Fixtures.SharedImplementationTwoInstances | src/main/java/com/di/Container.java:193 | two interfaces backed by one implementation get two different objects |
| Fixtures.PairFirstParameter | src/main/java/com/di/Container.java:240-241 | the first of two identical parameters builds the shared dependency |
| Fixtures.PairBothParameters | src/main/java/com/di/Container.java:238-242 | the second of two identical parameters finds the shared dependency cached, so both arguments are one object and nothing else is built |
| Fixtures.RepeatedParameterBuiltOnce | src/main/java/com/di/Container.java:175-177 | a dependency requested twice by one constructor is built once, and both arguments are that object |

## Left out

- Resolution.Resolve: requires a rank on types that decreases along every dependency edge, so a registry with a cycle through interfaces lies outside the model (`Fixtures.CircularHasNoRank` shows one). On most such registries the Java code recurses until `StackOverflowError`. On some the recursion is cut short. An unregistered parameter met before the cycle fails with "Type isn't registered". A cycle member already cached by an earlier scan returns at `Container.java:175`, so such a scan can even succeed: a first scan caches `A` (built from `AImpl(B)`) and `B`, and a second scan re-registers `B` to an implementation taking an `A`. Neither the overflow nor these runs are modelled.
- Di.Container.InitializeInterface, Di.Container.CreateInstance, Di.Container.ResolveParameters, Di.Container.InitializeAll, Di.Container.ScanPackage: the same rank requirement as `Resolution.Resolve`. The rank is a ghost parameter and needs no caller at run time.
- Filesystem and class-loader walking in `scanPackage` and `scanDirectory` (`getResource`, `File.listFiles`, recursion into sub-directories, `Class.forName`) is I/O. `Di.Container.ScanPackage` takes the list of classes the walk finds, in the walk's order, or `None` when the package resource does not exist. A class that fails to load is not modelled.
- Reflection: `isAnnotationPresent`, `getInterfaces`, `getDeclaredConstructors()[0]` with its parameter types, `newInstance` and the unchecked casts. These become the given functions `isComponent`, `interfacesOf`, `ctorParams` and `constructorThrows`. The object a constructor returns is modelled by a fresh identity with its class and arguments.
- Null arguments exist only at `register` and `getInstance`, modelled with `Option`. Everything the container passes internally (scanned interfaces, parameter types) is never null.
- Logging with `System.out.println` is left out.
- The exception messages are kept as the constructors of `Model.Error`, without the text formatting of simple names.
- The iteration order of `HashMap.keySet()` is left out. `Di.Container.InitializeAll` makes a nondeterministic choice and proves its contract for every order.
- `ApplicationStarter.java:9` scans all of `com.example`, which also contains the circular and `valid` sub-packages. `Fixtures.AppScanRegisters` scans only the six classes of the main example application.
- The business methods of the example classes (`createUser`, `getUser`, `sendWelcomeEmail`, `save`, `findById`) and the entry points `ApplicationStarter.main` and `ValidExample.main` are left out; the examples serve only as dependency graphs.
- The repository implementation of `com.example.persistence.repository` is not part of this model. The example application gives it a no-argument constructor, like `cirucalrcheckfail/repository/UserRepositoryImpl.java:8`.
- The circular example's `UserServiceImpl` is not part of this model. `Fixtures.Circ` gives it the constructor of `service/user/UserServiceImpl.java:13`.
