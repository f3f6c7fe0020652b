/** The example applications of the repository as concrete dependency graphs, and
    what the container does with them. */
module Fixtures {
  import opened Wrappers
  import opened Model
  import opened Resolution
  import opened Scanning

  // ---------------------------------------------------------------------------
  // The example application: UserServiceImpl takes (UserRepository, EmailService),
  // the e-mail service and the repository take no arguments.

  const UserService := Class("com.example.service.user", "UserService")
  const UserServiceImpl := Class("com.example.service.user", "UserServiceImpl")
  const EmailService := Class("com.example.service.email", "EmailService")
  const EmailServiceImpl := Class("com.example.service.email", "EmailServiceImpl")
  const UserRepository := Class("com.example.persistence.repository", "UserRepository")
  const UserRepositoryImpl := Class("com.example.persistence.repository", "UserRepositoryImpl")

  /** Reflection over the example application's classes. */
  const App := Reflection(
    c => if c == UserServiceImpl then [UserRepository, EmailService] else [],
    c => c == UserServiceImpl || c == EmailServiceImpl || c == UserRepositoryImpl,
    c => if c == UserServiceImpl then [UserService]
         else if c == EmailServiceImpl then [EmailService]
         else if c == UserRepositoryImpl then [UserRepository]
         else [],
    c => false)

  /** The classes a scan of the application finds, interfaces included. */
  const AppClasses := [UserService, UserServiceImpl, EmailService, EmailServiceImpl, UserRepository, UserRepositoryImpl]

  const AppRegistry := map[UserService := UserServiceImpl, EmailService := EmailServiceImpl,
                           UserRepository := UserRepositoryImpl]

  /** The six classes are pairwise different (their names differ in length). */
  lemma AppClassesDistinct()
    ensures forall i, j :: 0 <= i < j < |AppClasses| ==> AppClasses[i] != AppClasses[j]
  {
    assert |UserService.packageName| == 24 && |EmailService.packageName| == 25 && |UserRepository.packageName| == 34;
    assert |UserService.localName| == 11 && |UserServiceImpl.localName| == 15;
    assert |EmailService.localName| == 12 && |EmailServiceImpl.localName| == 16;
    assert |UserRepository.localName| == 14 && |UserRepositoryImpl.localName| == 18;
  }

  /** The user service sits one level above its two dependencies. */
  function AppRank(c: Class): (r: nat)
  {
    if c == UserService then 1 else 0
  }

  /** The registry after the first `n` scanned classes. */
  lemma AppScanPrefix2()
    ensures ScanRegistry(App, map[], AppClasses[..2]) == map[UserService := UserServiceImpl]
  {
    AppClassesDistinct();
    assert AppClasses[..2][..1] == AppClasses[..1];
    assert AppClasses[..1][..0] == [];
    assert !App.isComponent(UserService);
    assert ScanRegistry(App, map[], AppClasses[..1]) == map[];
    assert App.interfacesOf(UserServiceImpl) == [UserService];
    assert RegisterEach(map[], [UserService], UserServiceImpl) == map[UserService := UserServiceImpl];
  }

  lemma AppScanPrefix4()
    ensures ScanRegistry(App, map[], AppClasses[..4])
         == map[UserService := UserServiceImpl, EmailService := EmailServiceImpl]
  {
    AppClassesDistinct();
    AppScanPrefix2();
    var m2 := map[UserService := UserServiceImpl];
    assert AppClasses[..4][..3] == AppClasses[..3];
    assert AppClasses[..3][..2] == AppClasses[..2];
    assert RegisterEach(m2, [EmailService], EmailServiceImpl) == m2[EmailService := EmailServiceImpl];
  }

  /** The scan registers each component class under its one interface. */
  lemma AppScanRegisters()
    ensures ScanRegistry(App, map[], AppClasses) == AppRegistry
  {
    AppClassesDistinct();
    AppScanPrefix4();
    var m4 := map[UserService := UserServiceImpl, EmailService := EmailServiceImpl];
    assert AppClasses[..6][..5] == AppClasses[..5];
    assert AppClasses[..5][..4] == AppClasses[..4];
    assert RegisterEach(m4, [UserRepository], UserRepositoryImpl) == m4[UserRepository := UserRepositoryImpl];
    assert AppClasses[..6] == AppClasses;
  }

  lemma AppAcyclic()
    ensures Acyclic(App, AppRank, AppRegistry)
  {
  }

  const Repo := Instance(0, UserRepositoryImpl, [])
  const Email := Instance(1, EmailServiceImpl, [])

  /** The state while UserServiceImpl is being built: pushed, nothing cached yet. */
  const Building := State(AppRegistry, map[], {UserServiceImpl}, 0)
  /** ... after its first parameter is resolved ... */
  const BuiltRepo := Building.(instances := map[UserRepository := Repo], nextId := 1)
  /** ... and after its second one. */
  const BuiltBoth := BuiltRepo.(instances := map[UserRepository := Repo, EmailService := Email], nextId := 2)

  /** First round of resolveParameters for UserServiceImpl: the repository is built
      (with no arguments) and cached, and its implementation popped again. */
  lemma AppFirstRound()
    ensures ArgsRound(App, AppRank, 1, [], Building, UserRepository) == (Success([Repo]), BuiltRepo)
  {
    AppAcyclic();
    AppClassesDistinct();
    var sR := Building.(stack := {UserServiceImpl, UserRepositoryImpl});
    assert Building.stack + {UserRepositoryImpl} == sR.stack;
    assert App.ctorParams(UserRepositoryImpl) == [];
    assert ResolveArgs(App, AppRank, 0, sR, [], 0) == (Success([]), sR);
    assert Build(App, AppRank, 0, sR, UserRepositoryImpl) == (Success(Repo), sR.(nextId := 1));
    assert Resolve(App, AppRank, Building, UserRepository) == (Pass, BuiltRepo);
    assert [] + [Repo] == [Repo];
  }

  /** Second round: the e-mail service is built and cached the same way. */
  lemma AppSecondRound()
    ensures ArgsRound(App, AppRank, 1, [Repo], BuiltRepo, EmailService) == (Success([Repo, Email]), BuiltBoth)
  {
    AppAcyclic();
    AppClassesDistinct();
    var sE := BuiltRepo.(stack := {UserServiceImpl, EmailServiceImpl});
    assert BuiltRepo.stack + {EmailServiceImpl} == sE.stack;
    assert App.ctorParams(EmailServiceImpl) == [];
    assert ResolveArgs(App, AppRank, 0, sE, [], 0) == (Success([]), sE);
    assert Build(App, AppRank, 0, sE, EmailServiceImpl) == (Success(Email), sE.(nextId := 2));
    assert Resolve(App, AppRank, BuiltRepo, EmailService) == (Pass, BuiltBoth);
    assert BuiltBoth.instances[EmailService] == Email;
    assert [Repo] + [Email] == [Repo, Email];
  }

  /** Resolving the user service from an empty container builds the repository, then
      the e-mail service, then the user service wired to both, and empties the stack. */
  lemma AppResolvesUserService()
    ensures var res := Resolve(App, AppRank, State(AppRegistry, map[], {}, 0), UserService);
      && res.0 == Pass
      && res.1.instances == map[UserRepository := Repo, EmailService := Email,
                                UserService := Instance(2, UserServiceImpl, [Repo, Email])]
      && res.1.stack == {}
      && res.1.nextId == 3
  {
    AppAcyclic();
    AppClassesDistinct();
    var ps := [UserRepository, EmailService];
    assert {} + {UserServiceImpl} == Building.stack;
    assert ResolveArgs(App, AppRank, 1, Building, ps, 0) == (Success([]), Building);
    AppFirstRound();
    assert ResolveArgs(App, AppRank, 1, Building, ps, 1) == (Success([Repo]), BuiltRepo);
    AppSecondRound();
    assert ResolveArgs(App, AppRank, 1, Building, ps, 2) == (Success([Repo, Email]), BuiltBoth);
    assert App.ctorParams(UserServiceImpl) == ps;
    assert Build(App, AppRank, 1, Building, UserServiceImpl)
        == (Success(Instance(2, UserServiceImpl, [Repo, Email])), BuiltBoth.(nextId := 3));
  }

  // ---------------------------------------------------------------------------
  // The circular example: EmailServiceImpl takes a UserService, and the user service
  // takes the e-mail service back (its implementation is the one of the example
  // application above).

  const CircEmailService := Class("com.example.cirucalrcheckfail.service.email", "EmailService")
  const CircEmailServiceImpl := Class("com.example.cirucalrcheckfail.service.email", "EmailServiceImpl")
  const CircUserService := Class("com.example.cirucalrcheckfail.service.user", "UserService")
  const CircUserServiceImpl := Class("com.example.cirucalrcheckfail.service.user", "UserServiceImpl")
  const CircUserRepository := Class("com.example.cirucalrcheckfail.repository", "UserRepository")
  const CircUserRepositoryImpl := Class("com.example.cirucalrcheckfail.repository", "UserRepositoryImpl")

  const Circ := Reflection(
    c => if c == CircUserServiceImpl then [CircUserRepository, CircEmailService]
         else if c == CircEmailServiceImpl then [CircUserService]
         else [],
    c => c == CircUserServiceImpl || c == CircEmailServiceImpl || c == CircUserRepositoryImpl,
    c => if c == CircUserServiceImpl then [CircUserService]
         else if c == CircEmailServiceImpl then [CircEmailService]
         else if c == CircUserRepositoryImpl then [CircUserRepository]
         else [],
    c => false)

  const CircRegistry := map[CircUserService := CircUserServiceImpl, CircEmailService := CircEmailServiceImpl,
                            CircUserRepository := CircUserRepositoryImpl]

  /** No rank orders this registry: the user service and the e-mail service need each
      other. The line-180 check compares the interface with the stack of
      implementation classes, so it does not stop this cycle either; the model's
      resolver is only defined on registries that have a rank. */
  lemma CircularHasNoRank(rank: Class -> nat)
    ensures !Acyclic(Circ, rank, CircRegistry)
  {
    assert |CircUserService.packageName| == 42 && |CircEmailService.packageName| == 43;
    assert CircRegistry[CircUserService] == CircUserServiceImpl;
    assert CircEmailService in Circ.ctorParams(CircUserServiceImpl);
    assert CircRegistry[CircEmailService] == CircEmailServiceImpl;
    assert CircUserService in Circ.ctorParams(CircEmailServiceImpl);
    if rank(CircEmailService) < rank(CircUserService) {
      assert CircEmailService in CircRegistry && CircUserService in Circ.ctorParams(CircRegistry[CircEmailService])
          && !(rank(CircUserService) < rank(CircEmailService));
    } else {
      assert CircUserService in CircRegistry && CircEmailService in Circ.ctorParams(CircRegistry[CircUserService])
          && !(rank(CircEmailService) < rank(CircUserService));
    }
  }

  /** The state in which initializeInterface(UserService) is entered again: the
      repository is cached and both implementations are on the creation stack. */
  const CircReentry := State(CircRegistry, map[CircUserRepository := Instance(0, CircUserRepositoryImpl, [])],
                             {CircUserServiceImpl, CircEmailServiceImpl}, 1)

  /** When the e-mail service asks for the user service again, the check at line 180
      passes although the user service's implementation is being built, because it
      looks up the interface. Pushing the implementation again leaves the state exactly
      as it was, so every further round of the cycle starts from this same state. */
  lemma CircularGuardMisses()
    ensures var s := CircReentry;
      && CircUserService !in s.instances && CircUserService !in s.stack && CircUserService in s.impls
      && s.impls[CircUserService] in s.stack
      && s.(stack := s.stack + {s.impls[CircUserService]}) == s
      && CircEmailService !in s.instances && CircEmailService !in s.stack && CircEmailService in s.impls
      && s.impls[CircEmailService] in s.stack
      && s.(stack := s.stack + {s.impls[CircEmailService]}) == s
  {
    assert |CircUserService.localName| == 11 && |CircUserServiceImpl.localName| == 15;
    assert |CircEmailService.localName| == 12 && |CircEmailServiceImpl.localName| == 16;
    assert |CircUserRepository.localName| == 14;
    assert |CircUserService.packageName| == 42 && |CircEmailService.packageName| == 43;
    assert CircReentry.stack + {CircUserServiceImpl} == CircReentry.stack;
    assert CircReentry.stack + {CircEmailServiceImpl} == CircReentry.stack;
  }

  // ---------------------------------------------------------------------------
  // Small graphs for the remaining behaviours.

  const Service := Class("fixture", "Service")
  const ServiceImpl := Class("fixture", "ServiceImpl")
  const Other := Class("fixture", "OtherService")
  const Shared := Class("fixture", "SharedDependency")
  const SharedImpl := Class("fixture", "SharedDependencyImpl")
  const Pair := Class("fixture", "PairImpl")
  const HalfBuilt := Class("fixture", "HalfBuiltImpl")
  const Missing := Class("fixture", "MissingDependency")

  /** ServiceImpl takes itself, PairImpl takes SharedDependency twice, HalfBuiltImpl
      takes SharedDependency and then MissingDependency, which nothing implements, and
      SharedDependencyImpl takes nothing. */
  const Small := Reflection(
    c => if c == ServiceImpl then [ServiceImpl] else if c == Pair then [Shared, Shared]
         else if c == HalfBuilt then [Shared, Missing] else [],
    c => c == ServiceImpl || c == SharedImpl || c == Pair || c == HalfBuilt,
    c => [],
    c => false)

  function SmallRank(c: Class): (r: nat)
  {
    if c == Service then 1 else 0
  }

  lemma SmallDistinct()
    ensures Service != ServiceImpl && Service != Other && Service != Shared && Service != SharedImpl
    ensures ServiceImpl != Other && ServiceImpl != Shared && ServiceImpl != SharedImpl
    ensures Other != Shared && Other != SharedImpl && Shared != SharedImpl
    ensures Pair != Service && Pair != ServiceImpl && Pair != Other && Pair != Shared && Pair != SharedImpl
    ensures HalfBuilt != Service && HalfBuilt != ServiceImpl && HalfBuilt != Shared && HalfBuilt != SharedImpl
    ensures HalfBuilt != Pair && HalfBuilt != Missing
    ensures Missing != Service && Missing != ServiceImpl && Missing != Shared && Missing != SharedImpl && Missing != Pair
  {
    assert |Service.localName| == 7 && |ServiceImpl.localName| == 11 && |Other.localName| == 12;
    assert |Shared.localName| == 16 && |SharedImpl.localName| == 20 && |Pair.localName| == 8;
    assert |HalfBuilt.localName| == 13 && |Missing.localName| == 17;
  }

  /** The line-180 check does fire when a constructor parameter names an implementation
      class that is being built: ServiceImpl's constructor takes a ServiceImpl. The
      failure is wrapped by createInstance, and ServiceImpl stays on the creation stack
      because nothing pops it on the way out. */
  lemma SelfParameterIsCircular()
    ensures var res := Resolve(Small, SmallRank, State(map[Service := ServiceImpl], map[], {}, 0), Service);
      res == (Fail(CreationFailed(ServiceImpl, CircularDependency(ServiceImpl))),
              State(map[Service := ServiceImpl], map[], {ServiceImpl}, 0))
  {
    SmallDistinct();
    var s1 := State(map[Service := ServiceImpl], map[], {ServiceImpl}, 0);
    assert {} + {ServiceImpl} == s1.stack;
    assert Resolve(Small, SmallRank, s1, ServiceImpl) == (Fail(CircularDependency(ServiceImpl)), s1);
    assert ResolveArgs(Small, SmallRank, 1, s1, [ServiceImpl], 0) == (Success([]), s1);
    assert ResolveArgs(Small, SmallRank, 1, s1, [ServiceImpl], 1) == (Failure(CircularDependency(ServiceImpl)), s1);
  }

  /** Two interfaces backed by one implementation get two different objects, because the
      cache is keyed by interface. */
  lemma SharedImplementationTwoInstances()
    ensures var impls := map[Service := SharedImpl, Other := SharedImpl];
      var s := State(impls, map[], {}, 0);
      var r1 := Resolve(Small, SmallRank, s, Service);
      var r2 := Resolve(Small, SmallRank, r1.1, Other);
      && r1.0 == Pass && r2.0 == Pass
      && r2.1.instances == map[Service := Instance(0, SharedImpl, []), Other := Instance(1, SharedImpl, [])]
      && r2.1.stack == {}
  {
    SmallDistinct();
    var impls := map[Service := SharedImpl, Other := SharedImpl];
    var p1 := State(impls, map[], {SharedImpl}, 0);
    assert {} + {SharedImpl} == p1.stack;
    assert ResolveArgs(Small, SmallRank, 0, p1, [], 0) == (Success([]), p1);
    assert Build(Small, SmallRank, 1, p1, SharedImpl) == (Success(Instance(0, SharedImpl, [])), p1.(nextId := 1));
    var m1 := map[Service := Instance(0, SharedImpl, [])];
    assert Resolve(Small, SmallRank, State(impls, map[], {}, 0), Service) == (Pass, State(impls, m1, {}, 1));
    var p2 := State(impls, m1, {SharedImpl}, 1);
    assert {} + {SharedImpl} == p2.stack;
    assert ResolveArgs(Small, SmallRank, 0, p2, [], 0) == (Success([]), p2);
    assert Build(Small, SmallRank, 0, p2, SharedImpl) == (Success(Instance(1, SharedImpl, [])), p2.(nextId := 2));
  }

  const PairImpls := map[Service := Pair, Shared := SharedImpl]
  const SharedObject := Instance(0, SharedImpl, [])

  /** The first parameter of PairImpl builds the shared dependency. */
  lemma PairFirstParameter()
    ensures ResolveArgs(Small, SmallRank, 1, State(PairImpls, map[], {Pair}, 0), [Shared, Shared], 1)
         == (Success([SharedObject]), State(PairImpls, map[Shared := SharedObject], {Pair}, 1))
  {
    SmallDistinct();
    var s1 := State(PairImpls, map[], {Pair}, 0);
    var sD := State(PairImpls, map[], {Pair, SharedImpl}, 0);
    assert s1.stack + {SharedImpl} == sD.stack;
    assert ResolveArgs(Small, SmallRank, 0, sD, [], 0) == (Success([]), sD);
    assert Build(Small, SmallRank, 0, sD, SharedImpl) == (Success(SharedObject), sD.(nextId := 1));
    assert Resolve(Small, SmallRank, s1, Shared) == (Pass, State(PairImpls, map[Shared := SharedObject], {Pair}, 1));
    assert ResolveArgs(Small, SmallRank, 1, s1, [Shared, Shared], 0) == (Success([]), s1);
    assert [] + [SharedObject] == [SharedObject];
  }

  /** The second parameter of PairImpl finds the shared dependency cached, so both
      arguments are the same object. */
  lemma PairBothParameters()
    ensures ResolveArgs(Small, SmallRank, 1, State(PairImpls, map[], {Pair}, 0), [Shared, Shared], 2)
         == (Success([SharedObject, SharedObject]), State(PairImpls, map[Shared := SharedObject], {Pair}, 1))
  {
    var d := SharedObject;
    var s2 := State(PairImpls, map[Shared := d], {Pair}, 1);
    PairFirstParameter();
    assert Resolve(Small, SmallRank, s2, Shared) == (Pass, s2);
    assert [d] + [d] == [d, d];
    assert ArgsRound(Small, SmallRank, 1, [d], s2, Shared) == (Success([d, d]), s2);
  }

  /** A dependency asked for twice within one constructor is built once: the second
      initializeInterface finds it cached, and both arguments are the same object. */
  lemma RepeatedParameterBuiltOnce()
    ensures var res := Resolve(Small, SmallRank, State(PairImpls, map[], {}, 0), Service);
      && res.0 == Pass
      && res.1.instances == map[Shared := SharedObject, Service := Instance(1, Pair, [SharedObject, SharedObject])]
      && res.1.nextId == 2
  {
    SmallDistinct();
    var d := SharedObject;
    var s1 := State(PairImpls, map[], {Pair}, 0);
    assert {} + {Pair} == s1.stack;
    var s2 := State(PairImpls, map[Shared := d], {Pair}, 1);
    PairBothParameters();
    assert Small.ctorParams(Pair) == [Shared, Shared];
    assert Build(Small, SmallRank, 1, s1, Pair) == (Success(Instance(1, Pair, [d, d])), s2.(nextId := 2));
  }

  const HalfImpls := map[Service := HalfBuilt, Shared := SharedImpl]

  /** A failed resolution is not rolled back: HalfBuiltImpl's first parameter is built
      and cached, its second is not registered, and the whole call fails with the
      shared dependency still cached and HalfBuiltImpl still on the creation stack. */
  lemma FailureKeepsBuiltDependency()
    ensures Resolve(Small, SmallRank, State(HalfImpls, map[], {}, 0), Service)
         == (Fail(CreationFailed(HalfBuilt, NotRegistered(Missing))),
             State(HalfImpls, map[Shared := SharedObject], {HalfBuilt}, 1))
  {
    SmallDistinct();
    var ps := [Shared, Missing];
    var s1 := State(HalfImpls, map[], {HalfBuilt}, 0);
    assert {} + {HalfBuilt} == s1.stack;
    var sD := State(HalfImpls, map[], {HalfBuilt, SharedImpl}, 0);
    assert s1.stack + {SharedImpl} == sD.stack;
    assert ResolveArgs(Small, SmallRank, 0, sD, [], 0) == (Success([]), sD);
    assert Build(Small, SmallRank, 0, sD, SharedImpl) == (Success(SharedObject), sD.(nextId := 1));
    var s2 := State(HalfImpls, map[Shared := SharedObject], {HalfBuilt}, 1);
    assert Resolve(Small, SmallRank, s1, Shared) == (Pass, s2);
    assert ResolveArgs(Small, SmallRank, 1, s1, ps, 0) == (Success([]), s1);
    assert [] + [SharedObject] == [SharedObject];
    assert ResolveArgs(Small, SmallRank, 1, s1, ps, 1) == (Success([SharedObject]), s2);
    assert Resolve(Small, SmallRank, s2, Missing) == (Fail(NotRegistered(Missing)), s2);
    assert ResolveArgs(Small, SmallRank, 1, s1, ps, 2) == (Failure(NotRegistered(Missing)), s2);
    assert Small.ctorParams(HalfBuilt) == ps;
    assert Build(Small, SmallRank, 1, s1, HalfBuilt) == (Failure(CreationFailed(HalfBuilt, NotRegistered(Missing))), s2);
  }
}
