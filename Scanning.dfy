/** What the registration loop of a package scan does to the registry: every
    interface of every @Component class, in the order the scan meets them, is mapped
    to that class, and a later mapping for the same interface overwrites an earlier one. */
module Scanning {
  import opened Wrappers
  import opened Model

  /** `c` is a component that implements interface `i`. */
  predicate Declares(rf: Reflection, c: Class, i: Class)
  {
    rf.isComponent(c) && i in rf.interfacesOf(c)
  }

  /** The inner loop: register(i, c) for each interface `i` in `ifaces`, in order. */
  function RegisterEach(m: map<Class, Class>, ifaces: seq<Class>, c: Class): (r: map<Class, Class>)
    ensures r.Keys == m.Keys + (set i | i in ifaces)
    ensures forall i :: i in ifaces ==> r[i] == c
    ensures forall k :: k in m && k !in ifaces ==> r[k] == m[k]
  {
    if ifaces == [] then m
    else
      var n := |ifaces| - 1;
      assert forall i :: i in ifaces <==> i in ifaces[..n] || i == ifaces[n];
      RegisterEach(m, ifaces[..n], c)[ifaces[n] := c]
  }

  /** The outer loop over the classes the scan found: only @Component classes register. */
  function ScanRegistry(rf: Reflection, m: map<Class, Class>, classes: seq<Class>): (r: map<Class, Class>)
    ensures m.Keys <= r.Keys
    ensures forall i :: i in r ==> (i in m && r[i] == m[i]) || (r[i] in classes && Declares(rf, r[i], i))
  {
    if classes == [] then m
    else
      var n := |classes| - 1;
      assert forall c :: c in classes[..n] ==> c in classes;
      var m' := ScanRegistry(rf, m, classes[..n]);
      if rf.isComponent(classes[n]) then RegisterEach(m', rf.interfacesOf(classes[n]), classes[n]) else m'
  }

  /** No class of `classes` after position `j` is a component implementing `i`. */
  predicate NoneAfter(rf: Reflection, classes: seq<Class>, j: nat, i: Class)
  {
    forall k :: j < k < |classes| ==> !Declares(rf, classes[k], i)
  }

  /** The last class in `classes` that is a component implementing `i`, if any. */
  function LastDeclarer(rf: Reflection, classes: seq<Class>, i: Class): (r: Option<Class>)
    ensures r.Some? ==> r.value in classes && Declares(rf, r.value, i)
    ensures r.None? <==> forall c :: c in classes ==> !Declares(rf, c, i)
    ensures r.Some? ==> exists j :: 0 <= j < |classes| && classes[j] == r.value && NoneAfter(rf, classes, j, i)
  {
    if classes == [] then None
    else
      var n := |classes| - 1;
      assert forall c :: c in classes <==> c in classes[..n] || c == classes[n];
      if Declares(rf, classes[n], i) then
        assert NoneAfter(rf, classes, n, i);
        Some(classes[n])
      else
        var r := LastDeclarer(rf, classes[..n], i);
        if r.None? then r
        else
          var j :| 0 <= j < n && classes[..n][j] == r.value && NoneAfter(rf, classes[..n], j, i);
          assert NoneAfter(rf, classes, j, i) by {
            forall k | j < k < |classes| ensures !Declares(rf, classes[k], i) {
              if k < n {
                assert classes[..n][k] == classes[k];
              }
            }
          }
          r
  }

  /** After the scan, an interface is registered exactly when it was registered before
      or some scanned component implements it, and it is mapped to the LAST such
      component (later registrations win); other mappings are untouched. */
  lemma {:induction false} ScanLastWins(rf: Reflection, m: map<Class, Class>, classes: seq<Class>, i: Class)
    ensures var r := ScanRegistry(rf, m, classes);
      && (i in r <==> i in m || LastDeclarer(rf, classes, i).Some?)
      && (i in r && LastDeclarer(rf, classes, i).Some? ==> r[i] == LastDeclarer(rf, classes, i).value)
      && (LastDeclarer(rf, classes, i).None? && i in m ==> r[i] == m[i])
  {
    if classes != [] {
      var n := |classes| - 1;
      ScanLastWins(rf, m, classes[..n], i);
    }
  }

  /** Coverage: every interface of every scanned component ends up registered, to a
      scanned component that implements it. */
  lemma ScanCovers(rf: Reflection, m: map<Class, Class>, classes: seq<Class>, c: Class, i: Class)
    requires c in classes && Declares(rf, c, i)
    ensures var r := ScanRegistry(rf, m, classes);
      i in r && r[i] in classes && Declares(rf, r[i], i)
  {
    ScanLastWins(rf, m, classes, i);
  }
}
