/** Runtime-to-permanent drift, as three parts of the program compute it. */
module ZoneDrift {
  import opened Order

  datatype ObservationStatus = Unavailable | Partial | Available

  predicate ObservationAvailable(status: ObservationStatus) {
    status == Available
  }

  datatype ZoneState = ZoneState(
    target: string, interfaces: seq<string>, sources: seq<string>, services: seq<string>, ports: seq<string>,
    protocols: seq<string>, sourcePorts: seq<string>, richRules: seq<string>, forwardPorts: seq<string>,
    masquerade: bool, forward: bool, detailsValid: bool)

  datatype FirewallState = FirewallState(
    runtimeZonesStatus: ObservationStatus, permanentZonesStatus: ObservationStatus,
    runtimeZones: map<string, ZoneState>, permanentZones: map<string, ZoneState>)

  // ----- Comparing two zones ---------------------------------------------------------

  predicate UnorderedValuesEqual(left: seq<string>, right: seq<string>) {
    Sort(left) == Sort(right)
  }

  /** Rich rules keep their order; the other lists are unordered, and interfaces are not compared. */
  predicate ZonePoliciesEqual(left: ZoneState, right: ZoneState) {
    && left.target == right.target
    && UnorderedValuesEqual(left.sources, right.sources)
    && UnorderedValuesEqual(left.services, right.services)
    && UnorderedValuesEqual(left.ports, right.ports)
    && UnorderedValuesEqual(left.protocols, right.protocols)
    && UnorderedValuesEqual(left.sourcePorts, right.sourcePorts)
    && left.richRules == right.richRules
    && UnorderedValuesEqual(left.forwardPorts, right.forwardPorts)
    && left.masquerade == right.masquerade
    && left.forward == right.forward
    && left.detailsValid == right.detailsValid
  }

  /** What a policy is, with unordered fields as multisets. */
  datatype Policy = Policy(
    target: string, sources: multiset<string>, services: multiset<string>, ports: multiset<string>,
    protocols: multiset<string>, sourcePorts: multiset<string>, richRules: seq<string>,
    forwardPorts: multiset<string>, masquerade: bool, forward: bool, detailsValid: bool)

  function PolicyOf(z: ZoneState): Policy {
    Policy(z.target, multiset(z.sources), multiset(z.services), multiset(z.ports), multiset(z.protocols),
           multiset(z.sourcePorts), z.richRules, multiset(z.forwardPorts), z.masquerade, z.forward, z.detailsValid)
  }

  lemma PoliciesEqualExactly(left: ZoneState, right: ZoneState)
    ensures ZonePoliciesEqual(left, right) <==> PolicyOf(left) == PolicyOf(right)
    ensures ZonePoliciesEqual(left, right) <==>
            && left.target == right.target && left.richRules == right.richRules
            && multiset(left.sources) == multiset(right.sources) && multiset(left.services) == multiset(right.services)
            && multiset(left.ports) == multiset(right.ports) && multiset(left.protocols) == multiset(right.protocols)
            && multiset(left.sourcePorts) == multiset(right.sourcePorts)
            && multiset(left.forwardPorts) == multiset(right.forwardPorts)
            && left.masquerade == right.masquerade && left.forward == right.forward
            && left.detailsValid == right.detailsValid
  {
    SortDecidesMultisetEquality(left.sources, right.sources);
    SortDecidesMultisetEquality(left.services, right.services);
    SortDecidesMultisetEquality(left.ports, right.ports);
    SortDecidesMultisetEquality(left.protocols, right.protocols);
    SortDecidesMultisetEquality(left.sourcePorts, right.sourcePorts);
    SortDecidesMultisetEquality(left.forwardPorts, right.forwardPorts);
  }

  // ----- The one-sided scans ----------------------------------------------------------

  predicate BothAvailable(state: FirewallState) {
    ObservationAvailable(state.runtimeZonesStatus) && ObservationAvailable(state.permanentZonesStatus)
  }

  /** `readiness.cpp`: every runtime zone has an equal permanent one, and there are as many. */
  predicate RuntimeMatchesPermanent(state: FirewallState) {
    && BothAvailable(state)
    && |state.runtimeZones| == |state.permanentZones|
    && forall name :: name in state.runtimeZones ==>
         name in state.permanentZones && ZonePoliciesEqual(state.runtimeZones[name], state.permanentZones[name])
  }

  /** `threat_assessment.cpp`: some runtime zone has no equal permanent one, or their numbers differ. */
  predicate RuntimeDiffersFromPermanent(state: FirewallState) {
    || !BothAvailable(state)
    || |state.runtimeZones| != |state.permanentZones|
    || exists name :: name in state.runtimeZones &&
         (name !in state.permanentZones || !ZonePoliciesEqual(state.runtimeZones[name], state.permanentZones[name]))
  }

  function Policies(zones: map<string, ZoneState>): map<string, Policy> {
    map name | name in zones :: PolicyOf(zones[name])
  }

  lemma SubsetOfSameSize<T>(a: set<T>, b: set<T>)
    requires a <= b && |a| == |b|
    ensures a == b
  {
    var more := b - a;
    assert b == a + more;
    assert |b| == |a| + |more|;
    assert more == {};
  }

  lemma MatchInPolicies(state: FirewallState)
    ensures RuntimeMatchesPermanent(state) <==>
            && BothAvailable(state)
            && |state.runtimeZones| == |state.permanentZones|
            && forall name :: name in state.runtimeZones ==>
                 name in state.permanentZones && PolicyOf(state.runtimeZones[name]) == PolicyOf(state.permanentZones[name])
  {
    forall name | name in state.runtimeZones && name in state.permanentZones
      ensures ZonePoliciesEqual(state.runtimeZones[name], state.permanentZones[name])
              <==> PolicyOf(state.runtimeZones[name]) == PolicyOf(state.permanentZones[name])
    {
      PoliciesEqualExactly(state.runtimeZones[name], state.permanentZones[name]);
    }
  }

  lemma PolicyMapsEqualExactly(a: map<string, ZoneState>, b: map<string, ZoneState>)
    ensures Policies(a) == Policies(b)
            <==> a.Keys == b.Keys && forall name :: name in a && name in b ==> PolicyOf(a[name]) == PolicyOf(b[name])
  {
    assert Policies(a).Keys == a.Keys && Policies(b).Keys == b.Keys;
    if Policies(a) == Policies(b) {
      forall name | name in a && name in b ensures PolicyOf(a[name]) == PolicyOf(b[name]) {
        assert Policies(a)[name] == Policies(b)[name];
      }
    }
  }

  /** The scan of one side and the size test together decide equality of the two policy maps. */
  lemma ScanDecidesMapEquality(state: FirewallState)
    requires BothAvailable(state)
    ensures RuntimeMatchesPermanent(state) <==> Policies(state.runtimeZones) == Policies(state.permanentZones)
  {
    var runtime, permanent := state.runtimeZones, state.permanentZones;
    MatchInPolicies(state);
    PolicyMapsEqualExactly(runtime, permanent);
    assert |runtime| == |runtime.Keys| && |permanent| == |permanent.Keys|;
    if RuntimeMatchesPermanent(state) {
      assert runtime.Keys <= permanent.Keys;
      SubsetOfSameSize(runtime.Keys, permanent.Keys);
    }
  }

  /** Agreement takes two complete observations of the same zones with the same policies. */
  lemma MatchExactly(state: FirewallState)
    ensures RuntimeMatchesPermanent(state) <==>
            && state.runtimeZonesStatus == Available && state.permanentZonesStatus == Available
            && state.runtimeZones.Keys == state.permanentZones.Keys
            && forall name :: name in state.runtimeZones && name in state.permanentZones ==>
                 PolicyOf(state.runtimeZones[name]) == PolicyOf(state.permanentZones[name])
  {
    if BothAvailable(state) {
      ScanDecidesMapEquality(state);
      PolicyMapsEqualExactly(state.runtimeZones, state.permanentZones);
    }
  }

  lemma DiffersIsNegation(state: FirewallState)
    ensures RuntimeDiffersFromPermanent(state) <==> !RuntimeMatchesPermanent(state)
  {
  }

  function Swapped(state: FirewallState): FirewallState {
    FirewallState(state.permanentZonesStatus, state.runtimeZonesStatus, state.permanentZones, state.runtimeZones)
  }

  /** Although only one side is scanned, it does not matter which. */
  lemma MatchIsSymmetric(state: FirewallState)
    ensures RuntimeMatchesPermanent(Swapped(state)) <==> RuntimeMatchesPermanent(state)
    ensures RuntimeDiffersFromPermanent(Swapped(state)) <==> RuntimeDiffersFromPermanent(state)
  {
    if BothAvailable(state) {
      ScanDecidesMapEquality(state);
      ScanDecidesMapEquality(Swapped(state));
    }
    DiffersIsNegation(state);
    DiffersIsNegation(Swapped(state));
  }

  // ----- The dashboard's drift list -----------------------------------------------------

  /** The names whose test came out true, in order. */
  function Changed(tests: seq<(bool, string)>): seq<string> {
    if tests == [] then []
    else (if tests[0].0 then [tests[0].1] else []) + Changed(tests[1..])
  }

  function DimensionTests(runtime: ZoneState, permanent: ZoneState): seq<(bool, string)> {
    [(runtime.target != permanent.target, "target"),
     (runtime.sources != permanent.sources, "sources"),
     (runtime.services != permanent.services, "services"),
     (runtime.ports != permanent.ports, "ports"),
     (runtime.protocols != permanent.protocols, "protocols"),
     (runtime.sourcePorts != permanent.sourcePorts, "source_ports"),
     (runtime.richRules != permanent.richRules, "rich_rules"),
     (runtime.forwardPorts != permanent.forwardPorts, "forward_ports"),
     (runtime.masquerade != permanent.masquerade, "masquerade"),
     (runtime.forward != permanent.forward, "forward"),
     (runtime.detailsValid != permanent.detailsValid, "details_valid")]
  }

  function DriftDimensions(runtime: ZoneState, permanent: ZoneState): seq<string> {
    Changed(DimensionTests(runtime, permanent))
  }

  /** The dimensions the drift list gives for one zone name; a zone without any is left out. */
  function ZoneDimensions(state: FirewallState, name: string): seq<string> {
    if name !in state.runtimeZones then ["runtime_missing"]
    else if name !in state.permanentZones then ["permanent_missing"]
    else DriftDimensions(state.runtimeZones[name], state.permanentZones[name])
  }

  function ZoneNames(state: FirewallState): set<string> {
    state.runtimeZones.Keys + state.permanentZones.Keys
  }

  predicate EmptyDriftList(state: FirewallState) {
    forall name :: name in ZoneNames(state) ==> ZoneDimensions(state, name) == []
  }

  lemma {:induction false} ChangedHasExactly(tests: seq<(bool, string)>, name: string)
    ensures name in Changed(tests) <==> exists k :: 0 <= k < |tests| && tests[k] == (true, name)
  {
    if tests != [] {
      ChangedHasExactly(tests[1..], name);
      if k :| 0 <= k < |tests| && tests[k] == (true, name) {
        if k > 0 {
          assert tests[1..][k - 1] == (true, name);
        }
      }
    }
  }

  lemma DimensionNamesAreDistinct(a: ZoneState, b: ZoneState)
    ensures var tests := DimensionTests(a, b);
            forall j, k :: 0 <= j < |tests| && 0 <= k < |tests| && tests[j].1 == tests[k].1 ==> j == k
  {
    var tests := DimensionTests(a, b);
    var lengths := [6, 7, 8, 5, 9, 12, 10, 13, 10, 7, 13];
    forall k | 0 <= k < |tests| ensures |tests[k].1| == lengths[k] {}
    assert tests[1].1[0] != tests[9].1[0] && tests[6].1[0] != tests[8].1[0] && tests[7].1[0] != tests[10].1[0];
  }

  /** Which fields differ can be read off the dimensions: each test's name is listed just when the fields differ. */
  lemma DimensionsNameTheDifferences(a: ZoneState, b: ZoneState, k: nat)
    requires k < |DimensionTests(a, b)|
    ensures DimensionTests(a, b)[k].1 in DriftDimensions(a, b) <==> DimensionTests(a, b)[k].0
  {
    var tests := DimensionTests(a, b);
    DimensionNamesAreDistinct(a, b);
    ChangedHasExactly(tests, tests[k].1);
  }

  const DIMENSIONS: seq<string> := [
    "target", "sources", "services", "ports", "protocols", "source_ports", "rich_rules", "forward_ports", "masquerade",
    "forward", "details_valid"]

  /** The names tell which fields differ: each field has its own, there are no others, and they come in that order. */
  predicate Tells(names: seq<string>, a: ZoneState, b: ZoneState) {
    && TellsLists(names, a, b)
    && ("target" in names <==> a.target != b.target)
    && ("masquerade" in names <==> a.masquerade != b.masquerade)
    && ("forward" in names <==> a.forward != b.forward)
    && ("details_valid" in names <==> a.detailsValid != b.detailsValid)
    && Subsequence(names, DIMENSIONS)
  }

  predicate TellsLists(names: seq<string>, a: ZoneState, b: ZoneState) {
    && ("sources" in names <==> a.sources != b.sources)
    && ("services" in names <==> a.services != b.services)
    && ("ports" in names <==> a.ports != b.ports)
    && ("protocols" in names <==> a.protocols != b.protocols)
    && ("source_ports" in names <==> a.sourcePorts != b.sourcePorts)
    && ("rich_rules" in names <==> a.richRules != b.richRules)
    && ("forward_ports" in names <==> a.forwardPorts != b.forwardPorts)
  }

  /** `s` is what is left of `list` when some of it is struck out. */
  predicate Subsequence(s: seq<string>, list: seq<string>) {
    s == [] || (list != [] && Subsequence(if s[0] == list[0] then s[1..] else s, list[1..]))
  }

  lemma {:induction false} SubsequenceBehindFirst(s: seq<string>, list: seq<string>)
    requires s != [] && Subsequence(s, list)
    ensures Subsequence(s[1..], list)
  {
    if s[0] != list[0] {
      SubsequenceBehindFirst(s, list[1..]);
    }
    if |s| > 1 {
      if s[0] == list[0] && s[1] == list[0] {
        SubsequenceBehindFirst(s[1..], list[1..]);
      } else if s[0] != list[0] && s[1] == list[0] {
        SubsequenceBehindFirst(s[1..], list[1..]);
      }
    }
  }

  function NamesOf(tests: seq<(bool, string)>): seq<string> {
    seq(|tests|, k requires 0 <= k < |tests| => tests[k].1)
  }

  lemma {:induction false} ChangedInOrder(tests: seq<(bool, string)>)
    ensures Subsequence(Changed(tests), NamesOf(tests))
  {
    if tests != [] {
      var later := Changed(tests[1..]);
      ChangedInOrder(tests[1..]);
      assert NamesOf(tests)[1..] == NamesOf(tests[1..]);
      if tests[0].0 {
        assert Changed(tests)[1..] == later;
      } else {
        assert Changed(tests) == later;
        if later != [] && later[0] == tests[0].1 {
          SubsequenceBehindFirst(later, NamesOf(tests[1..]));
        }
      }
    }
  }

  lemma TestsAreNamed(a: ZoneState, b: ZoneState)
    ensures NamesOf(DimensionTests(a, b)) == DIMENSIONS
  {
  }

  lemma DimensionAt(a: ZoneState, b: ZoneState, k: nat)
    requires k < 11
    ensures DIMENSIONS[k] in DriftDimensions(a, b) <==> DimensionTests(a, b)[k].0
  {
    TestsAreNamed(a, b);
    assert NamesOf(DimensionTests(a, b))[k] == DimensionTests(a, b)[k].1;
    DimensionsNameTheDifferences(a, b, k);
  }

  lemma ListDimensionsTell(a: ZoneState, b: ZoneState)
    ensures TellsLists(DriftDimensions(a, b), a, b)
  {
    DimensionAt(a, b, 1);
    DimensionAt(a, b, 2);
    DimensionAt(a, b, 3);
    DimensionAt(a, b, 4);
    DimensionAt(a, b, 5);
    DimensionAt(a, b, 6);
    DimensionAt(a, b, 7);
  }

  /** The dimensions of two zones tell exactly which fields differ. */
  lemma DimensionsTell(a: ZoneState, b: ZoneState)
    ensures Tells(DriftDimensions(a, b), a, b)
  {
    ListDimensionsTell(a, b);
    DimensionAt(a, b, 0);
    DimensionAt(a, b, 8);
    DimensionAt(a, b, 9);
    DimensionAt(a, b, 10);
    TestsAreNamed(a, b);
    ChangedInOrder(DimensionTests(a, b));
  }

  /** No dimension means: the same zone, its interfaces apart. */
  lemma NoDimensionsExactly(a: ZoneState, b: ZoneState)
    ensures DriftDimensions(a, b) == [] <==> a.(interfaces := b.interfaces) == b
  {
    var tests := DimensionTests(a, b);
    if DriftDimensions(a, b) == [] {
      forall k | 0 <= k < |tests| ensures !tests[k].0 {
        DimensionsNameTheDifferences(a, b, k);
      }
      assert !tests[0].0 && !tests[1].0 && !tests[2].0 && !tests[3].0 && !tests[4].0 && !tests[5].0;
      assert !tests[6].0 && !tests[7].0 && !tests[8].0 && !tests[9].0 && !tests[10].0;
    } else {
      ChangedHasExactly(tests, DriftDimensions(a, b)[0]);
    }
  }

  /** An empty drift list implies the verdict of the other two computations. */
  lemma EmptyListImpliesMatch(state: FirewallState)
    requires BothAvailable(state) && EmptyDriftList(state)
    ensures RuntimeMatchesPermanent(state) && !RuntimeDiffersFromPermanent(state)
  {
    var runtime, permanent := state.runtimeZones, state.permanentZones;
    forall name | name in ZoneNames(state)
      ensures name in runtime && name in permanent && ZonePoliciesEqual(runtime[name], permanent[name])
    {
      assert ZoneDimensions(state, name) == [];
      NoDimensionsExactly(runtime[name], permanent[name]);
    }
    assert runtime.Keys == permanent.Keys;
    assert |runtime| == |runtime.Keys| && |permanent| == |permanent.Keys|;
  }

  /** The six lists that are compared without their order have it in common all the same. */
  predicate SameOrder(a: ZoneState, b: ZoneState) {
    && a.sources == b.sources && a.services == b.services && a.ports == b.ports
    && a.protocols == b.protocols && a.sourcePorts == b.sourcePorts && a.forwardPorts == b.forwardPorts
  }

  /** When the other computations report agreement, the list is empty exactly if no zone has a list reordered. */
  lemma MatchHasEmptyListExactly(state: FirewallState)
    requires RuntimeMatchesPermanent(state)
    ensures EmptyDriftList(state) <==>
            forall name :: name in ZoneNames(state) ==>
              && name in state.runtimeZones && name in state.permanentZones
              && SameOrder(state.runtimeZones[name], state.permanentZones[name])
  {
    var runtime, permanent := state.runtimeZones, state.permanentZones;
    ScanDecidesMapEquality(state);
    PolicyMapsEqualExactly(runtime, permanent);
    forall name | name in ZoneNames(state)
      ensures name in runtime && name in permanent
      ensures ZoneDimensions(state, name) == [] <==> SameOrder(runtime[name], permanent[name])
    {
      PoliciesEqualExactly(runtime[name], permanent[name]);
      NoDimensionsExactly(runtime[name], permanent[name]);
    }
  }

  /** The list is stricter: the same services in another order are drift there, and nowhere else. */
  lemma ReorderedListsAreDriftOnlyInTheList(zone: ZoneState, name: string, a: string, b: string)
    requires a != b
    ensures var state := FirewallState(Available, Available, map[name := zone.(services := [a, b])],
                                       map[name := zone.(services := [b, a])]);
            RuntimeMatchesPermanent(state) && !EmptyDriftList(state)
  {
    var left, right := zone.(services := [a, b]), zone.(services := [b, a]);
    var state := FirewallState(Available, Available, map[name := left], map[name := right]);
    assert multiset([a, b]) == multiset([b, a]);
    PoliciesEqualExactly(left, right);
    assert left.services[0] != right.services[0];
    NoDimensionsExactly(left, right);
    assert name in ZoneNames(state);
  }
}
