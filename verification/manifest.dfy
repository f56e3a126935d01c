/**
  The package manifest and the two pure operations over it: looking up a
  dependency's recorded version range across the four dependency groups in a
  fixed priority order, and rewriting that entry to a caret range in a copy.
 */
module PackageManifest {
  import opened Wrappers

  /** The four dependency groups of a manifest. */
  datatype Group = Dependencies | DevDependencies | PeerDependencies | OptionalDependencies

  /** The order in which groups are searched: the first one that holds a name wins. */
  const Order: seq<Group> := [Dependencies, DevDependencies, PeerDependencies, OptionalDependencies]

  /** A manifest: whichever dependency groups it has, each mapping a name to a
      version range, and its other top-level fields, whose JSON text is kept opaque. */
  datatype Manifest = Manifest(groups: map<Group, map<string, string>>, fields: map<string, string>)

  /** The entry for name in group g, absent when the group or the name is. */
  function Entry(m: Manifest, g: Group, name: string): Option<string> {
    if g in m.groups && name in m.groups[g] then Some(m.groups[g][name]) else None
  }

  /** Group g holds name when the entry exists and is non-empty (an empty
      string is falsy, so the search passes over it). */
  predicate Holds(m: Manifest, g: Group, name: string) {
    Entry(m, g, name).Some? && Entry(m, g, name).value != ""
  }

  /** Order[i] is the first group in the search order that holds name. */
  predicate IsFirstHolding(m: Manifest, name: string, i: int) {
    && 0 <= i < |Order|
    && Holds(m, Order[i], name)
    && forall j :: 0 <= j < i ==> !Holds(m, Order[j], name)
  }

  /** Every group is searched, and none twice. */
  lemma OrderListsEachGroupOnce(g: Group)
    ensures |Order| == 4
    ensures g in Order
    ensures forall i, j :: 0 <= i < j < |Order| ==> Order[i] != Order[j]
  {
  }

  /** Where group g stands in the search order. */
  function IndexOf(g: Group): (i: nat)
    ensures i < |Order| && Order[i] == g
  {
    match g
    case Dependencies => 0
    case DevDependencies => 1
    case PeerDependencies => 2
    case OptionalDependencies => 3
  }

  /** The index of the first group, at or after position from, that holds name. */
  function FirstHolding(m: Manifest, name: string, from: nat): (r: Option<nat>)
    requires from <= |Order|
    ensures r.Some? ==> from <= r.value < |Order| && Holds(m, Order[r.value], name)
    ensures forall j :: from <= j < |Order| && (r.None? || j < r.value) ==> !Holds(m, Order[j], name)
    decreases |Order| - from
  {
    if from == |Order| then None
    else if Holds(m, Order[from], name) then Some(from)
    else FirstHolding(m, name, from + 1)
  }

  /** The search from the start finds nothing only when no group holds name. */
  lemma NotFoundMeansNowhere(m: Manifest, name: string)
    requires FirstHolding(m, name, 0).None?
    ensures forall g :: !Holds(m, g, name)
  {
    forall g
      ensures !Holds(m, g, name)
    {
      assert Order[IndexOf(g)] == g;
    }
  }

  /** `getDependencyVersion`: the version range recorded for name by the
      first group in the search order that holds it. */
  function GetDependencyVersion(m: Manifest, name: string): (r: Option<string>)
    ensures r.None? <==> forall g :: !Holds(m, g, name)
    ensures forall i :: IsFirstHolding(m, name, i) ==> r == Entry(m, Order[i], name)
    ensures r.Some? ==> r.value != ""
  {
    match FirstHolding(m, name, 0)
    case None =>
      NotFoundMeansNowhere(m, name);
      None
    case Some(i) => Entry(m, Order[i], name)
  }

  /** `updateDependencyVersion`: a copy of the manifest in which the entry of
      the first group holding name becomes the caret range of version, and
      nothing else differs. */
  function UpdateDependencyVersion(m: Manifest, name: string, version: string): (r: Manifest)
    ensures r.fields == m.fields
    ensures r.groups.Keys == m.groups.Keys
    ensures (forall g :: !Holds(m, g, name)) ==> r == m
    ensures forall i :: IsFirstHolding(m, name, i) ==>
      && Entry(r, Order[i], name) == Some("^" + version)
      && forall g, k :: (g != Order[i] || k != name) ==> Entry(r, g, k) == Entry(m, g, k)
  {
    match FirstHolding(m, name, 0)
    case None => m
    case Some(i) =>
      var g := Order[i];
      m.(groups := m.groups[g := m.groups[g][name := "^" + version]])
  }

  /** The search only looks at whether each group holds name. */
  lemma {:induction false} FirstHoldingDependsOnHolds(m1: Manifest, m2: Manifest, name: string, from: nat)
    requires from <= |Order|
    requires forall g :: Holds(m1, g, name) == Holds(m2, g, name)
    ensures FirstHolding(m1, name, from) == FirstHolding(m2, name, from)
    decreases |Order| - from
  {
    if from < |Order| && !Holds(m1, Order[from], name) {
      FirstHoldingDependsOnHolds(m1, m2, name, from + 1);
    }
  }

  /** Lookup sees nothing of a manifest but the entries for the name asked. */
  lemma LookupDependsOnEntries(m1: Manifest, m2: Manifest, name: string)
    requires forall g :: Entry(m1, g, name) == Entry(m2, g, name)
    ensures GetDependencyVersion(m1, name) == GetDependencyVersion(m2, name)
  {
    FirstHoldingDependsOnHolds(m1, m2, name, 0);
  }

  /** After an update of a dependency that exists, looking it up yields
      exactly the caret range that was written. */
  lemma LookupAfterUpdate(m: Manifest, name: string, version: string)
    requires exists g :: Holds(m, g, name)
    ensures GetDependencyVersion(UpdateDependencyVersion(m, name, version), name) == Some("^" + version)
  {
    var r := UpdateDependencyVersion(m, name, version);
    var g0 :| Holds(m, g0, name);
    assert Holds(m, Order[IndexOf(g0)], name);
    var i := FirstHolding(m, name, 0).value;
    assert IsFirstHolding(m, name, i);
    forall g
      ensures Holds(r, g, name) == Holds(m, g, name)
    {
      if g != Order[i] {
        assert Entry(r, g, name) == Entry(m, g, name);
      }
    }
    FirstHoldingDependsOnHolds(m, r, name, 0);
  }

  /** An update leaves every other dependency's lookup as it was, whichever
      groups that dependency appears in. */
  lemma UpdateKeepsOtherLookups(m: Manifest, name: string, version: string, other: string)
    requires other != name
    ensures GetDependencyVersion(UpdateDependencyVersion(m, name, version), other) == GetDependencyVersion(m, other)
  {
    var r := UpdateDependencyVersion(m, name, version);
    match FirstHolding(m, name, 0)
    case None =>
      NotFoundMeansNowhere(m, name);
    case Some(i) =>
      assert IsFirstHolding(m, name, i);
      assert forall g :: Entry(r, g, other) == Entry(m, g, other);
    LookupDependsOnEntries(r, m, other);
  }

  /** A second update of the same dependency overwrites the first: the result
      is as if only the second had been made. In particular an update is
      idempotent. */
  lemma LastUpdateWins(m: Manifest, name: string, v1: string, v2: string)
    ensures UpdateDependencyVersion(UpdateDependencyVersion(m, name, v1), name, v2)
         == UpdateDependencyVersion(m, name, v2)
  {
    var r1 := UpdateDependencyVersion(m, name, v1);
    match FirstHolding(m, name, 0)
    case None =>
    case Some(i) =>
      assert IsFirstHolding(m, name, i);
      forall g
        ensures Holds(r1, g, name) == Holds(m, g, name)
      {
        if g != Order[i] {
          assert Entry(r1, g, name) == Entry(m, g, name);
        }
      }
      FirstHoldingDependsOnHolds(m, r1, name, 0);
      var g := Order[i];
      assert r1.groups[g][name := "^" + v2] == m.groups[g][name := "^" + v2];
  }
}
