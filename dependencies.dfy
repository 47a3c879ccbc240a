/**
 * The assembly locations `Mapper.GetMetadataFileReferences` gathers in its
 * `paths` dictionary before it turns them into metadata references.
 */
module Dependencies {
  import opened Wrappers
  import opened TypeModel
  import opened Accessor
  import opened Bindings

  /** Adds a location unless it is already a key; the keys are listed in insertion order. */
  function AddLocation(paths: seq<string>, loc: string): seq<string> {
    if loc in paths then paths else paths + [loc]
  }

  /** The check-then-add applied to the location of each type in turn. */
  function AddLocations(types: TypeTable, paths: seq<string>, tys: seq<TypeId>): seq<string>
    requires forall k | 0 <= k < |tys| :: tys[k] in types
    decreases |tys|
  {
    if tys == [] then paths
    else AddLocations(types, AddLocation(paths, types[tys[0]].location), tys[1..])
  }

  /** One side of an entry: the root type's location, then those of what GetParentTypes yields for it. */
  function AddSide(types: TypeTable, paths: seq<string>, root: TypeId): seq<string>
    requires ValidTable(types) && root in types
  {
    AddLocations(types, AddLocation(paths, types[root].location), ParentTypes(types, Some(root)))
  }

  /**
   * The loop over `_mappings`: key side, then value side, entry by entry. A
   * null value throws NullReferenceException when its RootType is read.
   */
  function Collect(types: TypeTable, paths: seq<string>, bindings: seq<Binding>): Result<seq<string>>
    requires ValidTable(types) && RootsKnown(types, bindings)
    decreases |bindings|
  {
    if bindings == [] then Ok(paths)
    else
      var afterKey := AddSide(types, paths, bindings[0].0.rootType);
      match bindings[0].1
      case None => Err(NullReference)
      case Some(v) => Collect(types, AddSide(types, afterKey, v.rootType), bindings[1..])
  }

  // ---------------------------------------------------------------------
  // What the collected locations are
  // ---------------------------------------------------------------------

  predicate NoDuplicates(s: seq<string>) {
    forall i, j | 0 <= i < j < |s| :: s[i] != s[j]
  }

  /** The assembly locations of the given types. */
  ghost function Locations(types: TypeTable, tys: seq<TypeId>): set<string>
    requires forall k | 0 <= k < |tys| :: tys[k] in types
  {
    set k | 0 <= k < |tys| :: types[tys[k]].location
  }

  /** The locations one side brings: its root type's, and those of all its parent types. */
  ghost function SideLocations(types: TypeTable, root: TypeId): set<string>
    requires ValidTable(types) && root in types
  {
    {types[root].location} + Locations(types, ParentTypes(types, Some(root)))
  }

  ghost function EntryLocations(types: TypeTable, b: Binding): set<string>
    requires ValidTable(types) && b.0.rootType in types
    requires b.1.Some? ==> b.1.value.rootType in types
  {
    SideLocations(types, b.0.rootType) + (if b.1.Some? then SideLocations(types, b.1.value.rootType) else {})
  }

  /** Every location some entry of the table brings. */
  ghost function Required(types: TypeTable, bindings: seq<Binding>): set<string>
    requires ValidTable(types) && RootsKnown(types, bindings)
  {
    set k, l | 0 <= k < |bindings| && l in EntryLocations(types, bindings[k]) :: l
  }

  lemma LocationsCons(types: TypeTable, tys: seq<TypeId>)
    requires tys != [] && forall k | 0 <= k < |tys| :: tys[k] in types
    ensures Locations(types, tys) == {types[tys[0]].location} + Locations(types, tys[1..])
  {
  }

  lemma AddLocationSpec(paths: seq<string>, loc: string)
    ensures |paths| <= |AddLocation(paths, loc)| && AddLocation(paths, loc)[..|paths|] == paths
    ensures NoDuplicates(paths) ==> NoDuplicates(AddLocation(paths, loc))
    ensures forall l :: l in AddLocation(paths, loc) <==> l in paths || l == loc
  {
  }

  /**
   * The check-then-add loop keeps what was there, in place, adds each new
   * location once, and ends with exactly the old keys and the types' locations.
   */
  lemma {:induction false} AddLocationsSpec(types: TypeTable, paths: seq<string>, tys: seq<TypeId>)
    requires forall k | 0 <= k < |tys| :: tys[k] in types
    ensures var r := AddLocations(types, paths, tys);
      && |paths| <= |r| && r[..|paths|] == paths
      && (NoDuplicates(paths) ==> NoDuplicates(r))
      && (forall l :: l in r <==> l in paths || l in Locations(types, tys))
    decreases |tys|
  {
    if tys != [] {
      var p := AddLocation(paths, types[tys[0]].location);
      AddLocationSpec(paths, types[tys[0]].location);
      AddLocationsSpec(types, p, tys[1..]);
      LocationsCons(types, tys);
      var r := AddLocations(types, paths, tys);
      assert r[..|paths|] == r[..|p|][..|paths|];
    }
  }

  lemma AddSideSpec(types: TypeTable, paths: seq<string>, root: TypeId)
    requires ValidTable(types) && root in types
    ensures var r := AddSide(types, paths, root);
      && |paths| <= |r| && r[..|paths|] == paths
      && (NoDuplicates(paths) ==> NoDuplicates(r))
      && (forall l :: l in r <==> l in paths || l in SideLocations(types, root))
  {
    var p := AddLocation(paths, types[root].location);
    AddLocationSpec(paths, types[root].location);
    AddLocationsSpec(types, p, ParentTypes(types, Some(root)));
    var r := AddSide(types, paths, root);
    assert r[..|paths|] == r[..|p|][..|paths|];
  }

  lemma RequiredCons(types: TypeTable, bindings: seq<Binding>)
    requires ValidTable(types) && RootsKnown(types, bindings) && bindings != []
    ensures RootsKnown(types, bindings[1..])
    ensures Required(types, bindings) == EntryLocations(types, bindings[0]) + Required(types, bindings[1..])
  {
  }

  lemma AllResolvedCons(bindings: seq<Binding>)
    requires bindings != []
    ensures AllResolved(bindings) <==> bindings[0].1.Some? && AllResolved(bindings[1..])
  {
  }

  /** The collection throws exactly when some destination is null. */
  lemma {:induction false} CollectFailsOnNull(types: TypeTable, paths: seq<string>, bindings: seq<Binding>)
    requires ValidTable(types) && RootsKnown(types, bindings)
    ensures Collect(types, paths, bindings).Ok? <==> AllResolved(bindings)
    ensures Collect(types, paths, bindings).Err? ==> Collect(types, paths, bindings).error == NullReference
    decreases |bindings|
  {
    if bindings != [] {
      AllResolvedCons(bindings);
      RequiredCons(types, bindings);
      var b := bindings[0];
      if b.1.Some? {
        var afterKey := AddSide(types, paths, b.0.rootType);
        CollectFailsOnNull(types, AddSide(types, afterKey, b.1.value.rootType), bindings[1..]);
      }
    }
  }

  /**
   * On success every location already listed stays where it was, no
   * location appears twice, and a location is listed exactly when it was
   * listed before or some entry brings it.
   */
  lemma {:induction false} CollectSpec(types: TypeTable, paths: seq<string>, bindings: seq<Binding>)
    requires ValidTable(types) && RootsKnown(types, bindings)
    requires Collect(types, paths, bindings).Ok?
    ensures var r := Collect(types, paths, bindings).value;
              && |paths| <= |r| && r[..|paths|] == paths
              && (NoDuplicates(paths) ==> NoDuplicates(r))
              && (forall l :: l in r <==> l in paths || l in Required(types, bindings))
    decreases |bindings|
  {
    if bindings == [] {
      assert Required(types, bindings) == {};
    } else {
      RequiredCons(types, bindings);
      var b := bindings[0];
      var afterKey := AddSide(types, paths, b.0.rootType);
      var afterValue := AddSide(types, afterKey, b.1.value.rootType);
      var r := Collect(types, paths, bindings).value;
      assert r == Collect(types, afterValue, bindings[1..]).value;
      AddSideSpec(types, paths, b.0.rootType);
      AddSideSpec(types, afterKey, b.1.value.rootType);
      CollectSpec(types, afterValue, bindings[1..]);
      assert r[..|paths|] == r[..|afterValue|][..|afterKey|][..|paths|];
      assert EntryLocations(types, b) ==
               SideLocations(types, b.0.rootType) + SideLocations(types, b.1.value.rootType);
    }
  }

  /**
   * From an empty dictionary: exactly the locations of every key and value
   * root type and of every parent type of those, each once.
   */
  lemma CollectedLocations(types: TypeTable, bindings: seq<Binding>)
    requires ValidTable(types) && RootsKnown(types, bindings) && AllResolved(bindings)
    ensures Collect(types, [], bindings).Ok?
    ensures NoDuplicates(Collect(types, [], bindings).value)
    ensures forall l :: l in Collect(types, [], bindings).value <==> l in Required(types, bindings)
  {
    CollectFailsOnNull(types, [], bindings);
    CollectSpec(types, [], bindings);
  }
}
