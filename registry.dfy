/**
 * The group registry of lib/monorepo.js: a static, ordered table from group
 * name to the names of the packages published together, the lookup of the
 * group a package belongs to, and the membership test built on it.
 */
module Registry {
  import opened Wrappers

  type PackageName = string
  type GroupName = string

  /** One entry of `monorepoDefinitions`: a group name and its member list. */
  datatype Group = Group(name: GroupName, members: seq<PackageName>)

  /** A JavaScript object has each key once. */
  predicate DistinctNames(defs: seq<Group>)
  {
    forall i, j :: 0 <= i < j < |defs| ==> defs[i].name != defs[j].name
  }

  /** `monorepoDefinitions`, its keys in the order `Object.keys` lists them, each key once. */
  type Definitions = defs: seq<Group> | DistinctNames(defs) witness []

  /** The inner `find(pkg => pkg === name)`: the first member equal to `name`. */
  function FindMember(members: seq<PackageName>, name: PackageName): (r: Option<PackageName>)
    ensures r.Some? <==> name in members
    ensures r.Some? ==> r.value == name
  {
    if |members| == 0 then None
    else if members[0] == name then Some(members[0])
    else FindMember(members[1..], name)
  }

  /**
   * The predicate of the outer `find`: the truthiness of the inner result.
   * The inner `find` returns the matched string itself, so a match on the
   * empty package name is falsy and does not select the group.
   */
  function Contains(g: Group, name: PackageName): (b: bool)
    ensures b <==> name in g.members && name != ""
  {
    var found := FindMember(g.members, name);
    found.Some? && found.value != ""
  }

  /** The outer `Object.keys(...).find(...)`: the first group that contains `name`. */
  function FindGroup(defs: Definitions, name: PackageName): (r: Option<Group>)
    ensures r.None? <==> forall i :: 0 <= i < |defs| ==> !Contains(defs[i], name)
    ensures r.Some? ==> exists i :: 0 <= i < |defs| && defs[i] == r.value && Contains(defs[i], name)
                                    && forall j :: 0 <= j < i ==> !Contains(defs[j], name)
  {
    if |defs| == 0 then None
    else if Contains(defs[0], name) then Some(defs[0])
    else
      var r := FindGroup(defs[1..], name);
      assert forall i :: 1 <= i < |defs| ==> defs[i] == defs[1..][i - 1];
      r
  }

  /**
   * `getMonorepoGroup(name)` with the `return` it evidently intends: the name of
   * the first group, in key order, whose member list holds `name`.
   */
  function GetMonorepoGroup(defs: Definitions, name: PackageName): (r: Option<GroupName>)
    ensures r.Some? <==> exists i :: 0 <= i < |defs| && Contains(defs[i], name)
    ensures r.Some? ==> exists i :: 0 <= i < |defs| && defs[i].name == r.value && name in defs[i].members
                                    && forall j :: 0 <= j < i ==> name !in defs[j].members
  {
    match FindGroup(defs, name)
    case None => None
    case Some(g) => Some(g.name)
  }

  /**
   * `isPartOfMonorepo(dependency)`: `!!getMonorepoGroup(dependency)`. The double
   * negation makes a group named "" count as no group.
   */
  function IsPartOfMonorepo(defs: Definitions, name: PackageName): (b: bool)
    ensures b ==> name != "" && exists i :: 0 <= i < |defs| && name in defs[i].members
    ensures b <==> exists i :: 0 <= i < |defs| && Contains(defs[i], name) && defs[i].name != ""
                              && forall j :: 0 <= j < i ==> !Contains(defs[j], name)
    ensures (forall i :: 0 <= i < |defs| ==> defs[i].name != "") ==>
              (b <==> name != "" && exists i :: 0 <= i < |defs| && name in defs[i].members)
  {
    var g := GetMonorepoGroup(defs, name);
    g.Some? && g.value != ""
  }

  /** `monorepoDefinitions[group]`: the member list of the first group called `group`. */
  function MembersOf(defs: Definitions, group: GroupName): (r: Option<seq<PackageName>>)
    ensures r.None? <==> forall i :: 0 <= i < |defs| ==> defs[i].name != group
    ensures r.Some? ==> exists i :: 0 <= i < |defs| && defs[i].name == group && defs[i].members == r.value
  {
    if |defs| == 0 then None
    else if defs[0].name == group then Some(defs[0].members)
    else
      var r := MembersOf(defs[1..], group);
      assert forall i :: 1 <= i < |defs| ==> defs[i] == defs[1..][i - 1];
      r
  }

  /**
   * The member list that `monorepoDefinitions[group]`
   * yields for the group found for `name` holds `name`.
   */
  lemma LookedUpGroupHoldsName(defs: Definitions, name: PackageName)
    requires GetMonorepoGroup(defs, name).Some?
    ensures MembersOf(defs, GetMonorepoGroup(defs, name).value).Some?
    ensures name in MembersOf(defs, GetMonorepoGroup(defs, name).value).value
  {
  }

  // lib/monorepo.js as written

  /**
   * `getMonorepoGroup` as written: the `find` expression is evaluated and its
   * value dropped, since the body has no `return`; the call yields `undefined`.
   */
  function GetMonorepoGroupAsWritten(defs: Definitions, name: PackageName): (r: Option<GroupName>)
    ensures r.None?
  {
    var _ := FindGroup(defs, name);
    None
  }

  /** `isPartOfMonorepo` on top of the lookup as written. */
  function IsPartOfMonorepoAsWritten(defs: Definitions, name: PackageName): (b: bool)
    ensures !b
  {
    match GetMonorepoGroupAsWritten(defs, name)
    case Some(g) => g != ""
    case None => false
  }

  // The definitions the source ships

  const PouchdbMembers: seq<PackageName> := [
    "pouchdb",
    "pouchdb-abstract-mapreduce",
    "pouchdb-adapter-fruitdown",
    "pouchdb-adapter-http",
    "pouchdb-adapter-idb",
    "pouchdb-adapter-indexeddb",
    "pouchdb-adapter-leveldb",
    "pouchdb-adapter-leveldb-core",
    "pouchdb-adapter-localstorage",
    "pouchdb-adapter-memory",
    "pouchdb-adapter-node-websql",
    "pouchdb-adapter-utils",
    "pouchdb-adapter-websql",
    "pouchdb-adapter-websql-core",
    "pouchdb-binary-utils",
    "pouchdb-browser",
    "pouchdb-changes-filter",
    "pouchdb-checkpointer",
    "pouchdb-collate",
    "pouchdb-collections",
    "pouchdb-core",
    "pouchdb-debug",
    "pouchdb-errors",
    "pouchdb-fetch",
    "pouchdb-find",
    "pouchdb-for-coverage",
    "pouchdb-generate-replication-id",
    "pouchdb-json",
    "pouchdb-mapreduce",
    "pouchdb-mapreduce-utils",
    "pouchdb-md5",
    "pouchdb-merge",
    "pouchdb-node",
    "pouchdb-replication",
    "pouchdb-selector-core",
    "pouchdb-utils",
    "sublevel-pouchdb"
  ]

  const MonorepoDefinitions: Definitions := [Group("pouchdb", PouchdbMembers)]

  /** `pouchdb-md5` resolves to the `pouchdb` group. */
  lemma PouchdbMd5InPouchdb()
    ensures GetMonorepoGroup(MonorepoDefinitions, "pouchdb-md5") == Some("pouchdb")
    ensures IsPartOfMonorepo(MonorepoDefinitions, "pouchdb-md5")
  {
  }

  /** `some-dep` belongs to no group. */
  lemma SomeDepInNoGroup()
    ensures GetMonorepoGroup(MonorepoDefinitions, "some-dep") == None
    ensures !IsPartOfMonorepo(MonorepoDefinitions, "some-dep")
  {
    // no shipped member name has the eight characters of "some-dep"
    assert forall i :: 0 <= i < |PouchdbMembers| ==> |PouchdbMembers[i]| != 8;
  }

  /** The lookup as written misses a package the shipped definitions list. */
  lemma AsWrittenMissesPouchdbMd5()
    ensures !IsPartOfMonorepoAsWritten(MonorepoDefinitions, "pouchdb-md5")
    ensures IsPartOfMonorepo(MonorepoDefinitions, "pouchdb-md5")
  {
  }
}
