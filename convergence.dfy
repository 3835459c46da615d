/**
 * The convergence check of lib/monorepo.js (`hasAllMonorepoUdates`): given the
 * rows a bulk read of a group's members returned, decide whether the group has
 * been published at a target version. The bulk read itself is I/O and appears
 * here as its result, `rows`.
 */
module Convergence {
  import opened Wrappers
  import opened Documents
  import opened Registry

  /** The error the source raises when the dependency belongs to no group. */
  datatype Error = NotInAnyGroup

  /** `docs.filter(doc => !doc.error)`: the documents of the rows that carry no error, in order. */
  function DropErrors(rows: seq<Row>): (docs: seq<Doc>)
    ensures |docs| <= |rows|
    ensures forall d :: d in docs <==> Found(d) in rows
  {
    if |rows| == 0 then []
    else
      var rest := DropErrors(rows[1..]);
      assert forall d :: Found(d) in rows <==> rows[0] == Found(d) || Found(d) in rows[1..];
      if rows[0].Found? then [rows[0].doc] + rest else rest
  }

  /** Filtering keeps order: the documents of a concatenation are the concatenated documents. */
  lemma {:induction false} DropErrorsAppend(a: seq<Row>, b: seq<Row>)
    ensures DropErrors(a + b) == DropErrors(a) + DropErrors(b)
  {
    if |a| == 0 {
      assert a + b == b;
    } else {
      assert (a + b)[1..] == a[1..] + b;
      DropErrorsAppend(a[1..], b);
    }
  }

  /** The lookup table `packageName -> packageInfo`. */
  type Table = map<Id, Doc>

  /**
   * The `reduce` that writes `acc[doc._id] = doc` for each document in turn,
   * as a left fold: its keys are exactly the documents' ids, and each entry is a
   * document listed under that id.
   */
  function TableOf(docs: seq<Doc>): (t: Table)
    ensures t.Keys == set d | d in docs :: d.id
    ensures forall k :: k in t ==> t[k] in docs && t[k].id == k
  {
    if |docs| == 0 then map[]
    else
      var init := docs[..|docs| - 1];
      var last := docs[|docs| - 1];
      assert docs == init + [last];
      TableOf(init)[last.id := last]
  }

  /** A later document with the same `_id` replaces an earlier one: the last one stays. */
  lemma {:induction false} TableOfLastWins(docs: seq<Doc>, i: nat)
    requires i < |docs|
    requires forall j :: i < j < |docs| ==> docs[j].id != docs[i].id
    ensures docs[i].id in TableOf(docs) && TableOf(docs)[docs[i].id] == docs[i]
  {
    var n := |docs| - 1;
    if i < n {
      var init := docs[..n];
      assert init[i] == docs[i];
      TableOfLastWins(init, i);
    }
  }

  /** Builds the lookup table the way the source's reducer does, one assignment per document. */
  method BuildRegistryTable(docs: seq<Doc>) returns (table: Table)
    ensures table == TableOf(docs)
  {
    table := map[];
    for i := 0 to |docs|
      invariant table == TableOf(docs[..i])
    {
      assert docs[..i + 1][..i] == docs[..i];
      table := table[docs[i].id := docs[i]];
    }
    assert docs[..|docs|] == docs;
  }

  /**
   * The test inside the fold: `pkg && pkg.distTags['latest'] && pkg.distTags['latest'] === version`.
   * A missing entry, a missing tag and an empty tag never match, even an empty `version`.
   */
  function AtVersion(table: Table, name: PackageName, version: string): (b: bool)
    ensures b ==> name in table && version != "" && Latest(table[name]) == Some(version)
    ensures name in table && version != "" && Latest(table[name]) == Some(version) ==> b
  {
    name in table && Truthy(Latest(table[name])) && Latest(table[name]).value == version
  }

  /** The fold of lib/monorepo.js:24-31 from accumulator `acc`: a match returns true, a miss returns `acc`. */
  function AnyMatchFrom(members: seq<PackageName>, table: Table, version: string, acc: bool): (b: bool)
    ensures acc ==> b
  {
    if |members| == 0 then acc
    else AnyMatchFrom(members[1..], table, version, if AtVersion(table, members[0], version) then true else acc)
  }

  /** The as-written fold is true exactly when the accumulator was, or some member matches. */
  lemma {:induction false} AnyMatchFromIff(members: seq<PackageName>, table: Table, version: string, acc: bool)
    ensures AnyMatchFrom(members, table, version, acc)
            <==> acc || exists i :: 0 <= i < |members| && AtVersion(table, members[i], version)
  {
    if |members| > 0 {
      var acc' := if AtVersion(table, members[0], version) then true else acc;
      AnyMatchFromIff(members[1..], table, version, acc');
      assert forall i :: 1 <= i < |members| ==> members[i] == members[1..][i - 1];
    }
  }

  /** The convergence fold as written, started from `false`: true when any member matches. */
  function AnyMatch(members: seq<PackageName>, table: Table, version: string): (b: bool)
    ensures b <==> exists i :: 0 <= i < |members| && AtVersion(table, members[i], version)
  {
    AnyMatchFromIff(members, table, version, false);
    AnyMatchFrom(members, table, version, false)
  }

  /** The fold the function's name and its tests call for, from accumulator `acc`: every member must match. */
  function AllMatchFrom(members: seq<PackageName>, table: Table, version: string, acc: bool): (b: bool)
    ensures b ==> acc
  {
    if |members| == 0 then acc
    else AllMatchFrom(members[1..], table, version, acc && AtVersion(table, members[0], version))
  }

  lemma {:induction false} AllMatchFromIff(members: seq<PackageName>, table: Table, version: string, acc: bool)
    ensures AllMatchFrom(members, table, version, acc)
            <==> acc && forall i :: 0 <= i < |members| ==> AtVersion(table, members[i], version)
  {
    if |members| > 0 {
      AllMatchFromIff(members[1..], table, version, acc && AtVersion(table, members[0], version));
      assert forall i :: 1 <= i < |members| ==> members[i] == members[1..][i - 1];
    }
  }

  /** The corrected convergence fold, started from `true`: true when every member matches. */
  function AllMatch(members: seq<PackageName>, table: Table, version: string): (b: bool)
    ensures b <==> forall i :: 0 <= i < |members| ==> AtVersion(table, members[i], version)
  {
    AllMatchFromIff(members, table, version, true);
    AllMatchFrom(members, table, version, true)
  }

  /** On a group with members, convergence of all implies the as-written "any" answer. */
  lemma AllImpliesAny(members: seq<PackageName>, table: Table, version: string)
    requires |members| > 0
    ensures AllMatch(members, table, version) ==> AnyMatch(members, table, version)
  {
  }

  /** Neither fold counts a member the table does not hold. */
  lemma AbsentMembersNeverMatch(members: seq<PackageName>, table: Table, version: string)
    ensures AnyMatch(members, table, version) ==> exists i :: 0 <= i < |members| && members[i] in table
    ensures (exists i :: 0 <= i < |members| && members[i] !in table) ==> !AllMatch(members, table, version)
  {
  }

  /** A member that matches was returned by the bulk read with `latest` equal to `version`. */
  lemma AtVersionHasRow(rows: seq<Row>, name: PackageName, version: string)
    requires AtVersion(TableOf(DropErrors(rows)), name, version)
    ensures exists d :: Found(d) in rows && d.id == name && Latest(d) == Some(version)
  {
  }

  /** The member list of the group `dependency` belongs to. */
  function GroupOf(defs: Definitions, dependency: PackageName): (members: seq<PackageName>)
    requires GetMonorepoGroup(defs, dependency).Some?
    ensures exists i :: 0 <= i < |defs| && defs[i].name == GetMonorepoGroup(defs, dependency).value
                        && defs[i].members == members
    ensures dependency in members
  {
    LookedUpGroupHoldsName(defs, dependency);
    MembersOf(defs, GetMonorepoGroup(defs, dependency).value).value
  }

  /**
   * `hasAllMonorepoUdates(dependency, version)` with the lookup returning the
   * group, the fold running over its member list and requiring every member:
   * `rows` is what the bulk read returned for that member list.
   */
  method HasAllMonorepoUpdates(defs: Definitions, rows: seq<Row>, dependency: PackageName, version: string)
    returns (r: Result<bool, Error>)
    ensures r.Err? <==> GetMonorepoGroup(defs, dependency).None?
    ensures r.Ok? ==> (r.value <==> forall m :: m in GroupOf(defs, dependency) ==>
                                       AtVersion(TableOf(DropErrors(rows)), m, version))
  {
    var group := GetMonorepoGroup(defs, dependency);
    if group.None? {
      return Err(NotInAnyGroup);
    }
    var members := MembersOf(defs, group.value);
    assert members.Some? && members.value == GroupOf(defs, dependency);
    var docs := DropErrors(rows);
    var registryChanges := BuildRegistryTable(docs);
    var received := AllMatch(members.value, registryChanges, version);
    assert received <==> forall m :: m in members.value ==> AtVersion(registryChanges, m, version);
    r := Ok(received);
  }

  /** A converged answer means the dependency itself was read back at `version`. */
  lemma ConvergedCoversDependency(defs: Definitions, rows: seq<Row>, dependency: PackageName, version: string)
    requires GetMonorepoGroup(defs, dependency).Some?
    requires forall m :: m in GroupOf(defs, dependency) ==> AtVersion(TableOf(DropErrors(rows)), m, version)
    ensures exists d :: Found(d) in rows && d.id == dependency && Latest(d) == Some(version)
  {
    AtVersionHasRow(rows, dependency, version);
  }

  // lib/monorepo.js as written

  /**
   * `hasAllMonorepoUdates` as written: the lookup yields `undefined` and the fold
   * runs `group.reduce`, which throws; had the lookup returned the group name, a
   * string has no `reduce` either.
   */
  function HasAllMonorepoUpdatesAsWritten(defs: Definitions, rows: seq<Row>, dependency: PackageName, version: string)
    : (r: Result<bool, string>)
    ensures r.Err?
  {
    match GetMonorepoGroupAsWritten(defs, dependency)
    case None => Err("TypeError: Cannot read property 'reduce' of undefined")
    case Some(name) => Err("TypeError: group.reduce is not a function")
  }

  // The groups the tests register

  function RegistryEntry(name: PackageName, latest: string): Doc
  {
    Doc(name, map["latest" := latest], None)
  }

  /** `fruits`: both members at 2.0.0; both folds say converged. */
  lemma FruitsFixture()
    ensures var table := TableOf([RegistryEntry("@avocado/dep", "2.0.0"), RegistryEntry("@banana/dep", "2.0.0")]);
            AnyMatch(["@avocado/dep", "@banana/dep"], table, "2.0.0")
            && AllMatch(["@avocado/dep", "@banana/dep"], table, "2.0.0")
  {
  }

  /**
   * `cities`: koeln and berlin at 2.0.0, hamburg at 1.0.0. The as-written fold
   * says converged; every-member convergence does not.
   */
  lemma CitiesFixture()
    ensures var table := TableOf([RegistryEntry("berlin", "2.0.0"), RegistryEntry("koeln", "2.0.0"),
                                  RegistryEntry("hamburg", "1.0.0")]);
            AnyMatch(["koeln", "hamburg", "berlin"], table, "2.0.0")
            && !AllMatch(["koeln", "hamburg", "berlin"], table, "2.0.0")
  {
  }

  const FruitsDefinitions: Definitions := [Group("fruits", ["@avocado/dep", "@banana/dep"])]

  const FruitsRows: seq<Row> :=
    [Found(RegistryEntry("@avocado/dep", "2.0.0")), Found(RegistryEntry("@banana/dep", "2.0.0"))]

  const CitiesDefinitions: Definitions := [Group("cities", ["koeln", "hamburg", "berlin"])]

  const CitiesRows: seq<Row> :=
    [Found(RegistryEntry("berlin", "2.0.0")), Found(RegistryEntry("koeln", "2.0.0")),
     Found(RegistryEntry("hamburg", "1.0.0"))]

  /** Dropping errors from rows that carry none keeps their documents. */
  lemma {:induction false} DropErrorsAllFound(rows: seq<Row>)
    requires forall i :: 0 <= i < |rows| ==> rows[i].Found?
    ensures |DropErrors(rows)| == |rows|
    ensures forall i :: 0 <= i < |rows| ==> DropErrors(rows)[i] == rows[i].doc
  {
    if |rows| > 0 {
      DropErrorsAllFound(rows[1..]);
    }
  }

  /** The `fruits` group of the tests, both members read back at 2.0.0: a member, and converged. */
  method FruitsScenario() returns (member: bool, r: Result<bool, Error>)
    ensures member && r == Ok(true)
  {
    member := IsPartOfMonorepo(FruitsDefinitions, "@avocado/dep");
    assert Contains(FruitsDefinitions[0], "@avocado/dep");
    r := HasAllMonorepoUpdates(FruitsDefinitions, FruitsRows, "@avocado/dep", "2.0.0");
    DropErrorsAllFound(FruitsRows);
    var docs := DropErrors(FruitsRows);
    TableOfLastWins(docs, 0);
    TableOfLastWins(docs, 1);
    assert GroupOf(FruitsDefinitions, "@avocado/dep") == ["@avocado/dep", "@banana/dep"];
  }

  /** The `cities` group of the tests, hamburg still at 1.0.0: not converged at 2.0.0. */
  method CitiesScenario() returns (r: Result<bool, Error>)
    ensures r == Ok(false)
  {
    assert Contains(CitiesDefinitions[0], "berlin");
    r := HasAllMonorepoUpdates(CitiesDefinitions, CitiesRows, "berlin", "2.0.0");
    DropErrorsAllFound(CitiesRows);
    var docs := DropErrors(CitiesRows);
    TableOfLastWins(docs, 2);
    assert "hamburg" in GroupOf(CitiesDefinitions, "berlin");
    assert !AtVersion(TableOf(docs), "hamburg", "2.0.0");
  }
}
