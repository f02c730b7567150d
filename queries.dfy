/**
 * The read-only query interface over the committed tables. Every query is a
 * filter or a projection of the rows in table order; the SQL statements have no
 * ORDER BY, and the store returns rows in insertion order.
 */
module ProjectQueries {
  import opened Wrappers
  import opened Seqs
  import opened Strings
  import opened ProjectStore

  function NameOf(p: ProjectRow): string
  {
    p.info.projectName
  }

  /** get_all_projects: one name per project row, in row order, duplicates kept. */
  function GetAllProjects(t: Tables): (names: seq<string>)
    ensures |names| == |t.projects|
    ensures forall i :: 0 <= i < |names| ==> names[i] == t.projects[i].info.projectName
  {
    Map(NameOf, t.projects)
  }

  /** The position of the first row named `name`, or the number of rows when there is none. */
  function FirstNamed(projects: seq<ProjectRow>, name: string): (k: nat)
    ensures k <= |projects|
    ensures forall j :: 0 <= j < k ==> projects[j].info.projectName != name
    ensures k < |projects| ==> projects[k].info.projectName == name
    decreases |projects|
  {
    if projects == [] then 0
    else if projects[0].info.projectName == name then 0
    else 1 + FirstNamed(projects[1..], name)
  }

  /**
   * get_project_info: the columns (without the id) of the first row whose name is
   * exactly `name`; nothing when no row has that name.
   */
  function GetProjectInfo(t: Tables, name: string): (r: Option<ProjectInfo>)
    ensures r.None? <==> forall i :: 0 <= i < |t.projects| ==> t.projects[i].info.projectName != name
    ensures r.Some? ==> r.value.projectName == name
    ensures r.Some? ==> exists i :: 0 <= i < |t.projects| && t.projects[i].info == r.value
                          && forall j :: 0 <= j < i ==> t.projects[j].info.projectName != name
  {
    var k := FirstNamed(t.projects, name);
    if k < |t.projects| then Some(t.projects[k].info) else None
  }

  /** The join condition: some project row with this id has this name. */
  predicate OwnedBy(projects: seq<ProjectRow>, projectId: int, name: string)
  {
    exists j :: 0 <= j < |projects| && projects[j].id == projectId && projects[j].info.projectName == name
  }

  function OwnedByName(projects: seq<ProjectRow>, name: string): RequirementRow -> bool
  {
    (r: RequirementRow) => OwnedBy(projects, r.projectId, name)
  }

  function RequirementOf(r: RequirementRow): Requirement
  {
    r.requirement
  }

  /**
   * get_requirements_by_project: (task, difficulty, deadline) of every requirement
   * row whose project is named `name` — of every project with that name, not only
   * the first — in requirement-table order.
   */
  function GetRequirementsByProject(t: Tables, name: string): (reqs: seq<Requirement>)
    ensures |reqs| <= |t.requirements|
    ensures forall x :: x in reqs <==>
              exists i :: 0 <= i < |t.requirements| && t.requirements[i].requirement == x
                          && OwnedBy(t.projects, t.requirements[i].projectId, name)
  {
    var rows := Filter(OwnedByName(t.projects, name), t.requirements);
    assert forall r :: r in rows <==> r in t.requirements && OwnedBy(t.projects, r.projectId, name);
    Map(RequirementOf, rows)
  }

  /**
   * The join keeps every requirement row owned by a project of that name as often as
   * the table holds it, and no other row, before the rows are cut to their columns.
   */
  lemma RequirementsByProjectCounts(t: Tables, name: string, r: RequirementRow)
    ensures multiset(Filter(OwnedByName(t.projects, name), t.requirements))[r]
            == if OwnedBy(t.projects, r.projectId, name) then multiset(t.requirements)[r] else 0
  {
    FilterCounts(OwnedByName(t.projects, name), t.requirements, r);
  }

  function ColumnContains(column: Column, value: string): ProjectRow -> bool
  {
    (p: ProjectRow) => Contains(ColumnValue(p.info, column), value)
  }

  /** search_projects: the full rows whose `column` contains `value`, in row order. */
  function SearchProjects(t: Tables, column: Column, value: string): (rows: seq<ProjectRow>)
    ensures forall p :: p in rows <==> p in t.projects && Contains(ColumnValue(p.info, column), value)
  {
    Filter(ColumnContains(column, value), t.projects)
  }

  /** search_projects keeps every matching row as often as the table holds it, and no other row. */
  lemma SearchProjectsCounts(t: Tables, column: Column, value: string, p: ProjectRow)
    ensures multiset(SearchProjects(t, column, value))[p]
            == if Contains(ColumnValue(p.info, column), value) then multiset(t.projects)[p] else 0
  {
    FilterCounts(ColumnContains(column, value), t.projects, p);
  }

  /** Searching for the empty string matches every row, in row order. */
  lemma SearchEmptyValue(t: Tables, column: Column)
    ensures SearchProjects(t, column, "") == t.projects
  {
    forall p | p in t.projects
      ensures ColumnContains(column, "")(p)
    {
      ContainsEmpty(ColumnValue(p.info, column));
    }
    FilterAll(ColumnContains(column, ""), t.projects);
  }

  function HasStatus(status: string): ProjectRow -> bool
  {
    (p: ProjectRow) => p.info.status == status
  }

  /** filter_by_status: exactly the full rows whose status equals `status`, in row order. */
  function FilterByStatus(t: Tables, status: string): (rows: seq<ProjectRow>)
    ensures forall p :: p in rows <==> p in t.projects && p.info.status == status
  {
    Filter(HasStatus(status), t.projects)
  }

  /** filter_by_status keeps every row of that status as often as the table holds it, and no other row. */
  lemma FilterByStatusCounts(t: Tables, status: string, p: ProjectRow)
    ensures multiset(FilterByStatus(t, status))[p] == if p.info.status == status then multiset(t.projects)[p] else 0
  {
    FilterCounts(HasStatus(status), t.projects, p);
  }

  /** SELECT status ... GROUP BY status: every status of the table, each once. */
  function DistinctStatuses(projects: seq<ProjectRow>): (statuses: seq<string>)
    ensures forall s :: s in statuses <==> exists i :: 0 <= i < |projects| && projects[i].info.status == s
    ensures forall i, j :: 0 <= i < j < |statuses| ==> statuses[i] != statuses[j]
    decreases |projects|
  {
    if projects == [] then []
    else
      var rest := DistinctStatuses(projects[..|projects| - 1]);
      var s := projects[|projects| - 1].info.status;
      assert forall i :: 0 <= i < |projects| - 1 ==> projects[..|projects| - 1][i] == projects[i];
      if s in rest then rest else rest + [s]
  }

  /** group_by_status, as a map: each distinct status to the rows filter_by_status gives for it. */
  function StatusGroups(t: Tables): map<string, seq<ProjectRow>>
  {
    map s | s in DistinctStatuses(t.projects) :: FilterByStatus(t, s)
  }

  /** group_by_status: one query per distinct status, collected into a dictionary. */
  method GroupByStatus(t: Tables) returns (grouped: map<string, seq<ProjectRow>>)
    ensures grouped == StatusGroups(t)
  {
    var statuses := DistinctStatuses(t.projects);
    grouped := map[];
    for i := 0 to |statuses|
      invariant grouped.Keys == set j | 0 <= j < i :: statuses[j]
      invariant forall s :: s in grouped ==> grouped[s] == FilterByStatus(t, s)
    {
      grouped := grouped[statuses[i] := FilterByStatus(t, statuses[i])];
    }
    assert grouped.Keys == StatusGroups(t).Keys;
  }

  /**
   * The groups partition the project rows: every row lies in the group of its own
   * status, and a group holds only rows of the table with that status, so no row is
   * in two groups and none is left out.
   */
  lemma StatusGroupsPartition(t: Tables)
    ensures forall p :: p in t.projects ==> p.info.status in StatusGroups(t) && p in StatusGroups(t)[p.info.status]
    ensures forall s, p :: s in StatusGroups(t) && p in StatusGroups(t)[s] ==> p in t.projects && p.info.status == s
    ensures forall s :: s in StatusGroups(t) ==> StatusGroups(t)[s] != []
  {
    var groups := StatusGroups(t);
    forall p | p in t.projects
      ensures p.info.status in groups && p in groups[p.info.status]
    {
      var i :| 0 <= i < |t.projects| && t.projects[i] == p;
      assert p.info.status in DistinctStatuses(t.projects);
    }
    forall s | s in groups
      ensures groups[s] != []
    {
      var i :| 0 <= i < |t.projects| && t.projects[i].info.status == s;
      assert t.projects[i] in groups[s];
    }
  }

  // ---------------------------------------------------------------------------
  // What the queries see after one completed insert_project.

  lemma {:induction false} FirstNamedSnoc(projects: seq<ProjectRow>, row: ProjectRow, name: string)
    ensures FirstNamed(projects + [row], name) ==
              if FirstNamed(projects, name) < |projects| then FirstNamed(projects, name)
              else if row.info.projectName == name then |projects| else |projects| + 1
    decreases |projects|
  {
    if projects != [] {
      assert (projects + [row])[1..] == projects[1..] + [row];
      FirstNamedSnoc(projects[1..], row, name);
    }
  }

  /**
   * After a completed insert_project the name list gains the record's name at the end,
   * and a lookup by name still finds the first row with that name: an earlier project
   * of the same name if there is one, the new row otherwise.
   */
  lemma InsertThenProjectInfo(t: Tables, doc: ProjectDoc, name: string)
    requires WellFormed(t) && Importable(doc)
    ensures GetAllProjects(InsertAttempt(t, doc).0) == GetAllProjects(t) + [ExtractInfo(doc).value.projectName]
    ensures GetProjectInfo(InsertAttempt(t, doc).0, name) ==
              if GetProjectInfo(t, name).Some? then GetProjectInfo(t, name)
              else if ExtractInfo(doc).value.projectName == name then ExtractInfo(doc)
              else None
  {
    var u := InsertAttempt(t, doc).0;
    InsertAttemptRows(t, doc);
    var row := ProjectRow(t.lastProjectId + 1, ExtractInfo(doc).value);
    MapConcat(NameOf, t.projects, [row]);
    FirstNamedSnoc(t.projects, row, name);
  }

  /** Appending a project row with a fresh id does not change which stored requirement rows join a name. */
  lemma OldRowsJoinAlike(t: Tables, info: ProjectInfo, name: string)
    requires WellFormed(t)
    ensures var projects := t.projects + [ProjectRow(t.lastProjectId + 1, info)];
      Filter(OwnedByName(projects, name), t.requirements) == Filter(OwnedByName(t.projects, name), t.requirements)
  {
    var projects := t.projects + [ProjectRow(t.lastProjectId + 1, info)];
    var keepNew := OwnedByName(projects, name);
    var keepOld := OwnedByName(t.projects, name);
    forall r | r in t.requirements
      ensures keepNew(r) == keepOld(r)
    {
      var i :| 0 <= i < |t.requirements| && t.requirements[i] == r;
      var j :| 0 <= j < |t.projects| && t.projects[j].id == r.projectId;
      if keepNew(r) {
        var j' :| 0 <= j' < |projects| && projects[j'].id == r.projectId && projects[j'].info.projectName == name;
        assert j' < |t.projects|;
        assert t.projects[j'] == projects[j'];
      }
      if keepOld(r) {
        var j' :| 0 <= j' < |t.projects| && t.projects[j'].id == r.projectId && t.projects[j'].info.projectName == name;
        assert projects[j'] == t.projects[j'];
      }
    }
    FilterCongruent(keepNew, keepOld, t.requirements);
  }

  /** Requirement rows owned by the last project row, whose id no other row has, join exactly its name. */
  lemma NewRowsJoin(projects: seq<ProjectRow>, added: seq<RequirementRow>, name: string)
    requires |projects| > 0
    requires forall j :: 0 <= j < |projects| - 1 ==> projects[j].id < projects[|projects| - 1].id
    requires forall r :: r in added ==> r.projectId == projects[|projects| - 1].id
    ensures Filter(OwnedByName(projects, name), added) ==
              if projects[|projects| - 1].info.projectName == name then added else []
  {
    var last := projects[|projects| - 1];
    var keep := OwnedByName(projects, name);
    forall r | r in added
      ensures keep(r) == (last.info.projectName == name)
    {
      if keep(r) {
        var j :| 0 <= j < |projects| && projects[j].id == r.projectId && projects[j].info.projectName == name;
        assert j == |projects| - 1;
      }
    }
    if last.info.projectName == name {
      FilterAll(keep, added);
    } else {
      FilterNone(keep, added);
    }
  }

  /** The join over the tables with one project row and its requirement rows appended. */
  lemma JoinAfterAppend(t: Tables, u: Tables, info: ProjectInfo, added: seq<RequirementRow>,
                        parsed: seq<Requirement>, name: string)
    requires WellFormed(t)
    requires u.projects == t.projects + [ProjectRow(t.lastProjectId + 1, info)]
    requires u.requirements == t.requirements + added
    requires |added| == |parsed|
    requires forall k :: 0 <= k < |added| ==>
               added[k].projectId == t.lastProjectId + 1 && added[k].requirement == parsed[k]
    ensures GetRequirementsByProject(u, name) ==
              GetRequirementsByProject(t, name) + (if info.projectName == name then parsed else [])
  {
    var keepNew := OwnedByName(u.projects, name);
    OldRowsJoinAlike(t, info, name);
    FilterConcat(keepNew, t.requirements, added);
    NewRowsJoin(u.projects, added, name);
    if info.projectName == name {
      assert Map(RequirementOf, added) == parsed;
    }
    MapConcat(RequirementOf, Filter(OwnedByName(t.projects, name), t.requirements), Filter(keepNew, added));
  }

  /**
   * After a completed insert_project the requirements listed under a name are those
   * listed before, followed by the record's own requirements in document order when
   * the record carries that name. Rows stored earlier never join the new project: its
   * id is fresh.
   */
  lemma InsertThenRequirements(t: Tables, doc: ProjectDoc, name: string)
    requires WellFormed(t) && Importable(doc)
    ensures GetRequirementsByProject(InsertAttempt(t, doc).0, name) ==
              GetRequirementsByProject(t, name) +
              (if ExtractInfo(doc).value.projectName == name then ParsedRequirements(RequirementDocs(doc)) else [])
  {
    var u := InsertAttempt(t, doc).0;
    var docs := RequirementDocs(doc);
    var parsed := ParsedRequirements(docs);
    InsertAttemptRows(t, doc);
    var added := u.requirements[|t.requirements|..];
    assert u.requirements == t.requirements + added;
    forall k | 0 <= k < |added|
      ensures added[k].projectId == t.lastProjectId + 1 && added[k].requirement == parsed[k]
    {
      assert u.requirements[|t.requirements| + k] == added[k];
      assert ExtractRequirement(docs[k]) == Some(parsed[k]);
    }
    JoinAfterAppend(t, u, ExtractInfo(doc).value, added, parsed, name);
  }
}
