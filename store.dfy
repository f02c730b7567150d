/**
 * The project store: the `projects` and `requirements` tables, the parsed
 * records of the JSON source, and the loader that turns records into rows.
 *
 * A table is a sequence of rows in insertion order. The AUTOINCREMENT counter
 * of each table (the largest id it has handed out) is kept beside the rows.
 * The loader's connection sees its own uncommitted rows (`live`); everything
 * that reads the store later sees only what was committed (`committed`).
 */
module ProjectStore {
  import opened Wrappers
  import opened Seqs

  /** The twelve text columns of the `projects` table, in schema order. */
  datatype Column =
    | ProjectName | DescriptionShort | DescriptionFull
    | RewardsAmount | RewardsApproximateAmount | RewardsDistributionDate
    | LinksWebsite | LinksTwitter | LinksTelegram | LinksDiscord
    | Status | LastUpdated

  /** A project row without its id: what a lookup by name returns. */
  datatype ProjectInfo = ProjectInfo(
    projectName: string,
    descriptionShort: string,
    descriptionFull: string,
    rewardsAmount: string,
    rewardsApproximateAmount: string,
    rewardsDistributionDate: string,
    linksWebsite: string,
    linksTwitter: string,
    linksTelegram: string,
    linksDiscord: string,
    status: string,
    lastUpdated: string)

  function ColumnValue(info: ProjectInfo, c: Column): string
  {
    match c
    case ProjectName => info.projectName
    case DescriptionShort => info.descriptionShort
    case DescriptionFull => info.descriptionFull
    case RewardsAmount => info.rewardsAmount
    case RewardsApproximateAmount => info.rewardsApproximateAmount
    case RewardsDistributionDate => info.rewardsDistributionDate
    case LinksWebsite => info.linksWebsite
    case LinksTwitter => info.linksTwitter
    case LinksTelegram => info.linksTelegram
    case LinksDiscord => info.linksDiscord
    case Status => info.status
    case LastUpdated => info.lastUpdated
  }

  datatype ProjectRow = ProjectRow(id: int, info: ProjectInfo)

  /** The three text columns of a requirement, as the join query returns them. */
  datatype Requirement = Requirement(task: string, difficulty: string, deadline: string)

  datatype RequirementRow = RequirementRow(id: int, projectId: int, requirement: Requirement)

  /** Both tables, with the last id each AUTOINCREMENT counter handed out. */
  datatype Tables = Tables(
    projects: seq<ProjectRow>,
    requirements: seq<RequirementRow>,
    lastProjectId: nat,
    lastRequirementId: nat)

  /** Some project row carries the id `id`. */
  predicate HasProject(projects: seq<ProjectRow>, id: int)
  {
    exists j :: 0 <= j < |projects| && projects[j].id == id
  }

  /**
   * The store's integrity: ids are positive, strictly increasing in row order and
   * no larger than the counter, and every requirement references an existing project.
   */
  predicate WellFormed(t: Tables)
  {
    && (forall i :: 0 <= i < |t.projects| ==> 1 <= t.projects[i].id <= t.lastProjectId)
    && (forall i, j :: 0 <= i < j < |t.projects| ==> t.projects[i].id < t.projects[j].id)
    && (forall i :: 0 <= i < |t.requirements| ==> 1 <= t.requirements[i].id <= t.lastRequirementId)
    && (forall i, j :: 0 <= i < j < |t.requirements| ==> t.requirements[i].id < t.requirements[j].id)
    && (forall i :: 0 <= i < |t.requirements| ==> HasProject(t.projects, t.requirements[i].projectId))
  }

  /** `u` is `t` with rows appended and counters advanced: nothing already there changed. */
  predicate Extends(t: Tables, u: Tables)
  {
    && t.projects <= u.projects
    && t.requirements <= u.requirements
    && t.lastProjectId <= u.lastProjectId
    && t.lastRequirementId <= u.lastRequirementId
  }

  lemma HasProjectExtends(a: seq<ProjectRow>, b: seq<ProjectRow>, id: int)
    requires a <= b && HasProject(a, id)
    ensures HasProject(b, id)
  {
    var j :| 0 <= j < |a| && a[j].id == id;
    assert b[j] == a[j];
  }

  // ---------------------------------------------------------------------------
  // Parsed JSON records. A key that may be missing is an Option; a value the
  // record does not hold makes the loader's lookup fail.

  datatype DescriptionDoc = DescriptionDoc(short: Option<string>, full: Option<string>)

  datatype RewardsDoc = RewardsDoc(
    amount: Option<string>,
    approximateAmount: Option<string>,
    distributionDate: Option<string>)

  datatype SocialDoc = SocialDoc(twitter: Option<string>, telegram: Option<string>, discord: Option<string>)

  datatype LinksDoc = LinksDoc(website: Option<string>, social: Option<SocialDoc>)

  datatype RequirementDoc = RequirementDoc(task: Option<string>, difficulty: Option<string>, deadline: Option<string>)

  datatype ProjectDoc = ProjectDoc(
    projectName: Option<string>,
    description: Option<DescriptionDoc>,
    rewards: Option<RewardsDoc>,
    links: Option<LinksDoc>,
    status: Option<string>,
    lastUpdated: Option<string>,
    requirements: Option<seq<RequirementDoc>>)

  /** Every key the project row is built from is present in the record. */
  predicate HasProjectKeys(doc: ProjectDoc)
  {
    && doc.projectName.Some?
    && doc.description.Some? && doc.description.value.short.Some? && doc.description.value.full.Some?
    && doc.rewards.Some? && doc.rewards.value.amount.Some?
    && doc.rewards.value.approximateAmount.Some? && doc.rewards.value.distributionDate.Some?
    && doc.links.Some? && doc.links.value.website.Some?
    && doc.links.value.social.Some? && doc.links.value.social.value.twitter.Some?
    && doc.links.value.social.value.telegram.Some? && doc.links.value.social.value.discord.Some?
    && doc.status.Some?
    && doc.lastUpdated.Some?
  }

  /**
   * The parameter tuple of the project INSERT: present exactly when every key is,
   * each column taken from its nested key of the record.
   */
  function ExtractInfo(doc: ProjectDoc): (r: Option<ProjectInfo>)
    ensures r.Some? <==> HasProjectKeys(doc)
    ensures r.Some? ==>
      && r.value.projectName == doc.projectName.value
      && r.value.descriptionShort == doc.description.value.short.value
      && r.value.descriptionFull == doc.description.value.full.value
      && r.value.rewardsAmount == doc.rewards.value.amount.value
      && r.value.rewardsApproximateAmount == doc.rewards.value.approximateAmount.value
      && r.value.rewardsDistributionDate == doc.rewards.value.distributionDate.value
      && r.value.linksWebsite == doc.links.value.website.value
      && r.value.linksTwitter == doc.links.value.social.value.twitter.value
      && r.value.linksTelegram == doc.links.value.social.value.telegram.value
      && r.value.linksDiscord == doc.links.value.social.value.discord.value
      && r.value.status == doc.status.value
      && r.value.lastUpdated == doc.lastUpdated.value
  {
    if HasProjectKeys(doc) then
      Some(ProjectInfo(doc.projectName.value, doc.description.value.short.value, doc.description.value.full.value,
                       doc.rewards.value.amount.value, doc.rewards.value.approximateAmount.value,
                       doc.rewards.value.distributionDate.value, doc.links.value.website.value,
                       doc.links.value.social.value.twitter.value, doc.links.value.social.value.telegram.value,
                       doc.links.value.social.value.discord.value, doc.status.value, doc.lastUpdated.value))
    else None
  }

  /** The parameter tuple of one requirement INSERT: present exactly when all three keys are. */
  function ExtractRequirement(d: RequirementDoc): (r: Option<Requirement>)
    ensures r.Some? <==> d.task.Some? && d.difficulty.Some? && d.deadline.Some?
    ensures r.Some? ==> r.value == Requirement(d.task.value, d.difficulty.value, d.deadline.value)
  {
    if d.task.Some? && d.difficulty.Some? && d.deadline.Some? then
      Some(Requirement(d.task.value, d.difficulty.value, d.deadline.value))
    else None
  }

  predicate RequirementComplete(d: RequirementDoc)
  {
    ExtractRequirement(d).Some?
  }

  /** `project.get("requirements", [])`: an absent key reads as no requirements. */
  function RequirementDocs(doc: ProjectDoc): seq<RequirementDoc>
  {
    if doc.requirements.Some? then doc.requirements.value else []
  }

  /**
   * The requirements of `docs` up to the first incomplete one: those the loop
   * inserts before a missing key stops it.
   */
  function ParsedRequirements(docs: seq<RequirementDoc>): (r: seq<Requirement>)
    ensures |r| == LeadingCount(RequirementComplete, docs)
    ensures forall k :: 0 <= k < |r| ==> ExtractRequirement(docs[k]) == Some(r[k])
    decreases |docs|
  {
    if docs == [] then []
    else match ExtractRequirement(docs[0])
      case None => []
      case Some(req) => [req] + ParsedRequirements(docs[1..])
  }

  /** The record can be inserted completely: all project keys, and all keys of every requirement. */
  predicate Importable(doc: ProjectDoc)
  {
    ExtractInfo(doc).Some? && LeadingCount(RequirementComplete, RequirementDocs(doc)) == |RequirementDocs(doc)|
  }

  // ---------------------------------------------------------------------------
  // The effect of each INSERT statement, and of one call of insert_project.

  /** INSERT INTO projects: a row with the next AUTOINCREMENT id. */
  function AddProjectRow(t: Tables, info: ProjectInfo): Tables
  {
    t.(projects := t.projects + [ProjectRow(t.lastProjectId + 1, info)], lastProjectId := t.lastProjectId + 1)
  }

  /** INSERT INTO requirements: a row with the next AUTOINCREMENT id, owned by `projectId`. */
  function AddRequirementRow(t: Tables, projectId: int, req: Requirement): Tables
  {
    t.(requirements := t.requirements + [RequirementRow(t.lastRequirementId + 1, projectId, req)],
       lastRequirementId := t.lastRequirementId + 1)
  }

  /**
   * The loop over a record's requirements: one row per requirement, stopping at the
   * first one with a missing key. The flag says whether the loop ran to its end.
   */
  function AppendRequirements(t: Tables, projectId: int, docs: seq<RequirementDoc>): (Tables, bool)
    decreases |docs|
  {
    if docs == [] then (t, true)
    else match ExtractRequirement(docs[0])
      case None => (t, false)
      case Some(req) => AppendRequirements(AddRequirementRow(t, projectId, req), projectId, docs[1..])
  }

  /**
   * One call of insert_project on the tables its connection sees: the tables after
   * the statements that ran, and whether the call reached its commit.
   */
  function InsertAttempt(t: Tables, doc: ProjectDoc): (Tables, bool)
  {
    match ExtractInfo(doc)
    case None => (t, false)
    case Some(info) => AppendRequirements(AddProjectRow(t, info), t.lastProjectId + 1, RequirementDocs(doc))
  }

  lemma AddProjectRowWellFormed(t: Tables, info: ProjectInfo)
    requires WellFormed(t)
    ensures WellFormed(AddProjectRow(t, info))
    ensures HasProject(AddProjectRow(t, info).projects, t.lastProjectId + 1)
  {
    var u := AddProjectRow(t, info);
    assert u.projects[|t.projects|].id == t.lastProjectId + 1;
    forall i | 0 <= i < |u.requirements|
      ensures HasProject(u.projects, u.requirements[i].projectId)
    {
      HasProjectExtends(t.projects, u.projects, u.requirements[i].projectId);
    }
  }

  lemma AddRequirementRowWellFormed(t: Tables, projectId: int, req: Requirement)
    requires WellFormed(t) && HasProject(t.projects, projectId)
    ensures WellFormed(AddRequirementRow(t, projectId, req))
  {
  }

  /**
   * What the requirement loop does to the tables: the project table is untouched,
   * and exactly the leading complete requirements are appended in order, with
   * consecutive fresh ids, all owned by `projectId`.
   */
  lemma {:induction false} AppendRequirementsRows(t: Tables, projectId: int, docs: seq<RequirementDoc>)
    ensures var (u, done) := AppendRequirements(t, projectId, docs);
      var reqs := ParsedRequirements(docs);
      && u.projects == t.projects && u.lastProjectId == t.lastProjectId
      && (done <==> |reqs| == |docs|)
      && |u.requirements| == |t.requirements| + |reqs|
      && u.lastRequirementId == t.lastRequirementId + |reqs|
      && u.requirements[..|t.requirements|] == t.requirements
      && forall k :: 0 <= k < |reqs| ==>
           u.requirements[|t.requirements| + k] == RequirementRow(t.lastRequirementId + 1 + k, projectId, reqs[k])
    decreases |docs|
  {
    if docs != [] && ExtractRequirement(docs[0]).Some? {
      var req := ExtractRequirement(docs[0]).value;
      var t1 := AddRequirementRow(t, projectId, req);
      AppendRequirementsRows(t1, projectId, docs[1..]);
      var u := AppendRequirements(t, projectId, docs).0;
      var reqs := ParsedRequirements(docs);
      assert reqs == [req] + ParsedRequirements(docs[1..]);
      assert u.requirements[..|t1.requirements|] == t1.requirements;
      assert u.requirements[..|t.requirements|] == t1.requirements[..|t.requirements|];
      forall k | 0 <= k < |reqs|
        ensures u.requirements[|t.requirements| + k] == RequirementRow(t.lastRequirementId + 1 + k, projectId, reqs[k])
      {
        if k == 0 {
          assert u.requirements[|t.requirements|] == t1.requirements[|t.requirements|];
        } else {
          assert u.requirements[|t1.requirements| + (k - 1)] ==
                 RequirementRow(t1.lastRequirementId + 1 + (k - 1), projectId, ParsedRequirements(docs[1..])[k - 1]);
        }
      }
    } else if docs != [] {
      assert ParsedRequirements(docs) == [];
      assert !RequirementComplete(docs[0]);
    }
  }

  lemma {:induction false} AppendRequirementsWellFormed(t: Tables, projectId: int, docs: seq<RequirementDoc>)
    requires WellFormed(t) && HasProject(t.projects, projectId)
    ensures WellFormed(AppendRequirements(t, projectId, docs).0)
    decreases |docs|
  {
    if docs != [] && ExtractRequirement(docs[0]).Some? {
      var t1 := AddRequirementRow(t, projectId, ExtractRequirement(docs[0]).value);
      AddRequirementRowWellFormed(t, projectId, ExtractRequirement(docs[0]).value);
      AppendRequirementsWellFormed(t1, projectId, docs[1..]);
    }
  }

  /**
   * insert_project keeps the store's integrity whether or not it reaches its commit:
   * the project row is written before its requirements, so even the rows of a call
   * that stops half way reference an existing project. Nothing already stored changes.
   */
  lemma InsertAttemptWellFormed(t: Tables, doc: ProjectDoc)
    requires WellFormed(t)
    ensures WellFormed(InsertAttempt(t, doc).0)
    ensures Extends(t, InsertAttempt(t, doc).0)
  {
    match ExtractInfo(doc)
    case None =>
    case Some(info) =>
      var t1 := AddProjectRow(t, info);
      AddProjectRowWellFormed(t, info);
      AppendRequirementsWellFormed(t1, t.lastProjectId + 1, RequirementDocs(doc));
      AppendRequirementsRows(t1, t.lastProjectId + 1, RequirementDocs(doc));
  }

  /**
   * insert_project reaches its commit exactly when the record is complete. A record
   * missing a project key fails before any statement runs and writes nothing.
   */
  lemma InsertAttemptOutcome(t: Tables, doc: ProjectDoc)
    ensures InsertAttempt(t, doc).1 <==> Importable(doc)
    ensures !HasProjectKeys(doc) ==> InsertAttempt(t, doc) == (t, false)
  {
    match ExtractInfo(doc)
    case None =>
    case Some(info) =>
      AppendRequirementsRows(AddProjectRow(t, info), t.lastProjectId + 1, RequirementDocs(doc));
  }

  /**
   * A completed insert_project appends exactly one project row, holding the record's
   * fields under an id greater than every id already stored, and exactly one
   * requirement row per requirement of the record, in order, each owned by that id.
   */
  lemma InsertAttemptRows(t: Tables, doc: ProjectDoc)
    requires WellFormed(t) && Importable(doc)
    ensures forall i :: 0 <= i < |t.projects| ==> t.projects[i].id < t.lastProjectId + 1
    ensures InsertAttempt(t, doc).0.projects == t.projects + [ProjectRow(t.lastProjectId + 1, ExtractInfo(doc).value)]
    ensures InsertAttempt(t, doc).0.lastProjectId == t.lastProjectId + 1
    ensures |InsertAttempt(t, doc).0.requirements| == |t.requirements| + |RequirementDocs(doc)|
    ensures InsertAttempt(t, doc).0.requirements[..|t.requirements|] == t.requirements
    ensures forall j :: |t.requirements| <= j < |InsertAttempt(t, doc).0.requirements| ==>
              && InsertAttempt(t, doc).0.requirements[j].projectId == t.lastProjectId + 1
              && Some(InsertAttempt(t, doc).0.requirements[j].requirement)
                 == ExtractRequirement(RequirementDocs(doc)[j - |t.requirements|])
  {
    var info := ExtractInfo(doc).value;
    var t1 := AddProjectRow(t, info);
    var docs := RequirementDocs(doc);
    AppendRequirementsRows(t1, t.lastProjectId + 1, docs);
    var u := InsertAttempt(t, doc).0;
    assert u == AppendRequirements(t1, t.lastProjectId + 1, docs).0;
    var reqs := ParsedRequirements(docs);
    assert |reqs| == |docs|;
    assert u.projects == t.projects + [ProjectRow(t.lastProjectId + 1, info)];
    assert |u.requirements| == |t.requirements| + |docs|;
    assert u.requirements[..|t.requirements|] == t.requirements;
    forall j | |t.requirements| <= j < |u.requirements|
      ensures u.requirements[j].projectId == t.lastProjectId + 1
      ensures Some(u.requirements[j].requirement) == ExtractRequirement(docs[j - |t.requirements|])
    {
      var k := j - |t.requirements|;
      assert u.requirements[|t1.requirements| + k] ==
             RequirementRow(t1.lastRequirementId + 1 + k, t.lastProjectId + 1, reqs[k]);
    }
  }

  // ---------------------------------------------------------------------------
  // The loader.

  /** What reading the JSON file produced: a missing file, undecodable text, or the records. */
  datatype JsonSource = FileNotFound | Undecodable | Decoded(docs: seq<ProjectDoc>)

  /**
   * load_projects_from_json over decoded records: insert_project on each in document
   * order, committing after each complete one, and stopping after the first call that
   * fails. Gives the loader connection's tables and the committed tables.
   */
  function LoadFrom(live: Tables, committed: Tables, docs: seq<ProjectDoc>): (Tables, Tables)
    decreases |docs|
  {
    if docs == [] then (live, committed)
    else
      var (next, done) := InsertAttempt(live, docs[0]);
      if done then LoadFrom(next, next, docs[1..]) else (next, committed)
  }

  function RequirementTotal(docs: seq<ProjectDoc>): nat
    decreases |docs|
  {
    if docs == [] then 0 else |RequirementDocs(docs[0])| + RequirementTotal(docs[1..])
  }

  /** A requirement row's owning project id and its three columns. */
  function RowContent(r: RequirementRow): (int, Requirement)
  {
    (r.projectId, r.requirement)
  }

  /** Requirements, each paired with the id of the project that owns them. */
  function Tagged(projectId: int, reqs: seq<Requirement>): (rows: seq<(int, Requirement)>)
    ensures |rows| == |reqs|
    ensures forall k :: 0 <= k < |reqs| ==> rows[k] == (projectId, reqs[k])
  {
    Map((r: Requirement) => (projectId, r), reqs)
  }

  /**
   * The requirement rows a run of completed inserts writes, as owner and columns: the
   * requirements of each record in document order, owned by the ids handed out after
   * `lastId`, one id per record.
   */
  function LoadedRequirements(lastId: int, docs: seq<ProjectDoc>): seq<(int, Requirement)>
    decreases |docs|
  {
    if docs == [] then []
    else Tagged(lastId + 1, ParsedRequirements(RequirementDocs(docs[0]))) + LoadedRequirements(lastId + 1, docs[1..])
  }

  /**
   * Loading keeps the store's integrity in both views, the committed rows stay a
   * prefix of the loader's own, and when every record is complete nothing is left
   * uncommitted.
   */
  lemma {:induction false} LoadKeepsIntegrity(t: Tables, docs: seq<ProjectDoc>)
    requires WellFormed(t)
    ensures var (live, committed) := LoadFrom(t, t, docs);
      && WellFormed(live) && WellFormed(committed) && Extends(committed, live)
      && (LeadingCount(Importable, docs) == |docs| ==> live == committed)
    decreases |docs|
  {
    if docs != [] {
      var (t1, done) := InsertAttempt(t, docs[0]);
      InsertAttemptWellFormed(t, docs[0]);
      InsertAttemptOutcome(t, docs[0]);
      if done {
        LoadKeepsIntegrity(t1, docs[1..]);
      }
    }
  }

  /**
   * Loading into a store commits exactly the records before the first one that
   * cannot be inserted, in document order, after the rows already there: one project
   * row per such record, holding that record's fields.
   */
  lemma {:induction false} LoadCommitsLeadingRecords(t: Tables, docs: seq<ProjectDoc>)
    requires WellFormed(t)
    ensures var committed := LoadFrom(t, t, docs).1;
      var k := LeadingCount(Importable, docs);
      && |committed.projects| == |t.projects| + k
      && committed.projects[..|t.projects|] == t.projects
      && (forall i :: 0 <= i < k ==> Some(committed.projects[|t.projects| + i].info) == ExtractInfo(docs[i]))
    decreases |docs|
  {
    var k := LeadingCount(Importable, docs);
    if docs != [] {
      var (t1, done) := InsertAttempt(t, docs[0]);
      InsertAttemptOutcome(t, docs[0]);
      if done {
        InsertAttemptWellFormed(t, docs[0]);
        InsertAttemptRows(t, docs[0]);
        LoadCommitsLeadingRecords(t1, docs[1..]);
        var committed := LoadFrom(t, t, docs).1;
        assert committed == LoadFrom(t1, t1, docs[1..]).1;
        assert committed.projects[..|t1.projects|] == t1.projects;
        assert committed.projects[..|t.projects|] == t1.projects[..|t.projects|];
        forall i | 0 <= i < k
          ensures Some(committed.projects[|t.projects| + i].info) == ExtractInfo(docs[i])
        {
          if i == 0 {
            assert committed.projects[|t.projects|] == t1.projects[|t.projects|];
          } else {
            assert committed.projects[|t1.projects| + (i - 1)] == committed.projects[|t.projects| + i];
            assert docs[1..][i - 1] == docs[i];
          }
        }
      }
    }
  }

  /** The committed requirement table grows by the nested requirements of exactly those records. */
  lemma {:induction false} LoadCommitsTheirRequirements(t: Tables, docs: seq<ProjectDoc>)
    requires WellFormed(t)
    ensures var committed := LoadFrom(t, t, docs).1;
      |committed.requirements| == |t.requirements| + RequirementTotal(docs[..LeadingCount(Importable, docs)])
    decreases |docs|
  {
    var k := LeadingCount(Importable, docs);
    if docs == [] {
      assert docs[..0] == [];
    } else {
      var (t1, done) := InsertAttempt(t, docs[0]);
      InsertAttemptOutcome(t, docs[0]);
      if done {
        InsertAttemptWellFormed(t, docs[0]);
        InsertAttemptRows(t, docs[0]);
        LoadCommitsTheirRequirements(t1, docs[1..]);
        var k1 := LeadingCount(Importable, docs[1..]);
        assert docs[..k] == [docs[0]] + docs[1..][..k1];
        assert ([docs[0]] + docs[1..][..k1])[1..] == docs[1..][..k1];
      } else {
        assert docs[..0] == [];
      }
    }
  }

  /** The project rows a run of completed inserts writes: one per record, under the ids handed out after `lastId`. */
  function LoadedProjects(lastId: int, docs: seq<ProjectDoc>): seq<ProjectRow>
    decreases |docs|
  {
    if docs == [] then []
    else match ExtractInfo(docs[0])
      case None => []
      case Some(info) => [ProjectRow(lastId + 1, info)] + LoadedProjects(lastId + 1, docs[1..])
  }

  /** The records a load commits, seen from their first one. */
  lemma LeadingImportable(docs: seq<ProjectDoc>)
    requires docs != [] && Importable(docs[0])
    ensures var k := LeadingCount(Importable, docs);
      && docs[..k] != [] && docs[..k][0] == docs[0]
      && docs[..k][1..] == docs[1..][..LeadingCount(Importable, docs[1..])]
  {
  }

  /** A load whose first record is missing or incomplete commits nothing. */
  lemma LoadStops(t: Tables, docs: seq<ProjectDoc>)
    requires docs == [] || !Importable(docs[0])
    ensures LoadFrom(t, t, docs).1 == t
  {
    if docs != [] {
      InsertAttemptOutcome(t, docs[0]);
    }
  }

  /** A load that starts with a complete record is that record's insert, committed, then the load of the rest. */
  lemma LoadStep(t: Tables, docs: seq<ProjectDoc>)
    requires docs != [] && Importable(docs[0])
    ensures var t1 := InsertAttempt(t, docs[0]).0;
      && LoadFrom(t, t, docs).1 == LoadFrom(t1, t1, docs[1..]).1
      && t1.lastProjectId == t.lastProjectId + 1
      && t1.projects == t.projects + [ProjectRow(t.lastProjectId + 1, ExtractInfo(docs[0]).value)]
      && |t.requirements| <= |t1.requirements|
      && t1.requirements[..|t.requirements|] == t.requirements
  {
    InsertAttemptOutcome(t, docs[0]);
    AppendRequirementsRows(AddProjectRow(t, ExtractInfo(docs[0]).value), t.lastProjectId + 1, RequirementDocs(docs[0]));
  }

  /** The project rows of the records a load commits, seen from their first one. */
  lemma LoadedProjectsStep(lastId: int, docs: seq<ProjectDoc>)
    requires docs != [] && Importable(docs[0])
    ensures LoadedProjects(lastId, docs[..LeadingCount(Importable, docs)])
            == [ProjectRow(lastId + 1, ExtractInfo(docs[0]).value)]
               + LoadedProjects(lastId + 1, docs[1..][..LeadingCount(Importable, docs[1..])])
  {
    LeadingImportable(docs);
  }

  /**
   * The committed project table is the old one followed by one row per committed
   * record, in document order, under consecutive fresh ids.
   */
  lemma {:induction false} LoadCommitsProjectRows(t: Tables, docs: seq<ProjectDoc>)
    ensures LoadFrom(t, t, docs).1.projects
            == t.projects + LoadedProjects(t.lastProjectId, docs[..LeadingCount(Importable, docs)])
    decreases |docs|
  {
    var k := LeadingCount(Importable, docs);
    if docs == [] || !Importable(docs[0]) {
      LoadStops(t, docs);
      assert docs[..k] == [];
    } else {
      var t1 := InsertAttempt(t, docs[0]).0;
      var rest := docs[1..][..LeadingCount(Importable, docs[1..])];
      var row := ProjectRow(t.lastProjectId + 1, ExtractInfo(docs[0]).value);
      LoadStep(t, docs);
      LoadCommitsProjectRows(t1, docs[1..]);
      LoadedProjectsStep(t.lastProjectId, docs);
      assert (t.projects + [row]) + LoadedProjects(t1.lastProjectId, rest)
          == t.projects + ([row] + LoadedProjects(t1.lastProjectId, rest));
    }
  }

  /**
   * The committed requirement rows are the old ones followed by the requirements of
   * exactly those records, record after record and each in document order, every one
   * owned by the id its record's project row received.
   */
  lemma {:induction false} LoadCommitsRequirementRows(t: Tables, docs: seq<ProjectDoc>)
    ensures var committed := LoadFrom(t, t, docs).1;
      && |t.requirements| <= |committed.requirements|
      && committed.requirements[..|t.requirements|] == t.requirements
      && Map(RowContent, committed.requirements[|t.requirements|..])
         == LoadedRequirements(t.lastProjectId, docs[..LeadingCount(Importable, docs)])
    decreases |docs|
  {
    var k := LeadingCount(Importable, docs);
    if docs == [] || !Importable(docs[0]) {
      LoadStops(t, docs);
      assert docs[..k] == [];
    } else {
      var t1 := InsertAttempt(t, docs[0]).0;
      var rest := docs[1..][..LeadingCount(Importable, docs[1..])];
      LoadStep(t, docs);
      LoadCommitsRequirementRows(t1, docs[1..]);
      AddedRowsTagged(t, docs[0]);
      LoadedRequirementsStep(t.lastProjectId, docs);
      RowsAppended(t.requirements, t1.requirements, LoadFrom(t1, t1, docs[1..]).1.requirements,
                   Tagged(t.lastProjectId + 1, ParsedRequirements(RequirementDocs(docs[0]))),
                   LoadedRequirements(t1.lastProjectId, rest));
    }
  }

  /** The requirement rows of the records a load commits, seen from their first one. */
  lemma LoadedRequirementsStep(lastId: int, docs: seq<ProjectDoc>)
    requires docs != [] && Importable(docs[0])
    ensures LoadedRequirements(lastId, docs[..LeadingCount(Importable, docs)])
            == Tagged(lastId + 1, ParsedRequirements(RequirementDocs(docs[0])))
               + LoadedRequirements(lastId + 1, docs[1..][..LeadingCount(Importable, docs[1..])])
  {
    LeadingImportable(docs);
  }

  /** Rows appended in two steps are the rows of the first step followed by those of the second. */
  lemma RowsAppended(a: seq<RequirementRow>, b: seq<RequirementRow>, c: seq<RequirementRow>,
                     first: seq<(int, Requirement)>, second: seq<(int, Requirement)>)
    requires |a| <= |b| <= |c| && b[..|a|] == a && c[..|b|] == b
    requires Map(RowContent, b[|a|..]) == first && Map(RowContent, c[|b|..]) == second
    ensures |a| <= |c| && c[..|a|] == a
    ensures Map(RowContent, c[|a|..]) == first + second
  {
    PrefixChain(a, b, c);
    MapConcat(RowContent, b[|a|..], c[|b|..]);
  }

  /** The requirement rows a completed insert appends are the record's requirements, owned by the new id. */
  lemma AddedRowsTagged(t: Tables, doc: ProjectDoc)
    requires Importable(doc)
    ensures var u := InsertAttempt(t, doc).0;
      && |t.requirements| <= |u.requirements|
      && Map(RowContent, u.requirements[|t.requirements|..])
         == Tagged(t.lastProjectId + 1, ParsedRequirements(RequirementDocs(doc)))
  {
    var u := InsertAttempt(t, doc).0;
    var parsed := ParsedRequirements(RequirementDocs(doc));
    AppendRequirementsRows(AddProjectRow(t, ExtractInfo(doc).value), t.lastProjectId + 1, RequirementDocs(doc));
    var added := u.requirements[|t.requirements|..];
    forall j | 0 <= j < |added|
      ensures RowContent(added[j]) == (t.lastProjectId + 1, parsed[j])
    {
      assert added[j] == u.requirements[|t.requirements| + j];
    }
  }

  // ---------------------------------------------------------------------------

  /**
   * The loader's database connection. `live` is what its own statements see,
   * uncommitted rows included; `committed` is what the file holds, and what every
   * later connection reads. Committed rows are always a prefix of the live ones.
   */
  class ProjectDatabase {
    var live: Tables
    var committed: Tables

    ghost predicate Valid()
      reads this
    {
      WellFormed(live) && WellFormed(committed) && Extends(committed, live)
    }

    /** Opening a database file (created empty or holding rows this loader stored before). */
    constructor (existing: Tables)
      requires WellFormed(existing)
      ensures Valid()
      ensures live == existing && committed == existing
    {
      live := existing;
      committed := existing;
    }

    /**
     * insert_project: the project row, then one row per requirement in order, then a
     * commit. A missing project key writes nothing; a missing requirement key stops
     * the loop with the rows so far uncommitted.
     */
    method InsertProject(doc: ProjectDoc) returns (completed: bool)
      requires Valid()
      modifies this
      ensures Valid()
      ensures (live, completed) == InsertAttempt(old(live), doc)
      ensures committed == if completed then live else old(committed)
    {
      var parsed := ExtractInfo(doc);
      if parsed.None? {
        return false;
      }
      var info := parsed.value;
      var projectId := live.lastProjectId + 1;
      AddProjectRowWellFormed(live, info);
      live := AddProjectRow(live, info);
      var docs := RequirementDocs(doc);
      var i := 0;
      while i < |docs|
        invariant 0 <= i <= |docs|
        invariant AppendRequirements(live, projectId, docs[i..]) == InsertAttempt(old(live), doc)
        invariant WellFormed(live) && HasProject(live.projects, projectId)
        invariant Extends(old(live), live)
        invariant committed == old(committed)
      {
        var req := ExtractRequirement(docs[i]);
        if req.None? {
          return false;
        }
        assert docs[i..][1..] == docs[i + 1..];
        AddRequirementRowWellFormed(live, projectId, req.value);
        live := AddRequirementRow(live, projectId, req.value);
        i := i + 1;
      }
      committed := live;
      completed := true;
    }

    /**
     * load_projects_from_json: a missing or undecodable file changes nothing; otherwise
     * each record in document order goes through insert_project until one fails.
     */
    method LoadProjects(source: JsonSource)
      requires Valid()
      modifies this
      ensures Valid()
      ensures source.Decoded? ==> (live, committed) == LoadFrom(old(live), old(committed), source.docs)
      ensures !source.Decoded? ==> live == old(live) && committed == old(committed)
    {
      if !source.Decoded? {
        return;
      }
      var docs := source.docs;
      var i := 0;
      while i < |docs|
        invariant 0 <= i <= |docs|
        invariant Valid()
        invariant LoadFrom(live, committed, docs[i..]) == LoadFrom(old(live), old(committed), docs)
      {
        assert docs[i..][1..] == docs[i + 1..];
        var done := InsertProject(docs[i]);
        if !done {
          return;
        }
        i := i + 1;
      }
    }

    /** close(): the connection ends without a commit, so uncommitted rows are discarded. */
    method Close()
      requires Valid()
      modifies this
      ensures Valid()
      ensures live == old(committed) && committed == old(committed)
    {
      live := committed;
    }
  }
}
