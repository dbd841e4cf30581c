/**
 The projects and the milestones together, tied by the mandatory owner link
 of a milestone (milestones.project_id, a foreign key to projects) and by the
 `milestones` relationship of a project, which cascades ("all, delete-orphan")
 so that deleting projects deletes the milestones they own.
 */
module Repository {
  import opened Common
  import opened ProjectModel
  import opened ProjectStore
  import opened MilestoneModel
  import opened MilestoneTable

  datatype Db = Db(projects: Store, milestones: Table)

  /** Every milestone row is owned by a live project. */
  ghost predicate OwnersLive(db: Db) {
    forall m :: m in db.milestones.rows ==> m.projectId in db.projects.live
  }

  ghost predicate DbValid(db: Db) {
    && ProjectStore.Valid(db.projects)
    && MilestoneTable.Valid(db.milestones)
    && OwnersLive(db)
  }

  lemma EmptyDbValid()
    ensures DbValid(Db(ProjectStore.Empty(), MilestoneTable.Empty()))
  {
    ProjectStore.EmptyValid();
    MilestoneTable.EmptyValid();
  }

  /** add_milestone against the live projects: the owner must be a live project. */
  function AddMilestoneTo(db: Db, title: string, parentId: Option<nat>, description: string,
                          initial: Option<Date>, latest: Option<Date>, acceptance: Option<string>,
                          project: Option<nat>, elapsed: nat): (r: Result<(Db, Milestone)>)
    ensures var a := AddMilestone(db.milestones, db.projects.live.Keys, title, parentId, description,
                                  initial, latest, acceptance, project, elapsed);
            && (r.Ok? <==> a.Ok?)
            && (r.Err? ==> r.error == a.error)
            && (r.Ok? ==> (r.value.0.milestones, r.value.1) == a.value)
    ensures r.Ok? ==> r.value.1.projectId in db.projects.live
    ensures r.Ok? ==> r.value.0.projects == db.projects
    ensures parentId.None? && project.Some? && project.value !in db.projects.live ==> r.Err?
  {
    var (t', m) :- AddMilestone(db.milestones, db.projects.live.Keys, title, parentId, description,
                                initial, latest, acceptance, project, elapsed);
    Ok((db.(milestones := t'), m))
  }

  /**
   delete_project with the cascade to milestones: the project and its subtree
   leave the projects table, and every milestone row owned by one of them
   leaves the milestones table. Returns the removed projects and milestones.
   */
  function DeleteProjectFrom(db: Db, id: nat): (r: Result<(Db, map<nat, Project>, seq<Milestone>)>)
    ensures r.Err? <==> id !in db.projects.live
    ensures r.Err? ==> r.error == NotFound
    ensures r.Ok? ==>
              var (db', gone, goneMilestones) := r.value;
              && DeleteProject(db.projects, id) == Ok((db'.projects, gone))
              && (forall m :: m in goneMilestones <==> m in db.milestones.rows && m.projectId in gone)
              && (forall m :: m in db'.milestones.rows <==> m in db.milestones.rows && m.projectId !in gone)
              && (forall m: Milestone :: m.projectId in gone ==> multiset(goneMilestones)[m] == multiset(db.milestones.rows)[m])
              && (forall m: Milestone :: m.projectId !in gone ==> multiset(db'.milestones.rows)[m] == multiset(db.milestones.rows)[m])
              && db'.milestones.clock == db.milestones.clock && db'.milestones.nextId == db.milestones.nextId
  {
    var (s', gone) :- DeleteProject(db.projects, id);
    var kept := SelectOwners(db.milestones.rows, gone.Keys, false);
    var removed := SelectOwners(db.milestones.rows, gone.Keys, true);
    SelectOwnersCounts(db.milestones.rows, gone.Keys, false);
    SelectOwnersCounts(db.milestones.rows, gone.Keys, true);
    Ok((Db(s', db.milestones.(rows := kept)), gone, removed))
  }

  /** The milestone rows whose owner is in `owners` (when `inside`) or not (otherwise), in table order. */
  function SelectOwners(rows: seq<Milestone>, owners: set<nat>, inside: bool): (r: seq<Milestone>)
    ensures forall m :: m in r <==> m in rows && (m.projectId in owners <==> inside)
    decreases |rows|
  {
    if rows == [] then []
    else
      var last := rows[|rows| - 1];
      SelectOwners(rows[..|rows| - 1], owners, inside) + (if (last.projectId in owners) == inside then [last] else [])
  }

  /** Selection by owner keeps every selected row as often as the table holds it. */
  lemma {:induction false} SelectOwnersCounts(rows: seq<Milestone>, owners: set<nat>, inside: bool)
    ensures forall m: Milestone :: (m.projectId in owners <==> inside) ==>
              multiset(SelectOwners(rows, owners, inside))[m] == multiset(rows)[m]
    decreases |rows|
  {
    if rows != [] {
      var init, last := rows[..|rows| - 1], rows[|rows| - 1];
      assert rows == init + [last];
      SelectOwnersCounts(init, owners, inside);
    }
  }

  /** When all rows of an id share their project, selecting by owner is selecting by id. */
  lemma SelectOwnersIsSelect(rows: seq<Milestone>, owners: set<nat>, ids: set<nat>, inside: bool)
    requires forall m :: m in rows ==> (m.projectId in owners <==> m.id in ids)
    ensures SelectOwners(rows, owners, inside) == Select(rows, ids, inside)
    decreases |rows|
  {
    if rows != [] {
      SelectOwnersIsSelect(rows[..|rows| - 1], owners, ids, inside);
    }
  }

  /** Adding a milestone keeps the repository invariant. */
  lemma AddMilestoneKeepsDbValid(db: Db, title: string, parentId: Option<nat>, description: string,
                                 initial: Option<Date>, latest: Option<Date>, acceptance: Option<string>,
                                 project: Option<nat>, elapsed: nat)
    requires DbValid(db)
    requires !TitleTaken(db.milestones.rows, title)
    requires Owner(db.milestones.rows, parentId, project).Some?
    requires Owner(db.milestones.rows, parentId, project).value in db.projects.live
    ensures AddMilestoneTo(db, title, parentId, description, initial, latest, acceptance, project, elapsed).Ok?
    ensures DbValid(AddMilestoneTo(db, title, parentId, description, initial, latest, acceptance, project, elapsed).value.0)
  {
    MilestoneTable.AddKeepsValid(db.milestones, db.projects.live.Keys, title, parentId, description,
                                 initial, latest, acceptance, project, elapsed);
  }

  /**
   Removing every milestone row owned by one of `owners` keeps the milestone
   invariant: a child shares its parent's project, so no kept child loses its
   parent.
   */
  lemma PruneOwnersKeepsValid(t: Table, owners: set<nat>)
    requires MilestoneTable.Valid(t)
    ensures MilestoneTable.Valid(t.(rows := SelectOwners(t.rows, owners, false)))
  {
    var rows := t.rows;
    var ids := set m | m in rows && m.projectId in owners :: m.id;
    forall m | m in rows
      ensures m.projectId in owners <==> m.id in ids
    {
      if m.id in ids {
        var b :| b in rows && b.projectId in owners && b.id == m.id;
        assert ShapeOf(m) in Shapes(rows) && ShapeOf(b) in Shapes(rows);
      }
    }
    SelectOwnersIsSelect(rows, owners, ids, false);
    SelectKeepsRows(rows, ids, false, t.clock, t.nextId);
    ShapesSelect(rows, ids);
    forall a | a in Shapes(rows) && a.2.Some? && a.2.value in ids
      ensures a.0 in ids
    {
      var m :| m in rows && ShapeOf(m) == a;
      var b :| b in rows && b.projectId in owners && b.id == a.2.value;
      assert ShapeOf(b) in Shapes(rows);
    }
    LinkedPrune(Shapes(rows), ids);
  }

  /**
   Deleting a project keeps the repository invariant: no milestone is left
   owned by a removed project, and the milestone tree stays consistent.
   */
  lemma DeleteProjectKeepsDbValid(db: Db, id: nat)
    requires DbValid(db)
    requires DeleteProjectFrom(db, id).Ok?
    ensures DbValid(DeleteProjectFrom(db, id).value.0)
  {
    var (db', gone, goneMilestones) := DeleteProjectFrom(db, id).value;
    ProjectStore.DeleteKeepsValid(db.projects, id);
    PruneOwnersKeepsValid(db.milestones, gone.Keys);
    assert db'.milestones == db.milestones.(rows := SelectOwners(db.milestones.rows, gone.Keys, false));
  }

  /** Updating a project leaves the milestones and the set of live projects as they were. */
  lemma UpdateProjectKeepsDbValid(db: Db, id: nat, f: Fields, elapsed: nat)
    requires DbValid(db)
    requires UpdateProject(db.projects, id, f, elapsed).Ok?
    ensures DbValid(db.(projects := UpdateProject(db.projects, id, f, elapsed).value.0))
  {
    ProjectStore.UpdateKeepsValid(db.projects, id, f, elapsed);
  }

  /** Adding a project only adds a live project. */
  lemma AddProjectKeepsDbValid(db: Db, d: Draft, elapsed: nat)
    requires DbValid(db)
    requires AddProject(db.projects, d, elapsed).Ok?
    ensures DbValid(db.(projects := AddProject(db.projects, d, elapsed).value.0))
  {
    ProjectStore.AddKeepsValid(db.projects, d, elapsed);
  }

  /** Soft-deleting milestones leaves every row, and so every owner, in place. */
  lemma DeleteMilestoneKeepsDbValid(db: Db, id: nat)
    requires DbValid(db)
    requires HasId(db.milestones.rows, id)
    ensures DbValid(db.(milestones := DeleteMilestone(db.milestones, id).value.0))
  {
    MilestoneTable.DeleteKeepsValid(db.milestones, id);
    DeleteIsFlag(db.milestones, id);
    FlagKeepsOwners(db.milestones.rows, id, db.projects.live.Keys);
  }

  /** Editing a milestone keeps its project, so every owner stays live. */
  lemma UpdateMilestoneKeepsDbValid(db: Db, id: nat, newTitle: Option<string>, description: Option<string>,
                                    initial: Option<Date>, latest: Option<Date>, acceptance: Option<string>)
    requires DbValid(db)
    ensures var r := UpdateMilestone(db.milestones, id, newTitle, description, initial, latest, acceptance);
            r.Ok? ==> DbValid(db.(milestones := r.value.0))
  {
    var r := UpdateMilestone(db.milestones, id, newTitle, description, initial, latest, acceptance);
    if r.Ok? {
      MilestoneTable.UpdateKeepsValid(db.milestones, id, newTitle, description, initial, latest, acceptance);
      var (t', m) := r.value;
      var k := Latest(db.milestones.rows, id, false).value;
      assert db.milestones.rows[k] in db.milestones.rows;
      forall x | x in t'.rows
        ensures x.projectId in db.projects.live
      {
        var i :| 0 <= i < |t'.rows| && t'.rows[i] == x;
        if i != k {
          assert db.milestones.rows[i] in db.milestones.rows;
        }
      }
    }
  }

  /** The cascading milestone delete only removes rows, so every remaining owner stays live. */
  lemma DeleteMilestoneTreeKeepsDbValid(db: Db, id: nat)
    requires DbValid(db)
    requires HasId(db.milestones.rows, id)
    ensures DbValid(db.(milestones := DeleteMilestoneTree(db.milestones, id).value.0))
  {
    MilestoneTable.DeleteTreeKeepsValid(db.milestones, id, id);
  }

  /** Flagging changes no owner. */
  lemma FlagKeepsOwners(rows: seq<Milestone>, id: nat, owners: set<nat>)
    requires forall m :: m in rows ==> m.projectId in owners
    ensures forall m :: m in Flag(rows, id) ==> m.projectId in owners
  {
    forall m | m in Flag(rows, id)
      ensures m.projectId in owners
    {
      var i :| 0 <= i < |rows| && Flag(rows, id)[i] == m;
      assert rows[i] in rows;
    }
  }
}
