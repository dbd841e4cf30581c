/**
 The milestone controller (plog/controllers/milestone_controller.py) over the
 milestones table, kept as a sequence of rows in table order. Several rows may
 carry the same `id` with different `version`s; the controller picks among
 them by version, and soft-deletes by flagging rows.

 Every operation is a pure transition returning `Result`; an `Err` means the
 caller keeps the old table, as the session does when nothing is committed.
 */
module MilestoneTable {
  import opened Common
  import opened MilestoneModel
  import opened Hierarchy

  datatype Table = Table(rows: seq<Milestone>, clock: nat, nextId: nat)

  /** The empty table. */
  function Empty(): (t: Table)
    ensures t.rows == []
  {
    Table([], 0, 1)
  }

  // ---------------------------------------------------------------------------
  // Row selection
  // ---------------------------------------------------------------------------

  /** Row `m` is a candidate for `id`: it has that id and, when `liveOnly`, is not deleted. */
  predicate Selectable(m: Milestone, id: nat, liveOnly: bool) {
    m.id == id && (liveOnly ==> !m.deleted)
  }

  /**
   The row an `order_by(version.desc()).first()` query over the first `n` rows
   yields: a candidate of highest version; `None` when there is no candidate.
   SQL leaves the order of equal versions undefined; the model breaks such ties
   by position, taking the earliest row. Under `AllCompatible` no two candidates
   share a version, so no tie arises (`LatestIsTheMaximum`).
   */
  function LatestIn(rows: seq<Milestone>, id: nat, liveOnly: bool, n: nat): (r: Option<nat>)
    requires n <= |rows|
    ensures r.None? <==> forall j :: 0 <= j < n ==> !Selectable(rows[j], id, liveOnly)
    ensures r.Some? ==> r.value < n && Selectable(rows[r.value], id, liveOnly)
    ensures r.Some? ==> forall j :: 0 <= j < n && Selectable(rows[j], id, liveOnly) ==>
              rows[j].version <= rows[r.value].version
    ensures r.Some? ==> forall j :: 0 <= j < r.value && Selectable(rows[j], id, liveOnly) ==>
              rows[j].version < rows[r.value].version
    decreases n
  {
    if n == 0 then None
    else
      var prev := LatestIn(rows, id, liveOnly, n - 1);
      if Selectable(rows[n - 1], id, liveOnly) && (prev.None? || rows[prev.value].version < rows[n - 1].version)
      then Some(n - 1)
      else prev
  }

  /** The highest-version candidate row of the whole table. */
  function Latest(rows: seq<Milestone>, id: nat, liveOnly: bool): (r: Option<nat>)
    ensures r.None? <==> forall j :: 0 <= j < |rows| ==> !Selectable(rows[j], id, liveOnly)
    ensures r.Some? ==> r.value < |rows| && Selectable(rows[r.value], id, liveOnly)
    ensures r.Some? ==> forall j :: 0 <= j < |rows| && Selectable(rows[j], id, liveOnly) ==>
              rows[j].version <= rows[r.value].version
  {
    LatestIn(rows, id, liveOnly, |rows|)
  }

  /** Some row carries `id`. */
  predicate HasId(rows: seq<Milestone>, id: nat) {
    exists m :: m in rows && m.id == id
  }

  /** Some row, deleted or not, already has `title` (the unfiltered `filter_by(title=...)` query). */
  predicate TitleTaken(rows: seq<Milestone>, title: string) {
    exists m :: m in rows && m.title == title
  }

  // ---------------------------------------------------------------------------
  // The invariant of the table
  // ---------------------------------------------------------------------------

  /** Two different rows: never the same `(id, version)`, never the same title. */
  predicate Compatible(a: Milestone, b: Milestone) {
    (a.id == b.id ==> a.version != b.version) && a.title != b.title
  }

  ghost predicate AllCompatible(rows: seq<Milestone>) {
    forall i, j :: 0 <= i < j < |rows| ==> Compatible(rows[i], rows[j])
  }

  /**
   Under unique titles a taken title names exactly one row, so the
   `filter_by(title=...).first()` of an update finds the one clashing row.
   */
  lemma TitleNamesOneRow(rows: seq<Milestone>, title: string)
    requires AllCompatible(rows)
    ensures TitleTaken(rows, title) <==>
              exists i :: 0 <= i < |rows| && rows[i].title == title
                && forall j :: 0 <= j < |rows| && rows[j].title == title ==> j == i
  {
    if TitleTaken(rows, title) {
      var m :| m in rows && m.title == title;
      var i :| 0 <= i < |rows| && rows[i] == m;
      assert forall j :: 0 <= j < |rows| && rows[j].title == title ==> j == i;
    }
  }

  /** Ids below the allocator, versions from 1, ordered timestamps. */
  ghost predicate Stamped(rows: seq<Milestone>, clock: nat, nextId: nat) {
    forall i :: 0 <= i < |rows| ==>
      rows[i].id < nextId && 1 <= rows[i].version && rows[i].created <= rows[i].lastModified <= clock
  }

  /** What the foreign keys of a row are about: its id, its project and its parent. */
  type Shape = (nat, nat, Option<nat>)

  function ShapeOf(m: Milestone): Shape {
    (m.id, m.projectId, m.parentId)
  }

  function Shapes(rows: seq<Milestone>): set<Shape> {
    set m | m in rows :: ShapeOf(m)
  }

  /**
   Parent links lead to existing milestones (the foreign key on `parent_id`),
   all rows of one id belong to one project, and a child belongs to its
   parent's project.
   */
  ghost predicate Linked(sh: set<Shape>) {
    && (forall a :: a in sh && a.2.Some? ==> exists b :: b in sh && b.0 == a.2.value)
    && (forall a, b :: a in sh && b in sh && a.0 == b.0 ==> a.1 == b.1)
    && (forall a, b :: a in sh && b in sh && a.2 == Some(b.0) ==> a.1 == b.1)
  }

  ghost predicate Valid(t: Table) {
    && Stamped(t.rows, t.clock, t.nextId)
    && AllCompatible(t.rows)
    && Linked(Shapes(t.rows))
  }

  lemma EmptyValid()
    ensures Valid(Empty())
  {
  }

  /** With `(id, version)` unique, the highest-version candidate is the only candidate of its version. */
  lemma LatestIsTheMaximum(rows: seq<Milestone>, id: nat, liveOnly: bool, m: Milestone)
    requires AllCompatible(rows)
    requires m in rows && Selectable(m, id, liveOnly)
    requires forall x :: x in rows && Selectable(x, id, liveOnly) ==> x.version <= m.version
    ensures Latest(rows, id, liveOnly).Some? && rows[Latest(rows, id, liveOnly).value] == m
  {
    var j :| 0 <= j < |rows| && rows[j] == m;
    var k := Latest(rows, id, liveOnly).value;
    assert rows[k] in rows;
    assert !Compatible(rows[j], rows[k]) || j == k;
  }

  // ---------------------------------------------------------------------------
  // Reads
  // ---------------------------------------------------------------------------

  /**
   get_milestone: the highest-version row of `id` among the rows not flagged
   deleted; not-found when there is none.
   */
  function GetMilestone(t: Table, id: nat): (r: Result<Milestone>)
    ensures r.Ok? <==> exists m :: m in t.rows && m.id == id && !m.deleted
    ensures r.Err? ==> r.error == NotFound
    ensures r.Ok? ==> r.value in t.rows && r.value.id == id && !r.value.deleted
    ensures r.Ok? ==> forall m :: m in t.rows && m.id == id && !m.deleted ==> m.version <= r.value.version
  {
    match Latest(t.rows, id, true)
    case None => Err(NotFound)
    case Some(k) => Ok(t.rows[k])
  }

  /** get_milestones: every row of the table, deleted ones included. */
  function GetMilestones(t: Table): (r: seq<Milestone>)
    ensures multiset(r) == multiset(t.rows)
  {
    t.rows
  }

  // ---------------------------------------------------------------------------
  // Writes
  // ---------------------------------------------------------------------------

  /**
   The owning project of a new milestone: a parent's project wins over the one
   supplied; without a parent, the supplied project. `None` when the parent
   does not exist or no project is given.
   */
  function Owner(rows: seq<Milestone>, parentId: Option<nat>, project: Option<nat>): (r: Option<nat>)
    ensures parentId.None? ==> r == project
    ensures parentId.Some? ==> (r.Some? <==> HasId(rows, parentId.value))
    ensures parentId.Some? && r.Some? ==> exists m :: m in rows && m.id == parentId.value && m.projectId == r.value
  {
    match parentId
    case None => project
    case Some(p) =>
      match Latest(rows, p, false)
      case None => None
      case Some(k) => Some(rows[k].projectId)
  }

  /**
   add_milestone: refused when any row already has the title; then the parent
   must exist and the milestone must end up owned by an existing project. The
   new row gets a fresh id, `version` 1 and both timestamps set to now.
   */
  function AddMilestone(t: Table, projects: set<nat>, title: string, parentId: Option<nat>, description: string,
                        initial: Option<Date>, latest: Option<Date>, acceptance: Option<string>,
                        project: Option<nat>, elapsed: nat): (r: Result<(Table, Milestone)>)
    ensures TitleTaken(t.rows, title) ==> r == Err(DuplicateTitle)
    ensures !TitleTaken(t.rows, title) && parentId.Some? && !HasId(t.rows, parentId.value) ==> r == Err(ParentNotFound)
    ensures !TitleTaken(t.rows, title) && parentId.None? && project.None? ==> r == Err(MissingOwner)
    ensures (!TitleTaken(t.rows, title) && Owner(t.rows, parentId, project).Some?
             && Owner(t.rows, parentId, project).value !in projects) ==> r == Err(ProjectNotFound)
    ensures r.Ok? <==>
              !TitleTaken(t.rows, title) && Owner(t.rows, parentId, project).Some?
              && Owner(t.rows, parentId, project).value in projects
    ensures r.Ok? ==>
              var (t', m) := r.value;
              && t'.rows == t.rows + [m]
              && m.id == t.nextId && t'.nextId == t.nextId + 1
              && m.title == title && m.description == description
              && m.initialBaselineDate == initial && m.latestBaselineDate == latest
              && m.acceptanceCriteria == (if acceptance.Some? then acceptance.value else "")
              && m.parentId == parentId
              && m.projectId == Owner(t.rows, parentId, project).value
              && (parentId.None? ==> Some(m.projectId) == project)
              && m.version == 1 && !m.deleted
              && m.created == m.lastModified == t'.clock >= t.clock
  {
    if TitleTaken(t.rows, title) then Err(DuplicateTitle)
    else
      match Owner(t.rows, parentId, project)
      case None => if parentId.Some? then Err(ParentNotFound) else Err(MissingOwner)
      case Some(owner) =>
        if owner !in projects then Err(ProjectNotFound)
        else
          var now := t.clock + elapsed;
          var m := NewMilestone(t.nextId, title, description, initial, latest, acceptance, owner, parentId, now);
          Ok((Table(t.rows + [m], now, t.nextId + 1), m))
  }

  /** `if new_title and new_title != milestone.title`: a rename happens only for a non-empty, different title. */
  predicate Renames(current: Milestone, newTitle: Option<string>) {
    newTitle.Some? && newTitle.value != "" && newTitle.value != current.title
  }

  /**
   update_milestone: the highest-version row of `id`, deleted or not, is
   edited in place. A rename to a title some row already has is refused; every
   other argument overwrites its attribute only when given, and the row's
   `version` goes up by one. `last_modified` is left as it was.
   */
  function UpdateMilestone(t: Table, id: nat, newTitle: Option<string>, description: Option<string>,
                           initial: Option<Date>, latest: Option<Date>, acceptance: Option<string>)
    : (r: Result<(Table, Milestone)>)
    ensures (r.Err? && r.error == NotFound) <==> !HasId(t.rows, id)
    ensures r.Ok? <==>
              HasId(t.rows, id)
              && !(Renames(t.rows[Latest(t.rows, id, false).value], newTitle) && TitleTaken(t.rows, newTitle.value))
    ensures r.Err? && r.error != NotFound ==> r.error == DuplicateTitle
    ensures r.Ok? ==>
              var (t', m) := r.value;
              var k := Latest(t.rows, id, false).value;
              var old_ := t.rows[k];
              && t'.rows == t.rows[k := m]
              && t'.clock == t.clock && t'.nextId == t.nextId
              && m.id == id
              && m.version == old_.version + 1
              && (forall x :: x in t.rows && x.id == id ==> x.version < m.version)
              && m.title == (if Renames(old_, newTitle) then newTitle.value else old_.title)
              && (description.Some? ==> m.description == description.value)
              && (description.None? ==> m.description == old_.description)
              && (initial.Some? ==> m.initialBaselineDate == initial)
              && (initial.None? ==> m.initialBaselineDate == old_.initialBaselineDate)
              && (latest.Some? ==> m.latestBaselineDate == latest)
              && (latest.None? ==> m.latestBaselineDate == old_.latestBaselineDate)
              && (acceptance.Some? ==> m.acceptanceCriteria == acceptance.value)
              && (acceptance.None? ==> m.acceptanceCriteria == old_.acceptanceCriteria)
              && m.deleted == old_.deleted && m.projectId == old_.projectId && m.parentId == old_.parentId
              && m.created == old_.created && m.lastModified == old_.lastModified
  {
    match Latest(t.rows, id, false)
    case None => Err(NotFound)
    case Some(k) =>
      var old_ := t.rows[k];
      if Renames(old_, newTitle) && TitleTaken(t.rows, newTitle.value) then Err(DuplicateTitle)
      else
        var m := old_.(
          title := if Renames(old_, newTitle) then newTitle.value else old_.title,
          description := description.GetOr(old_.description),
          initialBaselineDate := if initial.Some? then initial else old_.initialBaselineDate,
          latestBaselineDate := if latest.Some? then latest else old_.latestBaselineDate,
          acceptanceCriteria := acceptance.GetOr(old_.acceptanceCriteria),
          version := old_.version + 1);
        Ok((t.(rows := t.rows[k := m]), m))
  }

  /** The rows with `deleted` set on every row of `id`. */
  function Flag(rows: seq<Milestone>, id: nat): (r: seq<Milestone>)
    ensures |r| == |rows|
    ensures forall i :: 0 <= i < |rows| && rows[i].id == id ==> r[i] == rows[i].(deleted := true)
    ensures forall i :: 0 <= i < |rows| && rows[i].id != id ==> r[i] == rows[i]
  {
    seq(|rows|, i requires 0 <= i < |rows| => if rows[i].id == id then rows[i].(deleted := true) else rows[i])
  }

  /** The rows whose id is in `ids` (when `inside`) or not in `ids` (otherwise), in table order. */
  function Select(rows: seq<Milestone>, ids: set<nat>, inside: bool): (r: seq<Milestone>)
    ensures forall m :: m in r <==> m in rows && (m.id in ids <==> inside)
    ensures |r| <= |rows|
    decreases |rows|
  {
    if rows == [] then []
    else
      var last := rows[|rows| - 1];
      Select(rows[..|rows| - 1], ids, inside) + (if (last.id in ids) == inside then [last] else [])
  }

  /** Selection keeps every selected row as often as the table holds it. */
  lemma {:induction false} SelectCounts(rows: seq<Milestone>, ids: set<nat>, inside: bool)
    ensures forall m: Milestone :: (m.id in ids <==> inside) ==> multiset(Select(rows, ids, inside))[m] == multiset(rows)[m]
    decreases |rows|
  {
    if rows != [] {
      var init, last := rows[..|rows| - 1], rows[|rows| - 1];
      assert rows == init + [last];
      SelectCounts(init, ids, inside);
    }
  }

  /**
   delete_milestone: flags every row of `id` as deleted, whatever its version
   and whether or not it was flagged before, and returns those rows;
   not-found when no row has the id.
   */
  function DeleteMilestone(t: Table, id: nat): (r: Result<(Table, seq<Milestone>)>)
    ensures r.Err? <==> !HasId(t.rows, id)
    ensures r.Err? ==> r.error == NotFound
    ensures r.Ok? ==>
              var (t', flagged) := r.value;
              && |t'.rows| == |t.rows|
              && (forall i :: 0 <= i < |t.rows| && t.rows[i].id == id ==> t'.rows[i] == t.rows[i].(deleted := true))
              && (forall i :: 0 <= i < |t.rows| && t.rows[i].id != id ==> t'.rows[i] == t.rows[i])
              && (forall m :: m in flagged <==> m in t'.rows && m.id == id)
              && (forall m: Milestone :: m.id == id ==> multiset(flagged)[m] == multiset(t'.rows)[m])
              && t'.clock == t.clock && t'.nextId == t.nextId
  {
    if !HasId(t.rows, id) then Err(NotFound)
    else
      var rows' := Flag(t.rows, id);
      SelectCounts(rows', {id}, true);
      Ok((t.(rows := rows'), Select(rows', {id}, true)))
  }

  /** The parent links of the milestone rows, as `(child, parent)` pairs. */
  function MilestoneLinks(rows: seq<Milestone>): (links: set<Link>)
    ensures forall m :: m in rows && m.parentId.Some? ==> (m.id, m.parentId.value) in links
    ensures forall l :: l in links ==> exists m :: m in rows && m.id == l.0 && m.parentId == Some(l.1)
  {
    set m | m in rows && m.parentId.Some? :: (m.id, m.parentId.value)
  }

  /**
   Deleting a milestone through the session, assuming the `children` backref
   ("all, delete-orphan") reaches the whole subtree: the milestone and every
   descendant leave the table, and exactly those rows are what is removed.
   With `passive_deletes=True` and no ON DELETE rule on `parent_id`, the ORM
   cascades only to children already loaded in the session; the full cascade
   is what the milestone tests expect.
   */
  function DeleteMilestoneTree(t: Table, id: nat): (r: Result<(Table, seq<Milestone>)>)
    ensures r.Err? <==> !HasId(t.rows, id)
    ensures r.Err? ==> r.error == NotFound
    ensures r.Ok? ==>
              var (t', gone) := r.value;
              && (forall m :: m in gone <==> m in t.rows && Descends(MilestoneLinks(t.rows), m.id, id))
              && (forall m :: m in t'.rows <==> m in t.rows && !Descends(MilestoneLinks(t.rows), m.id, id))
              && t'.clock == t.clock && t'.nextId == t.nextId
  {
    if !HasId(t.rows, id) then Err(NotFound)
    else
      var links := MilestoneLinks(t.rows);
      var tree := Subtree(links, id);
      assert forall x :: x in tree <==> Descends(links, x, id) by {
        forall x {
          SubtreeIsDescendants(links, id, x);
        }
      }
      Ok((t.(rows := Select(t.rows, tree, false)), Select(t.rows, tree, true)))
  }

  // ---------------------------------------------------------------------------
  // How the shapes of the rows change
  // ---------------------------------------------------------------------------

  lemma ShapesAppend(rows: seq<Milestone>, m: Milestone)
    ensures Shapes(rows + [m]) == Shapes(rows) + {ShapeOf(m)}
  {
    assert forall x :: x in rows + [m] <==> x in rows || x == m;
  }

  lemma ShapesReplace(rows: seq<Milestone>, k: nat, m: Milestone)
    requires k < |rows| && ShapeOf(m) == ShapeOf(rows[k])
    ensures Shapes(rows[k := m]) == Shapes(rows)
  {
    var rows' := rows[k := m];
    forall x | x in rows'
      ensures ShapeOf(x) in Shapes(rows)
    {
      var i :| 0 <= i < |rows'| && rows'[i] == x;
      assert rows[i] in rows;
    }
    forall x | x in rows
      ensures ShapeOf(x) in Shapes(rows')
    {
      var i :| 0 <= i < |rows| && rows[i] == x;
      assert rows'[i] in rows';
    }
  }

  lemma ShapesFlag(rows: seq<Milestone>, id: nat)
    ensures Shapes(Flag(rows, id)) == Shapes(rows)
  {
    var rows' := Flag(rows, id);
    forall x | x in rows'
      ensures ShapeOf(x) in Shapes(rows)
    {
      var i :| 0 <= i < |rows'| && rows'[i] == x;
      assert rows[i] in rows;
    }
    forall x | x in rows
      ensures ShapeOf(x) in Shapes(rows')
    {
      var i :| 0 <= i < |rows| && rows[i] == x;
      assert rows'[i] in rows';
    }
  }

  lemma ShapesSelect(rows: seq<Milestone>, ids: set<nat>)
    ensures Shapes(Select(rows, ids, false)) == set s | s in Shapes(rows) && s.0 !in ids
  {
  }

  /** A fresh id whose parent exists and whose project is that parent's keeps the links consistent. */
  lemma LinkedAppend(sh: set<Shape>, s: Shape)
    requires Linked(sh)
    requires forall a :: a in sh ==> a.0 != s.0
    requires s.2.Some? ==> exists b :: b in sh && b.0 == s.2.value
    requires forall b :: b in sh && Some(b.0) == s.2 ==> b.1 == s.1
    ensures Linked(sh + {s})
  {
    forall a | a in sh && a.2.Some?
      ensures a.2 != Some(s.0)
    {
      var b :| b in sh && b.0 == a.2.value;
    }
  }

  /** Removing a set of ids closed under children keeps the links consistent. */
  lemma LinkedPrune(sh: set<Shape>, tree: set<nat>)
    requires Linked(sh)
    requires forall a :: a in sh && a.2.Some? && a.2.value in tree ==> a.0 in tree
    ensures Linked(set s | s in sh && s.0 !in tree)
  {
    var kept := set s | s in sh && s.0 !in tree;
    forall a | a in kept && a.2.Some?
      ensures exists b :: b in kept && b.0 == a.2.value
    {
      var b :| b in sh && b.0 == a.2.value;
      assert b in kept;
    }
  }

  // ---------------------------------------------------------------------------
  // The invariant is kept, and reads see the writes
  // ---------------------------------------------------------------------------

  /** Appending a row with a fresh id and title, an existing parent of the same project, keeps the invariant. */
  lemma AppendKeepsValid(t: Table, m: Milestone, clock: nat)
    requires Valid(t)
    requires m.id == t.nextId && !TitleTaken(t.rows, m.title)
    requires m.parentId.Some? ==> HasId(t.rows, m.parentId.value)
    requires forall x :: x in t.rows && Some(x.id) == m.parentId ==> x.projectId == m.projectId
    requires 1 <= m.version && m.created <= m.lastModified <= clock && t.clock <= clock
    ensures Valid(Table(t.rows + [m], clock, t.nextId + 1))
  {
    var rows' := t.rows + [m];
    assert forall i :: 0 <= i < |t.rows| ==> rows'[i] == t.rows[i];
    assert forall i :: 0 <= i < |t.rows| ==> Compatible(t.rows[i], m) by {
      forall i | 0 <= i < |t.rows| ensures Compatible(t.rows[i], m) {
        assert t.rows[i] in t.rows;
      }
    }
    ShapesAppend(t.rows, m);
    var sh := Shapes(t.rows);
    forall a | a in sh
      ensures a.0 != m.id
    {
      var x :| x in t.rows && ShapeOf(x) == a;
      var i :| 0 <= i < |t.rows| && t.rows[i] == x;
    }
    if m.parentId.Some? {
      var x :| x in t.rows && x.id == m.parentId.value;
      assert ShapeOf(x) in sh;
    }
    LinkedAppend(sh, ShapeOf(m));
  }

  /** All rows of the parent share the project the new milestone takes from it. */
  lemma ParentProjectShared(t: Table, parent: nat, owner: nat)
    requires Valid(t)
    requires exists m :: m in t.rows && m.id == parent && m.projectId == owner
    ensures forall x :: x in t.rows && x.id == parent ==> x.projectId == owner
  {
    var b :| b in t.rows && b.id == parent && b.projectId == owner;
    forall x | x in t.rows && x.id == parent
      ensures x.projectId == owner
    {
      assert ShapeOf(x) in Shapes(t.rows) && ShapeOf(b) in Shapes(t.rows);
    }
  }

  /** A live row appended under a fresh id is what get_milestone returns for that id. */
  lemma AppendedIsCurrent(t: Table, m: Milestone, clock: nat)
    requires Stamped(t.rows, t.clock, t.nextId) && AllCompatible(t.rows + [m])
    requires m.id == t.nextId && !m.deleted
    ensures GetMilestone(Table(t.rows + [m], clock, t.nextId + 1), m.id) == Ok(m)
  {
    var rows' := t.rows + [m];
    forall x | x in t.rows
      ensures x.id < m.id
    {
      var i :| 0 <= i < |t.rows| && t.rows[i] == x;
    }
    assert rows'[|t.rows|] == m;
    LatestIsTheMaximum(rows', m.id, true, m);
  }

  /** add_milestone keeps the invariant; the new milestone has a fresh id and is what get_milestone returns. */
  lemma AddKeepsValid(t: Table, projects: set<nat>, title: string, parentId: Option<nat>, description: string,
                      initial: Option<Date>, latest: Option<Date>, acceptance: Option<string>,
                      project: Option<nat>, elapsed: nat)
    requires Valid(t)
    requires AddMilestone(t, projects, title, parentId, description, initial, latest, acceptance, project, elapsed).Ok?
    ensures var (t', m) := AddMilestone(t, projects, title, parentId, description, initial, latest, acceptance, project, elapsed).value;
            && Valid(t')
            && !HasId(t.rows, m.id)
            && GetMilestone(t', m.id) == Ok(m)
  {
    var (t', m) := AddMilestone(t, projects, title, parentId, description, initial, latest, acceptance, project, elapsed).value;
    if parentId.Some? {
      ParentProjectShared(t, parentId.value, m.projectId);
    }
    AppendKeepsValid(t, m, t'.clock);
    assert t' == Table(t.rows + [m], t'.clock, t.nextId + 1);
    AppendedIsCurrent(t, m, t'.clock);
    forall x | x in t.rows
      ensures x.id != m.id
    {
      var i :| 0 <= i < |t.rows| && t.rows[i] == x;
    }
  }

  /**
   Replacing row `k` by a row with the same id, owner, parent and timestamps, a
   version above every version of that id, and its old title or an untaken
   one, keeps the invariant.
   */
  lemma ReplaceKeepsValid(t: Table, k: nat, m: Milestone)
    requires Valid(t) && k < |t.rows|
    requires ShapeOf(m) == ShapeOf(t.rows[k])
    requires m.created == t.rows[k].created && m.lastModified == t.rows[k].lastModified
    requires forall x :: x in t.rows && x.id == m.id ==> x.version < m.version
    requires m.title == t.rows[k].title || !TitleTaken(t.rows, m.title)
    ensures Valid(t.(rows := t.rows[k := m]))
  {
    var rows' := t.rows[k := m];
    var old_ := t.rows[k];
    assert old_ in t.rows;
    forall i, j | 0 <= i < j < |rows'|
      ensures Compatible(rows'[i], rows'[j])
    {
      assert t.rows[i] in t.rows && t.rows[j] in t.rows;
      assert Compatible(t.rows[i], t.rows[j]);
    }
    ShapesReplace(t.rows, k, m);
  }

  /**
   update_milestone keeps the invariant; when the edited row was not deleted,
   it is what get_milestone returns from then on.
   */
  lemma UpdateKeepsValid(t: Table, id: nat, newTitle: Option<string>, description: Option<string>,
                         initial: Option<Date>, latest: Option<Date>, acceptance: Option<string>)
    requires Valid(t)
    requires UpdateMilestone(t, id, newTitle, description, initial, latest, acceptance).Ok?
    ensures var (t', m) := UpdateMilestone(t, id, newTitle, description, initial, latest, acceptance).value;
            && Valid(t')
            && (!m.deleted ==> GetMilestone(t', id) == Ok(m))
  {
    var (t', m) := UpdateMilestone(t, id, newTitle, description, initial, latest, acceptance).value;
    var k := Latest(t.rows, id, false).value;
    ReplaceKeepsValid(t, k, m);
    if !m.deleted {
      assert t'.rows[k] == m;
      forall x | x in t'.rows && x.id == id
        ensures x.version <= m.version
      {
        var i :| 0 <= i < |t'.rows| && t'.rows[i] == x;
        assert i != k ==> t.rows[i] in t.rows;
      }
      LatestIsTheMaximum(t'.rows, id, true, m);
    }
  }

  /** The table delete_milestone leaves is the flagged table. */
  lemma DeleteIsFlag(t: Table, id: nat)
    requires HasId(t.rows, id)
    ensures DeleteMilestone(t, id).value.0 == t.(rows := Flag(t.rows, id))
  {
  }

  /** After flagging, every row of the id is deleted and every other row is as it was. */
  lemma FlagMembers(rows: seq<Milestone>, id: nat)
    ensures forall x :: x in Flag(rows, id) && x.id == id ==> x.deleted
    ensures forall x :: x in Flag(rows, id) && x.id != id ==> x in rows
    ensures forall x :: x in rows && x.id != id ==> x in Flag(rows, id)
  {
    var rows' := Flag(rows, id);
    forall x | x in rows'
      ensures x.id == id ==> x.deleted
      ensures x.id != id ==> x in rows
    {
      var i :| 0 <= i < |rows'| && rows'[i] == x;
      assert rows[i] in rows;
    }
    forall x | x in rows && x.id != id
      ensures x in rows'
    {
      var i :| 0 <= i < |rows| && rows[i] == x;
      assert rows'[i] == x;
    }
  }

  /** Flagging the rows of one id keeps the invariant. */
  lemma FlagKeepsValid(t: Table, id: nat)
    requires Valid(t)
    ensures Valid(t.(rows := Flag(t.rows, id)))
  {
    var rows' := Flag(t.rows, id);
    forall i, j | 0 <= i < j < |rows'|
      ensures Compatible(rows'[i], rows'[j])
    {
      assert Compatible(t.rows[i], t.rows[j]);
    }
    ShapesFlag(t.rows, id);
  }

  /** delete_milestone keeps the invariant, and get_milestone then fails for the id. */
  lemma DeleteKeepsValid(t: Table, id: nat)
    requires Valid(t)
    requires HasId(t.rows, id)
    ensures var t' := DeleteMilestone(t, id).value.0;
            Valid(t') && GetMilestone(t', id) == Err(NotFound)
  {
    DeleteIsFlag(t, id);
    FlagKeepsValid(t, id);
    FlagMembers(t.rows, id);
  }

  /** delete_milestone leaves what get_milestone returns for every other id as it was. */
  lemma DeleteLeavesOthers(t: Table, id: nat, other: nat)
    requires Valid(t)
    requires HasId(t.rows, id)
    requires other != id
    ensures GetMilestone(DeleteMilestone(t, id).value.0, other) == GetMilestone(t, other)
  {
    DeleteIsFlag(t, id);
    FlagKeepsValid(t, id);
    FlagMembers(t.rows, id);
    var rows' := Flag(t.rows, id);
    var r := GetMilestone(t, other);
    if r.Ok? {
      LatestIsTheMaximum(rows', other, true, r.value);
    }
  }

  /**
   delete_milestone can be called again on the same id: it succeeds, changes
   nothing further and reports the same rows.
   */
  lemma DeleteRepeatable(t: Table, id: nat)
    requires HasId(t.rows, id)
    ensures var (t', flagged) := DeleteMilestone(t, id).value;
            DeleteMilestone(t', id) == Ok((t', flagged))
  {
    var rows' := Flag(t.rows, id);
    assert DeleteMilestone(t, id).value == (t.(rows := rows'), Select(rows', {id}, true));
    FlagTwice(t.rows, id);
    var m :| m in t.rows && m.id == id;
    var i :| 0 <= i < |t.rows| && t.rows[i] == m;
    assert rows'[i] in rows';
  }

  lemma FlagTwice(rows: seq<Milestone>, id: nat)
    ensures Flag(Flag(rows, id), id) == Flag(rows, id)
  {
  }

  /** An edit that does not rename keeps a fully deleted milestone fully deleted. */
  lemma UpdateKeepsDeleted(t: Table, id: nat, description: Option<string>)
    requires HasId(t.rows, id)
    requires forall x :: x in t.rows && x.id == id ==> x.deleted
    ensures var u := UpdateMilestone(t, id, None, description, None, None, None);
            && u.Ok? && u.value.1.deleted
            && forall x :: x in u.value.0.rows && x.id == id ==> x.deleted
  {
    var u := UpdateMilestone(t, id, None, description, None, None, None);
    var k := Latest(t.rows, id, false).value;
    assert t.rows[k] in t.rows;
    ReplaceKeepsDeleted(t.rows, k, u.value.1, id);
  }

  lemma ReplaceKeepsDeleted(rows: seq<Milestone>, k: nat, m: Milestone, id: nat)
    requires k < |rows| && m.deleted
    requires forall x :: x in rows && x.id == id ==> x.deleted
    ensures forall x :: x in rows[k := m] && x.id == id ==> x.deleted
  {
    forall x | x in rows[k := m] && x.id == id
      ensures x.deleted
    {
      var j :| 0 <= j < |rows| && rows[k := m][j] == x;
      assert j != k ==> rows[j] in rows;
    }
  }

  /**
   update_milestone does not skip deleted rows: a deleted milestone can still
   be edited, its version goes up, and get_milestone keeps failing for it.
   */
  lemma UpdateAfterDelete(t: Table, id: nat, description: Option<string>)
    requires HasId(t.rows, id)
    ensures var t' := DeleteMilestone(t, id).value.0;
            var u := UpdateMilestone(t', id, None, description, None, None, None);
            && u.Ok? && u.value.1.deleted
            && GetMilestone(u.value.0, id) == Err(NotFound)
  {
    var t2 := t.(rows := Flag(t.rows, id));
    DeleteIsFlag(t, id);
    FlagMembers(t.rows, id);
    FlagKeepsId(t.rows, id);
    UpdateKeepsDeleted(t2, id, description);
  }

  /** Flagging removes no row, so the id is still present. */
  lemma FlagKeepsId(rows: seq<Milestone>, id: nat)
    requires HasId(rows, id)
    ensures HasId(Flag(rows, id), id)
  {
    var m :| m in rows && m.id == id;
    var i :| 0 <= i < |rows| && rows[i] == m;
    assert Flag(rows, id)[i] in Flag(rows, id);
  }

  /** get_milestones still lists the rows delete_milestone flagged: nothing leaves the table. */
  lemma DeletedRowsStillListed(t: Table, id: nat)
    requires HasId(t.rows, id)
    ensures var (t', flagged) := DeleteMilestone(t, id).value;
            && |GetMilestones(t')| == |GetMilestones(t)|
            && (forall m :: m in flagged ==> m in GetMilestones(t') && m.deleted)
  {
  }

  /** Selecting rows keeps them pairwise compatible and stamped. */
  lemma {:induction false} SelectKeepsRows(rows: seq<Milestone>, ids: set<nat>, inside: bool, clock: nat, nextId: nat)
    requires AllCompatible(rows) && Stamped(rows, clock, nextId)
    ensures AllCompatible(Select(rows, ids, inside)) && Stamped(Select(rows, ids, inside), clock, nextId)
    decreases |rows|
  {
    if rows != [] {
      var init := rows[..|rows| - 1];
      var last := rows[|rows| - 1];
      assert AllCompatible(init) && Stamped(init, clock, nextId);
      SelectKeepsRows(init, ids, inside, clock, nextId);
      var pre := Select(init, ids, inside);
      forall x | x in pre
        ensures Compatible(x, last)
      {
        var i :| 0 <= i < |init| && init[i] == x;
      }
    }
  }

  /**
   The cascading delete keeps the invariant; get_milestone then fails for the
   milestone and every descendant, and answers every other id as before.
   */
  lemma DeleteTreeKeepsValid(t: Table, id: nat, x: nat)
    requires Valid(t) && HasId(t.rows, id)
    ensures var t' := DeleteMilestoneTree(t, id).value.0;
            && Valid(t')
            && (Descends(MilestoneLinks(t.rows), x, id) ==> GetMilestone(t', x) == Err(NotFound))
            && (!Descends(MilestoneLinks(t.rows), x, id) ==> GetMilestone(t', x) == GetMilestone(t, x))
  {
    var links := MilestoneLinks(t.rows);
    var tree := Subtree(links, id);
    var t' := DeleteMilestoneTree(t, id).value.0;
    assert t'.rows == Select(t.rows, tree, false);
    SubtreeIsDescendants(links, id, x);
    SelectKeepsRows(t.rows, tree, false, t.clock, t.nextId);
    ShapesSelect(t.rows, tree);
    forall a | a in Shapes(t.rows) && a.2.Some? && a.2.value in tree
      ensures a.0 in tree
    {
      var m :| m in t.rows && ShapeOf(m) == a;
      assert (m.id, m.parentId.value) in links;
    }
    LinkedPrune(Shapes(t.rows), tree);
    var r := GetMilestone(t, x);
    if r.Ok? && x !in tree {
      LatestIsTheMaximum(t'.rows, x, true, r.value);
    }
  }
}
