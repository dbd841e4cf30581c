/**
 The project controller (plog/controllers/project_controller.py) over an
 abstract store: the live projects table keyed by `project_id`, the version
 history the history extension keeps per `project_id` (oldest first, one
 entry per insert or update, each holding the state after that change), the
 clock, and the next free `project_id`.

 Every operation is a pure transition returning `Result`: an `Err` leaves the
 store untouched because the caller keeps the old store, as the session does
 when nothing is committed.
 */
module ProjectStore {
  import opened Common
  import opened ProjectModel
  import opened Hierarchy

  datatype Store = Store(
    live: map<nat, Project>,
    versions: map<nat, seq<Project>>,
    clock: nat,
    nextId: nat)

  /** The empty database. */
  function Empty(): (s: Store)
    ensures s.live == map[] && s.versions == map[]
  {
    Store(map[], map[], 0, 1)
  }

  // ---------------------------------------------------------------------------
  // Parent links and the invariants of the store
  // ---------------------------------------------------------------------------

  /** The parent link of project `x`, if `x` is live and has one. */
  function ParentOf(live: map<nat, Project>, x: nat): Option<nat> {
    if x in live then live[x].fields.parentId else None
  }

  /** The parent links of the live projects, as `(child, parent)` pairs. */
  function Links(live: map<nat, Project>): (links: set<Link>)
    ensures forall c: nat, p: nat :: (c, p) in links <==> ParentOf(live, c) == Some(p)
    ensures ChildIds(links) <= live.Keys
  {
    var links := set x | x in live && live[x].fields.parentId.Some? :: (x, live[x].fields.parentId.value);
    assert forall c: nat, p: nat :: ParentOf(live, c) == Some(p) ==> (c, p) in links by {
      forall c: nat, p: nat | ParentOf(live, c) == Some(p)
        ensures (c, p) in links
      {
        assert c in live && live[c].fields.parentId == Some(p);
      }
    }
    links
  }

  /** Each row sits under its own `project_id`. */
  ghost predicate KeysAgree(live: map<nat, Project>) {
    forall id :: id in live ==> live[id].projectId == id
  }

  /** Every parent link points at a live project (the foreign key on `parent_id`). */
  ghost predicate ParentsLive(live: map<nat, Project>) {
    forall id :: id in live && live[id].fields.parentId.Some? ==> live[id].fields.parentId.value in live
  }

  /** The parent chain from `d` reaches a project without a parent within `n` steps. */
  ghost predicate Grounded(live: map<nat, Project>, d: nat, n: nat)
    decreases n
  {
    match ParentOf(live, d)
    case None => true
    case Some(p) => n > 0 && Grounded(live, p, n - 1)
  }

  /** No project is its own ancestor: every parent chain ends. */
  ghost predicate Acyclic(live: map<nat, Project>) {
    forall d :: d in live ==> exists n: nat :: Grounded(live, d, n)
  }

  /** History entries of `id` all describe `id`. */
  ghost predicate HistoryOf(h: seq<Project>, id: nat) {
    forall k :: 0 <= k < |h| ==> h[k].projectId == id
  }

  /** Rows under their own ids, parents live, no cycle of parent links. */
  ghost predicate TreeValid(live: map<nat, Project>) {
    KeysAgree(live) && ParentsLive(live) && Acyclic(live)
  }

  /**
   Every live project has a history; histories are non-empty, belong to ids
   the allocator has handed out, and end in the live row.
   */
  ghost predicate HistoryValid(s: Store) {
    && s.live.Keys <= s.versions.Keys
    && (forall id :: id in s.versions ==> id < s.nextId)
    && (forall id :: id in s.versions ==> 1 <= |s.versions[id]| && HistoryOf(s.versions[id], id))
    && (forall id :: id in s.live ==> s.versions[id][|s.versions[id]| - 1] == s.live[id])
  }

  /** Live rows keep the column defaults and ordered timestamps no later than the clock. */
  ghost predicate RowsValid(live: map<nat, Project>, clock: nat) {
    forall id :: id in live ==>
      live[id].version == 1 && !live[id].deleted && live[id].created <= live[id].lastModified <= clock
  }

  /** The invariant every reachable store keeps. */
  ghost predicate Valid(s: Store) {
    TreeValid(s.live) && HistoryValid(s) && RowsValid(s.live, s.clock)
  }

  lemma EmptyValid()
    ensures Valid(Empty())
  {
  }

  // ---------------------------------------------------------------------------
  // Reads
  // ---------------------------------------------------------------------------

  /** get_project / get_by_id: the live row, or not-found. */
  function GetProject(s: Store, id: nat): (r: Result<Project>)
    ensures r.Ok? <==> id in s.live
    ensures r.Err? ==> r.error == NotFound
    ensures r.Ok? ==> r.value == s.live[id]
  {
    if id in s.live then Ok(s.live[id]) else Err(NotFound)
  }

  /** The `project_id`s of a list of rows. */
  function IdsOf(rows: seq<Project>): set<nat> {
    set i | 0 <= i < |rows| :: rows[i].projectId
  }

  /**
   get_projects / get_all: every live row exactly once, in some order. Rows of
   deleted projects are gone from the live table, so they never appear.
   */
  method GetProjects(s: Store) returns (rows: seq<Project>)
    requires KeysAgree(s.live)
    ensures forall i :: 0 <= i < |rows| ==> rows[i].projectId in s.live && rows[i] == s.live[rows[i].projectId]
    ensures IdsOf(rows) == s.live.Keys
    ensures forall i, j :: 0 <= i < j < |rows| ==> rows[i].projectId != rows[j].projectId
  {
    rows := [];
    var todo := s.live.Keys;
    while todo != {}
      invariant todo <= s.live.Keys
      invariant forall i :: 0 <= i < |rows| ==>
                  rows[i].projectId in s.live.Keys - todo && rows[i] == s.live[rows[i].projectId]
      invariant IdsOf(rows) == s.live.Keys - todo
      invariant forall i, j :: 0 <= i < j < |rows| ==> rows[i].projectId != rows[j].projectId
      decreases todo
    {
      var id :| id in todo;
      rows := rows + [s.live[id]];
      assert rows[|rows| - 1].projectId == id;
      assert IdsOf(rows) == IdsOf(rows[..|rows| - 1]) + {id};
      todo := todo - {id};
    }
  }

  /**
   get_project_history: the recorded versions of `id`, newest first. Entry `i`
   is version number `|versions| - i`; a project never stored has none.
   */
  function History(s: Store, id: nat): (h: seq<Project>)
    ensures id in s.versions ==> |h| == |s.versions[id]|
    ensures id !in s.versions ==> h == []
    ensures id in s.versions ==>
              forall i :: 0 <= i < |h| ==> h[i] == s.versions[id][|s.versions[id]| - 1 - i]
  {
    if id in s.versions then Reverse(s.versions[id]) else []
  }

  function Reverse<T>(xs: seq<T>): (r: seq<T>)
    ensures |r| == |xs|
    ensures forall i :: 0 <= i < |xs| ==> r[i] == xs[|xs| - 1 - i]
    decreases |xs|
  {
    if xs == [] then [] else Reverse(xs[1..]) + [xs[0]]
  }

  /** The newest history entry of a live project is its current row. */
  lemma HistoryHeadIsCurrent(s: Store, id: nat)
    requires Valid(s) && id in s.live
    ensures |History(s, id)| >= 1 && History(s, id)[0] == s.live[id]
  {
  }

  /** The display label of a project in the parent selection: `"title (ID n)"`. */
  function Label(title: string, id: nat): (r: string)
    ensures |r| == |title| + |NatToString(id)| + 6
    ensures r[..|title|] == title && r[|r| - 1] == ')'
  {
    title + " (ID " + NatToString(id) + ")"
  }

  /** The separator `" (ID "` ends in a blank. */
  lemma BlankBeforeDigits(t: string, x: string)
    ensures (t + " (ID " + x)[|t| + 4] == ' '
  {
  }

  /** Every position past the separator holds a digit. */
  lemma DigitsPastSeparator(t: string, x: string, k: int)
    requires AllDigits(x)
    ensures |t| + 5 <= k < |t| + 5 + |x| ==> IsDigit((t + " (ID " + x)[k])
  {
    if |t| + 5 <= k < |t| + 5 + |x| {
      assert (t + " (ID " + x)[k] == x[k - |t| - 5];
    }
  }

  /** The digits after the separator have the same length in any two readings of a string. */
  lemma DigitsAfterSeparator(t1: string, a: string, t2: string, b: string)
    requires AllDigits(a) && AllDigits(b)
    requires t1 + " (ID " + a == t2 + " (ID " + b
    ensures |b| <= |a|
  {
    BlankBeforeDigits(t1, a);
    DigitsPastSeparator(t2, b, |t1| + 4);
  }

  /** Two labels are equal only for the same id (and title). */
  lemma LabelInjective(t1: string, id1: nat, t2: string, id2: nat)
    requires Label(t1, id1) == Label(t2, id2)
    ensures id1 == id2 && t1 == t2
  {
    var a, b := NatToString(id1), NatToString(id2);
    var l1, l2 := Label(t1, id1), Label(t2, id2);
    assert l1 == (t1 + " (ID " + a) + ")";
    assert l2 == (t2 + " (ID " + b) + ")";
    assert t1 + " (ID " + a == l1[..|l1| - 1] == t2 + " (ID " + b;
    DigitsAfterSeparator(t1, a, t2, b);
    DigitsAfterSeparator(t2, b, t1, a);
    assert a == l1[|l1| - 1 - |a|..|l1| - 1];
    assert b == l2[|l2| - 1 - |b|..|l2| - 1];
    NatToStringInjective(id1, id2);
    assert t1 == l1[..|t1|];
    assert t2 == l2[..|t2|];
  }

  /** The labels of two different live projects differ. */
  lemma LabelsDistinct(live: map<nat, Project>)
    ensures forall i, j :: i in live && j in live && Label(live[i].fields.title, i) == Label(live[j].fields.title, j) ==> i == j
  {
    forall i, j | i in live && j in live && Label(live[i].fields.title, i) == Label(live[j].fields.title, j)
      ensures i == j
    {
      LabelInjective(live[i].fields.title, i, live[j].fields.title, j);
    }
  }

  /**
   possible_parents: `"title (ID n)" -> n` for every live project except the
   excluded one.
   */
  function PossibleParents(s: Store, exclude: Option<nat>): (r: map<string, nat>)
    ensures forall id :: id in s.live && exclude != Some(id) ==>
              Label(s.live[id].fields.title, id) in r && r[Label(s.live[id].fields.title, id)] == id
    ensures forall k :: k in r ==>
              r[k] in s.live && exclude != Some(r[k]) && k == Label(s.live[r[k]].fields.title, r[k])
  {
    LabelsDistinct(s.live);
    map id | id in s.live && exclude != Some(id) :: Label(s.live[id].fields.title, id) := id
  }

  // ---------------------------------------------------------------------------
  // Writes
  // ---------------------------------------------------------------------------

  /**
   add_project: stamps `created = last_modified = now`, assigns a fresh
   `project_id`, inserts the row and records its first version.
   */
  function AddProject(s: Store, d: Draft, elapsed: nat): (r: Result<(Store, Project)>)
    ensures r.Err? <==> d.title.None? || (d.parentId.Some? && d.parentId.value !in s.live)
    ensures d.title.None? ==> r == Err(MissingTitle)
    ensures d.title.Some? && r.Err? ==> r.error == ParentNotFound
    ensures r.Ok? ==>
              var (s', p) := r.value;
              && Materialize(d) == Ok(p.fields)
              && p.projectId == s.nextId
              && p.version == 1 && !p.deleted
              && p.created == p.lastModified >= s.clock
              && s'.live == s.live[p.projectId := p]
              && s'.versions == s.versions[p.projectId := [p]]
  {
    var f :- Materialize(d);
    if f.parentId.Some? && f.parentId.value !in s.live then Err(ParentNotFound)
    else
      var now := s.clock + elapsed;
      var p := NewRow(s.nextId, f, now);
      Ok((Store(s.live[s.nextId := p], s.versions[s.nextId := [p]], now, s.nextId + 1), p))
  }

  /** The recorded versions of `id`, oldest first (none for an id never stored). */
  function VersionsOf(s: Store, id: nat): seq<Project> {
    if id in s.versions then s.versions[id] else []
  }

  /** The parent link an update may set on `id`: none, or a live project outside `id`'s own subtree. */
  predicate ParentAccepted(live: map<nat, Project>, id: nat, parent: Option<nat>): (b: bool)
    ensures b <==> parent.None? || (parent.value in live && !Descends(Links(live), parent.value, id))
  {
    match parent
    case None => true
    case Some(q) =>
      SubtreeIsDescendants(Links(live), id, q);
      q in live && q !in Subtree(Links(live), id)
  }

  /**
   update_project: fails with not-found unless `id` is live; otherwise writes
   the new attributes, keeps `created`, stamps `last_modified` and records the
   new state as the next version. A parent inside the project's own subtree
   is refused, since it would put the project on a cycle of parent links.
   */
  function UpdateProject(s: Store, id: nat, f: Fields, elapsed: nat): (r: Result<(Store, Project)>)
    ensures r.Err? && r.error == NotFound <==> id !in s.live
    ensures r.Ok? <==> id in s.live && ParentAccepted(s.live, id, f.parentId)
    ensures id in s.live && f.parentId.Some? && f.parentId.value !in s.live ==> r == Err(ParentNotFound)
    ensures id in s.live && f.parentId.Some? && f.parentId.value in Subtree(Links(s.live), id) ==>
              r == Err(CycleDetected)
    ensures r.Ok? ==>
              var (s', p) := r.value;
              var old_ := s.live[id];
              && p.fields == f
              && p.projectId == old_.projectId && p.version == old_.version && p.deleted == old_.deleted
              && p.created == old_.created
              && p.lastModified == s'.clock >= s.clock
              && s'.live == s.live[id := p]
              && s'.versions == s.versions[id := VersionsOf(s, id) + [p]]
              && s'.nextId == s.nextId
  {
    if id !in s.live then Err(NotFound)
    else if f.parentId.Some? && f.parentId.value !in s.live then Err(ParentNotFound)
    else if f.parentId.Some? && f.parentId.value in Subtree(Links(s.live), id) then Err(CycleDetected)
    else
      var now := s.clock + elapsed;
      var p := s.live[id].(fields := f, lastModified := now);
      Ok((Store(s.live[id := p], s.versions[id := VersionsOf(s, id) + [p]], now, s.nextId), p))
  }

  /**
   delete_project: fails with not-found unless `id` is live; otherwise removes
   the project and its whole subtree from the live table and returns exactly
   the removed rows. Their history stays.
   */
  function DeleteProject(s: Store, id: nat): (r: Result<(Store, map<nat, Project>)>)
    ensures r.Err? <==> id !in s.live
    ensures r.Err? ==> r.error == NotFound
    ensures r.Ok? ==>
              var (s', gone) := r.value;
              && (forall x :: x in gone <==> Descends(Links(s.live), x, id))
              && (forall x :: x in gone ==> x in s.live && gone[x] == s.live[x])
              && s'.live.Keys == s.live.Keys - gone.Keys
              && (forall y :: y in s'.live ==> s'.live[y] == s.live[y])
              && s'.versions == s.versions && s'.clock == s.clock && s'.nextId == s.nextId
  {
    if id !in s.live then Err(NotFound)
    else
      var removed := Subtree(Links(s.live), id);
      assert forall x :: x in removed <==> Descends(Links(s.live), x, id) by {
        forall x {
          SubtreeIsDescendants(Links(s.live), id, x);
        }
      }
      var gone := map x | x in removed :: s.live[x];
      Ok((s.(live := s.live - removed), gone))
  }

  /** delete_by_id: look the project up (not-found if absent), then delete it as delete_project does. */
  function DeleteById(s: Store, id: nat): (r: Result<(Store, map<nat, Project>)>)
    ensures r.Err? <==> id !in s.live
    ensures r == DeleteProject(s, id)
  {
    var _ :- GetProject(s, id);
    DeleteProject(s, id)
  }

  // ---------------------------------------------------------------------------
  // The invariant is kept by every write
  // ---------------------------------------------------------------------------

  lemma {:induction false} GroundedAfterInsert(live: map<nat, Project>, id: nat, row: Project, d: nat, n: nat)
    requires id !in live && ParentsLive(live)
    requires d != id && Grounded(live, d, n)
    ensures Grounded(live[id := row], d, n)
    decreases n
  {
    match ParentOf(live, d)
    case None =>
    case Some(x) =>
      GroundedAfterInsert(live, id, row, x, n - 1);
  }

  lemma {:induction false} GroundedAfterRemoval(live: map<nat, Project>, gone: set<nat>, d: nat, n: nat)
    requires Grounded(live, d, n)
    ensures Grounded(live - gone, d, n)
    decreases n
  {
    match ParentOf(live, d)
    case None =>
    case Some(x) =>
      GroundedAfterRemoval(live, gone, x, n - 1);
  }

  /** A chain that never enters `id`'s subtree is untouched by re-linking `id`. */
  lemma {:induction false} GroundedOutsideSubtree(live: map<nat, Project>, id: nat, row: Project, d: nat, n: nat)
    requires id in live
    requires d !in Subtree(Links(live), id)
    requires Grounded(live, d, n)
    ensures Grounded(live[id := row], d, n)
    decreases n
  {
    match ParentOf(live, d)
    case None =>
    case Some(x) =>
      assert (d, x) in Links(live);
      GroundedOutsideSubtree(live, id, row, x, n - 1);
  }

  /** After re-linking `id` to a parent outside its subtree, every chain that ended still ends. */
  lemma {:induction false} GroundedAfterRelink(live: map<nat, Project>, id: nat, row: Project, d: nat, n: nat)
    returns (k: nat)
    requires id in live && Acyclic(live)
    requires ParentAccepted(live, id, row.fields.parentId)
    requires Grounded(live, d, n)
    ensures Grounded(live[id := row], d, k)
    decreases n
  {
    if d == id {
      match row.fields.parentId
      case None =>
        k := 0;
      case Some(q) =>
        var m: nat :| Grounded(live, q, m);
        GroundedOutsideSubtree(live, id, row, q, m);
        k := m + 1;
    } else {
      match ParentOf(live, d)
      case None =>
        k := 0;
      case Some(x) =>
        var k' := GroundedAfterRelink(live, id, row, x, n - 1);
        k := k' + 1;
    }
  }

  /** Inserting a new project whose parent (if any) is live keeps every parent chain finite. */
  lemma InsertKeepsAcyclic(live: map<nat, Project>, id: nat, p: Project)
    requires id !in live && ParentsLive(live) && Acyclic(live)
    requires p.fields.parentId.Some? ==> p.fields.parentId.value in live
    ensures Acyclic(live[id := p])
  {
    var live' := live[id := p];
    forall x | x in live'
      ensures exists n: nat :: Grounded(live', x, n)
    {
      if x == id {
        match p.fields.parentId
        case None =>
          assert Grounded(live', x, 0);
        case Some(q) =>
          var m: nat :| Grounded(live, q, m);
          GroundedAfterInsert(live, id, p, q, m);
          assert Grounded(live', x, m + 1);
      } else {
        var m: nat :| Grounded(live, x, m);
        GroundedAfterInsert(live, id, p, x, m);
      }
    }
  }

  /** add_project keeps the invariant, gives the new project a never-used id and one version. */
  lemma AddKeepsValid(s: Store, d: Draft, elapsed: nat)
    requires Valid(s)
    requires AddProject(s, d, elapsed).Ok?
    ensures var (s', p) := AddProject(s, d, elapsed).value;
            && Valid(s')
            && p.projectId !in s.versions
            && History(s', p.projectId) == [p]
  {
    var (s', p) := AddProject(s, d, elapsed).value;
    InsertKeepsValid(s, p, s'.clock);
  }

  /** Inserting a fresh row, with one version, whose parent is live keeps the invariant. */
  lemma InsertKeepsValid(s: Store, p: Project, now: nat)
    requires Valid(s)
    requires p.projectId == s.nextId && p.version == 1 && !p.deleted
    requires p.fields.parentId.Some? ==> p.fields.parentId.value in s.live
    requires s.clock <= now && p.created <= p.lastModified <= now
    ensures Valid(Store(s.live[s.nextId := p], s.versions[s.nextId := [p]], now, s.nextId + 1))
  {
    var s' := Store(s.live[s.nextId := p], s.versions[s.nextId := [p]], now, s.nextId + 1);
    InsertKeepsAcyclic(s.live, p.projectId, p);
    assert TreeValid(s'.live);
    assert HistoryValid(s') by { InsertKeepsHistory(s, p, now); }
    assert RowsValid(s'.live, now);
  }

  lemma InsertKeepsHistory(s: Store, p: Project, now: nat)
    requires HistoryValid(s) && p.projectId == s.nextId
    ensures HistoryValid(Store(s.live[s.nextId := p], s.versions[s.nextId := [p]], now, s.nextId + 1))
  {
  }

  /** Re-linking a project to an accepted parent keeps every parent chain finite. */
  lemma RelinkKeepsAcyclic(live: map<nat, Project>, id: nat, p: Project)
    requires id in live && Acyclic(live)
    requires ParentAccepted(live, id, p.fields.parentId)
    ensures Acyclic(live[id := p])
  {
    var live' := live[id := p];
    forall x | x in live'
      ensures exists n: nat :: Grounded(live', x, n)
    {
      var m: nat :| Grounded(live, x, m);
      var k := GroundedAfterRelink(live, id, p, x, m);
    }
  }

  /** update_project keeps the invariant, parent links included. */
  lemma UpdateKeepsValid(s: Store, id: nat, f: Fields, elapsed: nat)
    requires Valid(s)
    requires UpdateProject(s, id, f, elapsed).Ok?
    ensures Valid(UpdateProject(s, id, f, elapsed).value.0)
  {
    var (s', p) := UpdateProject(s, id, f, elapsed).value;
    ReplaceKeepsValid(s, p, s'.clock);
  }

  /** Replacing a live row by a newer state of it, with an accepted parent, as its next version keeps the invariant. */
  lemma ReplaceKeepsValid(s: Store, p: Project, now: nat)
    requires Valid(s) && p.projectId in s.live
    requires ParentAccepted(s.live, p.projectId, p.fields.parentId)
    requires p.version == 1 && !p.deleted
    requires s.clock <= now && p.created <= p.lastModified <= now
    ensures Valid(Store(s.live[p.projectId := p], s.versions[p.projectId := VersionsOf(s, p.projectId) + [p]], now, s.nextId))
  {
    var s' := Store(s.live[p.projectId := p], s.versions[p.projectId := VersionsOf(s, p.projectId) + [p]], now, s.nextId);
    RelinkKeepsAcyclic(s.live, p.projectId, p);
    assert TreeValid(s'.live);
    assert HistoryValid(s') by { ReplaceKeepsHistory(s, p, now); }
    assert RowsValid(s'.live, now);
  }

  lemma ReplaceKeepsHistory(s: Store, p: Project, now: nat)
    requires HistoryValid(s) && p.projectId in s.live
    ensures HistoryValid(Store(s.live[p.projectId := p], s.versions[p.projectId := VersionsOf(s, p.projectId) + [p]], now, s.nextId))
  {
  }

  /** Removing a set of projects keeps every remaining parent chain finite. */
  lemma RemoveKeepsAcyclic(live: map<nat, Project>, gone: set<nat>)
    requires Acyclic(live)
    ensures Acyclic(live - gone)
  {
    forall x | x in live - gone
      ensures exists n: nat :: Grounded(live - gone, x, n)
    {
      var m: nat :| Grounded(live, x, m);
      GroundedAfterRemoval(live, gone, x, m);
    }
  }

  /** Removing a subtree leaves no surviving project pointing into it. */
  lemma RemoveSubtreeKeepsParents(live: map<nat, Project>, id: nat)
    requires ParentsLive(live)
    ensures ParentsLive(live - Subtree(Links(live), id))
  {
    var live' := live - Subtree(Links(live), id);
    forall y | y in live' && live'[y].fields.parentId.Some?
      ensures live'[y].fields.parentId.value in live'
    {
      assert (y, live'[y].fields.parentId.value) in Links(live);
    }
  }

  /** delete_project keeps the invariant: no surviving project points into the removed subtree. */
  lemma DeleteKeepsValid(s: Store, id: nat)
    requires Valid(s)
    requires DeleteProject(s, id).Ok?
    ensures Valid(DeleteProject(s, id).value.0)
  {
    var (s', gone) := DeleteProject(s, id).value;
    var removed := Subtree(Links(s.live), id);
    assert gone.Keys == removed by {
      forall x {
        SubtreeIsDescendants(Links(s.live), id, x);
      }
    }
    assert s'.live == s.live - removed;
    RemoveSubtreeKeepsParents(s.live, id);
    RemoveKeepsAcyclic(s.live, removed);
  }

  // ---------------------------------------------------------------------------
  // Properties relating several operations
  // ---------------------------------------------------------------------------

  /**
   After an update the history has grown by exactly one entry at the front,
   and the entry after it is the pre-update row: old attributes, old parent,
   old timestamps. `created` is kept and `last_modified` does not go back.
   */
  lemma UpdateRecordsPreviousVersion(s: Store, id: nat, f: Fields, elapsed: nat)
    requires Valid(s)
    requires UpdateProject(s, id, f, elapsed).Ok?
    ensures var (s', p) := UpdateProject(s, id, f, elapsed).value;
            && History(s', id) == [p] + History(s, id)
            && |History(s', id)| == |History(s, id)| + 1
            && History(s', id)[1] == s.live[id]
            && p.created == s.live[id].created
            && p.lastModified >= s.live[id].lastModified
  {
    var (s', p) := UpdateProject(s, id, f, elapsed).value;
    var h, h' := History(s, id), History(s', id);
    assert |h'| == |h| + 1;
    forall i | 0 <= i < |h'|
      ensures h'[i] == ([p] + h)[i]
    {
      if i > 0 {
        assert h'[i] == s.versions[id][|s.versions[id]| - i];
      }
    }
  }

  /** Applies the updates in order, stopping at the first failure. */
  function UpdateAll(s: Store, id: nat, edits: seq<Fields>, elapsed: nat): Result<Store>
    decreases |edits|
  {
    if edits == [] then Ok(s)
    else
      var step :- UpdateProject(s, id, edits[0], elapsed);
      UpdateAll(step.0, id, edits[1..], elapsed)
  }

  /**
   After `n` successful updates the history has grown by `n`, its newest entry
   is the current row, and `created` is still the value it had before.
   */
  lemma {:induction false} UpdatesGrowHistory(s: Store, id: nat, edits: seq<Fields>, elapsed: nat)
    requires Valid(s) && id in s.live
    requires UpdateAll(s, id, edits, elapsed).Ok?
    ensures var s2 := UpdateAll(s, id, edits, elapsed).value;
            && Valid(s2) && id in s2.live
            && |History(s2, id)| == |History(s, id)| + |edits|
            && History(s2, id)[0] == s2.live[id]
            && s2.live[id].created == s.live[id].created
            && s2.live[id].lastModified >= s.live[id].lastModified
    decreases |edits|
  {
    if edits != [] {
      var (s1, p) := UpdateProject(s, id, edits[0], elapsed).value;
      UpdateKeepsValid(s, id, edits[0], elapsed);
      UpdateRecordsPreviousVersion(s, id, edits[0], elapsed);
      UpdatesGrowHistory(s1, id, edits[1..], elapsed);
    }
  }

  /** A project added and then updated `n` times has `n + 1` versions, the newest being the current row. */
  lemma AddThenUpdates(s: Store, d: Draft, edits: seq<Fields>, elapsed: nat)
    requires Valid(s)
    requires AddProject(s, d, elapsed).Ok?
    requires UpdateAll(AddProject(s, d, elapsed).value.0, AddProject(s, d, elapsed).value.1.projectId, edits, elapsed).Ok?
    ensures var (s1, p) := AddProject(s, d, elapsed).value;
            var s2 := UpdateAll(s1, p.projectId, edits, elapsed).value;
            && p.projectId in s2.live
            && |History(s2, p.projectId)| == |edits| + 1
            && History(s2, p.projectId)[0] == s2.live[p.projectId]
            && History(s2, p.projectId)[|edits|] == p
            && s2.live[p.projectId].created == p.created
  {
    var (s1, p) := AddProject(s, d, elapsed).value;
    AddKeepsValid(s, d, elapsed);
    UpdatesGrowHistory(s1, p.projectId, edits, elapsed);
    HistoryKeepsOldest(s1, p.projectId, edits, elapsed);
  }

  /** Updates only add newer versions: the oldest entries stay where they were. */
  lemma {:induction false} HistoryKeepsOldest(s: Store, id: nat, edits: seq<Fields>, elapsed: nat)
    requires UpdateAll(s, id, edits, elapsed).Ok?
    ensures |VersionsOf(s, id)| <= |VersionsOf(UpdateAll(s, id, edits, elapsed).value, id)|
    ensures VersionsOf(s, id) == VersionsOf(UpdateAll(s, id, edits, elapsed).value, id)[..|VersionsOf(s, id)|]
    decreases |edits|
  {
    if edits != [] {
      var (s1, p) := UpdateProject(s, id, edits[0], elapsed).value;
      HistoryKeepsOldest(s1, id, edits[1..], elapsed);
      assert VersionsOf(s1, id) == VersionsOf(s, id) + [p];
    }
  }

  /** Deleting twice fails the second time, by either entry point. */
  lemma DeleteTwiceFails(s: Store, id: nat)
    requires DeleteProject(s, id).Ok?
    ensures DeleteProject(DeleteProject(s, id).value.0, id) == Err(NotFound)
    ensures DeleteById(DeleteProject(s, id).value.0, id) == Err(NotFound)
  {
    var (s', gone) := DeleteProject(s, id).value;
    assert IsChain(Links(s.live), [id], id, id);
  }

  /**
   After a delete, get fails for the root and every descendant, while every
   project outside the subtree is still returned unchanged.
   */
  lemma DeleteFrame(s: Store, id: nat, x: nat)
    requires DeleteProject(s, id).Ok?
    ensures var s' := DeleteProject(s, id).value.0;
            && (Descends(Links(s.live), x, id) ==> GetProject(s', x) == Err(NotFound))
            && (!Descends(Links(s.live), x, id) ==> GetProject(s', x) == GetProject(s, x))
  {
  }
}
