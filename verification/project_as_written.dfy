/**
 Project deletion and update as plog/controllers/project_controller.py and
 plog/models/project.py write them, kept beside the corrected operations of
 `ProjectStore` to show where the two differ.

 - The `children` backref of `Project.parent` has no delete cascade, so
   `session.delete(project)` removes only the root row and sets the
   children's `parent_id` to NULL, while `delete_project` still returns the
   root and every descendant.
 - `update_project` accepts any parent, including the project itself or one
   of its descendants; the recursive `collect_children` then never runs out
   of children.
 */
module ProjectAsWritten {
  import opened Common
  import opened ProjectModel
  import opened Hierarchy
  import opened ProjectStore

  /**
   collect_children over the parent links of the live projects: the children
   of the frontier, then their descendants, one recursion level per
   generation. `depth` is the recursion the interpreter still allows; `None`
   is the RecursionError when it runs out. When it finishes it returns the
   least set closed under children that holds the frontier's children, which
   is the subtree without its root.
   */
  function CollectChildren(links: set<Link>, frontier: set<nat>, depth: nat): (r: Option<set<nat>>)
    ensures r.Some? ==> AllDescendants(links, frontier, r.value)
    decreases depth
  {
    var kids := ChildrenOf(links, frontier);
    if kids == {} then Some({})
    else if depth == 0 then None
    else
      match CollectChildren(links, kids, depth - 1)
      case None => None
      case Some(rest) => Some(kids + rest)
  }

  /**
   `desc` is the least set of child ids that holds the children of
   `frontier` and, together with `frontier`, is closed under children.
   */
  ghost predicate AllDescendants(links: set<Link>, frontier: set<nat>, desc: set<nat>) {
    && desc <= ChildIds(links)
    && ClosedUnderChildren(links, frontier + desc)
    && ChildrenOf(links, frontier) <= desc
    && forall s {:trigger ClosedUnderChildren(links, s)} ::
         ChildrenOf(links, frontier) <= s && ClosedUnderChildren(links, s) ==> desc <= s
  }

  /** When collect_children finishes, the root and what it collected are exactly the subtree. */
  lemma CollectChildrenIsSubtree(live: map<nat, Project>, root: nat, depth: nat)
    requires CollectChildren(Links(live), {root}, depth).Some?
    ensures {root} + CollectChildren(Links(live), {root}, depth).value == Subtree(Links(live), root)
  {
    var links := Links(live);
    var desc := CollectChildren(Links(live), {root}, depth).value;
    var t := Subtree(links, root);
    assert ChildrenOf(links, {root}) <= t;
    assert desc <= t;
    assert {root} + desc == t;
  }

  /**
   delete_project as written: not-found unless `id` is live; RecursionError
   when collect_children does not finish; otherwise it returns the root and
   every collected descendant, but removes only the root row and clears the
   `parent_id` of its direct children, which stay live.
   */
  function DeleteProjectAsWritten(s: Store, id: nat, depth: nat): (r: Result<(Store, map<nat, Project>)>)
    ensures id !in s.live ==> r == Err(NotFound)
    ensures id in s.live ==> (r.Ok? <==> CollectChildren(Links(s.live), {id}, depth).Some?)
    ensures r.Err? && id in s.live ==> r.error == RecursionLimit
    ensures r.Ok? ==>
              var (s', claimed) := r.value;
              && claimed.Keys == {id} + CollectChildren(Links(s.live), {id}, depth).value
              && (forall x :: x in claimed ==> x in s.live && claimed[x] == s.live[x])
              && s'.live.Keys == s.live.Keys - {id}
              && (forall y :: y in s'.live && ParentOf(s.live, y) == Some(id) ==>
                    s'.live[y].fields == s.live[y].fields.(parentId := None))
              && (forall y :: y in s'.live && ParentOf(s.live, y) != Some(id) ==> s'.live[y] == s.live[y])
  {
    if id !in s.live then Err(NotFound)
    else
      match CollectChildren(Links(s.live), {id}, depth)
      case None => Err(RecursionLimit)
      case Some(desc) =>
        var claimed := map x | x in {id} + desc :: s.live[x];
        var kept := map y | y in s.live && y != id ::
          if ParentOf(s.live, y) == Some(id) then s.live[y].(fields := s.live[y].fields.(parentId := None))
          else s.live[y];
        Ok((s.(live := kept), claimed))
  }

  /**
   A direct child of the deleted project is among the rows delete_project
   returns as removed, yet it is still live afterwards, now without a parent.
   */
  lemma DeleteAsWrittenLeavesChildren(s: Store, id: nat, depth: nat, child: nat)
    requires child in s.live && child != id && ParentOf(s.live, child) == Some(id)
    requires DeleteProjectAsWritten(s, id, depth).Ok?
    ensures var (s', claimed) := DeleteProjectAsWritten(s, id, depth).value;
            && child in claimed
            && GetProject(s', child).Ok?
            && GetProject(s', child).value.fields.parentId == None
  {
    var links := Links(s.live);
    assert (child, id) in links;
    assert child in ChildrenOf(links, {id});
  }

  /** The corrected delete removes that child as well. */
  lemma DeleteRemovesChildren(s: Store, id: nat, child: nat)
    requires child in s.live && ParentOf(s.live, child) == Some(id)
    requires DeleteProject(s, id).Ok?
    ensures var (s', gone) := DeleteProject(s, id).value;
            child in gone && GetProject(s', child) == Err(NotFound)
  {
    assert IsChain(Links(s.live), [child, id], child, id);
  }

  /** update_project as written: not-found unless live; any live parent is accepted. */
  function UpdateProjectAsWritten(s: Store, id: nat, f: Fields, elapsed: nat): (r: Result<(Store, Project)>)
    ensures r.Err? <==> id !in s.live || (f.parentId.Some? && f.parentId.value !in s.live)
    ensures r.Ok? ==>
              var (s', p) := r.value;
              && p.fields == f
              && s'.live == s.live[id := p]
              && s'.versions == s.versions[id := VersionsOf(s, id) + [p]]
  {
    if id !in s.live then Err(NotFound)
    else if f.parentId.Some? && f.parentId.value !in s.live then Err(ParentNotFound)
    else
      var now := s.clock + elapsed;
      var p := s.live[id].(fields := f, lastModified := now);
      Ok((Store(s.live[id := p], s.versions[id := VersionsOf(s, id) + [p]], now, s.nextId), p))
  }

  /**
   Once the frontier holds a project that is its own parent, collect_children
   finds that project among the children of every generation and is never
   exhausted.
   */
  lemma {:induction false} SelfParentNeverExhausted(links: set<Link>, id: nat, frontier: set<nat>, depth: nat)
    requires (id, id) in links && id in frontier
    ensures CollectChildren(links, frontier, depth) == None
    decreases depth
  {
    var kids := ChildrenOf(links, frontier);
    assert id in kids;
    if depth > 0 {
      SelfParentNeverExhausted(links, id, kids, depth - 1);
    }
  }

  /**
   Once the frontier holds one of two projects that are each other's parent,
   collect_children finds the other one, and then the first again, in every
   generation and is never exhausted.
   */
  lemma {:induction false} TwoCycleNeverExhausted(links: set<Link>, a: nat, b: nat, frontier: set<nat>, depth: nat)
    requires (a, b) in links && (b, a) in links
    requires a in frontier || b in frontier
    ensures CollectChildren(links, frontier, depth) == None
    decreases depth
  {
    var kids := ChildrenOf(links, frontier);
    assert a in kids || b in kids;
    if depth > 0 {
      TwoCycleNeverExhausted(links, a, b, kids, depth - 1);
    }
  }

  /**
   Re-parenting a project under one of its own children, which the edit form
   offers since possible_parents excludes only the project itself, is accepted
   as written; deleting the project then always runs out of recursion. The
   corrected update refuses the same request.
   */
  lemma ChildAsParentBreaksDelete(s: Store, id: nat, child: nat, f: Fields, elapsed: nat, depth: nat)
    requires id in s.live && child in s.live && child != id
    requires ParentOf(s.live, child) == Some(id) && f.parentId == Some(child)
    ensures UpdateProjectAsWritten(s, id, f, elapsed).Ok?
    ensures DeleteProjectAsWritten(UpdateProjectAsWritten(s, id, f, elapsed).value.0, id, depth) == Err(RecursionLimit)
    ensures UpdateProject(s, id, f, elapsed) == Err(CycleDetected)
  {
    var s' := UpdateProjectAsWritten(s, id, f, elapsed).value.0;
    assert (id, child) in Links(s'.live) && (child, id) in Links(s'.live);
    TwoCycleNeverExhausted(Links(s'.live), id, child, {id}, depth);
    assert IsChain(Links(s.live), [child, id], child, id);
    SubtreeIsDescendants(Links(s.live), id, child);
  }

  /**
   Making a project its own parent is accepted as written, after which
   deleting it fails with RecursionError however deep the recursion may go;
   the corrected update refuses the same request.
   */
  lemma SelfParentBreaksDelete(s: Store, id: nat, f: Fields, elapsed: nat, depth: nat)
    requires id in s.live && f.parentId == Some(id)
    ensures UpdateProjectAsWritten(s, id, f, elapsed).Ok?
    ensures DeleteProjectAsWritten(UpdateProjectAsWritten(s, id, f, elapsed).value.0, id, depth) == Err(RecursionLimit)
    ensures UpdateProject(s, id, f, elapsed) == Err(CycleDetected)
  {
    var s' := UpdateProjectAsWritten(s, id, f, elapsed).value.0;
    assert (id, id) in Links(s'.live);
    SelfParentNeverExhausted(Links(s'.live), id, {id}, depth);
  }
}
