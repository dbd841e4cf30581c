# plog project and milestone store, modelled in Dafny

plog keeps a tree of projects and a tree of milestones in a SQLite database
behind two controllers. This project models the two controllers and the two
row models as pure transitions over immutable values:

- `ProjectStore` (project_store.dfy) is the project controller. The live projects table is a map keyed by
  `project_id`. Each id has a version history, oldest first, that gains one
  entry per insert or update. The store also carries a clock and the next free
  `project_id`. Operations are add, update, delete (the project with its whole
  subtree), delete by id, get, get all, history (newest first) and the
  `"title (ID n)"` parent-selection map.
- `Hierarchy` (hierarchy.dfy) is the subtree of a parent-link relation. It is computed as a least
  fixpoint with a visited set, and it is proved to be exactly the root and its
  transitive descendants.
- `ProjectModel` and `MilestoneModel` (project.dfy, milestone.dfy) are the row shapes, with their column
  defaults.
- `MilestoneTable` (milestone_table.dfy) is the milestone controller. The table is a sequence of rows.
  Several rows may share an `id` with different `version`s, as the
  controller's queries expect (see "## Left out" on the primary key). Reads
  pick the highest-version row, and delete flags rows instead of removing them.
- `Repository` (repository.dfy) joins the two. A milestone must be owned by a live project, and
  deleting projects deletes the milestones they own.
- `ProjectAsWritten` (project_as_written.dfy) models delete and update as the code writes them. The two
  findings below come from there.

Every operation that can raise returns `Result`, and each `ValueError` of the
source becomes an `Err`. The reads that cannot fail (`GetProjects`, `History`,
`PossibleParents`, `GetMilestones`) return their value directly. A failed call leaves the caller's old value untouched, as an
uncommitted session does. Each write has an invariant lemma: `ProjectStore.Valid`,
`MilestoneTable.Valid` or `Repository.DbValid`. The project invariant says that
parent links point at live projects and form no cycle. It also says every live
project has a non-empty history ending in its current row. The milestone invariant says:

- `(id, version)` pairs are unique;
- titles are unique;
- parents exist;
- all rows of an id belong to one project;
- a child belongs to its parent's project.

The live project table is a map keyed by `project_id`, and a live row always
has `version` 1. So the `(project_id, version)` uniqueness constraint of the
projects table holds by construction.

The milestone tests and the milestone controller disagree in four places.
The model follows the controller in all four:

- tests/test_milestone_controller.py:89-96 add a second milestone titled
  "First test milestone" to the same project and expect both to exist.
  add_milestone (plog/controllers/milestone_controller.py:31-32) refuses any
  title some row already has; `MilestoneTable.AddMilestone` ensures
  `TitleTaken(t.rows, title) ==> r == Err(DuplicateTitle)`.

- tests/test_milestone_controller.py:189-191 expect a second delete of the same
  milestone to raise. delete_milestone
  (plog/controllers/milestone_controller.py:90-100) flags rows without
  filtering on `deleted`, so a second call succeeds again
  (`MilestoneTable.DeleteRepeatable`).
- tests/test_milestone_controller.py:198-201 expect deleted rows to leave the
  table. The controller only flags them (`MilestoneTable.DeletedRowsStillListed`).
  The removal the tests expect is modelled separately as
  `MilestoneTable.DeleteMilestoneTree`.
- tests/test_milestone_controller.py:345-354 call `get_all(project_id=...)`
  and expect only that project's milestones, and plog/pages/milestones.py:26
  calls `get_all(project=project)`. get_milestones
  (plog/controllers/milestone_controller.py:102-108) takes no argument and
  returns `query(Milestone).all()`. `MilestoneTable.GetMilestones` has no
  filter: it returns the rows of every project, deleted ones included, as its
  `multiset(r) == multiset(t.rows)` ensures states.

Project deletion, by contrast, is a hard delete: `delete_project` calls
`session.delete` (plog/controllers/project_controller.py:78). The model removes
the rows from the live table and keeps their history.

## Model

| member | source | states |
|---|---|---|
| Common.NatToString | plog/controllers/project_controller.py:135 | the decimal rendering of an id is a non-empty string of digits |
| Common.NatToStringRoundTrip | plog/controllers/project_controller.py:135 | reading the rendered digits back gives the id again |
| Common.NatToStringInjective | plog/controllers/project_controller.py:135 | different ids render to different digit strings |
| Hierarchy.Closure | plog/controllers/project_controller.py:62-68 | the collected set contains the start set, is closed under children and is contained in every other such set |
| Hierarchy.Subtree | plog/controllers/project_controller.py:62-68 | the subtree holds its root, only ids that are children of some link, and every child of its members |
| Hierarchy.SubtreeIsDescendants | plog/controllers/project_controller.py:53-68 | an id is in the subtree exactly when a chain of parent links leads from it to the root |
| ProjectModel.Materialize | plog/models/project.py:33-40 | insertion fails without a title; each free-text column keeps its given value and becomes "" when unset; dates and parent are kept as given |
| ProjectModel.MaterializeDraftOf | plog/models/project.py:33-40 | storing a fully specified project keeps every attribute as given |
| ProjectModel.NewRow | plog/models/project.py:31-41 | a new row has `version` 1, is not deleted, and has equal creation and modification stamps |
| ProjectStore.Links | plog/models/project.py:40-43 | a (child, parent) pair is a link exactly when the child is live and its `parent_id` is the parent |
| ProjectStore.GetProject | plog/controllers/project_controller.py:101-112 | succeeds exactly for a live id and returns its row; otherwise not-found |
| ProjectStore.GetProjects | plog/controllers/project_controller.py:93-99 | lists every live project exactly once, with its current row, and nothing else |
| ProjectStore.History | plog/controllers/project_controller.py:114-121 | the versions of a project, newest first: entry i is version count - i |
| ProjectStore.Reverse | plog/controllers/project_controller.py:121 | the `[::-1]` slice: same length, entry i is entry count - 1 - i of the input |
| ProjectStore.HistoryHeadIsCurrent | plog/controllers/project_controller.py:121 | the first history entry of a live project is its current row |
| ProjectStore.Label | plog/controllers/project_controller.py:135 | the label `"title (ID n)"` starts with the title, ends in `)` and is six characters longer than the title and the digits of the id together |
| ProjectStore.LabelInjective | plog/controllers/project_controller.py:135 | two parent-selection labels are equal only for the same title and id |
| ProjectStore.LabelsDistinct | plog/controllers/project_controller.py:131-135 | two different live projects never share a label, so no dict entry overwrites another |
| ProjectStore.PossibleParents | plog/controllers/project_controller.py:123-135 | the keys are exactly the labels of the live projects other than the excluded one, each mapped to its own id |
| ProjectStore.AddProject | plog/controllers/project_controller.py:20-34 | fails exactly without a title or with a parent that is not live; otherwise inserts a fresh id with equal timestamps not before the clock and exactly one version |
| ProjectStore.AddKeepsValid | plog/controllers/project_controller.py:20-34 | adding keeps the store invariant; the new id was never used and its history is the new row alone |
| ProjectStore.InsertKeepsValid | plog/models/project.py:21-43 | inserting a fresh row with a live parent keeps parents live, links acyclic and histories consistent |
| ProjectStore.InsertKeepsAcyclic | plog/models/project.py:40-43 | a new project under a live parent closes no cycle of parent links |
| ProjectStore.ParentAccepted | plog/models/project.py:40-43 | corrected (see Findings): a parent is accepted exactly when it is absent, or live and not a descendant of the project (the project itself included) |
| ProjectStore.UpdateProject | plog/controllers/project_controller.py:36-51 | corrected (see Findings): not-found exactly when the id is not live; a parent that is not live or inside the project's own subtree is refused; otherwise the fields are replaced, `created` kept, `last_modified` advanced and the new state appended to the history |
| ProjectStore.UpdateKeepsValid | plog/controllers/project_controller.py:36-51 | an accepted update keeps the store invariant, parent links acyclic included |
| ProjectStore.ReplaceKeepsValid | plog/controllers/project_controller.py:44-50 | replacing a live row by a newer state with an accepted parent, appended to its history, keeps the invariant |
| ProjectStore.RelinkKeepsAcyclic | plog/models/project.py:40-43 | re-linking a project to a parent outside its own subtree closes no cycle |
| ProjectStore.UpdateRecordsPreviousVersion | tests/test_project_controller.py:180-196 | after an update the history has one more entry at the front, and the entry after it is the pre-update row with its old fields, parent and timestamps |
| ProjectStore.UpdatesGrowHistory | tests/test_project_controller.py:335-367 | after n updates the history has grown by n, its newest entry is the current row, `created` is unchanged and `last_modified` has not gone back |
| ProjectStore.AddThenUpdates | tests/test_project_controller.py:335-367 | a project added and updated n times has n + 1 versions, newest the current row and oldest the inserted row |
| ProjectStore.HistoryKeepsOldest | plog/controllers/project_controller.py:114-121 | updates only add newer versions; the older entries keep their places |
| ProjectStore.DeleteProject | plog/controllers/project_controller.py:53-80 | corrected (see Findings): not-found exactly when the id is not live; otherwise the removed rows are exactly the root and its descendants, everything else stays as it was, and the history is kept |
| ProjectStore.DeleteById | plog/controllers/project_controller.py:82-91 | fails exactly for an id that is not live and otherwise is delete_project on it |
| ProjectStore.RemoveKeepsAcyclic | plog/controllers/project_controller.py:78-79 | removing projects leaves every remaining parent chain finite |
| ProjectStore.RemoveSubtreeKeepsParents | plog/models/project.py:40 | after removing a subtree no surviving project's parent link dangles |
| ProjectStore.DeleteKeepsValid | plog/controllers/project_controller.py:53-80 | deleting keeps the store invariant |
| ProjectStore.DeleteTwiceFails | tests/test_project_controller.py:238-239 | a second delete of the same id fails with not-found, through either entry point |
| ProjectStore.DeleteFrame | tests/test_project_controller.py:241-245 | after a delete, get fails for the root and every descendant and returns every other project unchanged |
| ProjectAsWritten.CollectChildren | plog/controllers/project_controller.py:62-68 | when the recursion finishes, the collected ids are the least set closed under children that holds the start's children |
| ProjectAsWritten.CollectChildrenIsSubtree | plog/controllers/project_controller.py:74-76 | the root plus what collect_children finds is exactly the subtree |
| ProjectAsWritten.DeleteProjectAsWritten | plog/controllers/project_controller.py:53-80 | as written: returns the root and its collected descendants, but removes only the root and clears the parent of its direct children |
| ProjectAsWritten.DeleteAsWrittenLeavesChildren | plog/models/project.py:43 | a direct child is reported as removed yet is still live afterwards, now without a parent |
| ProjectAsWritten.DeleteRemovesChildren | plog/controllers/project_controller.py:53-60 | the corrected delete removes every direct child too |
| ProjectAsWritten.UpdateProjectAsWritten | plog/controllers/project_controller.py:36-51 | as written: fails only for an id or a parent that is not live, and accepts any live parent |
| ProjectAsWritten.SelfParentNeverExhausted | plog/controllers/project_controller.py:62-68 | collect_children never finishes once a project that is its own parent is in the frontier |
| ProjectAsWritten.SelfParentBreaksDelete | plog/controllers/project_controller.py:36-80 | making a project its own parent is accepted as written, and deleting it then always runs out of recursion; the corrected update refuses it |
| ProjectAsWritten.TwoCycleNeverExhausted | plog/controllers/project_controller.py:62-68 | collect_children never finishes once the frontier holds one of two projects that are each other's parent |
| ProjectAsWritten.ChildAsParentBreaksDelete | plog/controllers/project_controller.py:36-80 | re-parenting a project under its own child is accepted as written, and deleting it then always runs out of recursion; the corrected update refuses it |
| MilestoneModel.NewMilestone | plog/controllers/milestone_controller.py:33-40 | a new milestone carries exactly the given fields, acceptance criteria "" when unset, `version` 1, not deleted, equal timestamps |
| MilestoneTable.LatestIn | plog/controllers/milestone_controller.py:58-63 | returns a candidate of highest version, the earliest such row on a tie, and none exactly when there is no candidate |
| MilestoneTable.Latest | plog/controllers/milestone_controller.py:118-123 | over the whole table: a highest-version candidate row, or none exactly when no row qualifies |
| MilestoneTable.TitleTaken | plog/controllers/milestone_controller.py:31 | the unfiltered `filter_by(title=...)` query (also at line 67), over deleted rows too; it carries no contract of its own, and what it finds is stated by `MilestoneTable.TitleNamesOneRow` |
| MilestoneTable.TitleNamesOneRow | plog/controllers/milestone_controller.py:67-69 | with unique titles, a title taken by the unfiltered `filter_by(title=...)` query is carried by exactly one row, deleted or not |
| MilestoneTable.LatestIsTheMaximum | plog/controllers/milestone_controller.py:58-63 | with unique `(id, version)` pairs, a candidate of maximal version is the row `order_by(version.desc()).first()` selects |
| MilestoneTable.GetMilestone | plog/controllers/milestone_controller.py:110-126 | succeeds exactly when some non-deleted row has the id, and returns one of maximal version among them; otherwise not-found |
| MilestoneTable.GetMilestones | plog/controllers/milestone_controller.py:102-108 | returns every row of the table, deleted ones included, each as often as it occurs |
| MilestoneTable.Owner | tests/test_milestone_controller.py:101-111 | with a parent, the owner is the parent's project and exists exactly when the parent does; without one, the project supplied |
| MilestoneTable.AddMilestone | plog/controllers/milestone_controller.py:18-43 | a taken title fails first; a missing parent or owner fails next; an owner that is not a live project fails with project-not-found; otherwise one row with exactly the given fields, a fresh id, `version` 1 and equal timestamps is appended |
| MilestoneTable.Renames | plog/controllers/milestone_controller.py:66 | an update renames only for a given, non-empty title (Python truthiness) that differs from the current one |
| MilestoneTable.AppendKeepsValid | plog/controllers/milestone_controller.py:31-42 | appending a row with a fresh id, an untaken title and an existing parent of the same project keeps the invariant |
| MilestoneTable.ParentProjectShared | tests/test_milestone_controller.py:107-111 | every row of the parent belongs to the project the child adopts |
| MilestoneTable.AppendedIsCurrent | plog/controllers/milestone_controller.py:41-43 | a live row appended under a fresh id is what get_milestone returns for it |
| MilestoneTable.AddKeepsValid | plog/controllers/milestone_controller.py:18-43 | adding keeps the invariant; the new id was not in use, and get_milestone returns the new row |
| MilestoneTable.UpdateMilestone | plog/controllers/milestone_controller.py:45-80 | not-found exactly when no row has the id; edits the highest-version row, deleted or not; a rename to a taken title fails; only the given arguments overwrite; `version` goes up by one; nothing else changes |
| MilestoneTable.ReplaceKeepsValid | plog/controllers/milestone_controller.py:66-78 | replacing a row by a newer version of it with its old or an untaken title keeps the invariant |
| MilestoneTable.UpdateKeepsValid | plog/controllers/milestone_controller.py:45-80 | updating keeps the invariant, and get_milestone returns the edited row when it is not deleted |
| MilestoneTable.Flag | plog/controllers/milestone_controller.py:97-98 | every row of the id is marked deleted and every other row is unchanged, in place |
| MilestoneTable.Select | plog/models/milestone.py:33-37 | keeps exactly the rows whose id is (or is not) in the given set |
| MilestoneTable.SelectCounts | plog/controllers/milestone_controller.py:90-94 | selection keeps each selected row exactly as often as the table holds it |
| MilestoneTable.DeleteMilestone | plog/controllers/milestone_controller.py:82-100 | not-found exactly when no row has the id; otherwise flags every row of the id, leaves the rest, and returns exactly the flagged rows, each as often as the table holds it |
| MilestoneTable.DeleteIsFlag | plog/controllers/milestone_controller.py:90-99 | the table after delete is the flagged table |
| MilestoneTable.FlagMembers | plog/controllers/milestone_controller.py:97-98 | after flagging, every row of the id is deleted and the rows of other ids are exactly the old ones |
| MilestoneTable.FlagKeepsValid | plog/controllers/milestone_controller.py:97-99 | flagging the rows of an id keeps the invariant |
| MilestoneTable.DeleteKeepsValid | plog/controllers/milestone_controller.py:82-126 | deleting keeps the invariant, and get_milestone then fails for the id |
| MilestoneTable.DeleteLeavesOthers | plog/controllers/milestone_controller.py:90-99 | deleting one id leaves get_milestone of every other id as it was |
| MilestoneTable.DeleteRepeatable | plog/controllers/milestone_controller.py:90-100 | a second delete of the same id succeeds, changes nothing and returns the same rows |
| MilestoneTable.UpdateKeepsDeleted | plog/controllers/milestone_controller.py:58-65 | an edit without rename of a milestone whose rows are all deleted succeeds and leaves them all deleted |
| MilestoneTable.UpdateAfterDelete | plog/controllers/milestone_controller.py:58-65 | after delete, update still finds and edits the milestone, while get_milestone keeps failing |
| MilestoneTable.DeletedRowsStillListed | plog/controllers/milestone_controller.py:102-108 | after delete, get_milestones still lists every row, the flagged ones marked deleted |
| MilestoneTable.MilestoneLinks | plog/models/milestone.py:29 | the (child, parent) links are exactly the parent ids of the rows |
| MilestoneTable.DeleteMilestoneTree | plog/models/milestone.py:33-37 | assuming the cascade reaches the whole subtree: not-found exactly when no row has the id; otherwise removes exactly the rows of the milestone and its descendants and keeps every other row |
| MilestoneTable.SelectKeepsRows | plog/models/milestone.py:33-37 | removing rows keeps the remaining ones pairwise compatible and stamped |
| MilestoneTable.DeleteTreeKeepsValid | tests/test_milestone_controller.py:182-201 | the cascading delete keeps the invariant; get fails for the milestone and every descendant and answers every other id as before |
| MilestoneTable.LinkedAppend | plog/models/milestone.py:28-29 | a fresh id whose parent exists and shares its project keeps the links consistent |
| MilestoneTable.LinkedPrune | plog/models/milestone.py:33-37 | removing a set of ids closed under children keeps the links consistent |
| Repository.AddMilestoneTo | plog/models/milestone.py:28 | succeeds exactly when add_milestone on the table with the live projects as owners does, with the same table, new milestone and error; the owner is then a live project and the projects are untouched; a parentless milestone with a project that is not live is refused |
| Repository.DeleteProjectFrom | plog/models/project.py:44 | not-found exactly when the project is not live; otherwise the project delete happens, and exactly the milestones owned by removed projects leave the table and are returned, each as often as the table held it, while the other rows all stay, duplicates included |
| Repository.SelectOwners | plog/models/project.py:44 | keeps exactly the milestone rows whose owner is (or is not) in the given set |
| Repository.SelectOwnersCounts | plog/models/project.py:44 | selection by owner keeps each selected row exactly as often as the table holds it |
| Repository.SelectOwnersIsSelect | plog/models/milestone.py:28-29 | when an owner determines its ids, selecting by owner is selecting by id |
| Repository.PruneOwnersKeepsValid | plog/models/project.py:44 | removing the milestones of some projects keeps the milestone invariant, since children share their parent's project |
| Repository.AddMilestoneKeepsDbValid | plog/models/milestone.py:28 | a milestone with a free title and a live owner is added, and every milestone stays owned by a live project |
| Repository.DeleteProjectKeepsDbValid | plog/models/project.py:44 | deleting projects with their milestones keeps both invariants and leaves no milestone without its project |
| Repository.UpdateProjectKeepsDbValid | plog/controllers/project_controller.py:36-51 | updating a project keeps the repository invariant |
| Repository.AddProjectKeepsDbValid | plog/controllers/project_controller.py:20-34 | adding a project keeps the repository invariant |
| Repository.UpdateMilestoneKeepsDbValid | plog/controllers/milestone_controller.py:45-80 | an accepted milestone edit keeps the repository invariant, since the owner of the edited row does not change |
| Repository.DeleteMilestoneTreeKeepsDbValid | plog/models/milestone.py:33-37 | the cascading milestone delete keeps the repository invariant, since it only removes rows |
| Repository.DeleteMilestoneKeepsDbValid | plog/controllers/milestone_controller.py:82-100 | soft-deleting milestones keeps every row owned by a live project |

## Left out

- User interface: the Streamlit pages, forms, dialogs, the launcher and the application start-up are not part of this model.
- Sessions: engine set-up, commit mechanics and query building are abstracted. A failed operation returns `Err`, and the caller keeps the old value.
- History extension: its mechanics are abstracted to an explicit list of versions per `project_id`, one entry per insert or update.
- Wall clock: `datetime.now` is injected as the store's clock plus an `elapsed` argument, so stamps never go back.
- ProjectStore.AddProject: the fresh `project_id` from a counter is a repair that follows the tests (tests/test_project_controller.py:75 expects an id after add). As written, `project_id` (plog/models/project.py:31) is NOT NULL with no default, and only `id` (:30) autoincrements, so an add without a caller-supplied `project_id` fails on insert. That failure is not modelled.
- Foreign keys: the declared keys (`parent_id`, `milestones.project_id`) are modelled as enforced. SQLite does not enforce them unless asked.
- Project timestamps: plog/models/project.py declares neither `created`, `last_modified` nor versioning. The model follows the controller and the tests, which read all three.
- Milestone versions and soft delete: plog/models/milestone.py:15-31 declares neither a `version` nor a `deleted` column. As written, `Milestone.version` (plog/controllers/milestone_controller.py:61, :121) and `Milestone.deleted` (:120) raise AttributeError, so every update_milestone and get_milestone call fails, and `milestone.deleted = 1` (:98) sets an unmapped attribute that is never stored. `MilestoneModel.Milestone` adds both columns, and the `MilestoneTable` reads and writes use them as the controller does.
- Milestone primary key: `id` alone is the primary key (plog/models/milestone.py:22), so the table as declared holds one row per id. The controller's queries (newest version of an id at :58-63 and :118-123, every row of an id at :90-98) expect several versions per id, and `MilestoneTable` follows them: its rows may share an `id`, and only `(id, version)` pairs are unique (`MilestoneTable.AllCompatible`).
- ProjectAsWritten.CollectChildren: the returned list is modelled as a set. A child reached twice would appear twice in the Python list.
- Recursion depth: Python's limit is a `depth` parameter, and `RecursionLimit` stands for the RecursionError.
- ProjectAsWritten.SelfParentNeverExhausted: this is weaker than the general promise. It and `ProjectAsWritten.TwoCycleNeverExhausted` cover cycles of one and two projects, not every longer cycle through a project's descendants.
- Milestone parent and history listings: the milestone controller defines neither possible_parents nor get_milestone_history, so neither is modelled.
- MilestoneTable.AddMilestone: this is weaker than a literal copy of add_milestone. The controller signature has no project argument and sets no timestamps. The model takes the owning project explicitly and stamps `created = last_modified = now`, because both columns are NOT NULL.
- MilestoneTable.AddMilestone: ids come from a counter that never hands an id out twice. `milestones.id` (plog/models/milestone.py:22) is an INTEGER PRIMARY KEY without AUTOINCREMENT, so SQLite assigns one more than the largest id present. After a hard delete of the newest milestone (`MilestoneTable.DeleteMilestoneTree`, `Repository.DeleteProjectFrom`), the next add reuses its id, while the model hands out a larger one. Id reuse is not modelled.
- MilestoneTable.Owner: this follows the tests. Project propagation from the parent ("the parent's project wins") is asserted by the tests but not implemented in the controller code shown.
- MilestoneTable.UpdateMilestone: it takes no project or parent argument, so the propagation tested on update holds because ownership never changes.
- MilestoneTable.UpdateMilestone: `last_modified` is left unchanged, as the code does. tests/test_milestone_controller.py:252 only asks that it not go back, which this satisfies.
- MilestoneModel.NewMilestone: storing "" for unset acceptance criteria is a repair that uses the column default (plog/models/milestone.py:27). As written, `acceptance_criteria or []` (plog/controllers/milestone_controller.py:39) passes a Python list, which the SQLite driver cannot bind, so an add without acceptance criteria raises on insert. That failure is not modelled.
- MilestoneTable.DeleteMilestoneTree: delete_milestone only flags rows. The tests expect a hard cascading delete, which is modelled separately as the cascade of the `children` backref. The model assumes the cascade reaches the whole subtree. With `passive_deletes=True` (plog/models/milestone.py:36) and no ON DELETE rule on `parent_id` (:29), the ORM cascades only to children already loaded in the session.
- Dates: they are opaque `(year, month, day)` triples, and no calendar arithmetic is needed. Field lengths (`String(255)`) are not modelled.

## Findings

| source | as written | input that shows it | evidently intended | confidence | as-written member | corrected member |
|---|---|---|---|---|---|---|
| plog/models/project.py:43 | the `children` backref has no delete cascade, so `session.delete(project)` removes only the root and sets its children's `parent_id` to NULL, while delete_project returns the whole subtree as removed | project 1 with child 2; delete_project(1) returns [1, 2] but get_project(2) still succeeds, now with no parent | every project returned by delete_project leaves the table, as the docstring and tests/test_project_controller.py:231-245 say | medium, not executed | ProjectAsWritten.DeleteAsWrittenLeavesChildren | ProjectAsWritten.DeleteRemovesChildren |
| plog/controllers/project_controller.py:36-51 | update_project accepts any parent, including the project itself or one of its descendants | set project 1's `parent_id` to 1, or, with project 2 a child of 1, set project 1's `parent_id` to 2 (the edit form offers it, since possible_parents excludes only the project itself); delete_project(1) then recurses until RecursionError (`ProjectAsWritten.ChildAsParentBreaksDelete` for the second case) | a parent link never closes a cycle, so deletion always finishes | medium, not executed | ProjectAsWritten.SelfParentBreaksDelete | ProjectStore.UpdateKeepsValid |
