/**
 The shape of a milestone row as the milestone controller uses it: the
 attributes of plog/models/milestone.py (title, description, the two baseline
 dates, acceptance criteria, owning project, parent milestone, timestamps)
 plus the `version` and `deleted` columns the controller reads and writes.
 */
module MilestoneModel {
  import opened Common

  /** One row of the milestones table; timestamps are ticks of an injected clock. */
  datatype Milestone = Milestone(
    id: nat,
    version: nat,
    deleted: bool,
    title: string,
    description: string,
    initialBaselineDate: Option<Date>,
    latestBaselineDate: Option<Date>,
    acceptanceCriteria: string,
    projectId: nat,
    parentId: Option<nat>,
    created: nat,
    lastModified: nat)

  /**
   A freshly inserted milestone: `version` 1, not deleted, both timestamps the
   same instant; acceptance criteria left unset are stored empty.
   */
  function NewMilestone(id: nat, title: string, description: string, initial: Option<Date>,
                        latest: Option<Date>, acceptance: Option<string>, projectId: nat,
                        parentId: Option<nat>, now: nat): (m: Milestone)
    ensures m.id == id && m.title == title && m.description == description
    ensures m.initialBaselineDate == initial && m.latestBaselineDate == latest
    ensures acceptance.Some? ==> m.acceptanceCriteria == acceptance.value
    ensures acceptance.None? ==> m.acceptanceCriteria == ""
    ensures m.projectId == projectId && m.parentId == parentId
    ensures m.version == 1 && !m.deleted
    ensures m.created == m.lastModified == now
  {
    Milestone(id, 1, false, title, description, initial, latest, acceptance.GetOr(""), projectId, parentId, now, now)
  }
}
