/**
 The shape of a project row (plog/models/project.py): the free-text
 attributes, the optional dates and parent link, the `version` and `deleted`
 columns with their defaults, and the creation/modification timestamps.
 */
module ProjectModel {
  import opened Common

  /** The attributes a user edits: everything except identity, bookkeeping columns and timestamps. */
  datatype Fields = Fields(
    title: string,
    description: string,
    organization: string,
    projectManager: string,
    projectSponsor: string,
    initiationDate: Option<Date>,
    closureDate: Option<Date>,
    parentId: Option<nat>)

  /**
   A project as the caller constructs it before it is first stored: any
   attribute may be left unset, and the column defaults fill it in on insert.
   */
  datatype Draft = Draft(
    title: Option<string>,
    description: Option<string>,
    organization: Option<string>,
    projectManager: Option<string>,
    projectSponsor: Option<string>,
    initiationDate: Option<Date>,
    closureDate: Option<Date>,
    parentId: Option<nat>)

  /** One row of the projects table; timestamps are ticks of an injected clock. */
  datatype Project = Project(
    projectId: nat,
    version: nat,
    deleted: bool,
    fields: Fields,
    created: nat,
    lastModified: nat)

  /** The draft that sets every attribute of `f` explicitly. */
  function DraftOf(f: Fields): Draft {
    Draft(Some(f.title), Some(f.description), Some(f.organization), Some(f.projectManager),
          Some(f.projectSponsor), f.initiationDate, f.closureDate, f.parentId)
  }

  /**
   The stored attributes of a draft on insert: the title is NOT NULL and has no
   default, the four free-text columns default to the empty string, the dates
   and the parent link stay null when unset.
   */
  function Materialize(d: Draft): (r: Result<Fields>)
    ensures r.Ok? <==> d.title.Some?
    ensures r.Err? ==> r.error == MissingTitle
    ensures r.Ok? ==> r.value.title == d.title.value
    ensures r.Ok? ==> d.description.Some? ==> r.value.description == d.description.value
    ensures r.Ok? ==> d.description.None? ==> r.value.description == ""
    ensures r.Ok? ==> d.organization.Some? ==> r.value.organization == d.organization.value
    ensures r.Ok? ==> d.organization.None? ==> r.value.organization == ""
    ensures r.Ok? ==> d.projectManager.Some? ==> r.value.projectManager == d.projectManager.value
    ensures r.Ok? ==> d.projectManager.None? ==> r.value.projectManager == ""
    ensures r.Ok? ==> d.projectSponsor.Some? ==> r.value.projectSponsor == d.projectSponsor.value
    ensures r.Ok? ==> d.projectSponsor.None? ==> r.value.projectSponsor == ""
    ensures r.Ok? ==> r.value.initiationDate == d.initiationDate && r.value.closureDate == d.closureDate
    ensures r.Ok? ==> r.value.parentId == d.parentId
  {
    match d.title
    case None => Err(MissingTitle)
    case Some(t) =>
      Ok(Fields(t, d.description.GetOr(""), d.organization.GetOr(""), d.projectManager.GetOr(""),
                d.projectSponsor.GetOr(""), d.initiationDate, d.closureDate, d.parentId))
  }

  /** Storing a fully specified draft keeps every attribute as given. */
  lemma MaterializeDraftOf(f: Fields)
    ensures Materialize(DraftOf(f)) == Ok(f)
  {
  }

  /** A freshly inserted row: `version` 1, not deleted, both timestamps the same instant. */
  function NewRow(id: nat, f: Fields, now: nat): (p: Project)
    ensures p.projectId == id && p.fields == f
    ensures p.version == 1 && !p.deleted
    ensures p.created == p.lastModified == now
  {
    Project(id, 1, false, f, now, now)
  }
}
