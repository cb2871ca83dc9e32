/** Rows of operation_events and the filters that the event reads share. */
module Events {
  import opened Wrappers

  datatype Role = Owner | Operator | Viewer | Client

  datatype Visibility = InternalWorkspace | InternalProject | InternalOwnerOnly | PublicSafe

  datatype Status = Queued | Running | Blocked | NeedsReview | Completed | FailedRun | Approved | Rejected
    | ArchivedStatus

  datatype Approval = ApprovalPending | ApprovalGiven | ApprovalRejected

  /**
   Ids are texts in one collation; a number stands for an id's place in it. `principal` is the person
   who authorized the write.
   */
  datatype Event = Event(
    workspace: string, project: Option<string>, source: string, intent: Option<string>, summary: string,
    body: Option<string>,
    status: Status, approval: Option<Approval>, nextAction: Option<string>, visibility: Visibility,
    parent: Option<nat>, principal: Option<string>, occurred: int, archived: Option<int>)

  type Table = map<nat, Event>

  function VisibilityForRole(role: Role): set<Visibility> {
    match role
    case Owner => {InternalWorkspace, InternalProject, InternalOwnerOnly, PublicSafe}
    case Operator => {InternalWorkspace, InternalProject, PublicSafe}
    case Viewer => {InternalProject, PublicSafe}
    case Client => {PublicSafe}
  }

  /** Waits for a person: in review and not yet approved. */
  predicate NeedsYou(e: Event) { e.status == NeedsReview && e.approval != Some(ApprovalGiven) }

  predicate Visible(e: Event, workspace: string, role: Role) {
    e.workspace == workspace && e.archived.None? && e.visibility in VisibilityForRole(role)
  }

  /** The principal is shown to owners and operators only. */
  function Redacted(e: Event, role: Role): Event {
    if role in {Owner, Operator} then e else e.(principal := None)
  }

  datatype Filter = Filter(
    role: Role, project: Option<string>, status: Option<Status>, source: Option<string>,
    parent: Option<nat>, topLevel: bool, attention: bool)

  /** Everything the list statement asks of a row except the page cut; naming a parent beats `topLevel`. */
  predicate Matches(e: Event, workspace: string, f: Filter) {
    && Visible(e, workspace, f.role)
    && (f.project.Some? ==> e.project == f.project)
    && (f.status.Some? ==> e.status == f.status.value)
    && (f.source.Some? ==> e.source == f.source.value)
    && (f.parent.Some? ==> e.parent == f.parent)
    && (f.parent.None? && f.topLevel ==> e.parent.None?)
    && (f.attention ==> NeedsYou(e) || e.status == Blocked)
  }

  function Matching(t: Table, workspace: string, f: Filter): set<nat> {
    set i | i in t && Matches(t[i], workspace, f)
  }
}
