/**
 * The queue entry document: its fields, the status enum and the defaults
 * that are applied when an entry is created (backend/models/Queue.js).
 */
module QueueSchema {
  import opened Wrappers

  /** The four values the status enum admits. */
  datatype Status = Waiting | InProgress | Completed | Cancelled

  /** The literal stored and sent on the wire for each status. */
  function StatusName(s: Status): string
  {
    match s
    case Waiting => "Waiting"
    case InProgress => "In Progress"
    case Completed => "Completed"
    case Cancelled => "Cancelled"
  }

  /** The enum validator: a string names a status only if it is one of the four literals. */
  function ParseStatus(name: string): (r: Option<Status>)
    ensures r.Some? ==> StatusName(r.value) == name
    ensures r.None? ==> forall s: Status :: StatusName(s) != name
  {
    if name == "Waiting" then Some(Waiting)
    else if name == "In Progress" then Some(InProgress)
    else if name == "Completed" then Some(Completed)
    else if name == "Cancelled" then Some(Cancelled)
    else None
  }

  lemma ParseStatusName(s: Status)
    ensures ParseStatus(StatusName(s)) == Some(s)
  {
  }

  /** Statuses that take an entry out of the queue for good. */
  predicate IsTerminal(s: Status) { s == Completed || s == Cancelled }

  /**
   * A stored queue entry. `id` stands for the document id; times are
   * milliseconds since the epoch, wait times are minutes.
   */
  datatype QueueEntry = QueueEntry(
    id: nat,
    studentName: string,
    serviceType: string,
    contactNumber: string,
    position: int,
    estimatedWaitTime: int,
    status: Status,
    joinedAt: int)

  /** The fields handed to the model's constructor; None is a field left out. */
  datatype EntryFields = EntryFields(
    studentName: Option<string>,
    serviceType: Option<string>,
    contactNumber: Option<string>,
    position: Option<int>,
    estimatedWaitTime: Option<int>,
    status: Option<string>,
    joinedAt: Option<int>)

  datatype Error =
    | NotFound
    | ValidationError(paths: seq<string>)

  /** A required string field is satisfied by a non-empty string only. */
  predicate Supplied(field: Option<string>) { field.Some? && field.value != "" }

  predicate StatusAdmitted(field: Option<string>) { field.None? || ParseStatus(field.value).Some? }

  /** Names of the fields that fail validation, in schema order. */
  function FailedPaths(f: EntryFields): (paths: seq<string>)
    ensures paths == [] <==>
      Supplied(f.studentName) && Supplied(f.serviceType) && Supplied(f.contactNumber)
      && f.position.Some? && StatusAdmitted(f.status)
    ensures "position" in paths <==> f.position.None?
    ensures "status" in paths <==> !StatusAdmitted(f.status)
  {
    (if Supplied(f.studentName) then [] else ["studentName"])
    + (if Supplied(f.serviceType) then [] else ["serviceType"])
    + (if Supplied(f.contactNumber) then [] else ["contactNumber"])
    + (if f.position.Some? then [] else ["position"])
    + (if StatusAdmitted(f.status) then [] else ["status"])
  }

  /**
   * Building and validating a new document: the required fields must be
   * present, the status must be one of the enum values, and the defaults
   * (wait 0, status Waiting, joinedAt the creation time) fill what is left out.
   */
  function NewEntry(f: EntryFields, id: nat, now: int): (r: Result<QueueEntry, Error>)
    ensures r.Ok? <==>
      Supplied(f.studentName) && Supplied(f.serviceType) && Supplied(f.contactNumber)
      && f.position.Some? && StatusAdmitted(f.status)
    ensures r.Err? ==> r.error.ValidationError? && r.error.paths != []
    ensures r.Ok? ==>
      && r.value.id == id
      && r.value.studentName == f.studentName.value
      && r.value.serviceType == f.serviceType.value
      && r.value.contactNumber == f.contactNumber.value
      && r.value.position == f.position.value
      && (f.estimatedWaitTime.None? ==> r.value.estimatedWaitTime == 0)
      && (f.estimatedWaitTime.Some? ==> r.value.estimatedWaitTime == f.estimatedWaitTime.value)
      && (f.status.None? ==> r.value.status == Waiting)
      && (f.status.Some? ==> StatusName(r.value.status) == f.status.value)
      && (f.joinedAt.None? ==> r.value.joinedAt == now)
      && (f.joinedAt.Some? ==> r.value.joinedAt == f.joinedAt.value)
  {
    var failed := FailedPaths(f);
    if failed != [] then Err(ValidationError(failed))
    else
      Ok(QueueEntry(
        id,
        f.studentName.value,
        f.serviceType.value,
        f.contactNumber.value,
        f.position.value,
        if f.estimatedWaitTime.Some? then f.estimatedWaitTime.value else 0,
        if f.status.Some? then ParseStatus(f.status.value).value else Waiting,
        if f.joinedAt.Some? then f.joinedAt.value else now))
  }
}
