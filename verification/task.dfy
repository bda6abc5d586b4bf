/** The `Task` entity: a record built from a draft, and the business methods
    that return an updated record (or the exception the Java method throws).
    Times are milliseconds, and the caller supplies `now`. */
module Tasks {

  import opened Wrappers
  import opened JavaText
  import opened Ids
  import opened TaskStatus
  import opened TaskPriority
  import opened TaskCategory

  const MillisPerHour: int := 3_600_000

  /** The mutable state of one task. Status, priority and the archive flag
      may be null when the builder was told so; the auditing columns
      `createdAt`, `updatedAt` and `version` belong to the persistence layer. */
  datatype Task = Task(
    id: TaskId,
    title: string,
    description: Option<string>,
    status: Option<Status>,
    priority: Option<Priority>,
    category: Option<Category>,
    assignedTo: UserId,
    createdBy: UserId,
    dueDate: Option<int>,
    completedAt: Option<int>,
    estimatedHours: Option<int>,
    actualHours: Option<int>,
    isArchived: Option<bool>)

  /** `Task.Builder` before `build()`: every field may still be null. */
  datatype Draft = Draft(
    id: Option<TaskId>,
    title: Option<string>,
    description: Option<string>,
    status: Option<Status>,
    priority: Option<Priority>,
    category: Option<Category>,
    assignedTo: Option<UserId>,
    createdBy: Option<UserId>,
    dueDate: Option<int>,
    estimatedHours: Option<int>,
    isArchived: Option<bool>)

  /** `new Task.Builder()`: status TODO, priority MEDIUM, not archived. */
  function NewDraft(): (d: Draft)
    ensures d.status == Some(Todo) && d.priority == Some(Medium) && d.isArchived == Some(false)
    ensures d.id.None? && d.title.None? && d.assignedTo.None? && d.createdBy.None?
  {
    Draft(None, None, None, Some(Todo), Some(Medium), None, None, None, None, None, Some(false))
  }

  /** The bookkeeping invariant of `completedAt`: a task that is not completed
      carries no completion time. */
  predicate CompletionConsistent(t: Task)
  {
    t.status != Some(Completed) ==> t.completedAt.None?
  }

  /** `Builder.build()`: the id, title, assignee and creator must be present,
      checked in that order. */
  function Build(d: Draft): (r: Result<Task, Exception>)
    ensures r.Success? <==> d.id.Some? && d.title.Some? && d.assignedTo.Some? && d.createdBy.Some?
    ensures d.id.None? ==> r == Failure(NullPointer("Task ID cannot be null"))
    ensures d.id.Some? && d.title.None? ==> r == Failure(NullPointer("Title cannot be null"))
    ensures d.id.Some? && d.title.Some? && d.assignedTo.None?
            ==> r == Failure(NullPointer("Assigned user cannot be null"))
    ensures d.id.Some? && d.title.Some? && d.assignedTo.Some? && d.createdBy.None?
            ==> r == Failure(NullPointer("Created by user cannot be null"))
    ensures r.Failure? ==> r.error.NullPointer?
    ensures r.Success? ==>
              && r.value.id == d.id.value && r.value.title == d.title.value
              && r.value.assignedTo == d.assignedTo.value && r.value.createdBy == d.createdBy.value
              && r.value.description == d.description && r.value.status == d.status
              && r.value.priority == d.priority && r.value.category == d.category
              && r.value.dueDate == d.dueDate && r.value.estimatedHours == d.estimatedHours
              && r.value.isArchived == d.isArchived
    ensures r.Success? ==> r.value.completedAt.None? && r.value.actualHours.None?
  {
    var id :- RequireNonNull(d.id, "Task ID cannot be null");
    var title :- RequireNonNull(d.title, "Title cannot be null");
    var assignee :- RequireNonNull(d.assignedTo, "Assigned user cannot be null");
    var creator :- RequireNonNull(d.createdBy, "Created by user cannot be null");
    Success(Task(id, title, d.description, d.status, d.priority, d.category, assignee, creator,
                 d.dueDate, None, d.estimatedHours, None, d.isArchived))
  }

  /** A task built from the builder's defaults is a fresh, unarchived TODO task
      of medium priority, and every built task keeps the completion invariant. */
  lemma BuildDefaults(id: TaskId, title: string, assignee: UserId, creator: UserId)
    ensures var r := Build(NewDraft().(id := Some(id), title := Some(title),
                                      assignedTo := Some(assignee), createdBy := Some(creator)));
            && r.Success?
            && r.value.status == Some(Todo) && r.value.priority == Some(Medium)
            && r.value.isArchived == Some(false) && !IsOverdue(r.value, 0)
  {
  }

  lemma BuildConsistent(d: Draft)
    requires Build(d).Success?
    ensures CompletionConsistent(Build(d).value)
  {
  }

  /** `updateStatus(newStatus)`. The transition table is not consulted: any
      non-null target is accepted. Entering COMPLETED stamps `completedAt`,
      leaving it clears the stamp, and no other field changes. */
  function UpdateStatus(t: Task, newStatus: Option<Status>, now: int): (r: Result<Task, Exception>)
    ensures newStatus.None? <==> r.Failure?
    ensures r.Failure? ==> r.error == IllegalArgument("Task status cannot be null")
    ensures r.Success? ==> r.value.status == newStatus
    ensures r.Success? && t.status != Some(Completed) && newStatus == Some(Completed)
            ==> r.value.completedAt == Some(now)
    ensures r.Success? && t.status == Some(Completed) && newStatus != Some(Completed)
            ==> r.value.completedAt.None?
    ensures r.Success? && (t.status == Some(Completed) <==> newStatus == Some(Completed))
            ==> r.value.completedAt == t.completedAt
    ensures r.Success? ==> r.value.(status := t.status, completedAt := t.completedAt) == t
  {
    if newStatus.None? then
      Failure(IllegalArgument("Task status cannot be null"))
    else
      var target := newStatus.value;
      var stamp :=
        if t.status == Some(Completed) && target != Completed then None
        else if target == Completed && t.status != Some(Completed) then Some(now)
        else t.completedAt;
      Success(t.(status := newStatus, completedAt := stamp))
  }

  /** Moves the transition table forbids are still carried out. */
  lemma UpdateStatusIgnoresTable(t: Task, target: Status, now: int)
    requires t.status.Some? && !CanTransitionTo(t.status.value, target)
    ensures UpdateStatus(t, Some(target), now).Success?
    ensures UpdateStatus(t, Some(target), now).value.status == Some(target)
  {
  }

  /** Every status change keeps the completion invariant, and a task that
      enters COMPLETED records when it did. */
  lemma UpdateStatusConsistent(t: Task, target: Status, now: int)
    requires CompletionConsistent(t)
    ensures CompletionConsistent(UpdateStatus(t, Some(target), now).value)
    ensures target == Completed && t.status != Some(Completed)
            ==> UpdateStatus(t, Some(target), now).value.completedAt == Some(now)
  {
  }

  /** `complete()` is `updateStatus(COMPLETED)`, which cannot throw. */
  function Complete(t: Task, now: int): (r: Task)
    ensures r.status == Some(Completed)
    ensures r.completedAt == if t.status == Some(Completed) then t.completedAt else Some(now)
    ensures UpdateStatus(t, Some(Completed), now) == Success(r)
  {
    UpdateStatus(t, Some(Completed), now).value
  }

  /** Completing twice keeps the first completion time. */
  lemma CompleteIdempotent(t: Task, now: int, later: int)
    ensures Complete(Complete(t, now), later) == Complete(t, now)
  {
  }

  /** Reopening a completed task and completing it again stamps the new time. */
  lemma ReopenRestamps(t: Task, now: int, later: int)
    requires t.status == Some(Completed)
    ensures var reopened := UpdateStatus(t, Some(InProgress), now).value;
            reopened.completedAt.None? && Complete(reopened, later).completedAt == Some(later)
  {
  }

  /** `assignTo(userId)`. */
  function AssignTo(t: Task, user: Option<UserId>): (r: Result<Task, Exception>)
    ensures r.Success? <==> user.Some?
    ensures r.Failure? ==> r.error == NullPointer("Assigned user ID cannot be null")
    ensures r.Success? ==> r.value.assignedTo == user.value && r.value.(assignedTo := t.assignedTo) == t
  {
    var u :- RequireNonNull(user, "Assigned user ID cannot be null");
    Success(t.(assignedTo := u))
  }

  /** `updatePriority(newPriority)`. */
  function UpdatePriority(t: Task, priority: Option<Priority>): (r: Result<Task, Exception>)
    ensures r.Success? <==> priority.Some?
    ensures r.Failure? ==> r.error == NullPointer("Priority cannot be null")
    ensures r.Success? ==> r.value.priority == priority && r.value.(priority := t.priority) == t
  {
    var p :- RequireNonNull(priority, "Priority cannot be null");
    Success(t.(priority := Some(p)))
  }

  /** `updateDetails(title, description)`: a blank or null title keeps the old
      one; the description is always replaced, by its trim or by null. */
  function UpdateDetails(t: Task, title: Option<string>, description: Option<string>): (r: Task)
    ensures title.Some? && !IsBlank(title.value) ==> r.title == Trim(title.value)
    ensures title.None? || IsBlank(title.value) ==> r.title == t.title
    ensures description.None? <==> r.description.None?
    ensures description.Some? ==> r.description == Some(Trim(description.value))
    ensures r.(title := t.title, description := t.description) == t
  {
    var newTitle := if title.Some? && Trim(title.value) != [] then Trim(title.value) else t.title;
    var newDescription := if description.Some? then Some(Trim(description.value)) else None;
    t.(title := newTitle, description := newDescription)
  }

  /** A title written by `updateDetails` is never blank, and the new
      description, if any, is trimmed. */
  lemma UpdateDetailsTrims(t: Task, title: Option<string>, description: Option<string>)
    requires !IsBlank(t.title)
    ensures !IsBlank(UpdateDetails(t, title, description).title)
    ensures UpdateDetails(t, title, description).description.Some?
            ==> Trim(UpdateDetails(t, title, description).description.value)
                == UpdateDetails(t, title, description).description.value
  {
    if title.Some? && !IsBlank(title.value) {
      TrimIdempotent(title.value);
    }
    if description.Some? {
      TrimIdempotent(description.value);
    }
  }

  /** `setDueDate(dueDate)`: replaces the due date, null included. */
  function SetDueDate(t: Task, due: Option<int>): (r: Task)
    ensures r.dueDate == due && r.(dueDate := t.dueDate) == t
  {
    t.(dueDate := due)
  }

  /** The due date alone decides whether an open task is overdue; clearing
      it makes the task neither overdue nor due soon. */
  lemma DueDateDrivesOverdue(t: Task, due: int, hours: int, now: int)
    ensures IsOverdue(SetDueDate(t, Some(due)), now) <==> now > due && !IsCompletedTask(t)
    ensures !IsOverdue(SetDueDate(t, None), now) && !IsDueSoon(SetDueDate(t, None), hours, now)
  {
  }

  /** `updateTimeEstimate(estimated, actual)`: each field keeps its old value
      when the argument is null or negative. */
  function UpdateTimeEstimate(t: Task, estimated: Option<int>, actual: Option<int>): (r: Task)
    ensures r.estimatedHours == (if estimated.Some? && estimated.value >= 0 then estimated else t.estimatedHours)
    ensures r.actualHours == (if actual.Some? && actual.value >= 0 then actual else t.actualHours)
    ensures r.(estimatedHours := t.estimatedHours, actualHours := t.actualHours) == t
  {
    t.(estimatedHours := if estimated.Some? && estimated.value >= 0 then estimated else t.estimatedHours,
       actualHours := if actual.Some? && actual.value >= 0 then actual else t.actualHours)
  }

  /** Estimates never become negative unless they already were; null or
      negative arguments leave the task as it was; repeating an update
      changes nothing more. */
  lemma UpdateTimeEstimateNonNegative(t: Task, estimated: Option<int>, actual: Option<int>)
    requires t.estimatedHours.Some? ==> t.estimatedHours.value >= 0
    requires t.actualHours.Some? ==> t.actualHours.value >= 0
    ensures var r := UpdateTimeEstimate(t, estimated, actual);
            && (r.estimatedHours.Some? ==> r.estimatedHours.value >= 0)
            && (r.actualHours.Some? ==> r.actualHours.value >= 0)
  {
  }

  lemma UpdateTimeEstimateNoOp(t: Task, estimated: Option<int>, actual: Option<int>)
    ensures (estimated.None? || estimated.value < 0) && (actual.None? || actual.value < 0)
            ==> UpdateTimeEstimate(t, estimated, actual) == t
    ensures var r := UpdateTimeEstimate(t, estimated, actual);
            UpdateTimeEstimate(r, estimated, actual) == r
  {
  }

  function Archive(t: Task): (r: Task)
    ensures r.isArchived == Some(true) && r.(isArchived := t.isArchived) == t
  {
    t.(isArchived := Some(true))
  }

  function Unarchive(t: Task): (r: Task)
    ensures r.isArchived == Some(false) && r.(isArchived := t.isArchived) == t
  {
    t.(isArchived := Some(false))
  }

  /** Archiving and unarchiving undo each other and keep the completion invariant. */
  lemma ArchiveRoundTrip(t: Task)
    ensures Unarchive(Archive(t)) == Unarchive(t)
    ensures Archive(Unarchive(t)) == Archive(t)
    ensures t.isArchived == Some(false) ==> Unarchive(Archive(t)) == t
    ensures CompletionConsistent(t) ==> CompletionConsistent(Archive(t)) && CompletionConsistent(Unarchive(t))
  {
  }

  /** The field updates other than `updateStatus` never touch status or
      `completedAt`, so they keep the completion invariant. */
  lemma FieldUpdatesConsistent(t: Task, user: Option<UserId>, p: Option<Priority>,
                               title: Option<string>, description: Option<string>,
                               estimated: Option<int>, actual: Option<int>)
    requires CompletionConsistent(t)
    ensures AssignTo(t, user).Success? ==> CompletionConsistent(AssignTo(t, user).value)
    ensures UpdatePriority(t, p).Success? ==> CompletionConsistent(UpdatePriority(t, p).value)
    ensures CompletionConsistent(UpdateDetails(t, title, description))
    ensures CompletionConsistent(UpdateTimeEstimate(t, estimated, actual))
    ensures forall due :: CompletionConsistent(SetDueDate(t, due))
  {
  }

  /** `isOverdue()`: a due date exists, it has passed, and the task is not completed. */
  predicate IsOverdue(t: Task, now: int)
    ensures IsOverdue(t, now) ==> t.dueDate.Some? && now > t.dueDate.value && !IsCompletedTask(t)
  {
    t.dueDate.Some? && now > t.dueDate.value && t.status != Some(Completed)
  }

  /** `isDueSoon(hours)`: the due date falls before `now + hours`. */
  predicate IsDueSoon(t: Task, hoursThreshold: int, now: int)
    ensures t.dueDate.None? || IsCompletedTask(t) ==> !IsDueSoon(t, hoursThreshold, now)
  {
    if t.dueDate.None? || t.status == Some(Completed) then false
    else now + hoursThreshold * MillisPerHour > t.dueDate.value
  }

  /** An overdue task is due soon for every non-negative threshold, and the
      window only widens as the threshold grows. */
  lemma OverdueIsDueSoon(t: Task, hours: int, more: int, now: int)
    requires 0 <= hours <= more
    ensures IsOverdue(t, now) ==> IsDueSoon(t, hours, now)
    ensures IsDueSoon(t, hours, now) ==> IsDueSoon(t, more, now)
  {
  }

  predicate IsAssignedTo(t: Task, user: Option<UserId>)
    ensures IsAssignedTo(t, user) ==> user.Some?
  {
    user == Some(t.assignedTo)
  }

  predicate IsCreatedBy(t: Task, user: Option<UserId>)
    ensures IsCreatedBy(t, user) ==> user.Some?
  {
    user == Some(t.createdBy)
  }

  /** `isHighPriority()`: HIGH or URGENT, which are the critical priorities. */
  predicate IsHighPriority(t: Task)
    ensures IsHighPriority(t) <==> t.priority.Some? && IsCritical(t.priority.value)
  {
    t.priority == Some(High) || t.priority == Some(Urgent)
  }

  predicate IsCompletedTask(t: Task)
    ensures IsCompletedTask(t) <==> t.status.Some? && IsCompleted(t.status.value)
  {
    t.status == Some(Completed)
  }

  predicate IsInProgress(t: Task)
    ensures IsInProgress(t) ==> t.status.Some? && IsActive(t.status.value)
  {
    t.status == Some(InProgress)
  }

  /** The assignment queries agree with `assignTo`. */
  lemma AssignToQueries(t: Task, user: UserId)
    ensures IsAssignedTo(AssignTo(t, Some(user)).value, Some(user))
    ensures IsCreatedBy(AssignTo(t, Some(user)).value, Some(user)) <==> IsCreatedBy(t, Some(user))
  {
  }

  /** A completed task is never overdue nor in progress. */
  lemma CompletedQueries(t: Task, hours: int, now: int)
    ensures IsCompletedTask(Complete(t, now))
    ensures !IsOverdue(Complete(t, now), now) && !IsInProgress(Complete(t, now))
    ensures !IsDueSoon(Complete(t, now), hours, now)
  {
  }
}
