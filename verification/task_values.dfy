/** The task value objects: the `TaskStatus` state machine, the ordered
    `TaskPriority` levels and the `TaskCategory` predicate tables. */
module TaskStatus {

  datatype Status = Todo | InProgress | InReview | Completed | Cancelled

  predicate IsCompleted(s: Status)
    ensures IsCompleted(s) ==> !IsActive(s)
  {
    s == Completed
  }

  predicate IsActive(s: Status)
    ensures IsActive(s) <==> s != Completed && s != Cancelled
  {
    s == Todo || s == InProgress || s == InReview
  }

  /** The allowed status moves. No status moves to itself, and `Completed` is
      entered only from `InReview`. */
  predicate CanTransitionTo(from: Status, to: Status)
    ensures CanTransitionTo(from, to) ==> from != to
    ensures to == Completed ==> (CanTransitionTo(from, to) <==> from == InReview)
  {
    match from
    case Todo => to == InProgress || to == Cancelled
    case InProgress => to == InReview || to == Todo || to == Cancelled
    case InReview => to == Completed || to == InProgress
    case Completed => to == InProgress
    case Cancelled => to == Todo
  }

  /** The successor table, listed per status. */
  function Successors(from: Status): (r: set<Status>)
    ensures from !in r && 1 <= |r| <= 3
    ensures Completed in r <==> from == InReview
  {
    match from
    case Todo => {InProgress, Cancelled}
    case InProgress => {InReview, Todo, Cancelled}
    case InReview => {Completed, InProgress}
    case Completed => {InProgress}
    case Cancelled => {Todo}
  }

  lemma TransitionTable(from: Status, to: Status)
    ensures CanTransitionTo(from, to) <==> to in Successors(from)
  {
  }

  /** A cancelled task may only be reactivated to `Todo`; a completed one only
      reopened to `InProgress`; neither state is active. */
  lemma TerminalStates(to: Status)
    ensures CanTransitionTo(Cancelled, to) <==> to == Todo
    ensures CanTransitionTo(Completed, to) <==> to == InProgress
    ensures !IsActive(Cancelled) && !IsCompleted(Cancelled)
  {
  }
}

module TaskPriority {

  datatype Priority = Low | Medium | High | Urgent

  function Level(p: Priority): (l: int)
    ensures 1 <= l <= 4
  {
    match p
    case Low => 1
    case Medium => 2
    case High => 3
    case Urgent => 4
  }

  /** Distinct priorities have distinct levels. */
  lemma LevelInjective(a: Priority, b: Priority)
    ensures Level(a) == Level(b) ==> a == b
  {
  }

  /** `isHigherThan`: compares the levels, so nothing is above `Urgent` and
      nothing below `Low`. */
  predicate IsHigherThan(a: Priority, b: Priority)
    ensures IsHigherThan(a, b) ==> a != b && a != Low && b != Urgent
  {
    Level(a) > Level(b)
  }

  predicate IsLowerThan(a: Priority, b: Priority)
    ensures IsLowerThan(a, b) <==> IsHigherThan(b, a)
  {
    Level(a) < Level(b)
  }

  /** `isCritical` names the two top constants; it is exactly a level of 3 or more. */
  predicate IsCritical(p: Priority)
    ensures IsCritical(p) <==> Level(p) >= 3
  {
    p == High || p == Urgent
  }

  /** `isHigherThan` is a strict total order. */
  lemma HigherIsStrictOrder(a: Priority, b: Priority, c: Priority)
    ensures !IsHigherThan(a, a)
    ensures IsHigherThan(a, b) ==> !IsHigherThan(b, a)
    ensures IsHigherThan(a, b) && IsHigherThan(b, c) ==> IsHigherThan(a, c)
    ensures a != b ==> (IsHigherThan(a, b) != IsLowerThan(a, b))
  {
    LevelInjective(a, b);
  }
}

module TaskCategory {

  datatype Category =
    | Personal | Work | Project | Meeting | Research
    | Development | Testing | Documentation | Maintenance | Other

  /** `isWorkRelated`: every category but the personal, meeting, research
      and other ones. */
  predicate IsWorkRelated(c: Category)
    ensures IsWorkRelated(c) <==> c !in {Personal, Meeting, Research, Other}
  {
    c == Work || c == Project || c == Development ||
    c == Testing || c == Documentation || c == Maintenance
  }

  predicate RequiresCollaboration(c: Category)
    ensures RequiresCollaboration(c) && !IsWorkRelated(c) ==> c == Meeting
  {
    c == Project || c == Meeting || c == Development || c == Testing
  }

  /** Meeting is the one collaborative category that is not work; personal,
      research and other tasks are neither. */
  lemma CategoryTable(c: Category)
    ensures c == Meeting ==> RequiresCollaboration(c) && !IsWorkRelated(c)
    ensures c in {Personal, Research, Other} <==> !IsWorkRelated(c) && !RequiresCollaboration(c)
  {
  }
}
