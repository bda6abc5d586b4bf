/** The `UserRole` enumeration and its privilege predicates. The user-service
    and monolithic applications each declare a `UserRole` with the same three
    constants; this one module stands for all of them. */
module UserRole {

  import opened Wrappers

  datatype Role = User | Manager | Admin

  predicate HasAdminPrivileges(r: Role)
    ensures HasAdminPrivileges(r) ==> HasManagerPrivileges(r)
  {
    r == Admin
  }

  predicate HasManagerPrivileges(r: Role)
    ensures HasManagerPrivileges(r) <==> r != User
  {
    r == Admin || r == Manager
  }

  /** Only an administrator manages users; a manager does not. */
  predicate CanManageUsers(r: Role)
    ensures CanManageUsers(r) <==> HasAdminPrivileges(r)
    ensures CanManageUsers(r) ==> r != Manager
  {
    r == Admin
  }

  predicate CanManageTasks(r: Role)
    ensures CanManageTasks(r) <==> HasManagerPrivileges(r)
  {
    r == Admin || r == Manager
  }

  predicate CanViewAllTasks(r: Role)
    ensures CanViewAllTasks(r) <==> HasManagerPrivileges(r)
  {
    r == Admin || r == Manager
  }

  /** A plain user holds none of the privileges. */
  lemma PlainUserHasNoPrivileges()
    ensures !HasAdminPrivileges(User) && !HasManagerPrivileges(User)
    ensures !CanManageUsers(User) && !CanManageTasks(User) && !CanViewAllTasks(User)
  {
  }

  /** `Enum.name()`: the constant's identifier, in upper case. */
  function Name(r: Role): (n: string)
    ensures |n| >= 4 && forall i :: 0 <= i < |n| ==> 'A' <= n[i] <= 'Z'
  {
    match r
    case User => "USER"
    case Manager => "MANAGER"
    case Admin => "ADMIN"
  }

  /** The canonical names of the two `UserRole` enums, which `Enum.valueOf`
      puts in its failure message. */
  const MonolithEnum := "com.demo.copilot.taskmanager.domain.valueobject.UserRole"
  const ServiceEnum := "com.demo.copilot.taskmanager.user.domain.valueobject.UserRole"

  /** `UserRole.valueOf(name)` on the enum named `enumClass`, which throws for
      a string naming no constant. */
  function ValueOf(enumClass: string, name: string): (r: Result<Role, Exception>)
    ensures r.Success? ==> Name(r.value) == name
    ensures r.Failure? ==> forall role :: Name(role) != name
    ensures r.Failure? ==> r.error == IllegalArgument("No enum constant " + enumClass + "." + name)
  {
    if name == "USER" then Success(User)
    else if name == "MANAGER" then Success(Manager)
    else if name == "ADMIN" then Success(Admin)
    else Failure(IllegalArgument("No enum constant " + enumClass + "." + name))
  }

  /** A role survives a trip through its name. */
  lemma NameRoundTrip(enumClass: string, r: Role)
    ensures ValueOf(enumClass, Name(r)) == Success(r)
  {
  }
}
