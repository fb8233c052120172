/**
 * The records the service reads and writes (package models is not part of this
 * model; its fields are taken from their uses).
 */
module Models {
  import opened Bcrypt

  /** A registered account. Its id is assigned by the store. */
  datatype User = User(id: int, email: string, passHash: PassHash, isAdmin: bool)

  /** A calling application, provisioned outside the service. */
  datatype App = App(id: int, name: string, secret: string)
}

/**
 * The three storage ports the service depends on (UserSaver, UserProveder and
 * AppProvider), all served by one in-memory store that stands in for the database.
 * The store keeps the users table as rows in insertion order, with ids 1, 2, ...,
 * and the apps table keyed by id. `faults` holds, per port operation, a failure
 * the database reports instead of answering (a broken connection, a failed
 * statement): every error path of the service is reachable through it.
 */
module Storage {
  import opened Wrappers
  import opened GoErrors
  import opened Bcrypt
  import Models

  /** The port operations that can fail independently. */
  datatype Op = SaveUserOp | UserOp | IsAdminOp | AppOp

  const SaveUserFn := "storage.sqlite.SaveUser"
  const UserFn := "storage.sqlite.User"
  const IsAdminFn := "storage.sqlite.IsAdmin"
  const AppFn := "storage.sqlite.App"

  /** Users table invariant: ids are 1, 2, ... in order and emails are unique. */
  predicate ValidRows(rows: seq<Models.User>)
  {
    (forall i :: 0 <= i < |rows| ==> rows[i].id == i + 1) &&
    (forall i, j :: 0 <= i < j < |rows| ==> rows[i].email != rows[j].email)
  }

  /** Apps table invariant: each app is stored under its own id. */
  predicate ValidApps(apps: map<int, Models.App>)
  {
    forall k :: k in apps ==> apps[k].id == k
  }

  predicate HasEmail(rows: seq<Models.User>, email: string)
  {
    exists i :: 0 <= i < |rows| && rows[i].email == email
  }

  /** The row holding `email`, if any: SELECT ... FROM users WHERE email = ? */
  function FindByEmail(rows: seq<Models.User>, email: string): (r: Option<nat>)
    ensures r.Some? ==> r.value < |rows| && rows[r.value].email == email
    ensures r.None? <==> !HasEmail(rows, email)
  {
    if rows == [] then None
    else if rows[0].email == email then Some(0)
    else match FindByEmail(rows[1..], email)
      case None => None
      case Some(i) => Some(i + 1)
  }

  class Store {
    var rows: seq<Models.User>
    var apps: map<int, Models.App>
    var faults: map<Op, Error>

    ghost predicate Valid()
      reads this
    {
      ValidRows(rows) && ValidApps(apps)
    }

    constructor (rows: seq<Models.User>, apps: map<int, Models.App>, faults: map<Op, Error>)
      requires ValidRows(rows) && ValidApps(apps)
      ensures Valid()
      ensures this.rows == rows && this.apps == apps && this.faults == faults
    {
      this.rows := rows;
      this.apps := apps;
      this.faults := faults;
    }

    /** UserSaver.SaveUser: insert (email, passHash) and return the new id. */
    method SaveUser(email: string, passHash: PassHash) returns (uid: int, err: Option<Error>)
      requires Valid()
      modifies this`rows
      ensures Valid()
      ensures SaveUserOp in faults ==> uid == 0 && err == Some(faults[SaveUserOp]) && rows == old(rows)
      ensures SaveUserOp !in faults && HasEmail(old(rows), email) ==>
        uid == 0 && err.Some? && Is(err.value, StorageUserAlreadyExists) && rows == old(rows)
      ensures SaveUserOp !in faults && !HasEmail(old(rows), email) ==>
        err == None && uid == |old(rows)| + 1 &&
        rows == old(rows) + [Models.User(uid, email, passHash, false)]
    {
      if SaveUserOp in faults {
        return 0, Some(faults[SaveUserOp]);
      }
      if FindByEmail(rows, email).Some? {
        return 0, Some(Wrapped(SaveUserFn, Sentinel(StorageUserAlreadyExists)));
      }
      uid := |rows| + 1;
      rows := rows + [Models.User(uid, email, passHash, false)];
      err := None;
    }

    /** UserProveder.User: the user registered under `email`. */
    function User(email: string): (r: Result<Models.User, Error>)
      reads this
      ensures UserOp in faults ==> r == Failure(faults[UserOp])
      ensures UserOp !in faults ==> (r.Success? <==> HasEmail(rows, email))
      ensures UserOp !in faults && r.Failure? ==> Is(r.error, StorageUserNotFound)
      ensures r.Success? ==> r.value in rows && r.value.email == email
    {
      if UserOp in faults then Failure(faults[UserOp])
      else match FindByEmail(rows, email)
        case None => Failure(Wrapped(UserFn, Sentinel(StorageUserNotFound)))
        case Some(i) => Success(rows[i])
    }

    /** UserProveder.IsAdmin: the admin flag of the user with id `userId`. */
    function IsAdmin(userId: int): (r: Result<bool, Error>)
      reads this
      requires Valid()
      ensures IsAdminOp in faults ==> r == Failure(faults[IsAdminOp])
      ensures IsAdminOp !in faults ==> (r.Success? <==> exists u :: u in rows && u.id == userId)
      ensures IsAdminOp !in faults && r.Failure? ==> Is(r.error, StorageUserNotFound)
      ensures r.Success? ==> exists u :: u in rows && u.id == userId && u.isAdmin == r.value
    {
      if IsAdminOp in faults then Failure(faults[IsAdminOp])
      else if 1 <= userId <= |rows| then
        assert rows[userId - 1] in rows;
        Success(rows[userId - 1].isAdmin)
      else Failure(Wrapped(IsAdminFn, Sentinel(StorageUserNotFound)))
    }

    /** AppProvider.App: the application with id `appId`. */
    function App(appId: int): (r: Result<Models.App, Error>)
      reads this
      ensures AppOp in faults ==> r == Failure(faults[AppOp])
      ensures AppOp !in faults ==> (r.Success? <==> appId in apps)
      ensures AppOp !in faults && r.Failure? ==> Is(r.error, StorageAppNotFound)
      ensures r.Success? ==> r.value == apps[appId]
    {
      if AppOp in faults then Failure(faults[AppOp])
      else if appId in apps then Success(apps[appId])
      else Failure(Wrapped(AppFn, Sentinel(StorageAppNotFound)))
    }
  }
}
