/**
 * The account rules of UserServiceImpl: registration, password change,
 * enabling and disabling, deletion, the batch forms of the last two, the
 * phone and e-mail validators, and the storage statistics by file
 * category.
 *
 * Users are a map from id to record.  Password hashing (salted MD5) is a
 * parameter `enc`; only equality of hashes matters to these rules.
 */
module UserService {
  import opened Wrappers
  import opened Text

  const Enabled: int := 1
  const Disabled: int := 0

  datatype User = User(username: string, password: string, nickname: string, status: int, role: Option<string>)

  type Users = map<int, User>

  predicate IsAdmin(u: User) {
    u.role == Some("ADMIN")
  }

  datatype UserError =
    | PasswordMismatch | UsernameTaken | NotLoggedIn | MissingArgument | UserNotFound
    | BadPasswordLength | SameAsCurrent | WrongOldPassword | StatusMissing | LastEnabledAdmin
    | CannotDeleteAdmin | EmptyIdList | AdminInBatch

  /* ---------------------------------------------------------- registration */

  predicate NameTaken(users: Users, username: string) {
    exists id :: id in users && users[id].username == username
  }

  predicate UniqueUsernames(users: Users) {
    forall a, b :: a in users && b in users && users[a].username == users[b].username ==> a == b
  }

  /**
   * register: a confirmation that differs from the password, or a taken
   * user name, is rejected; otherwise the user is stored enabled, with role
   * USER, the hashed password, and the user name as nickname when none is
   * given.
   */
  function Register(users: Users, enc: string -> string, username: string, password: string, confirm: string,
                    nickname: Option<string>, newId: int): (r: Result<Users, UserError>)
    requires newId !in users
    ensures password != confirm ==> r == Failure(PasswordMismatch)
    ensures password == confirm ==> (r == Failure(UsernameTaken) <==> NameTaken(users, username))
    ensures r.Success? ==> r.value == users[newId := User(username, enc(password),
      if nickname.Some? then nickname.value else username, Enabled, Some("USER"))]
  {
    if password != confirm then Failure(PasswordMismatch)
    else if NameTaken(users, username) then Failure(UsernameTaken)
    else Success(users[newId := User(username, enc(password),
                   if nickname.Some? then nickname.value else username, Enabled, Some("USER"))])
  }

  /** Registration keeps user names unique, and a new user is never an admin. */
  lemma RegisterKeepsNamesUnique(users: Users, enc: string -> string, username: string, password: string, confirm: string,
                                 nickname: Option<string>, newId: int)
    requires newId !in users && UniqueUsernames(users)
    ensures var r := Register(users, enc, username, password, confirm, nickname, newId);
      r.Success? ==> UniqueUsernames(r.value) && !IsAdmin(r.value[newId])
  {
  }

  /* ------------------------------------------------------- password change */

  /**
   * changePassword: checks, in order, a logged-in caller, both passwords
   * present, the user exists, the new length is 6..20, the new hash
   * differs from the stored one, and only then the old password.
   */
  function ChangePassword(users: Users, enc: string -> string, userId: Option<int>,
                          oldPassword: Option<string>, newPassword: Option<string>): (r: Result<Users, UserError>)
    ensures userId.None? ==> r == Failure(NotLoggedIn)
    ensures r.Success? ==> (userId.Some? && userId.value in users && newPassword.Some? && oldPassword.Some?
      && 6 <= |newPassword.value| <= 20
      && enc(newPassword.value) != users[userId.value].password
      && enc(oldPassword.value) == users[userId.value].password
      && r.value == users[userId.value := users[userId.value].(password := enc(newPassword.value))])
  {
    if userId.None? then Failure(NotLoggedIn)
    else if oldPassword.None? || newPassword.None? then Failure(MissingArgument)
    else if userId.value !in users then Failure(UserNotFound)
    else
      var u := users[userId.value];
      var n := newPassword.value;
      if |n| < 6 || |n| > 20 then Failure(BadPasswordLength)
      else if enc(n) == u.password then Failure(SameAsCurrent)
      else if enc(oldPassword.value) != u.password then Failure(WrongOldPassword)
      else Success(users[userId.value := u.(password := enc(n))])
  }

  /**
   * The same-as-current test comes before the old-password test: a new
   * password that hashes to the stored one is reported as unchanged even
   * when the old password given is wrong, and a correct old password reused
   * as the new one never goes through.
   */
  lemma ChangePasswordCheckOrder(users: Users, enc: string -> string, id: int, oldPassword: string, newPassword: string)
    requires id in users && 6 <= |newPassword| <= 20
    ensures enc(newPassword) == users[id].password ==>
      ChangePassword(users, enc, Some(id), Some(oldPassword), Some(newPassword)) == Failure(SameAsCurrent)
    ensures enc(oldPassword) == users[id].password && enc(newPassword) != users[id].password ==>
      ChangePassword(users, enc, Some(id), Some(oldPassword), Some(newPassword)).Success?
    ensures enc(oldPassword) != users[id].password && enc(newPassword) != users[id].password ==>
      ChangePassword(users, enc, Some(id), Some(oldPassword), Some(newPassword)) == Failure(WrongOldPassword)
    ensures ChangePassword(users, enc, Some(id), Some(oldPassword), Some(oldPassword)).Failure?
  {
  }

  /* ------------------------------------------------------- enable, disable */

  /** Some admin can still log in. */
  predicate EnabledAdminExists(users: Users) {
    exists id :: id in users && IsAdmin(users[id]) && users[id].status == Enabled
  }

  predicate OtherEnabledAdmin(users: Users, userId: int) {
    exists id :: id in users && id != userId && IsAdmin(users[id]) && users[id].status == Enabled
  }

  /**
   * updateUserStatus as the source writes it: the last-admin guard fires
   * only for the status 0, although any status but 1 locks the account.
   */
  function UpdateUserStatusAsWritten(users: Users, userId: Option<int>, status: Option<int>): (r: Result<Users, UserError>)
    ensures status.None? ==> r == Failure(StatusMissing)
    ensures status.Some? && (userId.None? || userId.value !in users) ==> r == Failure(UserNotFound)
    ensures status.Some? && userId.Some? && userId.value in users ==>
      (r == Failure(LastEnabledAdmin) <==>
        IsAdmin(users[userId.value]) && status.value == Disabled && !OtherEnabledAdmin(users, userId.value))
    ensures r.Success? ==> (userId.Some? && userId.value in users && status.Some?
      && r.value == users[userId.value := users[userId.value].(status := status.value)])
  {
    if status.None? then Failure(StatusMissing)
    else if userId.None? || userId.value !in users then Failure(UserNotFound)
    else
      var u := users[userId.value];
      if IsAdmin(u) && status.value == Disabled && !OtherEnabledAdmin(users, userId.value) then Failure(LastEnabledAdmin)
      else Success(users[userId.value := u.(status := status.value)])
  }

  /** The only enabled admin set to status 2 goes through, and afterwards no admin can log in. */
  lemma AsWrittenLocksOutLastAdmin()
    ensures var users := map[1 := User("root", "h", "root", Enabled, Some("ADMIN"))];
      EnabledAdminExists(users)
      && UpdateUserStatusAsWritten(users, Some(1), Some(2)).Success?
      && !EnabledAdminExists(UpdateUserStatusAsWritten(users, Some(1), Some(2)).value)
  {
    var users := map[1 := User("root", "h", "root", Enabled, Some("ADMIN"))];
    assert IsAdmin(users[1]);
  }

  /**
   * updateUserStatus with the guard it is evidently meant to have: taking
   * the last enabled admin to any status but 1 is refused.
   */
  function UpdateUserStatus(users: Users, userId: Option<int>, status: Option<int>): (r: Result<Users, UserError>)
    ensures status.None? ==> r == Failure(StatusMissing)
    ensures status.Some? && (userId.None? || userId.value !in users) ==> r == Failure(UserNotFound)
    ensures status.Some? && userId.Some? && userId.value in users ==>
      (r == Failure(LastEnabledAdmin) <==>
        IsAdmin(users[userId.value]) && status.value != Enabled && !OtherEnabledAdmin(users, userId.value))
    ensures r.Success? ==> (userId.Some? && userId.value in users && status.Some?
      && r.value == users[userId.value := users[userId.value].(status := status.value)])
  {
    if status.None? then Failure(StatusMissing)
    else if userId.None? || userId.value !in users then Failure(UserNotFound)
    else
      var u := users[userId.value];
      if IsAdmin(u) && status.value != Enabled && !OtherEnabledAdmin(users, userId.value) then Failure(LastEnabledAdmin)
      else Success(users[userId.value := u.(status := status.value)])
  }

  /** With the guard on every status but 1, some admin can always still log in. */
  lemma UpdateUserStatusKeepsEnabledAdmin(users: Users, userId: Option<int>, status: Option<int>)
    requires EnabledAdminExists(users)
    ensures UpdateUserStatus(users, userId, status).Success? ==> EnabledAdminExists(UpdateUserStatus(users, userId, status).value)
  {
    var r := UpdateUserStatus(users, userId, status);
    if r.Success? {
      var id := userId.value;
      if status.value == Enabled && IsAdmin(users[id]) {
        assert IsAdmin(r.value[id]) && r.value[id].status == Enabled;
      } else if OtherEnabledAdmin(users, id) {
        var a :| a in users && a != id && IsAdmin(users[a]) && users[a].status == Enabled;
        assert r.value[a] == users[a];
      } else {
        assert false;
      }
    }
  }

  /** Off admins the as-written and the corrected status step are the same step. */
  lemma StatusStepsAgreeOffAdmins(users: Users, userId: Option<int>, status: Option<int>)
    requires userId.Some? && userId.value in users ==> !IsAdmin(users[userId.value])
    ensures UpdateUserStatusAsWritten(users, userId, status) == UpdateUserStatus(users, userId, status)
  {
  }

  /* --------------------------------------------------------------- deletion */

  /** deleteUser: a missing user or an admin is refused; otherwise the user is removed. */
  function DeleteUser(users: Users, userId: Option<int>): (r: Result<Users, UserError>)
    ensures (userId.None? || userId.value !in users) ==> r == Failure(UserNotFound)
    ensures userId.Some? && userId.value in users ==> (r == Failure(CannotDeleteAdmin) <==> IsAdmin(users[userId.value]))
    ensures r.Success? ==> userId.Some? && r.value == users - {userId.value}
  {
    if userId.None? || userId.value !in users then Failure(UserNotFound)
    else if IsAdmin(users[userId.value]) then Failure(CannotDeleteAdmin)
    else Success(users - {userId.value})
  }

  /** No deletion removes or changes an admin. */
  lemma DeleteUserKeepsAdmins(users: Users, userId: Option<int>)
    ensures DeleteUser(users, userId).Success? ==>
      forall id :: id in users && IsAdmin(users[id]) ==> id in DeleteUser(users, userId).value && DeleteUser(users, userId).value[id] == users[id]
  {
  }

  /* ------------------------------------------------------------ batch forms */

  /** The list without repeats, each id at its first position. */
  function Distinct(s: seq<Option<int>>): (r: seq<Option<int>>)
    ensures forall x :: x in r <==> x in s
    ensures forall i, j :: 0 <= i < j < |r| ==> r[i] != r[j]
    ensures |r| <= |s|
  {
    if s == [] then []
    else
      var front := Distinct(s[..|s| - 1]);
      assert forall x :: x in s <==> x in s[..|s| - 1] || x == s[|s| - 1];
      if s[|s| - 1] in s[..|s| - 1] then front else front + [s[|s| - 1]]
  }

  /**
   * The checking pass of a batch: null ids are skipped; the first id that
   * is missing or an admin decides the error.
   */
  function CheckBatch(users: Users, ids: seq<Option<int>>): (r: Result<(), UserError>)
    ensures r.Success? <==> forall k :: 0 <= k < |ids| && ids[k].Some? ==> ids[k].value in users && !IsAdmin(users[ids[k].value])
    ensures r.Failure? ==> r.error == UserNotFound || r.error == AdminInBatch
  {
    if ids == [] then Success(())
    else if ids[0].Some? && ids[0].value !in users then Failure(UserNotFound)
    else if ids[0].Some? && IsAdmin(users[ids[0].value]) then Failure(AdminInBatch)
    else
      var rest := CheckBatch(users, ids[1..]);
      assert forall k :: 1 <= k < |ids| ==> ids[k] == ids[1..][k - 1];
      rest
  }

  /**
   * Applying one step to every id in turn; the first failure undoes the
   * whole batch.  The step is the corrected UpdateUserStatus, while the
   * source's loop calls updateUserStatus as written.  The two agree here
   * because CheckBatch has already refused every admin in the batch, and
   * for a user who is not an admin neither guard fires
   * (StatusStepsAgreeOffAdmins).
   */
  function ApplyStatus(users: Users, ids: seq<Option<int>>, status: Option<int>): Result<Users, UserError>
  {
    if ids == [] then Success(users)
    else match UpdateUserStatus(users, ids[0], status)
      case Failure(e) => Failure(e)
      case Success(next) => ApplyStatus(next, ids[1..], status)
  }

  function ApplyDelete(users: Users, ids: seq<Option<int>>): Result<Users, UserError>
  {
    if ids == [] then Success(users)
    else match DeleteUser(users, ids[0])
      case Failure(e) => Failure(e)
      case Success(next) => ApplyDelete(next, ids[1..])
  }

  /** The ids of a list that are present. */
  function IdSet(ids: seq<Option<int>>): set<int> {
    set k | 0 <= k < |ids| && ids[k].Some? :: ids[k].value
  }

  /** The users with the status of every id in `s` set to `status`. */
  function WithStatus(users: Users, s: set<int>, status: int): (r: Users)
    ensures r.Keys == users.Keys
    ensures forall id :: id in users ==> r[id] == if id in s then users[id].(status := status) else users[id]
  {
    map id | id in users :: if id in s then users[id].(status := status) else users[id]
  }

  predicate AllPresent(ids: seq<Option<int>>) {
    forall k :: 0 <= k < |ids| ==> ids[k].Some?
  }

  /**
   * batchUpdateUserStatus: an empty list is refused; the ids are made
   * distinct and all checked before any is changed; then each is updated in
   * turn inside one transaction.
   */
  function BatchUpdateUserStatus(users: Users, ids: seq<Option<int>>, status: Option<int>): (r: Result<Users, UserError>)
    ensures ids == [] ==> r == Failure(EmptyIdList)
    ensures (exists k :: 0 <= k < |ids| && ids[k].Some? && ids[k].value in users && IsAdmin(users[ids[k].value])) ==> r.Failure?
  {
    if ids == [] then Failure(EmptyIdList)
    else
      var unique := Distinct(ids);
      assert forall k :: 0 <= k < |ids| ==> ids[k] in unique;
      match CheckBatch(users, unique)
      case Failure(e) => Failure(e)
      case Success(_) => ApplyStatus(users, unique, status)
  }

  /** Updating ids that all name existing non-admins succeeds and sets exactly their status. */
  lemma {:induction false} ApplyStatusToNonAdmins(users: Users, ids: seq<Option<int>>, status: int)
    requires AllPresent(ids)
    requires forall k :: 0 <= k < |ids| ==> ids[k].value in users && !IsAdmin(users[ids[k].value])
    ensures ApplyStatus(users, ids, Some(status)) == Success(WithStatus(users, IdSet(ids), status))
  {
    if ids == [] {
      assert IdSet(ids) == {};
      assert WithStatus(users, {}, status) == users;
    } else {
      var id := ids[0].value;
      var next := users[id := users[id].(status := status)];
      assert UpdateUserStatus(users, ids[0], Some(status)) == Success(next);
      assert forall k :: 0 <= k < |ids[1..]| ==> ids[1..][k] == ids[k + 1];
      ApplyStatusToNonAdmins(next, ids[1..], status);
      assert IdSet(ids) == IdSet(ids[1..]) + {id} by {
        assert forall k :: 1 <= k < |ids| ==> ids[k] == ids[1..][k - 1];
      }
      assert WithStatus(next, IdSet(ids[1..]), status) == WithStatus(users, IdSet(ids), status);
    }
  }

  /**
   * A batch of present ids goes through exactly when every id names an
   * existing non-admin, and then sets the status of exactly those users,
   * repeats included.
   */
  lemma BatchUpdateOutcome(users: Users, ids: seq<Option<int>>, status: int)
    requires ids != [] && AllPresent(ids)
    ensures BatchUpdateUserStatus(users, ids, Some(status)).Success? <==>
      forall k :: 0 <= k < |ids| ==> ids[k].value in users && !IsAdmin(users[ids[k].value])
    ensures BatchUpdateUserStatus(users, ids, Some(status)).Success? ==>
      BatchUpdateUserStatus(users, ids, Some(status)).value == WithStatus(users, IdSet(ids), status)
  {
    var unique := Distinct(ids);
    assert AllPresent(unique) by {
      forall k | 0 <= k < |unique| ensures unique[k].Some? {
        assert unique[k] in ids;
      }
    }
    assert IdSet(unique) == IdSet(ids) by {
      forall x ensures x in IdSet(unique) <==> x in IdSet(ids) {
        if x in IdSet(ids) {
          var k :| 0 <= k < |ids| && ids[k].Some? && ids[k].value == x;
          assert ids[k] in unique;
        }
        if x in IdSet(unique) {
          var k :| 0 <= k < |unique| && unique[k].Some? && unique[k].value == x;
          assert unique[k] in ids;
        }
      }
    }
    if forall k :: 0 <= k < |ids| ==> ids[k].value in users && !IsAdmin(users[ids[k].value]) {
      assert forall k :: 0 <= k < |unique| ==> unique[k].value in users && !IsAdmin(users[unique[k].value]) by {
        forall k | 0 <= k < |unique| ensures unique[k].value in users && !IsAdmin(users[unique[k].value]) {
          assert unique[k] in ids;
        }
      }
      ApplyStatusToNonAdmins(users, unique, status);
    } else {
      var k :| 0 <= k < |ids| && !(ids[k].value in users && !IsAdmin(users[ids[k].value]));
      assert ids[k] in unique;
    }
  }

  /**
   * batchDeleteUsers: an empty list is refused; the ids are made distinct
   * and all checked before any is deleted; then each is deleted in turn
   * inside one transaction.
   */
  function BatchDeleteUsers(users: Users, ids: seq<Option<int>>): (r: Result<Users, UserError>)
    ensures ids == [] ==> r == Failure(EmptyIdList)
    ensures (exists k :: 0 <= k < |ids| && ids[k].Some? && ids[k].value in users && IsAdmin(users[ids[k].value])) ==> r.Failure?
  {
    if ids == [] then Failure(EmptyIdList)
    else
      var unique := Distinct(ids);
      assert forall k :: 0 <= k < |ids| ==> ids[k] in unique;
      match CheckBatch(users, unique)
      case Failure(e) => Failure(e)
      case Success(_) => ApplyDelete(users, unique)
  }

  /** Deleting distinct ids of existing non-admins succeeds and removes exactly them. */
  lemma {:induction false} ApplyDeleteToNonAdmins(users: Users, ids: seq<Option<int>>)
    requires AllPresent(ids)
    requires forall i, j :: 0 <= i < j < |ids| ==> ids[i] != ids[j]
    requires forall k :: 0 <= k < |ids| ==> ids[k].value in users && !IsAdmin(users[ids[k].value])
    ensures ApplyDelete(users, ids) == Success(users - IdSet(ids))
  {
    if ids == [] {
      assert IdSet(ids) == {};
      assert users - {} == users;
    } else {
      var id := ids[0].value;
      var next := users - {id};
      assert forall k :: 0 <= k < |ids[1..]| ==> ids[1..][k] == ids[k + 1];
      assert forall k :: 0 <= k < |ids[1..]| ==> ids[1..][k].value != id;
      ApplyDeleteToNonAdmins(next, ids[1..]);
      assert IdSet(ids) == IdSet(ids[1..]) + {id} by {
        assert forall k :: 1 <= k < |ids| ==> ids[k] == ids[1..][k - 1];
      }
      assert next - IdSet(ids[1..]) == users - IdSet(ids);
    }
  }

  /**
   * Because the list is made distinct first, a repeated id does not make
   * the second deletion fail: present ids of existing non-admins are all
   * deleted, and nothing else is.
   */
  lemma BatchDeleteOutcome(users: Users, ids: seq<Option<int>>)
    requires ids != [] && AllPresent(ids)
    requires forall k :: 0 <= k < |ids| ==> ids[k].value in users && !IsAdmin(users[ids[k].value])
    ensures BatchDeleteUsers(users, ids) == Success(users - IdSet(ids))
  {
    var unique := Distinct(ids);
    assert AllPresent(unique) by {
      forall k | 0 <= k < |unique| ensures unique[k].Some? {
        assert unique[k] in ids;
      }
    }
    assert forall k :: 0 <= k < |unique| ==> unique[k].value in users && !IsAdmin(users[unique[k].value]) by {
      forall k | 0 <= k < |unique| ensures unique[k].value in users && !IsAdmin(users[unique[k].value]) {
        assert unique[k] in ids;
      }
    }
    assert IdSet(unique) == IdSet(ids) by {
      forall x ensures x in IdSet(unique) <==> x in IdSet(ids) {
        if x in IdSet(ids) {
          var k :| 0 <= k < |ids| && ids[k].Some? && ids[k].value == x;
          assert ids[k] in unique;
        }
        if x in IdSet(unique) {
          var k :| 0 <= k < |unique| && unique[k].Some? && unique[k].value == x;
          assert unique[k] in ids;
        }
      }
    }
    ApplyDeleteToNonAdmins(users, unique);
  }

  /** Without the de-duplication, a repeated id makes the second deletion fail. */
  lemma RepeatWithoutDistinctFails(users: Users, id: int)
    requires id in users && !IsAdmin(users[id])
    ensures ApplyDelete(users, [Some(id), Some(id)]) == Failure(UserNotFound)
    ensures BatchDeleteUsers(users, [Some(id), Some(id)]) == Success(users - {id})
  {
    var ids := [Some(id), Some(id)];
    assert ids[1..] == [Some(id)];
    BatchDeleteOutcome(users, ids);
    assert IdSet(ids) == {id};
  }

  /* -------------------------------------------------------------- validators */

  /** ^1[3-9]\d{9}$: eleven ASCII digits, the first 1 and the second 3..9. */
  predicate PhoneShape(s: string) {
    |s| == 11 && s[0] == '1' && '3' <= s[1] <= '9' && forall k :: 2 <= k < 11 ==> IsDigit(s[k])
  }

  /** isValidPhone, scanning the characters once; null and empty are invalid. */
  method IsValidPhone(phone: Option<string>) returns (ok: bool)
    ensures ok <==> phone.Some? && PhoneShape(phone.value)
  {
    if phone.None? || |phone.value| != 11 {
      return false;
    }
    var s := phone.value;
    if s[0] != '1' || !('3' <= s[1] <= '9') {
      return false;
    }
    var k := 2;
    while k < 11
      invariant 2 <= k <= 11
      invariant forall j :: 2 <= j < k ==> IsDigit(s[j])
    {
      if !IsDigit(s[k]) {
        return false;
      }
      k := k + 1;
    }
    return true;
  }

  predicate IsAsciiLetter(c: char) {
    ('a' <= c <= 'z') || ('A' <= c <= 'Z')
  }

  /** [a-zA-Z0-9._%+-] */
  predicate LocalChar(c: char) {
    IsAsciiLetter(c) || IsDigit(c) || c == '.' || c == '_' || c == '%' || c == '+' || c == '-'
  }

  /** [a-zA-Z0-9.-] */
  predicate DomainChar(c: char) {
    IsAsciiLetter(c) || IsDigit(c) || c == '.' || c == '-'
  }

  /**
   * ^[a-zA-Z0-9._%+-]+@[a-zA-Z0-9.-]+\.[a-zA-Z]{2,}$ read as a split: some
   * '@' and some later '.' cut the address into a non-empty local part, a
   * non-empty domain and a top-level part of two or more letters.
   */
  predicate CutFits(s: string, at: int, dot: int) {
    0 < at < dot - 1 && dot < |s| - 2 && s[at] == '@' && s[dot] == '.'
    && (forall k :: 0 <= k < at ==> LocalChar(s[k]))
    && (forall k :: at < k < dot ==> DomainChar(s[k]))
    && (forall k :: dot < k < |s| ==> IsAsciiLetter(s[k]))
  }

  ghost predicate EmailShape(s: string) {
    exists at, dot :: CutFits(s, at, dot)
  }

  /**
   * isValidEmail decided directly: no class after the '@' admits another
   * '@', so the cut is at the last '@'; the top-level part is letters only,
   * so the cut before it is at the last '.'.
   */
  function IsValidEmail(email: Option<string>): (ok: bool)
    ensures ok <==> email.Some? && EmailShape(email.value)
  {
    if email.None? then false
    else
      var s := email.value;
      var at := LastIndexOf(s, '@');
      var dot := LastIndexOf(s, '.');
      if at < 0 || dot < 0 then
        false
      else
        EmailCutIsForced(s, at, dot);
        CutFits(s, at, dot)
  }

  /** Any cut that fits uses the last '@' and the last '.'. */
  lemma EmailCutIsForced(s: string, at: nat, dot: nat)
    requires at < |s| && s[at] == '@' && forall k :: at < k < |s| ==> s[k] != '@'
    requires dot < |s| && s[dot] == '.' && forall k :: dot < k < |s| ==> s[k] != '.'
    ensures EmailShape(s) <==> CutFits(s, at, dot)
  {
    if EmailShape(s) {
      var a, d :| CutFits(s, a, d);
      CutUsesLastAt(s, a, d, at);
      CutUsesLastDot(s, a, d, dot);
    }
  }

  lemma CutUsesLastAt(s: string, a: int, d: int, at: nat)
    requires CutFits(s, a, d)
    requires at < |s| && s[at] == '@' && forall k :: at < k < |s| ==> s[k] != '@'
    ensures a == at
  {
    if a < at {
      assert false;
    }
  }

  lemma CutUsesLastDot(s: string, a: int, d: int, dot: nat)
    requires CutFits(s, a, d)
    requires dot < |s| && s[dot] == '.' && forall k :: dot < k < |s| ==> s[k] != '.'
    ensures d == dot
  {
    if d < dot {
      assert false;
    }
  }

  /* ----------------------------------------------------------- storage stats */

  datatype Category = Image | Video | Audio | Document | Other

  const ImageList: string := "jpg,jpeg,png,gif,bmp,webp,svg,ico"
  const VideoList: string := "mp4,avi,mov,mkv,wmv,flv,webm,m4v"
  const AudioList: string := "mp3,wav,flac,aac,ogg,wma,m4a"
  const DocumentList: string := "doc,docx,xls,xlsx,ppt,pptx,pdf,txt,md"

  /** Java's String.contains. */
  predicate Contains(hay: string, needle: string) {
    exists i :: 0 <= i <= |hay| && needle <= hay[i..]
  }

  /**
   * The category of a file as the statistics compute it: null is other;
   * otherwise the lower-cased extension is tested with `contains` against
   * each comma-separated list in turn.
   */
  function CategoryAsWritten(ext: Option<string>): (c: Category)
    ensures ext.None? ==> c == Other
    ensures ext.Some? ==>
      var e := Lower(ext.value);
      (c == Image <==> Contains(ImageList, e))
      && (c == Video <==> !Contains(ImageList, e) && Contains(VideoList, e))
      && (c == Audio <==> !Contains(ImageList, e) && !Contains(VideoList, e) && Contains(AudioList, e))
      && (c == Document <==> !Contains(ImageList, e) && !Contains(VideoList, e) && !Contains(AudioList, e)
                             && Contains(DocumentList, e))
  {
    if ext.None? then Other
    else
      var e := Lower(ext.value);
      if Contains(ImageList, e) then Image
      else if Contains(VideoList, e) then Video
      else if Contains(AudioList, e) then Audio
      else if Contains(DocumentList, e) then Document
      else Other
  }

  /** A substring found at `i`. */
  lemma ContainsAt(hay: string, needle: string, i: nat)
    requires i + |needle| <= |hay| && hay[i..i + |needle|] == needle
    ensures Contains(hay, needle)
  {
    assert needle <= hay[i..];
  }

  /** Substring tests make the empty extension an image. */
  lemma AsWrittenEmptyIsImage()
    ensures CategoryAsWritten(Some("")) == Image
  {
    assert Lower("") == "";
    ContainsAt(ImageList, "", 0);
  }

  /** Substring tests make "pg", a piece of "jpg", an image. */
  lemma AsWrittenPgIsImage()
    ensures CategoryAsWritten(Some("pg")) == Image
  {
    assert Lower("pg") == "pg";
    assert ImageList[1] == 'p' && ImageList[2] == 'g';
    assert ImageList[1..3] == "pg";
    ContainsAt(ImageList, "pg", 1);
  }

  /** Substring tests make "mp", a piece of "bmp", an image rather than a video or audio type. */
  lemma AsWrittenMpIsImage()
    ensures CategoryAsWritten(Some("mp")) == Image
  {
    assert Lower("mp") == "mp";
    assert ImageList[18] == 'm' && ImageList[19] == 'p';
    assert ImageList[18..20] == "mp";
    ContainsAt(ImageList, "mp", 18);
  }

  const ImageNames: set<string> := {"jpg", "jpeg", "png", "gif", "bmp", "webp", "svg", "ico"}
  const VideoNames: set<string> := {"mp4", "avi", "mov", "mkv", "wmv", "flv", "webm", "m4v"}
  const AudioNames: set<string> := {"mp3", "wav", "flac", "aac", "ogg", "wma", "m4a"}
  const DocumentNames: set<string> := {"doc", "docx", "xls", "xlsx", "ppt", "pptx", "pdf", "txt", "md"}

  /** The category with the lists read as lists of whole names. */
  function CategoryOf(ext: Option<string>): (c: Category)
    ensures ext.None? ==> c == Other
    ensures ext.Some? ==>
      var e := Lower(ext.value);
      (c == Image <==> e in ImageNames)
      && (c == Other <==> e !in ImageNames && e !in VideoNames && e !in AudioNames && e !in DocumentNames)
  {
    if ext.None? then Other
    else
      var e := Lower(ext.value);
      if e in ImageNames then Image
      else if e in VideoNames then Video
      else if e in AudioNames then Audio
      else if e in DocumentNames then Document
      else Other
  }

  /** Whole-name membership: the fragments that pass the substring tests are other. */
  lemma CategoryOfRejectsFragments()
    ensures CategoryOf(Some("")) == Other && CategoryOf(Some("pg")) == Other && CategoryOf(Some("mp")) == Other
  {
    assert Lower("") == "" && Lower("pg") == "pg" && Lower("mp") == "mp";
  }

  /** Each listed name is its own list's category. */
  lemma ListedImagesAreImages()
    ensures forall e :: e in ImageNames ==> CategoryOf(Some(e)) == Image
  {
    forall e | e in ImageNames ensures CategoryOf(Some(e)) == Image {
      LowerOfLowerCase(e);
    }
  }

  lemma ListedVideosAreVideos()
    ensures forall e :: e in VideoNames ==> CategoryOf(Some(e)) == Video
  {
    NamesApart(VideoNames, ImageNames);
    forall e | e in VideoNames ensures CategoryOf(Some(e)) == Video {
      LowerOfLowerCase(e);
    }
  }

  lemma ListedAudioIsAudio()
    ensures forall e :: e in AudioNames ==> CategoryOf(Some(e)) == Audio
  {
    NamesApart(AudioNames, ImageNames);
    NamesApart(AudioNames, VideoNames);
    forall e | e in AudioNames ensures CategoryOf(Some(e)) == Audio {
      LowerOfLowerCase(e);
    }
  }

  lemma ListedDocumentsAreDocuments()
    ensures forall e :: e in DocumentNames ==> CategoryOf(Some(e)) == Document
  {
    NamesApart(DocumentNames, ImageNames);
    NamesApart(DocumentNames, VideoNames);
    NamesApart(DocumentNames, AudioNames);
    forall e | e in DocumentNames ensures CategoryOf(Some(e)) == Document {
      LowerOfLowerCase(e);
    }
  }

  /** A later list shares no name with an earlier one. */
  lemma NamesApart(later: set<string>, earlier: set<string>)
    requires later in {VideoNames, AudioNames, DocumentNames} && earlier in {ImageNames, VideoNames, AudioNames}
    requires later != earlier
    ensures forall e :: e in later ==> e !in earlier
  {
  }

  /** Lower-casing leaves a name without capitals unchanged. */
  lemma LowerOfLowerCase(e: string)
    requires forall k :: 0 <= k < |e| ==> !('A' <= e[k] <= 'Z')
    ensures Lower(e) == e
  {
  }

  /** A file row as the statistics read it. */
  datatype StatFile = StatFile(userId: int, delFlag: int, isDir: int, fileSize: Option<int>, extendName: Option<string>)

  function SizeOf(f: StatFile): int {
    if f.fileSize.Some? then f.fileSize.value else 0
  }

  datatype Bucket = Bucket(size: int, count: nat)

  datatype Stats = Stats(totalSize: int, fileCount: nat, image: Bucket, video: Bucket, audio: Bucket, document: Bucket, other: Bucket)

  /** A classifier of extensions: the as-written substring tests or the whole-name lists. */
  type Classifier = Option<string> -> Category

  /** The files of category `c` among `files`: their total size and their number. */
  function BucketOf(files: seq<StatFile>, c: Category, category: Classifier): (b: Bucket)
    ensures b.count <= |files|
  {
    if files == [] then Bucket(0, 0)
    else
      var b := BucketOf(files[..|files| - 1], c, category);
      var f := files[|files| - 1];
      if category(f.extendName) == c then Bucket(b.size + SizeOf(f), b.count + 1) else b
  }

  function TotalSize(files: seq<StatFile>): int {
    if files == [] then 0 else TotalSize(files[..|files| - 1]) + SizeOf(files[|files| - 1])
  }

  function AddTo(b: Bucket, size: int): Bucket {
    Bucket(b.size + size, b.count + 1)
  }

  /** The statistics loop: every file adds its size to the total and to exactly one category. */
  function Tally(files: seq<StatFile>, category: Classifier): (s: Stats)
    ensures s.fileCount == |files|
    ensures s.totalSize == s.image.size + s.video.size + s.audio.size + s.document.size + s.other.size
    ensures s.fileCount == s.image.count + s.video.count + s.audio.count + s.document.count + s.other.count
  {
    if files == [] then Stats(0, 0, Bucket(0, 0), Bucket(0, 0), Bucket(0, 0), Bucket(0, 0), Bucket(0, 0))
    else
      var s := Tally(files[..|files| - 1], category);
      var f := files[|files| - 1];
      var size := SizeOf(f);
      var s' := s.(totalSize := s.totalSize + size, fileCount := s.fileCount + 1);
      match category(f.extendName)
      case Image => s'.(image := AddTo(s.image, size))
      case Video => s'.(video := AddTo(s.video, size))
      case Audio => s'.(audio := AddTo(s.audio, size))
      case Document => s'.(document := AddTo(s.document, size))
      case Other => s'.(other := AddTo(s.other, size))
  }

  /** Each bucket of the one-pass tally is the category's own count and sum, and the total is the sum of all sizes. */
  lemma {:induction false} TallyByCategory(files: seq<StatFile>, category: Classifier)
    ensures Tally(files, category).totalSize == TotalSize(files)
    ensures Tally(files, category).image == BucketOf(files, Image, category)
    ensures Tally(files, category).video == BucketOf(files, Video, category)
    ensures Tally(files, category).audio == BucketOf(files, Audio, category)
    ensures Tally(files, category).document == BucketOf(files, Document, category)
    ensures Tally(files, category).other == BucketOf(files, Other, category)
  {
    if files != [] {
      TallyByCategory(files[..|files| - 1], category);
    }
  }

  /** The rows the statistics read: not deleted, not a directory, and the user's own when a user is given. */
  predicate Counted(f: StatFile, userId: Option<int>) {
    f.delFlag == 0 && f.isDir == 0 && (userId.None? || f.userId == userId.value)
  }

  function Select(files: seq<StatFile>, userId: Option<int>): (r: seq<StatFile>)
    ensures forall f :: f in r <==> f in files && Counted(f, userId)
  {
    if files == [] then []
    else
      var rest := Select(files[1..], userId);
      assert forall f :: f in files <==> f == files[0] || f in files[1..];
      if Counted(files[0], userId) then [files[0]] + rest else rest
  }

  /** getStorageStats: a logged-in user's own live files, tallied with the substring tests as written. */
  function GetStorageStats(files: seq<StatFile>, userId: Option<int>): (r: Result<Stats, UserError>)
    ensures userId.None? ==> r == Failure(NotLoggedIn)
    ensures r.Success? ==> (userId.Some? && r.value == Tally(Select(files, userId), CategoryAsWritten)
      && r.value.fileCount == |Select(files, userId)|)
  {
    if userId.None? then Failure(NotLoggedIn) else Success(Tally(Select(files, userId), CategoryAsWritten))
  }

  /** getSystemStorageStats: every live file, tallied with the substring tests as written. */
  function GetSystemStorageStats(files: seq<StatFile>): (s: Stats)
    ensures s == Tally(Select(files, None), CategoryAsWritten)
    ensures forall f :: f in files && f.delFlag == 0 && f.isDir == 0 ==> f in Select(files, None)
  {
    Tally(Select(files, None), CategoryAsWritten)
  }

  /** getStorageStats with the lists read as whole names: the same refusal and the same rows. */
  function GetStorageStatsCorrected(files: seq<StatFile>, userId: Option<int>): (r: Result<Stats, UserError>)
    ensures userId.None? ==> r == Failure(NotLoggedIn)
    ensures r.Success? ==> userId.Some? && r.value == Tally(Select(files, userId), CategoryOf)
    ensures r.Success? ==> r.value.totalSize == GetStorageStats(files, userId).value.totalSize
  {
    if userId.None? then Failure(NotLoggedIn)
    else
      TallyByCategory(Select(files, userId), CategoryOf);
      TallyByCategory(Select(files, userId), CategoryAsWritten);
      Success(Tally(Select(files, userId), CategoryOf))
  }

  /** getSystemStorageStats with the lists read as whole names. */
  function GetSystemStorageStatsCorrected(files: seq<StatFile>): (s: Stats)
    ensures s == Tally(Select(files, None), CategoryOf)
    ensures s.totalSize == GetSystemStorageStats(files).totalSize
  {
    TallyByCategory(Select(files, None), CategoryOf);
    TallyByCategory(Select(files, None), CategoryAsWritten);
    Tally(Select(files, None), CategoryOf)
  }

  /**
   * One live file with the extension "pg": the statistics as written count
   * it as an image, the corrected ones as other; the total is the same.
   */
  lemma AsWrittenStatsCountFragmentAsImage()
    ensures var files := [StatFile(1, 0, 0, Some(10), Some("pg"))];
      GetSystemStorageStats(files).image == Bucket(10, 1)
      && GetSystemStorageStatsCorrected(files).image == Bucket(0, 0)
      && GetSystemStorageStatsCorrected(files).other == Bucket(10, 1)
  {
    var files := [StatFile(1, 0, 0, Some(10), Some("pg"))];
    assert Select(files, None) == files by {
      assert Select(files[1..], None) == [];
    }
    assert files[..0] == [];
    AsWrittenPgIsImage();
    CategoryOfRejectsFragments();
  }
}
