/**
 * The lifecycle of a transfer task (TransferTaskServiceImpl): a task is
 * created PENDING, moves between PENDING, PROCESSING, PAUSED, COMPLETED and
 * FAILED, and can be deleted; alongside, the service keeps the set of
 * "active users" (those with a PENDING or PROCESSING task) up to date.
 *
 * The task table is a sequence of rows; the file table is reduced to each
 * file's owner; the clock, the fresh task id and the logged-in user are
 * parameters.
 */
module TransferTasks {
  import opened Wrappers
  import opened Text

  const Pending: string := "PENDING"
  const Processing: string := "PROCESSING"
  const Paused: string := "PAUSED"
  const Completed: string := "COMPLETED"
  const Failed: string := "FAILED"

  /** A task row; `userId` is copied from the file when the task is created. */
  datatype Task = Task(taskId: string, fileId: int, userId: Option<int>, taskType: string,
                       status: string, progress: int, startTime: int, endTime: Option<int>)

  /** The task rows, each file's owner (null when the row has none), and the active-user set. */
  datatype TaskStore = TaskStore(tasks: seq<Task>, owners: map<int, Option<int>>, active: set<int>)

  /** A task in one of these states counts as a running transfer. */
  predicate IsActiveStatus(s: string) {
    s == Pending || s == Processing
  }

  /** A status that closes a task and stamps its end time. */
  predicate EndsTask(s: string) {
    s == Completed || s == Failed
  }

  /** A status that, reached from an active one, may drop the owner from the active set. */
  predicate Deactivates(s: string) {
    s == Completed || s == Failed || s == Paused
  }

  /** The owner of a file, None for a missing file or one without an owner. */
  function OwnerOf(owners: map<int, Option<int>>, fileId: int): Option<int> {
    if fileId in owners then owners[fileId] else None
  }

  /** Whether row `t` is an active task of user `u`, judged through its file. */
  predicate ActiveTaskOf(t: Task, owners: map<int, Option<int>>, u: int) {
    IsActiveStatus(t.status) && OwnerOf(owners, t.fileId) == Some(u)
  }

  /** countActiveTasksByUserId: the number of active tasks on files of `u`. */
  function CountActive(tasks: seq<Task>, owners: map<int, Option<int>>, u: int): (n: nat)
    ensures n <= |tasks|
  {
    if tasks == [] then 0
    else (if ActiveTaskOf(tasks[0], owners, u) then 1 else 0) + CountActive(tasks[1..], owners, u)
  }

  /** The count is zero exactly when no row is an active task of `u`. */
  lemma {:induction false} CountActiveZero(tasks: seq<Task>, owners: map<int, Option<int>>, u: int)
    ensures CountActive(tasks, owners, u) == 0 <==> forall k :: 0 <= k < |tasks| ==> !ActiveTaskOf(tasks[k], owners, u)
  {
    if tasks != [] {
      CountActiveZero(tasks[1..], owners, u);
      assert forall k :: 1 <= k < |tasks| ==> tasks[k] == tasks[1..][k - 1];
    }
  }

  /**
   * The invariant the service keeps: the owner of every active task is in
   * the active set.  (The set may hold more users; they are only removed
   * when a task of theirs ends.)
   */
  ghost predicate ActiveCovered(st: TaskStore) {
    forall k :: 0 <= k < |st.tasks| && IsActiveStatus(st.tasks[k].status) && OwnerOf(st.owners, st.tasks[k].fileId).Some? ==>
      OwnerOf(st.owners, st.tasks[k].fileId).value in st.active
  }

  /** selectByTaskId: the first row with this id. */
  function IndexOf(tasks: seq<Task>, taskId: string): (r: Option<nat>)
    ensures r.Some? ==> (r.value < |tasks| && tasks[r.value].taskId == taskId
      && forall k :: 0 <= k < r.value ==> tasks[k].taskId != taskId)
    ensures r.None? <==> forall k :: 0 <= k < |tasks| ==> tasks[k].taskId != taskId
  {
    if tasks == [] then None
    else if tasks[0].taskId == taskId then Some(0)
    else match IndexOf(tasks[1..], taskId)
      case None =>
        assert forall k :: 1 <= k < |tasks| ==> tasks[k] == tasks[1..][k - 1];
        None
      case Some(i) => Some(i + 1)
  }

  /** Rows with the same ids in the same places find the same first index. */
  lemma {:induction false} IndexOfSameIds(a: seq<Task>, b: seq<Task>, taskId: string)
    requires |a| == |b| && forall k :: 0 <= k < |a| ==> a[k].taskId == b[k].taskId
    ensures IndexOf(a, taskId) == IndexOf(b, taskId)
  {
    if a != [] {
      IndexOfSameIds(a[1..], b[1..], taskId);
    }
  }

  /* ------------------------------------------------------------ createTask */

  /**
   * createTask: a new PENDING row with progress 0, the file's owner and the
   * start time; the owner, when there is one, joins the active set.
   */
  function CreateTask(st: TaskStore, taskId: string, fileId: int, taskType: string, now: int): (r: TaskStore)
    ensures r.tasks == st.tasks + [Task(taskId, fileId, OwnerOf(st.owners, fileId), taskType, Pending, 0, now, None)]
    ensures r.owners == st.owners
    ensures r.active == if OwnerOf(st.owners, fileId).Some? then st.active + {OwnerOf(st.owners, fileId).value} else st.active
  {
    var owner := OwnerOf(st.owners, fileId);
    var t := Task(taskId, fileId, owner, taskType, Pending, 0, now, None);
    TaskStore(st.tasks + [t], st.owners, if owner.Some? then st.active + {owner.value} else st.active)
  }

  /** A freshly created task is found by its id, and the active set still covers every active task. */
  lemma CreateTaskKeepsCovered(st: TaskStore, taskId: string, fileId: int, taskType: string, now: int)
    requires ActiveCovered(st)
    requires IndexOf(st.tasks, taskId).None?
    ensures var r := CreateTask(st, taskId, fileId, taskType, now);
      ActiveCovered(r) && IndexOf(r.tasks, taskId) == Some(|st.tasks|)
      && (OwnerOf(st.owners, fileId).Some? ==> CountActive(r.tasks, r.owners, OwnerOf(st.owners, fileId).value) > 0)
  {
    var r := CreateTask(st, taskId, fileId, taskType, now);
    var u := OwnerOf(st.owners, fileId);
    assert r.tasks[|st.tasks|].taskId == taskId;
    assert forall k :: 0 <= k < |st.tasks| ==> r.tasks[k] == st.tasks[k];
    if u.Some? {
      CountActiveZero(r.tasks, r.owners, u.value);
      assert ActiveTaskOf(r.tasks[|st.tasks|], r.owners, u.value);
    }
    assert ActiveCovered(r);
  }

  /* ------------------------------------------------------ updateTaskStatus */

  /** The row with its new status; COMPLETED and FAILED stamp the end time. */
  function WithStatus(t: Task, status: string, now: int): (r: Task)
    ensures r.status == status && r.taskId == t.taskId && r.fileId == t.fileId
    ensures EndsTask(status) ==> r.endTime == Some(now)
    ensures !EndsTask(status) ==> r.endTime == t.endTime
    ensures r.(status := t.status, endTime := t.endTime) == t
  {
    t.(status := status, endTime := if EndsTask(status) then Some(now) else t.endTime)
  }

  /**
   * The active set after a task of `owner` went from `oldStatus` to
   * `status`, with `tasks` the rows after the change: leaving an active
   * state for COMPLETED, FAILED or PAUSED drops the owner once none of
   * their tasks is active; entering an active state from another adds
   * them.
   */
  function ActiveAfter(active: set<int>, owner: Option<int>, oldStatus: string, status: string,
                       tasks: seq<Task>, owners: map<int, Option<int>>): set<int> {
    if IsActiveStatus(oldStatus) then
      if Deactivates(status) && owner.Some? && CountActive(tasks, owners, owner.value) == 0
      then active - {owner.value} else active
    else if IsActiveStatus(status) && owner.Some? then active + {owner.value}
    else active
  }

  /**
   * updateTaskStatus: false and no change for an unknown task; otherwise
   * the row gets the status (and an end time for COMPLETED or FAILED),
   * every other row is unchanged, and only the owner's membership of the
   * active set may change.
   */
  function UpdateTaskStatus(st: TaskStore, taskId: string, status: string, now: int): (r: (bool, TaskStore))
    ensures r.0 <==> IndexOf(st.tasks, taskId).Some?
    ensures !r.0 ==> r.1 == st
    ensures r.0 ==> var i := IndexOf(st.tasks, taskId).value;
      |r.1.tasks| == |st.tasks| && r.1.owners == st.owners
      && r.1.tasks[i].status == status
      && (EndsTask(status) ==> r.1.tasks[i].endTime == Some(now))
      && (!EndsTask(status) ==> r.1.tasks[i].endTime == st.tasks[i].endTime)
      && (forall k :: 0 <= k < |st.tasks| && k != i ==> r.1.tasks[k] == st.tasks[k])
      && r.1.active - {OwnerOf(st.owners, st.tasks[i].fileId).GetOr(0)} == st.active - {OwnerOf(st.owners, st.tasks[i].fileId).GetOr(0)}
  {
    match IndexOf(st.tasks, taskId)
    case None => (false, st)
    case Some(i) =>
      var t := st.tasks[i];
      var tasks := st.tasks[i := WithStatus(t, status, now)];
      var owner := OwnerOf(st.owners, t.fileId);
      (true, TaskStore(tasks, st.owners, ActiveAfter(st.active, owner, t.status, status, tasks, st.owners)))
  }

  /** Changing one row moves each user's active count by that row's own contribution. */
  lemma {:induction false} CountActiveUpdate(tasks: seq<Task>, owners: map<int, Option<int>>, i: nat, t: Task, u: int)
    requires i < |tasks|
    ensures CountActive(tasks[i := t], owners, u) + (if ActiveTaskOf(tasks[i], owners, u) then 1 else 0)
      == CountActive(tasks, owners, u) + (if ActiveTaskOf(t, owners, u) then 1 else 0)
  {
    if i > 0 {
      CountActiveUpdate(tasks[1..], owners, i - 1, t, u);
      assert tasks[i := t][1..] == tasks[1..][i - 1 := t];
    } else {
      assert tasks[i := t][1..] == tasks[1..];
    }
  }

  /**
   * Every status change keeps the active set covering the active tasks:
   * the owner is only dropped when they have no active task left.
   */
  lemma UpdateTaskStatusKeepsCovered(st: TaskStore, taskId: string, status: string, now: int)
    requires ActiveCovered(st)
    ensures ActiveCovered(UpdateTaskStatus(st, taskId, status, now).1)
  {
    match IndexOf(st.tasks, taskId)
    case None =>
    case Some(i) =>
      var r := UpdateTaskStatus(st, taskId, status, now).1;
      var owner := OwnerOf(st.owners, st.tasks[i].fileId);
      if owner.Some? {
        CountActiveZero(r.tasks, r.owners, owner.value);
      }
      forall k | 0 <= k < |r.tasks| && IsActiveStatus(r.tasks[k].status) && OwnerOf(r.owners, r.tasks[k].fileId).Some?
        ensures OwnerOf(r.owners, r.tasks[k].fileId).value in r.active
      {
        assert ActiveTaskOf(r.tasks[k], r.owners, OwnerOf(r.owners, r.tasks[k].fileId).value);
      }
  }

  /** A task moved into an active state puts its owner in the active set. */
  lemma ActivatingAddsOwner(st: TaskStore, taskId: string, status: string, now: int)
    requires IndexOf(st.tasks, taskId).Some?
    requires IsActiveStatus(status)
    requires OwnerOf(st.owners, st.tasks[IndexOf(st.tasks, taskId).value].fileId).Some?
    requires ActiveCovered(st)
    ensures OwnerOf(st.owners, st.tasks[IndexOf(st.tasks, taskId).value].fileId).value
      in UpdateTaskStatus(st, taskId, status, now).1.active
  {
    UpdateTaskStatusKeepsCovered(st, taskId, status, now);
  }

  /**
   * Ending the last active task of a user (to COMPLETED, FAILED or PAUSED)
   * takes them out of the active set; while another of their tasks is
   * active they stay.
   */
  lemma DeactivatingLastTaskDropsOwner(st: TaskStore, taskId: string, status: string, now: int)
    requires IndexOf(st.tasks, taskId).Some?
    requires Deactivates(status)
    requires IsActiveStatus(st.tasks[IndexOf(st.tasks, taskId).value].status)
    requires OwnerOf(st.owners, st.tasks[IndexOf(st.tasks, taskId).value].fileId).Some?
    ensures var i := IndexOf(st.tasks, taskId).value;
      var u := OwnerOf(st.owners, st.tasks[i].fileId).value;
      var r := UpdateTaskStatus(st, taskId, status, now).1;
      (u in r.active <==> (u in st.active && CountActive(st.tasks, st.owners, u) > 1))
  {
    var i := IndexOf(st.tasks, taskId).value;
    var u := OwnerOf(st.owners, st.tasks[i].fileId).value;
    CountActiveUpdate(st.tasks, st.owners, i, WithStatus(st.tasks[i], status, now), u);
  }

  /* ------------------------------------------------------------ deleteTask */

  /**
   * deleteTask: false for an unknown task; otherwise the row goes, and if
   * it was active its owner leaves the active set once no active task of
   * theirs remains.
   */
  function DeleteTask(st: TaskStore, taskId: string): (r: (bool, TaskStore))
    ensures r.0 <==> IndexOf(st.tasks, taskId).Some?
    ensures !r.0 ==> r.1 == st
    ensures r.0 ==> var i := IndexOf(st.tasks, taskId).value;
      r.1.tasks == st.tasks[..i] + st.tasks[i + 1..] && r.1.owners == st.owners
      && r.1.active <= st.active
      && st.active - r.1.active <= {OwnerOf(st.owners, st.tasks[i].fileId).GetOr(0)}
  {
    match IndexOf(st.tasks, taskId)
    case None => (false, st)
    case Some(i) =>
      var t := st.tasks[i];
      var tasks := st.tasks[..i] + st.tasks[i + 1..];
      var owner := OwnerOf(st.owners, t.fileId);
      var active :=
        if IsActiveStatus(t.status) && owner.Some? && CountActive(tasks, st.owners, owner.value) == 0
        then st.active - {owner.value} else st.active;
      (true, TaskStore(tasks, st.owners, active))
  }

  /** Deleting a task keeps the active set covering the remaining active tasks. */
  lemma DeleteTaskKeepsCovered(st: TaskStore, taskId: string)
    requires ActiveCovered(st)
    ensures ActiveCovered(DeleteTask(st, taskId).1)
  {
    match IndexOf(st.tasks, taskId)
    case None =>
    case Some(i) =>
      var r := DeleteTask(st, taskId).1;
      var owner := OwnerOf(st.owners, st.tasks[i].fileId);
      if owner.Some? {
        CountActiveZero(r.tasks, r.owners, owner.value);
      }
      forall k | 0 <= k < |r.tasks| && IsActiveStatus(r.tasks[k].status) && OwnerOf(r.owners, r.tasks[k].fileId).Some?
        ensures OwnerOf(r.owners, r.tasks[k].fileId).value in r.active
      {
        var j := if k < i then k else k + 1;
        assert r.tasks[k] == st.tasks[j];
        assert ActiveTaskOf(r.tasks[k], r.owners, OwnerOf(r.owners, r.tasks[k].fileId).value);
      }
  }

  /* ---------------------------------------------- incomplete tasks, pause */

  /** Whether a task of user `u`, of type `taskType`, has not completed yet. */
  predicate IncompleteOf(t: Task, owners: map<int, Option<int>>, u: int, taskType: string) {
    OwnerOf(owners, t.fileId) == Some(u) && t.taskType == taskType && t.status != Completed
  }

  /** The incomplete tasks of `u` of one type, in table order. */
  function Incomplete(tasks: seq<Task>, owners: map<int, Option<int>>, u: int, taskType: string): (r: seq<Task>)
    ensures forall t :: t in r <==> t in tasks && IncompleteOf(t, owners, u, taskType)
    ensures |r| <= |tasks|
  {
    if tasks == [] then []
    else
      var rest := Incomplete(tasks[1..], owners, u, taskType);
      assert forall t :: t in tasks <==> t == tasks[0] || t in tasks[1..];
      if IncompleteOf(tasks[0], owners, u, taskType) then [tasks[0]] + rest else rest
  }

  /**
   * listIncompleteTasksForCurrentUser: nothing without a logged-in user or
   * for a type other than UPLOAD or DOWNLOAD (compared ignoring case);
   * otherwise exactly the user's incomplete tasks of that type.
   */
  function ListIncomplete(st: TaskStore, userId: Option<int>, taskType: string): (r: seq<Task>)
    ensures userId.None? ==> r == []
    ensures Lower(taskType) != "upload" && Lower(taskType) != "download" ==> r == []
    ensures userId.Some? && Lower(taskType) == "upload" ==>
      forall t :: t in r <==> t in st.tasks && IncompleteOf(t, st.owners, userId.value, "UPLOAD")
    ensures userId.Some? && Lower(taskType) == "download" ==>
      forall t :: t in r <==> t in st.tasks && IncompleteOf(t, st.owners, userId.value, "DOWNLOAD")
  {
    if userId.None? then []
    else if Lower(taskType) == "upload" then Incomplete(st.tasks, st.owners, userId.value, "UPLOAD")
    else if Lower(taskType) == "download" then Incomplete(st.tasks, st.owners, userId.value, "DOWNLOAD")
    else []
  }

  /** The number of tasks of a list whose (listed) status is active. */
  function CountActiveListed(list: seq<Task>): (n: nat)
    ensures n <= |list|
  {
    if list == [] then 0
    else (if IsActiveStatus(list[0].status) then 1 else 0) + CountActiveListed(list[1..])
  }

  /**
   * The pause loop: each listed task whose listed status is PENDING or
   * PROCESSING is set PAUSED through updateTaskStatus, and counted when
   * that call succeeds.
   */
  function PauseEach(st: TaskStore, list: seq<Task>, now: int): (r: (nat, TaskStore))
    ensures r.0 <= CountActiveListed(list)
    ensures |r.1.tasks| == |st.tasks| && r.1.owners == st.owners
    decreases |list|
  {
    if list == [] then (0, st)
    else if IsActiveStatus(list[0].status) then
      var (ok, st1) := UpdateTaskStatus(st, list[0].taskId, Paused, now);
      var (n, st2) := PauseEach(st1, list[1..], now);
      ((if ok then 1 else 0) + n, st2)
    else PauseEach(st, list[1..], now)
  }

  /** Every listed task's id has a row. */
  predicate AllListed(tasks: seq<Task>, list: seq<Task>) {
    forall k :: 0 <= k < |list| ==> IndexOf(tasks, list[k].taskId).Some?
  }

  /**
   * The pause loop over tasks that all have rows counts every listed
   * active task, leaves the ids of the rows in place, and touches no row
   * except to pause it.
   */
  lemma {:induction false} PauseEachFrame(st: TaskStore, list: seq<Task>, now: int)
    requires AllListed(st.tasks, list)
    ensures PauseEach(st, list, now).0 == CountActiveListed(list)
    ensures var r := PauseEach(st, list, now).1;
      (forall k :: 0 <= k < |st.tasks| ==> r.tasks[k].taskId == st.tasks[k].taskId)
      && (forall k :: 0 <= k < |st.tasks| ==> r.tasks[k] == st.tasks[k] || r.tasks[k].status == Paused)
    decreases |list|
  {
    if list != [] {
      var rest := list[1..];
      assert forall k :: 1 <= k < |list| ==> list[k] == rest[k - 1];
      if IsActiveStatus(list[0].status) {
        var st1 := UpdateTaskStatus(st, list[0].taskId, Paused, now).1;
        forall k | 0 <= k < |rest| ensures IndexOf(st1.tasks, rest[k].taskId).Some? {
          IndexOfSameIds(st.tasks, st1.tasks, rest[k].taskId);
        }
        PauseEachFrame(st1, rest, now);
      } else {
        PauseEachFrame(st, rest, now);
      }
    }
  }

  /** The pause loop over tasks that all have rows pauses the row of every listed active task. */
  lemma {:induction false} PauseEachPauses(st: TaskStore, list: seq<Task>, now: int)
    requires AllListed(st.tasks, list)
    ensures forall k :: 0 <= k < |list| && IsActiveStatus(list[k].status) ==>
      PauseEach(st, list, now).1.tasks[IndexOf(st.tasks, list[k].taskId).value].status == Paused
    decreases |list|
  {
    PauseEachFrame(st, list, now);
    if list != [] {
      var rest := list[1..];
      assert forall k :: 1 <= k < |list| ==> list[k] == rest[k - 1];
      if IsActiveStatus(list[0].status) {
        var st1 := UpdateTaskStatus(st, list[0].taskId, Paused, now).1;
        forall k | 0 <= k < |rest| ensures IndexOf(st1.tasks, rest[k].taskId) == IndexOf(st.tasks, rest[k].taskId) {
          IndexOfSameIds(st.tasks, st1.tasks, rest[k].taskId);
        }
        PauseEachFrame(st1, rest, now);
        PauseEachPauses(st1, rest, now);
      } else {
        PauseEachPauses(st, rest, now);
      }
    }
  }

  /** The pause loop keeps the active set covering the active tasks. */
  lemma {:induction false} PauseEachKeepsCovered(st: TaskStore, list: seq<Task>, now: int)
    requires ActiveCovered(st)
    ensures ActiveCovered(PauseEach(st, list, now).1)
    decreases |list|
  {
    if list != [] {
      if IsActiveStatus(list[0].status) {
        UpdateTaskStatusKeepsCovered(st, list[0].taskId, Paused, now);
        PauseEachKeepsCovered(UpdateTaskStatus(st, list[0].taskId, Paused, now).1, list[1..], now);
      } else {
        PauseEachKeepsCovered(st, list[1..], now);
      }
    }
  }

  /**
   * pauseAllCurrentUserTasks: 0 and no change without a logged-in user;
   * otherwise the pause loop over the user's incomplete uploads and then
   * downloads, returning how many tasks it paused.
   */
  function PauseAll(st: TaskStore, userId: Option<int>, now: int): (r: (nat, TaskStore))
    ensures userId.None? ==> r == (0, st)
  {
    if userId.None? then (0, st)
    else
      var uploads := Incomplete(st.tasks, st.owners, userId.value, "UPLOAD");
      var downloads := Incomplete(st.tasks, st.owners, userId.value, "DOWNLOAD");
      PauseEach(st, uploads + downloads, now)
  }

  /** A task of the table has a row under its own id. */
  lemma RowOfMember(tasks: seq<Task>, t: Task)
    requires t in tasks
    ensures IndexOf(tasks, t.taskId).Some?
  {
  }

  /**
   * After pauseAll, every PENDING or PROCESSING upload or download task of
   * the user is PAUSED, the count is the number of those tasks, any row
   * that changed is PAUSED, and the active set still covers the active
   * tasks.
   */
  lemma PauseAllOutcome(st: TaskStore, u: int, now: int)
    requires ActiveCovered(st)
    ensures var (n, r) := PauseAll(st, Some(u), now);
      var listed := Incomplete(st.tasks, st.owners, u, "UPLOAD") + Incomplete(st.tasks, st.owners, u, "DOWNLOAD");
      n == CountActiveListed(listed)
      && |r.tasks| == |st.tasks|
      && (forall k :: 0 <= k < |st.tasks| ==> r.tasks[k] == st.tasks[k] || r.tasks[k].status == Paused)
      && (forall k :: (0 <= k < |st.tasks| && IsActiveStatus(st.tasks[k].status)
            && IncompleteOf(st.tasks[k], st.owners, u, "UPLOAD")) ==> r.tasks[IndexOf(st.tasks, st.tasks[k].taskId).value].status == Paused)
      && (forall k :: (0 <= k < |st.tasks| && IsActiveStatus(st.tasks[k].status)
            && IncompleteOf(st.tasks[k], st.owners, u, "DOWNLOAD")) ==> r.tasks[IndexOf(st.tasks, st.tasks[k].taskId).value].status == Paused)
      && ActiveCovered(r)
  {
    var listed := Incomplete(st.tasks, st.owners, u, "UPLOAD") + Incomplete(st.tasks, st.owners, u, "DOWNLOAD");
    forall k | 0 <= k < |listed| ensures IndexOf(st.tasks, listed[k].taskId).Some? {
      RowOfMember(st.tasks, listed[k]);
    }
    PauseEachFrame(st, listed, now);
    PauseEachPauses(st, listed, now);
    PauseEachKeepsCovered(st, listed, now);
    forall k | 0 <= k < |st.tasks| && IsActiveStatus(st.tasks[k].status)
      && (IncompleteOf(st.tasks[k], st.owners, u, "UPLOAD") || IncompleteOf(st.tasks[k], st.owners, u, "DOWNLOAD"))
      ensures st.tasks[k] in listed
    {
    }
  }
}
