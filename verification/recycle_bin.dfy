/**
 * The recycle bin (RecoveryFileServiceImpl).  Deleting a file or a folder
 * "to recovery" writes a recovery record and soft-deletes the rows
 * (delFlag 1), a whole folder subtree under one batch number; restoring a
 * record clears the flags again, deleting it permanently removes the rows
 * and their transfer tasks, and clearing the bin does that for every
 * record, skipping files that are still being downloaded.
 *
 * The tables are sequences of rows in table order.  Fresh record ids and
 * batch numbers (UUIDs in the source) are parameters; times, paths and
 * the files on disk are left out.
 *
 * delFlag is the logical-delete column of both row tables: every query the
 * persistence framework builds for them (selectById, selectList, update,
 * delete) sees only rows with delFlag 0, and its delete sets delFlag 1
 * instead of removing the row.  Only the native SQL statements of the file
 * mapper remove rows.
 */
module RecycleBin {
  import opened Wrappers
  import TransferTasks

  type Task = TransferTasks.Task

  datatype FileRow = FileRow(id: int, userId: Option<int>, folderId: int, isDir: int, delFlag: int, batch: Option<string>)

  datatype FolderRow = FolderRow(id: int, userId: Option<int>, parentId: int, delFlag: int, batch: Option<string>)

  /** A recovery record: for a folder, `fileId` is null and `originalFolderId` names the folder. */
  datatype Record = Record(id: int, userId: Option<int>, fileId: Option<int>, isDir: int, batch: string,
                           originalFolderId: Option<int>)

  datatype Bin = Bin(files: seq<FileRow>, folders: seq<FolderRow>, records: seq<Record>, tasks: seq<Task>)

  datatype BinError = FileBeingDownloaded

  /** The elements of `s` satisfying `p`, in order. */
  function Keep<T(!new)>(s: seq<T>, p: T -> bool): (r: seq<T>)
    ensures forall x :: x in r <==> x in s && p(x)
    ensures |r| <= |s|
  {
    if s == [] then []
    else
      assert forall x :: x in s <==> x == s[0] || x in s[1..];
      (if p(s[0]) then [s[0]] else []) + Keep(s[1..], p)
  }

  /* ------------------------------------------------------------ row updates */

  /** selectById on the files table: the row with the id, found only while it is live. */
  function FindFile(files: seq<FileRow>, id: int): (r: Option<FileRow>)
    ensures r.Some? ==> r.value in files && r.value.id == id && r.value.delFlag == 0
    ensures r.None? ==> forall k :: 0 <= k < |files| && files[k].id == id ==> files[k].delFlag != 0
  {
    if files == [] then None
    else if files[0].id == id && files[0].delFlag == 0 then Some(files[0])
    else
      assert forall k :: 1 <= k < |files| ==> files[k] == files[1..][k - 1];
      FindFile(files[1..], id)
  }

  /** selectById on the folders table: the row with the id, found only while it is live. */
  function FindFolder(folders: seq<FolderRow>, id: int): (r: Option<FolderRow>)
    ensures r.Some? ==> r.value in folders && r.value.id == id && r.value.delFlag == 0
    ensures r.None? ==> forall k :: 0 <= k < |folders| && folders[k].id == id ==> folders[k].delFlag != 0
  {
    if folders == [] then None
    else if folders[0].id == id && folders[0].delFlag == 0 then Some(folders[0])
    else
      assert forall k :: 1 <= k < |folders| ==> folders[k] == folders[1..][k - 1];
      FindFolder(folders[1..], id)
  }

  function FindRecord(records: seq<Record>, id: int): (r: Option<Record>)
    ensures r.Some? ==> r.value in records && r.value.id == id
    ensures r.None? ==> forall k :: 0 <= k < |records| ==> records[k].id != id
  {
    if records == [] then None
    else if records[0].id == id then Some(records[0])
    else
      assert forall k :: 1 <= k < |records| ==> records[k] == records[1..][k - 1];
      FindRecord(records[1..], id)
  }

  function MarkedFile(f: FileRow, batch: string): FileRow {
    f.(delFlag := 1, batch := Some(batch))
  }

  function MarkedFolder(f: FolderRow, batch: string): FolderRow {
    f.(delFlag := 1, batch := Some(batch))
  }

  /** The soft delete of a single file: its live rows get delFlag 1 and keep their batch number. */
  function FlagFile(files: seq<FileRow>, id: int): (r: seq<FileRow>)
    ensures |r| == |files|
    ensures forall k :: 0 <= k < |files| ==>
      r[k] == if files[k].id == id && files[k].delFlag == 0 then files[k].(delFlag := 1) else files[k]
  {
    seq(|files|, k requires 0 <= k < |files| =>
      if files[k].id == id && files[k].delFlag == 0 then files[k].(delFlag := 1) else files[k])
  }

  /** The soft delete of a file in a batch: its live rows get delFlag 1 and the batch number. */
  function FlagFileInBatch(files: seq<FileRow>, id: int, batch: string): (r: seq<FileRow>)
    ensures |r| == |files|
    ensures forall k :: 0 <= k < |files| ==>
      r[k] == if files[k].id == id && files[k].delFlag == 0 then MarkedFile(files[k], batch) else files[k]
  {
    seq(|files|, k requires 0 <= k < |files| =>
      if files[k].id == id && files[k].delFlag == 0 then MarkedFile(files[k], batch) else files[k])
  }

  /* ------------------------------------------------- delete to recovery */

  /**
   * deleteFileToRecovery: a missing or already deleted file changes
   * nothing; otherwise a record owned by the file's owner (not the caller)
   * with a fresh batch number is added, and the file gets delFlag 1.
   */
  function DeleteFileToRecovery(b: Bin, fileId: int, recId: int, batch: string): (r: Bin)
    ensures FindFile(b.files, fileId).None? ==> r == b
    ensures FindFile(b.files, fileId).Some? ==>
      var f := FindFile(b.files, fileId).value;
      r.records == b.records + [Record(recId, f.userId, Some(fileId), f.isDir, batch, None)]
      && r.folders == b.folders && r.tasks == b.tasks && |r.files| == |b.files|
      && forall k :: 0 <= k < |b.files| ==>
           r.files[k].delFlag == (if b.files[k].id == fileId && b.files[k].delFlag == 0 then 1 else b.files[k].delFlag)
           && r.files[k].(delFlag := b.files[k].delFlag) == b.files[k]
  {
    match FindFile(b.files, fileId)
    case None => b
    case Some(f) =>
      b.(records := b.records + [Record(recId, f.userId, Some(fileId), f.isDir, batch, None)],
         files := FlagFile(b.files, fileId))
  }

  /**
   * batchDeleteToRecovery: every listed file that exists and is live gets a
   * record owned by its owner and delFlag 1, all under the one batch
   * number; missing ids, and ids already deleted (by an earlier repeat in
   * the list, too), are skipped.  `recIds[i]` is the id the record of
   * `fileIds[i]` would get.
   */
  function BatchDeleteToRecovery(b: Bin, fileIds: seq<int>, recIds: seq<int>, batch: string): (r: Bin)
    requires |recIds| == |fileIds|
    ensures |r.records| >= |b.records| && r.records[..|b.records|] == b.records
    ensures forall k :: |b.records| <= k < |r.records| ==> r.records[k].batch == batch && r.records[k].fileId.Some?
    ensures |r.records| - |b.records| <= |fileIds|
    ensures r.folders == b.folders && r.tasks == b.tasks && |r.files| == |b.files|
    ensures forall k :: 0 <= k < |b.files| ==>
      r.files[k] == if b.files[k].id in fileIds && b.files[k].delFlag == 0 then MarkedFile(b.files[k], batch) else b.files[k]
    decreases |fileIds|
  {
    if fileIds == [] then b
    else
      var b1 := BatchDeleteOne(b, fileIds[0], recIds[0], batch);
      var r := BatchDeleteToRecovery(b1, fileIds[1..], recIds[1..], batch);
      assert forall x :: x in fileIds <==> x == fileIds[0] || x in fileIds[1..];
      assert r.records[..|b.records|] == b1.records[..|b1.records|][..|b.records|];
      r
  }

  /** One step of the batch: the file, when it exists and is live, gets its record and is marked under the batch. */
  function BatchDeleteOne(b: Bin, fileId: int, recId: int, batch: string): (r: Bin)
    ensures |b.records| <= |r.records| <= |b.records| + 1 && r.records[..|b.records|] == b.records
    ensures forall k :: |b.records| <= k < |r.records| ==> r.records[k].batch == batch && r.records[k].fileId.Some?
    ensures r.folders == b.folders && r.tasks == b.tasks && |r.files| == |b.files|
    ensures forall k :: 0 <= k < |b.files| ==>
      r.files[k] == if b.files[k].id == fileId && b.files[k].delFlag == 0 then MarkedFile(b.files[k], batch) else b.files[k]
  {
    match FindFile(b.files, fileId)
    case None => b
    case Some(f) =>
      b.(records := b.records + [Record(recId, f.userId, Some(fileId), f.isDir, batch, None)],
         files := FlagFileInBatch(b.files, fileId, batch))
  }

  /** A file listed twice in a batch gets one record: the second lookup no longer sees it. */
  lemma BatchRepeatAddsOneRecord()
    ensures var b := Bin([FileRow(1, Some(7), 0, 0, 0, None)], [], [], []);
      var r := BatchDeleteToRecovery(b, [1, 1], [10, 11], "b1");
      |r.records| == 1 && r.files == [MarkedFile(b.files[0], "b1")]
  {
    var b := Bin([FileRow(1, Some(7), 0, 0, 0, None)], [], [], []);
    var b1 := BatchDeleteOne(b, 1, 10, "b1");
    assert b1.files == [MarkedFile(b.files[0], "b1")];
    assert FindFile(b1.files, 1).None?;
    var b2 := BatchDeleteOne(b1, 1, 11, "b1");
    assert b2 == b1;
    assert [1, 1][1..] == [1];
    assert [10, 11][1..] == [11];
    assert BatchDeleteToRecovery(b1, [1], [11], "b1") == BatchDeleteToRecovery(b2, [], [], "b1");
  }

  /* ------------------------------------------------------- folder marking */

  /** Whether a row of owner `rowUser` is picked up by a query filtered on `owner` (no filter when null). */
  predicate OwnerMatches(rowUser: Option<int>, owner: Option<int>) {
    owner.None? || rowUser == owner
  }

  /** The files and folders tables, which the marking walk updates together. */
  datatype Tables = Tables(files: seq<FileRow>, folders: seq<FolderRow>)

  function Unmarked(folders: seq<FolderRow>): (n: nat)
    ensures n <= |folders|
  {
    if folders == [] then 0 else (if folders[0].delFlag == 0 then 1 else 0) + Unmarked(folders[1..])
  }

  predicate HasUnmarked(folders: seq<FolderRow>, id: int) {
    exists k :: 0 <= k < |folders| && folders[k].id == id && folders[k].delFlag == 0
  }

  /** `c` is `a` with some folder rows marked: same rows, same ids and parents, no flag cleared. */
  predicate Monotone(a: seq<FolderRow>, c: seq<FolderRow>) {
    |c| == |a| && forall k :: 0 <= k < |a| ==>
      c[k].id == a[k].id && c[k].parentId == a[k].parentId && c[k].userId == a[k].userId
      && (a[k].delFlag != 0 ==> c[k].delFlag != 0)
  }

  /** Marking never adds unmarked rows, and marking one that was unmarked removes one. */
  lemma {:induction false} UnmarkedMonotone(a: seq<FolderRow>, c: seq<FolderRow>, id: int)
    requires Monotone(a, c)
    ensures Unmarked(c) <= Unmarked(a)
    ensures HasUnmarked(a, id) && !HasUnmarked(c, id) ==> Unmarked(c) < Unmarked(a)
  {
    if a != [] {
      UnmarkedMonotone(a[1..], c[1..], id);
      if HasUnmarked(a, id) && !HasUnmarked(c, id) {
        var k :| 0 <= k < |a| && a[k].id == id && a[k].delFlag == 0;
        if k > 0 {
          assert a[1..][k - 1] == a[k];
        }
      }
    }
  }

  /** The live rows of folder `id` marked deleted under the batch. */
  function MarkFolderRows(folders: seq<FolderRow>, id: int, batch: string): (r: seq<FolderRow>)
    ensures |r| == |folders|
    ensures forall k :: 0 <= k < |folders| ==>
      r[k] == if folders[k].id == id && folders[k].delFlag == 0 then MarkedFolder(folders[k], batch) else folders[k]
  {
    seq(|folders|, k requires 0 <= k < |folders| =>
      if folders[k].id == id && folders[k].delFlag == 0 then MarkedFolder(folders[k], batch) else folders[k])
  }

  /** The not yet deleted files of folder `id` (of the owner, when there is one) marked under the batch. */
  function MarkFilesIn(files: seq<FileRow>, id: int, batch: string, owner: Option<int>): (r: seq<FileRow>)
    ensures |r| == |files|
    ensures forall k :: 0 <= k < |files| ==>
      r[k] == if files[k].folderId == id && files[k].delFlag == 0 && OwnerMatches(files[k].userId, owner)
              then MarkedFile(files[k], batch) else files[k]
  {
    seq(|files|, k requires 0 <= k < |files| =>
      if files[k].folderId == id && files[k].delFlag == 0 && OwnerMatches(files[k].userId, owner)
      then MarkedFile(files[k], batch) else files[k])
  }

  /** The ids of the not yet deleted subfolders of `id` (of the owner, when there is one), in table order. */
  function ChildIds(folders: seq<FolderRow>, id: int, owner: Option<int>): (r: seq<int>)
    ensures forall k :: (0 <= k < |folders| && folders[k].parentId == id && folders[k].delFlag == 0
      && OwnerMatches(folders[k].userId, owner)) ==> folders[k].id in r
  {
    if folders == [] then []
    else
      assert forall k :: 1 <= k < |folders| ==> folders[k] == folders[1..][k - 1];
      var f := folders[0];
      (if f.parentId == id && f.delFlag == 0 && OwnerMatches(f.userId, owner) then [f.id] else [])
      + ChildIds(folders[1..], id, owner)
  }

  /**
   * markFolderAndChildrenDeleted: the folder's rows, then its live files,
   * then, one by one, its live subfolders.  A subfolder that is already
   * marked when its turn comes is passed over: in the source it cannot
   * happen, since a folder has one parent and is listed only while
   * unmarked.
   */
  function MarkFolder(t: Tables, id: int, batch: string, owner: Option<int>): (r: Tables)
    ensures Monotone(t.folders, r.folders) && |r.files| == |t.files|
    ensures !HasUnmarked(r.folders, id)
    decreases Unmarked(t.folders) + (if HasUnmarked(t.folders, id) then 0 else 1), 1
  {
    var t1 := Tables(MarkFilesIn(t.files, id, batch, owner), MarkFolderRows(t.folders, id, batch));
    UnmarkedMonotone(t.folders, t1.folders, id);
    MarkChildren(t1, ChildIds(t1.folders, id, owner), batch, owner)
  }

  function MarkChildren(t: Tables, ids: seq<int>, batch: string, owner: Option<int>): (r: Tables)
    ensures Monotone(t.folders, r.folders) && |r.files| == |t.files|
    ensures forall i :: 0 <= i < |ids| ==> !HasUnmarked(r.folders, ids[i])
    decreases Unmarked(t.folders), |ids| + 1
  {
    if ids == [] then t
    else if HasUnmarked(t.folders, ids[0]) then
      var t1 := MarkFolder(t, ids[0], batch, owner);
      UnmarkedMonotone(t.folders, t1.folders, ids[0]);
      var r := MarkChildren(t1, ids[1..], batch, owner);
      MonotoneKeepsMarked(t1.folders, r.folders, ids[0]);
      r
    else
      var r := MarkChildren(t, ids[1..], batch, owner);
      MonotoneKeepsMarked(t.folders, r.folders, ids[0]);
      r
  }

  lemma MonotoneKeepsMarked(a: seq<FolderRow>, c: seq<FolderRow>, id: int)
    requires Monotone(a, c) && !HasUnmarked(a, id)
    ensures !HasUnmarked(c, id)
  {
  }

  /** Every change from `t` to `r` is a marking under the batch; a file is only marked while live. */
  predicate Marks(t: Tables, r: Tables, batch: string) {
    |r.files| == |t.files| && |r.folders| == |t.folders|
    && (forall k :: 0 <= k < |t.files| ==>
          r.files[k] == t.files[k] || (t.files[k].delFlag == 0 && r.files[k] == MarkedFile(t.files[k], batch)))
    && (forall k :: 0 <= k < |t.folders| ==>
          r.folders[k] == t.folders[k] || r.folders[k] == MarkedFolder(t.folders[k], batch))
  }

  /** Folder `id` is closed in `r`: its subfolders and files of the owner are all deleted. */
  predicate FolderClosed(r: Tables, id: int, owner: Option<int>) {
    (forall j :: 0 <= j < |r.folders| && r.folders[j].parentId == id && OwnerMatches(r.folders[j].userId, owner) ==>
       r.folders[j].delFlag != 0)
    && (forall j :: 0 <= j < |r.files| && r.files[j].folderId == id && OwnerMatches(r.files[j].userId, owner) ==>
       r.files[j].delFlag != 0)
  }

  /** Every folder row that got the batch number between `t` and `r` is closed in `r`. */
  predicate ClosedNew(t: Tables, r: Tables, batch: string, owner: Option<int>)
    requires |r.folders| == |t.folders|
  {
    forall k :: 0 <= k < |r.folders| && r.folders[k].batch == Some(batch) && t.folders[k].batch != Some(batch) ==>
      FolderClosed(r, r.folders[k].id, owner)
  }

  /** Markings compose. */
  lemma MarksTrans(t: Tables, t1: Tables, r: Tables, batch: string)
    requires Marks(t, t1, batch) && Marks(t1, r, batch)
    ensures Marks(t, r, batch)
  {
  }

  /** A closed folder stays closed under further marking. */
  lemma ClosedPersists(t1: Tables, r: Tables, id: int, batch: string, owner: Option<int>)
    requires Marks(t1, r, batch) && FolderClosed(t1, id, owner)
    ensures FolderClosed(r, id, owner)
  {
  }

  /** New closed rows of two successive markings are new closed rows of their composition. */
  lemma ClosedNewTrans(t: Tables, t1: Tables, r: Tables, batch: string, owner: Option<int>)
    requires Marks(t, t1, batch) && Marks(t1, r, batch)
    requires ClosedNew(t, t1, batch, owner) && ClosedNew(t1, r, batch, owner)
    ensures ClosedNew(t, r, batch, owner)
  {
    forall k | 0 <= k < |r.folders| && r.folders[k].batch == Some(batch) && t.folders[k].batch != Some(batch)
      ensures FolderClosed(r, r.folders[k].id, owner)
    {
      if t1.folders[k].batch == Some(batch) {
        ClosedPersists(t1, r, t1.folders[k].id, batch, owner);
      }
    }
  }

  predicate UniqueFolderIds(folders: seq<FolderRow>) {
    forall i, j :: 0 <= i < j < |folders| ==> folders[i].id != folders[j].id
  }

  /** The folder rows that changed were live, except those of folder `top`. */
  predicate ChangedWereLive(t: Tables, r: Tables, top: Option<int>)
    requires |r.folders| == |t.folders|
  {
    forall k :: 0 <= k < |t.folders| && r.folders[k] != t.folders[k] ==>
      t.folders[k].delFlag == 0 || Some(t.folders[k].id) == top
  }

  /** Marking keeps every folder id, so unique ids stay unique. */
  lemma MarksKeepIds(t: Tables, r: Tables, batch: string)
    requires Marks(t, r, batch) && UniqueFolderIds(t.folders)
    ensures UniqueFolderIds(r.folders)
  {
    assert forall k :: 0 <= k < |t.folders| ==> r.folders[k].id == t.folders[k].id;
  }

  /**
   * Two markings in a row, the first changing only live rows and those of
   * a live folder `id`, the second only live rows, change only live rows.
   */
  lemma LiveChangesCompose(t: Tables, t1: Tables, r: Tables, batch: string, id: int)
    requires Marks(t, t1, batch) && Marks(t1, r, batch) && UniqueFolderIds(t.folders)
    requires HasUnmarked(t.folders, id)
    requires ChangedWereLive(t, t1, Some(id)) && ChangedWereLive(t1, r, None)
    ensures ChangedWereLive(t, r, None)
  {
    var k0 :| 0 <= k0 < |t.folders| && t.folders[k0].id == id && t.folders[k0].delFlag == 0;
    forall k | 0 <= k < |t.folders| && r.folders[k] != t.folders[k] ensures t.folders[k].delFlag == 0 {
      if t1.folders[k] != t.folders[k] && t.folders[k].id == id {
        assert k == k0;
      }
    }
  }

  /**
   * The marking walk from folder `id` only marks, under the batch, and with
   * unique folder ids it marks no row that was already deleted, except the
   * folder's own.
   */
  lemma MarkFolderMarks(t: Tables, id: int, batch: string, owner: Option<int>)
    ensures var r := MarkFolder(t, id, batch, owner);
      Marks(t, r, batch) && (UniqueFolderIds(t.folders) ==> ChangedWereLive(t, r, Some(id)))
    decreases Unmarked(t.folders) + (if HasUnmarked(t.folders, id) then 0 else 1), 1
  {
    var t1 := Tables(MarkFilesIn(t.files, id, batch, owner), MarkFolderRows(t.folders, id, batch));
    UnmarkedMonotone(t.folders, t1.folders, id);
    var ids := ChildIds(t1.folders, id, owner);
    MarkChildrenMarks(t1, ids, batch, owner);
    assert Marks(t, t1, batch);
    MarksTrans(t, t1, MarkChildren(t1, ids, batch, owner), batch);
    if UniqueFolderIds(t.folders) {
      assert UniqueFolderIds(t1.folders);
    }
  }

  lemma MarkChildrenMarks(t: Tables, ids: seq<int>, batch: string, owner: Option<int>)
    ensures var r := MarkChildren(t, ids, batch, owner);
      Marks(t, r, batch) && (UniqueFolderIds(t.folders) ==> ChangedWereLive(t, r, None))
    decreases Unmarked(t.folders), |ids| + 1
  {
    if ids != [] {
      if HasUnmarked(t.folders, ids[0]) {
        var t1 := MarkFolder(t, ids[0], batch, owner);
        UnmarkedMonotone(t.folders, t1.folders, ids[0]);
        MarkFolderMarks(t, ids[0], batch, owner);
        MarkChildrenMarks(t1, ids[1..], batch, owner);
        var r := MarkChildren(t1, ids[1..], batch, owner);
        MarksTrans(t, t1, r, batch);
        if UniqueFolderIds(t.folders) {
          MarksKeepIds(t, t1, batch);
          LiveChangesCompose(t, t1, r, batch, ids[0]);
        }
      } else {
        MarkChildrenMarks(t, ids[1..], batch, owner);
      }
    }
  }

  /**
   * The marking walk from folder `id` closes the folder and every folder
   * it newly marks: none of their subfolders or files of the owner is left
   * live.
   */
  lemma MarkFolderCloses(t: Tables, id: int, batch: string, owner: Option<int>)
    ensures var r := MarkFolder(t, id, batch, owner);
      FolderClosed(r, id, owner) && ClosedNew(t, r, batch, owner)
    decreases Unmarked(t.folders) + (if HasUnmarked(t.folders, id) then 0 else 1), 1
  {
    var t1 := Tables(MarkFilesIn(t.files, id, batch, owner), MarkFolderRows(t.folders, id, batch));
    UnmarkedMonotone(t.folders, t1.folders, id);
    var ids := ChildIds(t1.folders, id, owner);
    var r := MarkChildren(t1, ids, batch, owner);
    MarkChildrenMarks(t1, ids, batch, owner);
    MarkChildrenCloses(t1, ids, batch, owner);
    forall j | 0 <= j < |r.folders| && r.folders[j].parentId == id && OwnerMatches(r.folders[j].userId, owner)
      ensures r.folders[j].delFlag != 0
    {
      if t1.folders[j].delFlag == 0 {
        assert t1.folders[j].id in ids;
      }
    }
    forall k | 0 <= k < |r.folders| && r.folders[k].batch == Some(batch) && t.folders[k].batch != Some(batch)
      ensures FolderClosed(r, r.folders[k].id, owner)
    {
      if t1.folders[k].batch == Some(batch) {
        assert t.folders[k].id == id;
      }
    }
  }

  lemma MarkChildrenCloses(t: Tables, ids: seq<int>, batch: string, owner: Option<int>)
    ensures ClosedNew(t, MarkChildren(t, ids, batch, owner), batch, owner)
    decreases Unmarked(t.folders), |ids| + 1
  {
    if ids != [] {
      if HasUnmarked(t.folders, ids[0]) {
        var t1 := MarkFolder(t, ids[0], batch, owner);
        UnmarkedMonotone(t.folders, t1.folders, ids[0]);
        MarkFolderMarks(t, ids[0], batch, owner);
        MarkFolderCloses(t, ids[0], batch, owner);
        MarkChildrenMarks(t1, ids[1..], batch, owner);
        MarkChildrenCloses(t1, ids[1..], batch, owner);
        ClosedNewTrans(t, t1, MarkChildren(t1, ids[1..], batch, owner), batch, owner);
      } else {
        MarkChildrenCloses(t, ids[1..], batch, owner);
      }
    }
  }

  /**
   * deleteFolderToRecovery: a missing or already deleted folder changes nothing; otherwise one
   * record for the folder (owned by its owner, no file id, the folder's id
   * kept) is added, and the folder's subtree is marked under the batch.
   */
  function DeleteFolderToRecovery(b: Bin, folderId: int, recId: int, batch: string): (r: Bin)
    ensures FindFolder(b.folders, folderId).None? ==> r == b
    ensures FindFolder(b.folders, folderId).Some? ==>
      var f := FindFolder(b.folders, folderId).value;
      r.records == b.records + [Record(recId, f.userId, None, 1, batch, Some(folderId))]
      && r.tasks == b.tasks
      && Marks(Tables(b.files, b.folders), Tables(r.files, r.folders), batch)
      && (UniqueFolderIds(b.folders) ==> ChangedWereLive(Tables(b.files, b.folders), Tables(r.files, r.folders), Some(folderId)))
  {
    match FindFolder(b.folders, folderId)
    case None => b
    case Some(f) =>
      MarkFolderMarks(Tables(b.files, b.folders), folderId, batch, f.userId);
      var t := MarkFolder(Tables(b.files, b.folders), folderId, batch, f.userId);
      Bin(t.files, t.folders, b.records + [Record(recId, f.userId, None, 1, batch, Some(folderId))], b.tasks)
  }

  /**
   * After a folder delete, the folder and every folder that got the batch
   * number are closed: none of their subfolders or files of the folder's
   * owner is left live, so the whole subtree is in the recycle bin.
   */
  lemma DeleteFolderClosesSubtree(b: Bin, folderId: int, recId: int, batch: string)
    requires FindFolder(b.folders, folderId).Some?
    ensures var f := FindFolder(b.folders, folderId).value;
      var r := DeleteFolderToRecovery(b, folderId, recId, batch);
      FolderClosed(Tables(r.files, r.folders), folderId, f.userId)
      && ClosedNew(Tables(b.files, b.folders), Tables(r.files, r.folders), batch, f.userId)
  {
    var f := FindFolder(b.folders, folderId).value;
    MarkFolderMarks(Tables(b.files, b.folders), folderId, batch, f.userId);
    MarkFolderCloses(Tables(b.files, b.folders), folderId, batch, f.userId);
  }

  /* ---------------------------------------------------------------- restore */

  /** A record that restores or purges a folder subtree by its batch number. */
  predicate IsFolderRecord(r: Record) {
    r.isDir == 1 && r.originalFolderId.Some?
  }

  function RestoreFileRows(files: seq<FileRow>, rec: Record): (r: seq<FileRow>)
    ensures |r| == |files|
  {
    seq(|files|, k requires 0 <= k < |files| =>
      if (if IsFolderRecord(rec) then files[k].batch == Some(rec.batch) else rec.fileId == Some(files[k].id))
      then files[k].(delFlag := 0, batch := None) else files[k])
  }

  function RestoreFolderRows(folders: seq<FolderRow>, rec: Record): (r: seq<FolderRow>)
    ensures |r| == |folders|
  {
    seq(|folders|, k requires 0 <= k < |folders| =>
      if IsFolderRecord(rec) && folders[k].batch == Some(rec.batch)
      then folders[k].(delFlag := 0, batch := None) else folders[k])
  }

  /** Whether the record stands for row `f`: by batch for a folder record, by file id otherwise. */
  predicate RefersTo(rec: Record, f: FileRow) {
    if IsFolderRecord(rec) then f.batch == Some(rec.batch) else rec.fileId == Some(f.id)
  }

  /**
   * restoreFile: a missing record changes nothing; a folder record brings
   * back every file and folder of its batch, any other record its file;
   * restored rows get delFlag 0 and no batch, and the record is removed.
   */
  function RestoreFile(b: Bin, recId: int): (r: Bin)
    ensures FindRecord(b.records, recId).None? ==> r == b
    ensures FindRecord(b.records, recId).Some? ==>
      var rec := FindRecord(b.records, recId).value;
      (forall x :: x in r.records <==> x in b.records && x.id != recId)
      && r.tasks == b.tasks && |r.files| == |b.files| && |r.folders| == |b.folders|
      && (forall k :: 0 <= k < |b.files| ==>
            r.files[k] == if RefersTo(rec, b.files[k]) then b.files[k].(delFlag := 0, batch := None) else b.files[k])
      && (forall k :: 0 <= k < |b.folders| ==>
            r.folders[k] == if IsFolderRecord(rec) && b.folders[k].batch == Some(rec.batch)
                            then b.folders[k].(delFlag := 0, batch := None) else b.folders[k])
  {
    match FindRecord(b.records, recId)
    case None => b
    case Some(rec) =>
      Bin(RestoreFileRows(b.files, rec), RestoreFolderRows(b.folders, rec), Keep(b.records, (x: Record) => x.id != recId), b.tasks)
  }

  /**
   * restoreFile as written: its updates that clear delFlag go through the
   * framework, which adds the live-row condition (delFlag 0) to every
   * update of these tables.  The soft-deleted rows the record stands for
   * fail that condition, so nothing is brought back; only live rows that
   * happen to match lose their batch number.  The record is removed.
   */
  function RestoreFileAsWritten(b: Bin, recId: int): (r: Bin)
    ensures FindRecord(b.records, recId).None? ==> r == b
    ensures FindRecord(b.records, recId).Some? ==>
      (forall x :: x in r.records <==> x in b.records && x.id != recId)
      && r.tasks == b.tasks && |r.files| == |b.files| && |r.folders| == |b.folders|
      && (forall k :: 0 <= k < |b.files| ==>
            r.files[k].delFlag == b.files[k].delFlag && (b.files[k].delFlag != 0 ==> r.files[k] == b.files[k]))
      && (forall k :: 0 <= k < |b.folders| ==>
            r.folders[k].delFlag == b.folders[k].delFlag && (b.folders[k].delFlag != 0 ==> r.folders[k] == b.folders[k]))
  {
    match FindRecord(b.records, recId)
    case None => b
    case Some(rec) =>
      var files := seq(|b.files|, k requires 0 <= k < |b.files| =>
        if RefersTo(rec, b.files[k]) && b.files[k].delFlag == 0 then b.files[k].(batch := None) else b.files[k]);
      var folders := seq(|b.folders|, k requires 0 <= k < |b.folders| =>
        if IsFolderRecord(rec) && b.folders[k].batch == Some(rec.batch) && b.folders[k].delFlag == 0
        then b.folders[k].(batch := None) else b.folders[k]);
      Bin(files, folders, Keep(b.records, (x: Record) => x.id != recId), b.tasks)
  }

  /**
   * Restoring as written loses a file: a live file deleted to recovery
   * stays soft-deleted after its record is restored, and with the record
   * gone nothing refers to it any more; the corrected restore brings it back.
   */
  lemma AsWrittenRestoreLeavesFileDeleted()
    ensures var b := Bin([FileRow(1, Some(7), 0, 0, 0, None)], [], [], []);
      var d := DeleteFileToRecovery(b, 1, 5, "b1");
      var r := RestoreFileAsWritten(d, 5);
      r.files[0].delFlag == 1 && r.records == [] && !Reachable(r)
      && RestoreFile(d, 5) == b
  {
    var b := Bin([FileRow(1, Some(7), 0, 0, 0, None)], [], [], []);
    var d := DeleteFileToRecovery(b, 1, 5, "b1");
    var rec := Record(5, Some(7), Some(1), 0, "b1", None);
    assert d.records == [rec];
    assert FindRecord(d.records, 5) == Some(rec);
    var r := RestoreFileAsWritten(d, 5);
    assert r.records == [] by {
      assert forall x :: x in r.records ==> x in d.records && x.id != 5;
    }
    assert r.files[0] in r.files;
    DeleteFileThenRestore(b, 1, 5, "b1");
  }

  /** A live row has no batch number. */
  predicate Clean(b: Bin) {
    (forall k :: 0 <= k < |b.files| && b.files[k].delFlag == 0 ==> b.files[k].batch == None)
    && (forall k :: 0 <= k < |b.folders| && b.folders[k].delFlag == 0 ==> b.folders[k].batch == None)
  }

  /** No row carries this batch number yet. */
  predicate FreshBatch(b: Bin, batch: string) {
    (forall k :: 0 <= k < |b.files| ==> b.files[k].batch != Some(batch))
    && (forall k :: 0 <= k < |b.folders| ==> b.folders[k].batch != Some(batch))
  }

  /** No record has this id yet. */
  predicate FreshRecordId(b: Bin, recId: int) {
    forall k :: 0 <= k < |b.records| ==> b.records[k].id != recId
  }

  /** Removing the id of a record just appended gives back the records before. */
  lemma {:induction false} KeepDropsAppended(records: seq<Record>, rec: Record, p: Record -> bool)
    requires forall k :: 0 <= k < |records| ==> p(records[k])
    requires !p(rec)
    ensures Keep(records + [rec], p) == records
  {
    if records == [] {
      assert [rec][1..] == [];
    } else {
      assert (records + [rec])[1..] == records[1..] + [rec];
      KeepDropsAppended(records[1..], rec, p);
      assert records == [records[0]] + records[1..];
    }
  }

  predicate UniqueFileIds(files: seq<FileRow>) {
    forall i, j :: 0 <= i < j < |files| ==> files[i].id != files[j].id
  }

  /**
   * Deleting a file to recovery and restoring its record gives back the bin
   * as it was, given unique file ids: a live file comes back, and for a
   * missing or already deleted one neither step does anything.
   */
  lemma DeleteFileThenRestore(b: Bin, fileId: int, recId: int, batch: string)
    requires Clean(b) && FreshRecordId(b, recId) && UniqueFileIds(b.files)
    ensures RestoreFile(DeleteFileToRecovery(b, fileId, recId, batch), recId) == b
  {
    match FindFile(b.files, fileId)
    case None =>
    case Some(f) =>
      var rec := Record(recId, f.userId, Some(fileId), f.isDir, batch, None);
      var d := DeleteFileToRecovery(b, fileId, recId, batch);
      KeepDropsAppended(b.records, rec, (x: Record) => x.id != recId);
      assert FindRecord(d.records, recId) == Some(rec) by {
        assert d.records[|b.records|] == rec;
      }
      var r := RestoreFile(d, recId);
      assert r.files == b.files;
      assert r.folders == b.folders;
  }

  /** Restoring a folder record undoes a marking of live, batch-less file rows under its fresh batch. */
  lemma RestoreUndoesFileMarks(before: seq<FileRow>, marked: seq<FileRow>, rec: Record)
    requires IsFolderRecord(rec)
    requires forall k :: 0 <= k < |before| ==> before[k].batch != Some(rec.batch) && (before[k].delFlag == 0 ==> before[k].batch == None)
    requires |marked| == |before|
    requires forall k :: 0 <= k < |before| ==>
      marked[k] == before[k] || (before[k].delFlag == 0 && marked[k] == MarkedFile(before[k], rec.batch))
    ensures RestoreFileRows(marked, rec) == before
  {
  }

  /** Restoring a folder record undoes a marking of live, batch-less folder rows under its fresh batch. */
  lemma RestoreUndoesFolderMarks(before: seq<FolderRow>, marked: seq<FolderRow>, rec: Record)
    requires IsFolderRecord(rec)
    requires forall k :: 0 <= k < |before| ==> before[k].batch != Some(rec.batch) && (before[k].delFlag == 0 ==> before[k].batch == None)
    requires |marked| == |before|
    requires forall k :: 0 <= k < |before| ==>
      marked[k] == before[k] || (before[k].delFlag == 0 && marked[k] == MarkedFolder(before[k], rec.batch))
    ensures RestoreFolderRows(marked, rec) == before
  {
  }

  /**
   * Deleting a folder to recovery under a fresh batch number and then
   * restoring its record gives back the bin as it was, given unique folder
   * ids and live rows without batch numbers.
   */
  lemma DeleteFolderThenRestore(b: Bin, folderId: int, recId: int, batch: string)
    requires Clean(b) && FreshBatch(b, batch) && FreshRecordId(b, recId) && UniqueFolderIds(b.folders)
    ensures RestoreFile(DeleteFolderToRecovery(b, folderId, recId, batch), recId) == b
  {
    match FindFolder(b.folders, folderId)
    case None =>
    case Some(f) =>
      var rec := Record(recId, f.userId, None, 1, batch, Some(folderId));
      var d := DeleteFolderToRecovery(b, folderId, recId, batch);
      assert d.records == b.records + [rec];
      KeepDropsAppended(b.records, rec, (x: Record) => x.id != recId);
      assert FindRecord(d.records, recId) == Some(rec) by {
        assert d.records[|b.records|] == rec;
      }
      RestoreUndoesFileMarks(b.files, d.files, rec);
      RestoreUndoesFolderMarks(b.folders, d.folders, rec);
  }

  /* ------------------------------------------------------- permanent delete */

  /** Whether a DOWNLOAD task of the file is PENDING or PROCESSING. */
  predicate HasActiveDownload(tasks: seq<Task>, fileId: int) {
    exists k :: 0 <= k < |tasks| && tasks[k].fileId == fileId && tasks[k].taskType == "DOWNLOAD"
      && TransferTasks.IsActiveStatus(tasks[k].status)
  }

  /**
   * deleteFolderAndChildrenPermanently: the batch's file rows go (a native
   * DELETE), and so do the tasks of those files; the batch's folder rows go
   * through the framework's delete, which only sets delFlag 1 on the live
   * ones, so every folder row stays in the table.
   */
  function PurgeBatch(b: Bin, batch: string): (r: Bin)
    ensures forall f :: f in r.files <==> f in b.files && f.batch != Some(batch)
    ensures |r.folders| == |b.folders|
    ensures forall k :: 0 <= k < |b.folders| ==>
      r.folders[k] == if b.folders[k].batch == Some(batch) && b.folders[k].delFlag == 0
                      then b.folders[k].(delFlag := 1) else b.folders[k]
    ensures forall t :: t in r.tasks <==> t in b.tasks && forall f :: f in b.files && f.batch == Some(batch) ==> f.id != t.fileId
    ensures r.records == b.records
  {
    var ids := set f | f in b.files && f.batch == Some(batch) :: f.id;
    Bin(Keep(b.files, (f: FileRow) => f.batch != Some(batch)),
        seq(|b.folders|, k requires 0 <= k < |b.folders| =>
          if b.folders[k].batch == Some(batch) && b.folders[k].delFlag == 0
          then b.folders[k].(delFlag := 1) else b.folders[k]),
        b.records,
        Keep(b.tasks, (t: Task) => t.fileId !in ids))
  }

  /** A purged folder batch leaves its soft-deleted folder rows behind. */
  lemma PurgeBatchKeepsFolderRows()
    ensures var folder := FolderRow(3, Some(7), 0, 1, Some("b1"));
      PurgeBatch(Bin([], [folder], [], []), "b1").folders == [folder]
  {
  }

  /** The single-file purge: the file's tasks and rows go. */
  function PurgeFile(b: Bin, fileId: int): (r: Bin)
    ensures forall f :: f in r.files <==> f in b.files && f.id != fileId
    ensures forall t :: t in r.tasks <==> t in b.tasks && t.fileId != fileId
    ensures r.folders == b.folders && r.records == b.records
  {
    Bin(Keep(b.files, (f: FileRow) => f.id != fileId), b.folders, b.records, Keep(b.tasks, (t: Task) => t.fileId != fileId))
  }

  /**
   * What purging one record does: a folder record purges its batch; a file
   * record whose file is being downloaded is skipped; otherwise its file is
   * purged.  The flag says whether the record was skipped.
   */
  function PurgeRecord(b: Bin, rec: Record): (r: (Bin, bool))
    ensures r.0.records == b.records
    ensures r.1 <==> !IsFolderRecord(rec) && rec.fileId.Some? && HasActiveDownload(b.tasks, rec.fileId.value)
    ensures r.1 ==> r.0 == b
    ensures forall f :: f in r.0.files ==> f in b.files
    ensures forall t :: t in r.0.tasks ==> t in b.tasks
    ensures !r.1 ==> forall f :: f in r.0.files ==> !RefersTo(rec, f)
  {
    if IsFolderRecord(rec) then (PurgeBatch(b, rec.batch), false)
    else if rec.fileId.None? then (b, false)
    else if HasActiveDownload(b.tasks, rec.fileId.value) then (b, true)
    else (PurgeFile(b, rec.fileId.value), false)
  }

  /**
   * deleteFilePermanently: a missing record changes nothing; a file record
   * whose file is being downloaded is an error; otherwise the record's
   * rows (its batch, or its file with its tasks) and the record go.
   */
  function DeleteFilePermanently(b: Bin, recId: int): (r: Result<Bin, BinError>)
    ensures FindRecord(b.records, recId).None? ==> r == Success(b)
    ensures r.Failure? <==> (FindRecord(b.records, recId).Some?
      && !IsFolderRecord(FindRecord(b.records, recId).value)
      && FindRecord(b.records, recId).value.fileId.Some?
      && HasActiveDownload(b.tasks, FindRecord(b.records, recId).value.fileId.value))
    ensures r.Success? && FindRecord(b.records, recId).Some? ==>
      (forall x :: x in r.value.records <==> x in b.records && x.id != recId)
      && (forall f :: f in r.value.files ==> f in b.files && !RefersTo(FindRecord(b.records, recId).value, f))
  {
    match FindRecord(b.records, recId)
    case None => Success(b)
    case Some(rec) =>
      var (b1, skipped) := PurgeRecord(b, rec);
      if skipped then Failure(FileBeingDownloaded)
      else Success(b1.(records := Keep(b1.records, (x: Record) => x.id != recId)))
  }

  /** An active download among fewer tasks is one among more. */
  lemma ActiveDownloadShrinks(small: seq<Task>, big: seq<Task>, fileId: int)
    requires forall t :: t in small ==> t in big
    requires HasActiveDownload(small, fileId)
    ensures HasActiveDownload(big, fileId)
  {
    var k :| 0 <= k < |small| && small[k].fileId == fileId && small[k].taskType == "DOWNLOAD"
      && TransferTasks.IsActiveStatus(small[k].status);
    assert small[k] in big;
  }

  /* ------------------------------------------------------------------ clear */

  /** The records clearRecoveryBin works on: all for an admin or without a user, else the user's. */
  predicate Selected(rec: Record, userId: Option<int>, isAdmin: bool) {
    isAdmin || userId.None? || rec.userId == userId
  }

  /** Purges the records in order, collecting those skipped. */
  function PurgeAll(b: Bin, recs: seq<Record>): (r: (Bin, seq<Record>))
    ensures r.0.records == b.records
    decreases |recs|
    ensures forall x :: x in r.1 ==>
      x in recs && !IsFolderRecord(x) && x.fileId.Some? && HasActiveDownload(b.tasks, x.fileId.value)
    ensures forall f :: f in r.0.files ==> f in b.files
    ensures forall t :: t in r.0.tasks ==> t in b.tasks
    ensures forall x :: x in recs ==> x in r.1 || forall f :: f in r.0.files ==> !RefersTo(x, f)
  {
    if recs == [] then (b, [])
    else
      var (b1, skipped) := PurgeRecord(b, recs[0]);
      var (b2, rest) := PurgeAll(b1, recs[1..]);
      assert forall x :: x in recs <==> x == recs[0] || x in recs[1..];
      assert forall x :: x in rest ==> HasActiveDownload(b.tasks, x.fileId.value) by {
        forall x | x in rest ensures HasActiveDownload(b.tasks, x.fileId.value) {
          ActiveDownloadShrinks(b1.tasks, b.tasks, x.fileId.value);
        }
      }
      (b2, if skipped then [recs[0]] + rest else rest)
  }

  /**
   * clearRecoveryBin as written: after the purge it removes every selected
   * record, including those whose file was skipped because it is being
   * downloaded.
   */
  function ClearAsWritten(b: Bin, userId: Option<int>, isAdmin: bool): (r: Bin)
    ensures forall x :: x in r.records <==> x in b.records && !Selected(x, userId, isAdmin)
    ensures forall f :: f in r.files ==> f in b.files
    ensures forall x :: x in b.records && Selected(x, userId, isAdmin) ==>
      (!IsFolderRecord(x) && x.fileId.Some? && HasActiveDownload(b.tasks, x.fileId.value))
      || forall f :: f in r.files ==> !RefersTo(x, f)
  {
    var selected := Keep(b.records, (x: Record) => Selected(x, userId, isAdmin));
    var (b1, _) := PurgeAll(b, selected);
    b1.(records := Keep(b1.records, (x: Record) => !Selected(x, userId, isAdmin)))
  }

  /** clearRecoveryBin as intended: the records of skipped files stay, so those files can still be restored. */
  function Clear(b: Bin, userId: Option<int>, isAdmin: bool): (r: Bin)
    ensures forall x :: x in r.records ==> x in b.records
    ensures forall x :: x in b.records && !Selected(x, userId, isAdmin) ==> x in r.records
    ensures forall f :: f in r.files ==> f in b.files
    ensures forall x :: x in b.records && Selected(x, userId, isAdmin) ==>
      (!IsFolderRecord(x) && x.fileId.Some? && HasActiveDownload(b.tasks, x.fileId.value))
      || forall f :: f in r.files ==> !RefersTo(x, f)
  {
    var selected := Keep(b.records, (x: Record) => Selected(x, userId, isAdmin));
    var (b1, skipped) := PurgeAll(b, selected);
    b1.(records := Keep(b1.records, (x: Record) => !Selected(x, userId, isAdmin) || x in skipped))
  }

  /** Every soft-deleted file is reachable from some record of the bin, so it can be restored or purged. */
  predicate Reachable(b: Bin) {
    forall f :: f in b.files && f.delFlag != 0 ==> exists x :: x in b.records && RefersTo(x, f)
  }

  /** The corrected clear keeps every remaining soft-deleted file reachable. */
  lemma ClearKeepsReachable(b: Bin, userId: Option<int>, isAdmin: bool)
    requires Reachable(b)
    ensures Reachable(Clear(b, userId, isAdmin))
  {
    var selected := Keep(b.records, (x: Record) => Selected(x, userId, isAdmin));
    var (b1, skipped) := PurgeAll(b, selected);
    var r := Clear(b, userId, isAdmin);
    forall f | f in r.files && f.delFlag != 0 ensures exists x :: x in r.records && RefersTo(x, f) {
      var x :| x in b.records && RefersTo(x, f);
      assert x in r.records;
    }
  }

  /**
   * The clear as written orphans a file: with a soft-deleted file whose
   * download is still running, the file survives the clear (still
   * soft-deleted) but its record is gone, so nothing can restore it.
   */
  lemma AsWrittenClearOrphansFile()
    ensures var f := FileRow(1, Some(7), 0, 0, 1, None);
      var b := Bin([f], [], [Record(5, Some(7), Some(1), 0, "b1", None)],
                   [TransferTasks.Task("t1", 1, Some(7), "DOWNLOAD", "PENDING", 0, 0, None)]);
      var r := ClearAsWritten(b, Some(7), false);
      Reachable(b) && f in r.files && !Reachable(r)
  {
    var f := FileRow(1, Some(7), 0, 0, 1, None);
    var rec := Record(5, Some(7), Some(1), 0, "b1", None);
    var b := Bin([f], [], [rec], [TransferTasks.Task("t1", 1, Some(7), "DOWNLOAD", "PENDING", 0, 0, None)]);
    assert RefersTo(rec, f);
    assert HasActiveDownload(b.tasks, 1) by {
      assert b.tasks[0].fileId == 1;
    }
    var selected := Keep(b.records, (x: Record) => Selected(x, Some(7), false));
    assert selected == [rec];
    assert PurgeRecord(b, rec) == (b, true);
    assert PurgeAll(b, selected) == (b, [rec]);
    var r := ClearAsWritten(b, Some(7), false);
    assert r.records == [];
  }

  /** The corrected clear keeps the record of a file it skipped. */
  lemma ClearKeepsSkippedRecord()
    ensures var f := FileRow(1, Some(7), 0, 0, 1, None);
      var rec := Record(5, Some(7), Some(1), 0, "b1", None);
      var b := Bin([f], [], [rec], [TransferTasks.Task("t1", 1, Some(7), "DOWNLOAD", "PENDING", 0, 0, None)]);
      var r := Clear(b, Some(7), false);
      f in r.files && rec in r.records
  {
    var f := FileRow(1, Some(7), 0, 0, 1, None);
    var rec := Record(5, Some(7), Some(1), 0, "b1", None);
    var b := Bin([f], [], [rec], [TransferTasks.Task("t1", 1, Some(7), "DOWNLOAD", "PENDING", 0, 0, None)]);
    assert HasActiveDownload(b.tasks, 1) by {
      assert b.tasks[0].fileId == 1;
    }
    var selected := Keep(b.records, (x: Record) => Selected(x, Some(7), false));
    assert selected == [rec];
    assert PurgeRecord(b, rec) == (b, true);
    assert PurgeAll(b, selected) == (b, [rec]);
  }

  /* ------------------------------------------- reachability is maintained */

  /** Deleting a file to recovery keeps every soft-deleted file reachable. */
  lemma DeleteFileKeepsReachable(b: Bin, fileId: int, recId: int, batch: string)
    requires Reachable(b)
    ensures Reachable(DeleteFileToRecovery(b, fileId, recId, batch))
  {
    var r := DeleteFileToRecovery(b, fileId, recId, batch);
    if FindFile(b.files, fileId).Some? {
      var rec := r.records[|b.records|];
      forall f | f in r.files && f.delFlag != 0 ensures exists x :: x in r.records && RefersTo(x, f) {
        var k :| 0 <= k < |r.files| && r.files[k] == f;
        if b.files[k].id == fileId {
          assert RefersTo(rec, f);
        } else {
          assert b.files[k] == f;
          var x :| x in b.records && RefersTo(x, f);
          assert x in r.records;
        }
      }
    }
  }

  /** Deleting a folder to recovery keeps every soft-deleted file reachable: the newly marked ones through the folder's record. */
  lemma DeleteFolderKeepsReachable(b: Bin, folderId: int, recId: int, batch: string)
    requires Reachable(b)
    ensures Reachable(DeleteFolderToRecovery(b, folderId, recId, batch))
  {
    var r := DeleteFolderToRecovery(b, folderId, recId, batch);
    if FindFolder(b.folders, folderId).Some? {
      var rec := r.records[|b.records|];
      assert IsFolderRecord(rec) && rec.batch == batch;
      forall f | f in r.files && f.delFlag != 0 ensures exists x :: x in r.records && RefersTo(x, f) {
        var k :| 0 <= k < |r.files| && r.files[k] == f;
        if r.files[k] != b.files[k] {
          assert RefersTo(rec, f);
        } else {
          var x :| x in b.records && RefersTo(x, f);
          assert x in r.records;
        }
      }
    }
  }

  /** Restoring a record keeps every soft-deleted file reachable, given unique record ids. */
  lemma RestoreKeepsReachable(b: Bin, recId: int)
    requires Reachable(b)
    requires forall i, j :: 0 <= i < j < |b.records| ==> b.records[i].id != b.records[j].id
    ensures Reachable(RestoreFile(b, recId))
  {
    var r := RestoreFile(b, recId);
    if FindRecord(b.records, recId).Some? {
      var rec := FindRecord(b.records, recId).value;
      forall f | f in r.files && f.delFlag != 0 ensures exists x :: x in r.records && RefersTo(x, f) {
        var k :| 0 <= k < |r.files| && r.files[k] == f;
        assert !RefersTo(rec, b.files[k]);
        assert f == b.files[k];
        var x :| x in b.records && RefersTo(x, f);
        assert x != rec;
        var i :| 0 <= i < |b.records| && b.records[i] == x;
        var j :| 0 <= j < |b.records| && b.records[j] == rec;
        assert x.id != recId;
        assert x in r.records;
      }
    }
  }

  /** A permanent delete that goes through keeps every remaining soft-deleted file reachable. */
  lemma DeletePermanentlyKeepsReachable(b: Bin, recId: int)
    requires Reachable(b)
    requires forall i, j :: 0 <= i < j < |b.records| ==> b.records[i].id != b.records[j].id
    ensures DeleteFilePermanently(b, recId).Success? ==> Reachable(DeleteFilePermanently(b, recId).value)
  {
    var r := DeleteFilePermanently(b, recId);
    if r.Success? && FindRecord(b.records, recId).Some? {
      var rec := FindRecord(b.records, recId).value;
      forall f | f in r.value.files && f.delFlag != 0 ensures exists x :: x in r.value.records && RefersTo(x, f) {
        var x :| x in b.records && RefersTo(x, f);
        assert x != rec;
        var i :| 0 <= i < |b.records| && b.records[i] == x;
        var j :| 0 <= j < |b.records| && b.records[j] == rec;
        assert x in r.value.records;
      }
    }
  }
}
