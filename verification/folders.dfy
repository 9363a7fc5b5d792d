/**
 * The folder tree of FolderServiceImpl: folders by id, each with an owner,
 * a name, a parent id (0 for the root) and a stored path.  Creating,
 * renaming and moving folders, the breadcrumb and the subfolder test walk
 * the parent links, and the folder tree is built from the folder list.
 *
 * The walks in the source loop for ever on a cycle of parent links; here
 * they carry the set of folders already visited and answer `Diverges`
 * where the source would not return.
 */
module Folders {
  import opened Wrappers
  import FileTypeUtil

  datatype Folder = Folder(userId: int, name: string, parentId: int, path: string)

  type FolderTable = map<int, Folder>

  /** The outcome of a walk over parent links: a value, or no answer because the links form a cycle. */
  datatype Walk<T> = Done(value: T) | Diverges

  /* -------------------------------------------------------- parent links */

  /**
   * The id reached from `c` after `k` parent steps; a step from an id that
   * is not positive or not a folder goes nowhere.
   */
  function Up(fs: FolderTable, c: int, k: nat): Option<int> {
    if k == 0 then Some(c)
    else match Up(fs, c, k - 1)
      case None => None
      case Some(x) => if x > 0 && x in fs then Some(fs[x].parentId) else None
  }

  /** The first step can be taken first: k + 1 steps from a folder are k steps from its parent. */
  lemma {:induction false} UpShift(fs: FolderTable, c: int, k: nat)
    requires c > 0 && c in fs
    ensures Up(fs, c, k + 1) == Up(fs, fs[c].parentId, k)
  {
    if k > 0 {
      UpShift(fs, c, k - 1);
    }
  }

  /** Walking a + b steps is walking a steps and then b more. */
  lemma {:induction false} UpCompose(fs: FolderTable, c: int, a: nat, b: nat)
    requires Up(fs, c, a).Some?
    ensures Up(fs, c, a + b) == Up(fs, Up(fs, c, a).value, b)
  {
    if b > 0 {
      UpCompose(fs, c, a, b - 1);
    }
  }

  /** No folder is its own proper ancestor. */
  ghost predicate Acyclic(fs: FolderTable) {
    forall c, k: nat :: c in fs && c > 0 && k >= 1 ==> Up(fs, c, k) != Some(c)
  }

  /* ------------------------------------------------------------ isSubFolder */

  function Unvisited(fs: FolderTable, visited: set<int>): set<int> {
    fs.Keys - visited
  }

  lemma UnvisitedShrinks(fs: FolderTable, visited: set<int>, c: int)
    requires c in fs && c !in visited
    ensures |Unvisited(fs, visited + {c})| < |Unvisited(fs, visited)|
  {
    assert Unvisited(fs, visited) == Unvisited(fs, visited + {c}) + {c};
  }

  /**
   * The loop of isSubFolder from `cur`: false once the id is not positive
   * or not a folder, true as soon as a folder's parent is `p`, otherwise on
   * to the parent.
   */
  function SubFolderWalk(fs: FolderTable, p: int, cur: int, visited: set<int>): (r: Walk<bool>)
    ensures r == Done(true) ==> exists k: nat :: k >= 1 && Up(fs, cur, k) == Some(p)
    ensures r == Done(false) ==> forall k: nat :: k >= 1 ==> Up(fs, cur, k) != Some(p)
    decreases |Unvisited(fs, visited)|
  {
    if cur <= 0 || cur !in fs then
      assert forall k: nat :: k >= 1 ==> Up(fs, cur, k) == None by {
        forall k: nat | k >= 1 ensures Up(fs, cur, k) == None {
          UpFromNowhere(fs, cur, k);
        }
      }
      Done(false)
    else if cur in visited then Diverges
    else if fs[cur].parentId == p then
      assert Up(fs, cur, 1) == Some(p);
      Done(true)
    else
      UnvisitedShrinks(fs, visited, cur);
      var r := SubFolderWalk(fs, p, fs[cur].parentId, visited + {cur});
      if r == Done(true) then
        var k: nat :| k >= 1 && Up(fs, fs[cur].parentId, k) == Some(p);
        UpShift(fs, cur, k);
        r
      else if r == Done(false) then
        assert forall k: nat :: k >= 1 ==> Up(fs, cur, k) != Some(p) by {
          forall k: nat | k >= 1 ensures Up(fs, cur, k) != Some(p) {
            UpShift(fs, cur, k - 1);
          }
        }
        r
      else r
  }

  /** No step leads anywhere from an id that is not a folder. */
  lemma {:induction false} UpFromNowhere(fs: FolderTable, c: int, k: nat)
    requires c <= 0 || c !in fs
    requires k >= 1
    ensures Up(fs, c, k) == None
  {
    if k > 1 {
      UpFromNowhere(fs, c, k - 1);
    }
  }

  /**
   * isSubFolder(parent, child): false for a null or zero child, otherwise
   * whether `parent` is a proper ancestor of `child`.
   */
  function IsSubFolder(fs: FolderTable, parent: int, child: Option<int>): (r: Walk<bool>)
    ensures (child.None? || child.value == 0) ==> r == Done(false)
    ensures child.Some? && r == Done(true) ==> exists k: nat :: k >= 1 && Up(fs, child.value, k) == Some(parent)
    ensures child.Some? && r == Done(false) ==> forall k: nat :: k >= 1 ==> Up(fs, child.value, k) != Some(parent)
  {
    if child.None? then Done(false)
    else if child.value == 0 then
      assert forall k: nat :: k >= 1 ==> Up(fs, 0, k) == None by {
        forall k: nat | k >= 1 ensures Up(fs, 0, k) == None {
          UpFromNowhere(fs, 0, k);
        }
      }
      Done(false)
    else SubFolderWalk(fs, parent, child.value, {})
  }

  /* -------------------------------------------------------------- breadcrumb */

  /** The folders from `cur` up to the root, nearest first. */
  function ChainUp(fs: FolderTable, cur: int, visited: set<int>): (r: Walk<seq<int>>)
    ensures r.Done? ==> forall i :: 0 <= i < |r.value| ==> r.value[i] > 0 && r.value[i] in fs && Up(fs, cur, i) == Some(r.value[i])
    ensures r.Done? ==> Up(fs, cur, |r.value|).Some? ==> Up(fs, cur, |r.value|).value <= 0 || Up(fs, cur, |r.value|).value !in fs
    decreases |Unvisited(fs, visited)|
  {
    if cur <= 0 || cur !in fs then Done([])
    else if cur in visited then Diverges
    else
      UnvisitedShrinks(fs, visited, cur);
      match ChainUp(fs, fs[cur].parentId, visited + {cur})
      case Diverges => Diverges
      case Done(up) =>
        ChainUpStep(fs, cur, up);
        Done([cur] + up)
  }

  /** One step of the chain: the folder followed by the chain from its parent. */
  lemma ChainUpStep(fs: FolderTable, cur: int, up: seq<int>)
    requires cur > 0 && cur in fs
    requires forall i :: 0 <= i < |up| ==> up[i] > 0 && up[i] in fs && Up(fs, fs[cur].parentId, i) == Some(up[i])
    ensures forall i :: 0 <= i < |[cur] + up| ==> Up(fs, cur, i) == Some(([cur] + up)[i])
    ensures Up(fs, cur, |up| + 1) == Up(fs, fs[cur].parentId, |up|)
  {
    var r := [cur] + up;
    forall i | 1 <= i < |r| ensures Up(fs, cur, i) == Some(r[i]) {
      UpShift(fs, cur, i - 1);
    }
    UpShift(fs, cur, |up|);
  }

  function Reverse(s: seq<int>): (r: seq<int>)
    ensures |r| == |s| && forall i :: 0 <= i < |s| ==> r[i] == s[|s| - 1 - i]
  {
    if s == [] then [] else Reverse(s[1..]) + [s[0]]
  }

  /**
   * getBreadcrumb: empty for a null or zero id; otherwise the ids of the
   * folder and its ancestors, root first, ending at the folder: each
   * element's parent is the element before it, and the first element's
   * parent is not a folder.
   */
  function GetBreadcrumb(fs: FolderTable, folderId: Option<int>): (r: Walk<seq<int>>)
    ensures (folderId.None? || folderId.value == 0) ==> r == Done([])
    ensures r.Done? && folderId.Some? && folderId.value > 0 && folderId.value in fs ==>
      |r.value| >= 1 && r.value[|r.value| - 1] == folderId.value
    ensures r.Done? ==> forall i :: 0 <= i < |r.value| ==> r.value[i] > 0 && r.value[i] in fs
    ensures r.Done? ==> forall i :: 1 <= i < |r.value| ==> fs[r.value[i]].parentId == r.value[i - 1]
    ensures r.Done? && |r.value| >= 1 ==> fs[r.value[0]].parentId <= 0 || fs[r.value[0]].parentId !in fs
  {
    if folderId.None? || folderId.value == 0 then Done([])
    else match ChainUp(fs, folderId.value, {})
      case Diverges => Diverges
      case Done(up) =>
        ChainLinks(fs, folderId.value, up);
        Done(Reverse(up))
  }

  /** Consecutive chain elements are child and parent, and the chain stops below a folder whose parent is no folder. */
  lemma ChainLinks(fs: FolderTable, c: int, up: seq<int>)
    requires forall i :: 0 <= i < |up| ==> up[i] > 0 && up[i] in fs && Up(fs, c, i) == Some(up[i])
    requires Up(fs, c, |up|).Some? ==> Up(fs, c, |up|).value <= 0 || Up(fs, c, |up|).value !in fs
    ensures forall j :: 0 <= j < |up| - 1 ==> fs[up[j]].parentId == up[j + 1]
    ensures |up| >= 1 ==> fs[up[|up| - 1]].parentId <= 0 || fs[up[|up| - 1]].parentId !in fs
  {
    forall j | 0 <= j < |up| - 1 ensures fs[up[j]].parentId == up[j + 1] {
      assert Up(fs, c, j + 1) == Some(up[j + 1]);
    }
    if |up| >= 1 {
      assert Up(fs, c, |up|) == Some(fs[up[|up| - 1]].parentId);
    }
  }

  /* -------------------------------------------------- create, rename, move */

  datatype FolderError =
    | NotLoggedIn | DuplicateName | FolderNotFound | MoveIntoSelf | MoveIntoSubfolder | WalkDiverges

  /** The stored path of a child of `parentId`: "/" under the root or a missing parent, else the parent's path, name and "/". */
  function ChildPathOf(fs: FolderTable, parentId: Option<int>): (path: string)
    ensures parentId.Some? && parentId.value > 0 && parentId.value in fs ==>
      path == fs[parentId.value].path + fs[parentId.value].name + "/"
    ensures !(parentId.Some? && parentId.value > 0 && parentId.value in fs) ==> path == "/"
  {
    if parentId.Some? && parentId.value > 0 && parentId.value in fs then
      fs[parentId.value].path + fs[parentId.value].name + "/"
    else "/"
  }

  /** Every stored path is the one its parent determines. */
  predicate PathsConsistent(fs: FolderTable) {
    forall id :: id in fs ==> fs[id].path == ChildPathOf(fs, Some(fs[id].parentId))
  }

  /**
   * The sibling test of createFolder: same owner, same parent and same
   * name.  With a null parent the query compares `parent_id = NULL`, which
   * holds for no row.
   */
  predicate HasSibling(fs: FolderTable, userId: int, parentId: Option<int>, name: string) {
    parentId.Some? && exists id :: id in fs && fs[id].userId == userId && fs[id].parentId == parentId.value && fs[id].name == name
  }

  /**
   * createFolder: an anonymous caller or a same-named sibling is rejected;
   * otherwise the folder is stored under the fresh id, its null parent as
   * 0, with the path its parent determines.
   */
  function CreateFolder(fs: FolderTable, userId: Option<int>, name: string, parentId: Option<int>, newId: int): (r: Result<FolderTable, FolderError>)
    requires newId > 0 && newId !in fs
    ensures userId.None? ==> r == Failure(NotLoggedIn)
    ensures userId.Some? ==> (r == Failure(DuplicateName) <==> HasSibling(fs, userId.value, parentId, name))
    ensures r.Success? ==> (r.value.Keys == fs.Keys + {newId}
      && (forall id :: id in fs ==> r.value[id] == fs[id])
      && r.value[newId].name == name && r.value[newId].userId == userId.value
      && r.value[newId].parentId == (if parentId.None? then 0 else parentId.value)
      && r.value[newId].path == ChildPathOf(fs, parentId))
  {
    if userId.None? then Failure(NotLoggedIn)
    else if HasSibling(fs, userId.value, parentId, name) then Failure(DuplicateName)
    else
      var parent := if parentId.None? then 0 else parentId.value;
      Success(fs[newId := Folder(userId.value, name, parent, ChildPathOf(fs, parentId))])
  }

  /** Creating a folder keeps every stored path consistent with its parent's. */
  lemma CreateFolderKeepsPaths(fs: FolderTable, userId: Option<int>, name: string, parentId: Option<int>, newId: int)
    requires newId > 0 && newId !in fs && PathsConsistent(fs)
    requires forall id :: id in fs ==> fs[id].parentId != newId
    requires parentId != Some(newId)
    ensures CreateFolder(fs, userId, name, parentId, newId).Success? ==>
      PathsConsistent(CreateFolder(fs, userId, name, parentId, newId).value)
  {
    var r := CreateFolder(fs, userId, name, parentId, newId);
    if r.Success? {
      var fs' := r.value;
      forall id | id in fs' ensures fs'[id].path == ChildPathOf(fs', Some(fs'[id].parentId)) {
        var p := fs'[id].parentId;
        assert p != newId;
        if id != newId {
          assert fs'[id] == fs[id];
        }
        if p in fs {
          assert fs'[p] == fs[p];
        }
      }
    }
  }

  /**
   * With a null parent the sibling test never fires: creating the same
   * name twice under a null parent stores two root folders of that name.
   */
  lemma NullParentSkipsSiblingTest(fs: FolderTable, userId: int, name: string, id1: int, id2: int)
    requires 0 < id1 && 0 < id2 && id1 != id2 && id1 !in fs && id2 !in fs
    ensures var r1 := CreateFolder(fs, Some(userId), name, None, id1);
      r1.Success? && CreateFolder(r1.value, Some(userId), name, None, id2).Success?
  {
  }

  /**
   * renameFolder: a missing folder is rejected, as is a name another
   * folder under the same parent already has (whoever owns it); otherwise
   * only the name changes.
   */
  function RenameFolder(fs: FolderTable, folderId: int, newName: string): (r: Result<FolderTable, FolderError>)
    ensures folderId !in fs ==> r == Failure(FolderNotFound)
    ensures folderId in fs ==> (r == Failure(DuplicateName) <==>
      exists id :: id in fs && id != folderId && fs[id].parentId == fs[folderId].parentId && fs[id].name == newName)
    ensures r.Success? ==> folderId in fs && r.value == fs[folderId := fs[folderId].(name := newName)]
  {
    if folderId !in fs then Failure(FolderNotFound)
    else if exists id :: id in fs && id != folderId && fs[id].parentId == fs[folderId].parentId && fs[id].name == newName then
      Failure(DuplicateName)
    else Success(fs[folderId := fs[folderId].(name := newName)])
  }

  /**
   * Renaming a folder with no subfolders keeps every stored path
   * consistent; below a folder with subfolders the stored paths keep the
   * old name, since only the folder's own row is written.
   */
  lemma RenameLeafKeepsPaths(fs: FolderTable, folderId: int, newName: string)
    requires PathsConsistent(fs)
    requires forall id :: id in fs ==> fs[id].parentId != folderId
    ensures RenameFolder(fs, folderId, newName).Success? ==> PathsConsistent(RenameFolder(fs, folderId, newName).value)
  {
    var r := RenameFolder(fs, folderId, newName);
    if r.Success? {
      var fs' := r.value;
      forall id | id in fs' ensures fs'[id].path == ChildPathOf(fs', Some(fs'[id].parentId)) {
        var p := fs'[id].parentId;
        assert p != folderId;
        if p in fs {
          assert fs'[p] == fs[p];
        }
      }
    }
  }

  /** The stale path below a renamed folder: a child of "/a/" keeps "/a/" after "a" becomes "b". */
  lemma RenameLeavesChildPathStale()
    ensures var fs := map[1 := Folder(7, "a", 0, "/"), 2 := Folder(7, "c", 1, "/a/")];
      PathsConsistent(fs)
      && RenameFolder(fs, 1, "b").Success?
      && !PathsConsistent(RenameFolder(fs, 1, "b").value)
  {
    var fs := map[1 := Folder(7, "a", 0, "/"), 2 := Folder(7, "c", 1, "/a/")];
    assert ChildPathOf(fs, Some(1)) == "/" + "a" + "/";
    var fs' := RenameFolder(fs, 1, "b").value;
    assert fs'[2].path == "/a/";
    assert ChildPathOf(fs', Some(1)) == "/" + "b" + "/";
    assert "/a/" != "/b/" by { assert "/a/"[1] != "/b/"[1]; }
  }

  /**
   * moveFolderTo: moving onto itself, a missing folder, and a target inside
   * the folder's own subtree are rejected; otherwise the folder hangs under
   * the target (null as 0) with the path the target determines.
   */
  function MoveFolderTo(fs: FolderTable, folderId: int, target: Option<int>): (r: Result<FolderTable, FolderError>)
    ensures target == Some(folderId) ==> r == Failure(MoveIntoSelf)
    ensures target != Some(folderId) && folderId !in fs ==> r == Failure(FolderNotFound)
    ensures r.Success? ==> (folderId in fs && IsSubFolder(fs, folderId, target) == Done(false)
      && r.value == fs[folderId := fs[folderId].(parentId := if target.None? then 0 else target.value,
                                                 path := ChildPathOf(fs, target))])
  {
    if target == Some(folderId) then Failure(MoveIntoSelf)
    else if folderId !in fs then Failure(FolderNotFound)
    else match IsSubFolder(fs, folderId, target)
      case Diverges => Failure(WalkDiverges)
      case Done(true) => Failure(MoveIntoSubfolder)
      case Done(false) =>
        Success(fs[folderId := fs[folderId].(parentId := if target.None? then 0 else target.value,
                                            path := ChildPathOf(fs, target))])
  }

  /** Before the walk from `c` reaches `f`, the old and the new links agree. */
  lemma {:induction false} UpUnchangedAwayFrom(fs: FolderTable, fs': FolderTable, f: int, c: int, n: nat)
    requires f in fs && fs'.Keys == fs.Keys
    requires forall x :: x in fs && x != f ==> fs'[x] == fs[x]
    requires forall j: nat :: j < n ==> Up(fs', c, j) != Some(f)
    ensures Up(fs', c, n) == Up(fs, c, n)
  {
    if n > 0 {
      UpUnchangedAwayFrom(fs, fs', f, c, n - 1);
    }
  }

  /**
   * The moved folder does not become its own ancestor: every chain from
   * its new parent follows old links (it never meets the folder, since the
   * folder was not an ancestor of the target), so it never comes back.
   */
  lemma MovedFolderNotOwnAncestor(fs: FolderTable, f: int, target: Option<int>)
    requires MoveFolderTo(fs, f, target).Success?
    requires f > 0
    ensures forall k: nat :: k >= 1 ==> Up(MoveFolderTo(fs, f, target).value, f, k) != Some(f)
  {
    var fs' := MoveFolderTo(fs, f, target).value;
    var t := fs'[f].parentId;
    if target.None? || target.value == 0 {
      assert t == 0;
      forall k: nat | k >= 1 ensures Up(fs', f, k) != Some(f) {
        UpShift(fs', f, k - 1);
        if k - 1 >= 1 {
          UpFromNowhere(fs', 0, k - 1);
        }
      }
    } else {
      assert t == target.value && t != f;
      assert forall k: nat :: k >= 1 ==> Up(fs, t, k) != Some(f);
      forall j: nat ensures Up(fs', t, j) != Some(f) {
        NeverMeets(fs, fs', f, t, j);
      }
      forall k: nat | k >= 1 ensures Up(fs', f, k) != Some(f) {
        UpShift(fs', f, k - 1);
      }
    }
  }

  lemma {:induction false} NeverMeets(fs: FolderTable, fs': FolderTable, f: int, t: int, n: nat)
    requires f in fs && fs'.Keys == fs.Keys && t != f
    requires forall x :: x in fs && x != f ==> fs'[x] == fs[x]
    requires forall k: nat :: k >= 1 ==> Up(fs, t, k) != Some(f)
    ensures forall j: nat :: j <= n ==> Up(fs', t, j) != Some(f)
    ensures Up(fs', t, n) == Up(fs, t, n)
  {
    if n > 0 {
      NeverMeets(fs, fs', f, t, n - 1);
    }
    UpUnchangedAwayFrom(fs, fs', f, t, n);
  }

  /**
   * moveFolderTo keeps the tree free of cycles: a cycle after the move
   * either avoids the moved folder, and then existed before, or passes
   * through it, and then the moved folder would be its own ancestor.
   */
  lemma MoveFolderKeepsAcyclic(fs: FolderTable, f: int, target: Option<int>)
    requires Acyclic(fs) && f > 0
    requires MoveFolderTo(fs, f, target).Success?
    ensures Acyclic(MoveFolderTo(fs, f, target).value)
  {
    var fs' := MoveFolderTo(fs, f, target).value;
    MovedFolderNotOwnAncestor(fs, f, target);
    forall c, k: nat | c in fs' && c > 0 && k >= 1 ensures Up(fs', c, k) != Some(c) {
      if Up(fs', c, k) == Some(c) {
        if j: nat :| j <= k && Up(fs', c, j) == Some(f) {
          UpCompose(fs', c, j, k);
          UpCompose(fs', c, k, j);
          assert false;
        } else {
          UpUnchangedAwayFrom(fs, fs', f, c, k);
          assert false;
        }
      }
    }
  }

  /* ------------------------------------------------------------ folder tree */

  /** A row of the folder list the tree is built from. */
  datatype Row = Row(id: int, parentId: int, name: string)

  datatype Node = Node(id: int, title: string, path: string, children: seq<Node>)

  /** A node's path: "/name" below the root's "/", else the parent's path, "/" and the name. */
  function NodePath(parentPath: string, name: string): string {
    if parentPath == "/" then "/" + name else parentPath + "/" + name
  }

  function RowIds(rows: seq<Row>): set<int> {
    set k | 0 <= k < |rows| :: rows[k].id
  }

  /**
   * buildTreeChildren from row `i` on: a node for each row whose parent is
   * `parentId`, in list order, with its own children below it; a row
   * already on the path from the root closes a cycle, on which the source
   * recurses without end.
   */
  function BuildChildren(rows: seq<Row>, parentId: int, parentPath: string, onPath: set<int>, i: nat): (r: Walk<seq<Node>>)
    ensures r.Done? ==> forall n :: n in r.value ==>
      n.path == NodePath(parentPath, n.title)
      && exists k :: i <= k < |rows| && rows[k].id == n.id && rows[k].parentId == parentId && rows[k].name == n.title
    ensures r.Done? ==> |r.value| == CountChildren(rows, parentId, i)
    decreases |RowIds(rows) - onPath|, |rows| - i
  {
    if i >= |rows| then Done([])
    else
      var row := rows[i];
      if row.parentId != parentId then BuildChildren(rows, parentId, parentPath, onPath, i + 1)
      else if row.id in onPath then Diverges
      else
        var path := NodePath(parentPath, row.name);
        assert row.id in RowIds(rows);
        assert RowIds(rows) - onPath == (RowIds(rows) - (onPath + {row.id})) + {row.id};
        match BuildChildren(rows, row.id, path, onPath + {row.id}, 0)
        case Diverges => Diverges
        case Done(sub) =>
          match BuildChildren(rows, parentId, parentPath, onPath, i + 1)
          case Diverges => Diverges
          case Done(rest) => Done([Node(row.id, row.name, path, sub)] + rest)
  }

  /** The number of rows from `i` on whose parent is `parentId`. */
  function CountChildren(rows: seq<Row>, parentId: int, i: nat): nat
    decreases |rows| - i
  {
    if i >= |rows| then 0
    else (if rows[i].parentId == parentId then 1 else 0) + CountChildren(rows, parentId, i + 1)
  }

  /** getFolderTree: the root node 0, labelled for all files, with path "/" and the top-level folders below. */
  function GetFolderTree(rows: seq<Row>, rootLabel: string): (r: Walk<Node>)
    ensures r.Done? ==> (r.value.id == 0 && r.value.path == "/"
      && |r.value.children| == CountChildren(rows, 0, 0)
      && forall n :: n in r.value.children ==> n.path == "/" + n.title)
  {
    match BuildChildren(rows, 0, "/", {}, 0)
    case Diverges => Diverges
    case Done(children) => Done(Node(0, rootLabel, "/", children))
  }

  /* ------------------------------------------------------------ type filter */

  /** getFolderContent filters by type exactly for the codes 1..5. */
  predicate FiltersByType(fileType: Option<int>) {
    fileType.Some? && 0 < fileType.value < 6
  }

  /**
   * The type condition of the file query: IN the category's extensions
   * for 1..4, NOT IN all known extensions for 5.  A null extension satisfies
   * neither SQL condition.
   */
  predicate TypeCondition(extendName: Option<string>, fileType: int) {
    var exts := FileTypeUtil.GetExtensionsByType(fileType);
    if exts != {} then extendName.Some? && extendName.value in exts
    else if fileType == FileTypeUtil.TypeOther then
      extendName.Some? && extendName.value !in
        FileTypeUtil.ImageExtensions + FileTypeUtil.DocumentExtensions + FileTypeUtil.VideoExtensions + FileTypeUtil.AudioExtensions
    else true
  }

  /**
   * When the stored extension is the normalised (lower-cased, trimmed)
   * form of a name's extension, the query's condition agrees with
   * FileTypeUtil.matchesType on that extension for every filtering code.
   */
  lemma TypeConditionAgrees(ext: string, fileType: int)
    requires FiltersByType(Some(fileType))
    ensures TypeCondition(Some(FileTypeUtil.Normalize(ext)), fileType) == FileTypeUtil.MatchesType(Some(ext), fileType)
  {
    if fileType != FileTypeUtil.TypeOther {
      CategoryConditionAgrees(ext, fileType);
    } else {
      OtherConditionAgrees(ext);
    }
  }

  lemma CategoryConditionAgrees(ext: string, fileType: int)
    requires FileTypeUtil.TypeImage <= fileType <= FileTypeUtil.TypeAudio
    ensures TypeCondition(Some(FileTypeUtil.Normalize(ext)), fileType) == FileTypeUtil.MatchesType(Some(ext), fileType)
  {
    var exts := FileTypeUtil.GetExtensionsByType(fileType);
    CategoriesNonEmpty(fileType);
    FileTypeUtil.MatchesTypeBySet(Some(ext), fileType);
    if ext == "" {
      NormalizeEmpty();
      NoEmptyExtension();
      assert "" !in exts;
    }
  }

  lemma NormalizeEmpty()
    ensures FileTypeUtil.Normalize("") == ""
  {
  }

  lemma OtherConditionAgrees(ext: string)
    ensures TypeCondition(Some(FileTypeUtil.Normalize(ext)), FileTypeUtil.TypeOther)
      == FileTypeUtil.MatchesType(Some(ext), FileTypeUtil.TypeOther)
  {
    NoEmptyExtension();
    if ext != "" {
      FileTypeUtil.GetFileTypeBySet(ext, FileTypeUtil.TypeImage);
    }
  }

  /** Each of the four categories lists at least one extension. */
  lemma CategoriesNonEmpty(fileType: int)
    requires FileTypeUtil.TypeImage <= fileType <= FileTypeUtil.TypeAudio
    ensures FileTypeUtil.GetExtensionsByType(fileType) != {}
  {
    if fileType == FileTypeUtil.TypeImage {
      assert "png" in FileTypeUtil.GetExtensionsByType(fileType);
    } else if fileType == FileTypeUtil.TypeDocument {
      assert "pdf" in FileTypeUtil.GetExtensionsByType(fileType);
    } else if fileType == FileTypeUtil.TypeVideo {
      assert "mp4" in FileTypeUtil.GetExtensionsByType(fileType);
    } else {
      assert "mp3" in FileTypeUtil.GetExtensionsByType(fileType);
    }
  }

  /** No category lists the empty extension. */
  lemma NoEmptyExtension()
    ensures "" !in FileTypeUtil.ImageExtensions && "" !in FileTypeUtil.DocumentExtensions
    ensures "" !in FileTypeUtil.VideoExtensions && "" !in FileTypeUtil.AudioExtensions
  {
  }

  /** A file with no extension is "other" to matchesType but is listed under no type, "other" included. */
  lemma NullExtensionListedNowhere(fileType: int)
    requires FiltersByType(Some(fileType))
    ensures !TypeCondition(None, fileType)
    ensures FileTypeUtil.MatchesType(None, FileTypeUtil.TypeOther)
  {
  }
}
