/** Link counts and directory entries (sysfile.c, fs.c). */
module Links {
  const DIRSIZ := 14
  const ROOT := 1

  datatype Kind = Free | File | Dir | Dev

  datatype Ent = Ent(inum: int, name: string)        // inum 0: an empty slot

  datatype Inode = Inode(kind: Kind, nlink: int, ents: seq<Ent>)

  const NOENT := Ent(0, "")

  /** What strncpy and strncmp with DIRSIZ see of a name. */
  function Trunc(s: string): string {
    if |s| <= DIRSIZ then s else s[..DIRSIZ]
  }

  /** The inodes; then, only for the proofs, how many calls of sys_link have raised an inode's
      count and not yet made its entry, and where each linked directory has its entry. */
  datatype Tree = Tree(ino: seq<Inode>, pending: seq<int>, up: seq<int>, pos: seq<int>)

  // ----- counting entries -------------------------------------------------------------------

  predicate IsLinked(x: Inode) { x.kind == Dir && x.nlink > 0 }

  function One(e: Ent, i: int): int { if e.inum == i then 1 else 0 }

  /** The entries that name inode i, not counting the first, which is `.`. */
  function Cnt(ents: seq<Ent>, i: int): (n: int)
    ensures n >= 0
  {
    if |ents| <= 1 then 0 else Cnt(ents[..|ents| - 1], i) + One(ents[|ents| - 1], i)
  }

  function Contrib(x: Inode, i: int): (n: int)
    ensures n >= 0
  {
    if IsLinked(x) then Cnt(x.ents, i) else 0
  }

  /** The entries in linked directories that name i. */
  function Refs(ino: seq<Inode>, i: int): (n: int)
    ensures n >= 0
  {
    if ino == [] then 0 else Refs(ino[..|ino| - 1], i) + Contrib(ino[|ino| - 1], i)
  }

  lemma {:induction false} CntUpdate(ents: seq<Ent>, k: int, e: Ent, i: int)
    requires 1 <= k < |ents|
    ensures Cnt(ents[k := e], i) == Cnt(ents, i) - One(ents[k], i) + One(e, i)
  {
    var n := |ents| - 1;
    if k == n {
      assert ents[k := e][..n] == ents[..n];
    } else {
      assert ents[k := e][..n] == ents[..n][k := e];
      CntUpdate(ents[..n], k, e, i);
    }
  }

  lemma CntAppend(ents: seq<Ent>, e: Ent, i: int)
    requires |ents| >= 1
    ensures Cnt(ents + [e], i) == Cnt(ents, i) + One(e, i)
  {
    assert (ents + [e])[..|ents|] == ents;
  }

  lemma {:induction false} RefsUpdate(ino: seq<Inode>, d: int, x: Inode, i: int)
    requires 0 <= d < |ino|
    ensures Refs(ino[d := x], i) == Refs(ino, i) - Contrib(ino[d], i) + Contrib(x, i)
  {
    var n := |ino| - 1;
    if d == n {
      assert ino[d := x][..n] == ino[..n];
    } else {
      assert ino[d := x][..n] == ino[..n][d := x];
      RefsUpdate(ino[..n], d, x, i);
    }
  }

  lemma {:induction false} CntNone(ents: seq<Ent>, i: int, j: int)
    requires forall k | 1 <= k < |ents| && k != j :: ents[k].inum != i
    ensures Cnt(ents, i) == if 1 <= j < |ents| then One(ents[j], i) else 0
  {
    if |ents| > 1 {
      CntNone(ents[..|ents| - 1], i, j);
    }
  }

  lemma {:induction false} RefsNone(ino: seq<Inode>, i: int, d: int)
    requires forall x | 0 <= x < |ino| && x != d :: Contrib(ino[x], i) == 0
    ensures Refs(ino, i) == if 0 <= d < |ino| then Contrib(ino[d], i) else 0
  {
    if ino != [] {
      RefsNone(ino[..|ino| - 1], i, d);
    }
  }

  // ----- the invariant ----------------------------------------------------------------------

  ghost predicate Linked(s: Tree, d: int) {
    1 <= d < |s.ino| && IsLinked(s.ino[d])
  }

  ghost predicate Sizes(s: Tree) {
    |s.pending| == |s.up| == |s.pos| == |s.ino| > ROOT && !IsLinked(s.ino[0])
  }

  /** An inode's link count is the number of entries that name it in linked directories, not
      counting `.`, and of the links under way. */
  ghost predicate InoOk(s: Tree, i: int)
    requires Sizes(s)
  {
    1 <= i < |s.ino| ==>
      && s.ino[i].nlink == Refs(s.ino, i) + s.pending[i] && s.pending[i] >= 0
      && (s.ino[i].nlink > 0 ==> s.ino[i].kind != Free)
      && (s.ino[i].kind == Dir ==> s.pending[i] == 0)
  }

  /** A linked directory begins with `.` and `..`, and its parent has it as an entry. */
  ghost predicate DirOk(s: Tree, d: int)
    requires Sizes(s)
  {
    Linked(s, d) ==>
      && |s.ino[d].ents| >= 2 && s.ino[d].ents[0] == Ent(d, ".") && s.ino[d].ents[1] == Ent(s.up[d], "..")
      && Linked(s, s.up[d])
      && (d == ROOT ==> s.up[d] == ROOT && s.pos[d] == 1)
      && (d != ROOT ==> 2 <= s.pos[d] < |s.ino[s.up[d]].ents| && s.ino[s.up[d]].ents[s.pos[d]].inum == d)
  }

  /** An entry names an inode; if that is a directory, this is its one entry. */
  ghost predicate SlotOk(s: Tree, d: int, k: int)
    requires Sizes(s)
  {
    Linked(s, d) && 0 <= k < |s.ino[d].ents| ==>
      var j := s.ino[d].ents[k].inum;
      && 0 <= j < |s.ino|
      && (k >= 2 && j != 0 && s.ino[j].kind == Dir ==> Linked(s, j) && s.up[j] == d && s.pos[j] == k)
  }

  predicate OnlyDots(ents: seq<Ent>, n: int) {
    forall l | 0 <= l < |ents| && ents[l].inum != 0 ::
      0 < ents[l].inum < n && (ents[l].name == "." || ents[l].name == "..")
  }

  /** A directory that has been unlinked, or is not linked yet, has no entry but `.` and `..`. */
  ghost predicate GoneOk(s: Tree, d: int) {
    0 <= d < |s.ino| && s.ino[d].kind == Dir && !IsLinked(s.ino[d]) ==> OnlyDots(s.ino[d].ents, |s.ino|)
  }

  ghost predicate NamesOk(s: Tree, d: int, k: int, l: int) {
    Linked(s, d) && 0 <= k < l < |s.ino[d].ents| && s.ino[d].ents[k].inum != 0 && s.ino[d].ents[l].inum != 0 ==>
      s.ino[d].ents[k].name != s.ino[d].ents[l].name
  }

  ghost predicate Inv(s: Tree) {
    && Sizes(s) && Linked(s, ROOT)
    && (forall i :: InoOk(s, i)) && (forall d :: DirOk(s, d)) && (forall d :: GoneOk(s, d))
    && (forall d, k :: SlotOk(s, d, k)) && (forall d, k, l :: NamesOk(s, d, k, l))
  }

  /** An entry names an inode that is linked. */
  lemma NamedIsLinked(s: Tree, d: int, k: int)
    requires Inv(s) && Linked(s, d) && 1 <= k < |s.ino[d].ents| && s.ino[d].ents[k].inum != 0
    ensures var j := s.ino[d].ents[k].inum; 1 <= j < |s.ino| && s.ino[j].nlink > 0 && s.ino[j].kind != Free
  {
    var j := s.ino[d].ents[k].inum;
    assert SlotOk(s, d, k) && InoOk(s, j);
    var none := s.ino[d].ents[k := NOENT];
    CntUpdate(s.ino[d].ents, k, NOENT, j);
    RefsUpdate(s.ino, d, Inode(Dir, s.ino[d].nlink, none), j);
  }

  predicate EmptyDir(x: Inode) {
    forall k | 2 <= k < |x.ents| :: x.ents[k].inum == 0
  }

  /** A directory with nothing but `.` and `..` is named only by its entry in its parent. */
  lemma EmptyDirOneName(s: Tree, d: int, k: int)
    requires Inv(s) && Linked(s, d) && 2 <= k < |s.ino[d].ents| && s.ino[d].ents[k].inum != 0
    requires var j := s.ino[d].ents[k].inum; 0 <= j < |s.ino| && s.ino[j].kind == Dir && EmptyDir(s.ino[j])
    ensures s.ino[s.ino[d].ents[k].inum].nlink == 1
  {
    var j := s.ino[d].ents[k].inum;
    assert SlotOk(s, d, k) && InoOk(s, j);
    forall x | 0 <= x < |s.ino| ensures Contrib(s.ino[x], j) == if x == d then 1 else 0 {
      if Linked(s, x) {
        forall l | 1 <= l < |s.ino[x].ents| && s.ino[x].ents[l].inum == j ensures x == d && l == k {
          assert SlotOk(s, x, l) && DirOk(s, x);
        }
        CntNone(s.ino[x].ents, j, if x == d then k else 0);
      }
    }
    RefsNone(s.ino, j, d);
  }

  // ----- the steps ----------------------------------------------------------------------------

  function PutEnt(ents: seq<Ent>, k: int, e: Ent): seq<Ent>
    requires 0 <= k <= |ents|
  {
    if k == |ents| then ents + [e] else ents[k := e]
  }

  /** Slot k is free for an entry of this name. */
  ghost predicate Room(x: Inode, k: int, name: string) {
    && 2 <= k <= |x.ents| && (k < |x.ents| ==> x.ents[k].inum == 0)
    && forall l | 0 <= l < |x.ents| && x.ents[l].inum != 0 :: x.ents[l].name != name
  }

  lemma PutEntCnt(ents: seq<Ent>, k: int, e: Ent, i: int)
    requires 1 <= k <= |ents|
    ensures Cnt(PutEnt(ents, k, e), i) == Cnt(ents, i) + One(e, i) - if k < |ents| then One(ents[k], i) else 0
  {
    if k == |ents| {
      CntAppend(ents, e, i);
    } else {
      CntUpdate(ents, k, e, i);
    }
  }

  function SetEnts(x: Inode, ents: seq<Ent>): Inode { Inode(x.kind, x.nlink, ents) }

  function AddLinks(x: Inode, n: int): Inode { Inode(x.kind, x.nlink + n, x.ents) }

  /** The first half of sys_link raises the count; n is -1 when it takes that back. */
  function Raise(s: Tree, i: int, n: int): Tree
    requires 0 <= i < |s.ino| == |s.pending|
  {
    Tree(s.ino[i := AddLinks(s.ino[i], n)], s.pending[i := s.pending[i] + n], s.up, s.pos)
  }

  /** If no directory and no inode's kind has changed, neither has what holds of directories. */
  lemma SameDirs(s: Tree, t: Tree)
    requires Inv(s) && Sizes(t) && |t.ino| == |s.ino| && t.up == s.up && t.pos == s.pos
    requires forall d | 0 <= d < |s.ino| :: IsLinked(t.ino[d]) == IsLinked(s.ino[d])
    requires forall d | 0 <= d < |s.ino| && IsLinked(s.ino[d]) :: t.ino[d].ents == s.ino[d].ents
    requires forall d | 0 <= d < |s.ino| :: t.ino[d].kind == Dir ==> s.ino[d] == t.ino[d]
    requires forall i :: InoOk(t, i)
    ensures Inv(t)
  {
    forall d ensures DirOk(t, d) { assert DirOk(s, d); }
    forall d ensures GoneOk(t, d) { assert GoneOk(s, d); }
    forall d, k ensures SlotOk(t, d, k) { assert SlotOk(s, d, k); }
    forall d, k, l ensures NamesOk(t, d, k, l) { assert NamesOk(s, d, k, l); }
  }

  lemma RaiseKeeps(s: Tree, i: int, n: int)
    requires Inv(s) && 1 <= i < |s.ino| && s.ino[i].kind != Dir && s.ino[i].kind != Free
    requires n == 1 || (n == -1 && s.pending[i] > 0)
    ensures Inv(Raise(s, i, n))
  {
    var t := Raise(s, i, n);
    forall x ensures InoOk(t, x) {
      assert InoOk(s, x);
      RefsUpdate(s.ino, i, AddLinks(s.ino[i], n), x);
    }
    SameDirs(s, t);
  }

  /** The second half of sys_link makes the entry. */
  function Enter(s: Tree, i: int, d: int, k: int, name: string): Tree
    requires 0 <= i < |s.ino| == |s.pending| && 0 <= d < |s.ino| && 0 <= k <= |s.ino[d].ents|
  {
    Tree(s.ino[d := SetEnts(s.ino[d], PutEnt(s.ino[d].ents, k, Ent(i, name)))],
         s.pending[i := s.pending[i] - 1], s.up, s.pos)
  }

  /** The entry counts if its directory is linked. */
  lemma EnterRefs(s: Tree, i: int, d: int, k: int, name: string, x: int)
    requires Sizes(s) && 1 <= x && 0 <= i < |s.ino| && 0 <= d < |s.ino| && 0 <= k <= |s.ino[d].ents|
    requires IsLinked(s.ino[d]) ==> 1 <= k && (k < |s.ino[d].ents| ==> s.ino[d].ents[k].inum == 0)
    ensures Refs(Enter(s, i, d, k, name).ino, x) == Refs(s.ino, x) + if IsLinked(s.ino[d]) && x == i then 1 else 0
  {
    RefsUpdate(s.ino, d, SetEnts(s.ino[d], PutEnt(s.ino[d].ents, k, Ent(i, name))), x);
    if IsLinked(s.ino[d]) {
      PutEntCnt(s.ino[d].ents, k, Ent(i, name), x);
    }
  }

  lemma EnterKeeps(s: Tree, i: int, d: int, k: int, name: string)
    requires Inv(s) && 1 <= i < |s.ino| && s.pending[i] > 0 && Linked(s, d) && Room(s.ino[d], k, name)
    ensures Inv(Enter(s, i, d, k, name))
  {
    var t := Enter(s, i, d, k, name);
    assert InoOk(s, i) && DirOk(s, d);
    forall x ensures InoOk(t, x) {
      assert InoOk(s, x);
      if x >= 1 {
        EnterRefs(s, i, d, k, name, x);
      }
    }
    forall x ensures DirOk(t, x) { assert DirOk(s, x); }
    forall x ensures GoneOk(t, x) { assert GoneOk(s, x); }
    forall x, l ensures SlotOk(t, x, l) { assert SlotOk(s, x, l); }
    forall x, l, m ensures NamesOk(t, x, l, m) { assert NamesOk(s, x, l, m); }
  }

  /** sys_link does not look at its directory's link count: an entry in a directory that has
      been unlinked leaves an inode with more links than names. */
  lemma EnterKeepsIff(s: Tree, i: int, d: int, k: int, name: string)
    requires Inv(s) && 1 <= i < |s.ino| && s.pending[i] > 0 && 1 <= d < |s.ino| && s.ino[d].kind == Dir
    requires if Linked(s, d) then Room(s.ino[d], k, name) else 0 <= k <= |s.ino[d].ents|
    ensures Inv(Enter(s, i, d, k, name)) <==> Linked(s, d)
  {
    if Linked(s, d) {
      EnterKeeps(s, i, d, k, name);
    } else {
      assert InoOk(s, i);
      EnterRefs(s, i, d, k, name, i);
      assert !InoOk(Enter(s, i, d, k, name), i);
    }
  }

  /** sys_unlink of what is not a directory. */
  function Remove(s: Tree, d: int, k: int): Tree
    requires 0 <= d < |s.ino| && 0 <= k < |s.ino[d].ents| && 0 <= s.ino[d].ents[k].inum < |s.ino|
  {
    var j, ino := s.ino[d].ents[k].inum, s.ino[d := SetEnts(s.ino[d], s.ino[d].ents[k := NOENT])];
    Tree(ino[j := AddLinks(ino[j], -1)], s.pending, s.up, s.pos)
  }

  lemma RemoveKeeps(s: Tree, d: int, k: int)
    requires Inv(s) && Linked(s, d) && 2 <= k < |s.ino[d].ents| && s.ino[d].ents[k].inum != 0
    requires 0 <= s.ino[d].ents[k].inum < |s.ino| && s.ino[s.ino[d].ents[k].inum].kind != Dir
    ensures Inv(Remove(s, d, k))
  {
    var j, t, ents := s.ino[d].ents[k].inum, Remove(s, d, k), s.ino[d].ents[k := NOENT];
    var ino := s.ino[d := SetEnts(s.ino[d], ents)];
    NamedIsLinked(s, d, k);
    assert DirOk(s, d);
    forall x ensures InoOk(t, x) {
      assert InoOk(s, x) && InoOk(s, j);
      RefsUpdate(s.ino, d, SetEnts(s.ino[d], ents), x);
      CntUpdate(s.ino[d].ents, k, NOENT, x);
      RefsUpdate(ino, j, AddLinks(ino[j], -1), x);
    }
    forall x ensures DirOk(t, x) { assert DirOk(s, x); }
    forall x ensures GoneOk(t, x) { assert GoneOk(s, x); }
    forall x, l ensures SlotOk(t, x, l) { assert SlotOk(s, x, l); }
    forall x, l, m ensures NamesOk(t, x, l, m) { assert NamesOk(s, x, l, m); }
  }

  /** sys_unlink of an empty directory: its parent loses a link too, that of its `..`. */
  function RemoveDir(s: Tree, d: int, k: int): Tree
    requires 0 <= d < |s.ino| && 0 <= k < |s.ino[d].ents| && 0 <= s.ino[d].ents[k].inum < |s.ino|
  {
    var j, ino := s.ino[d].ents[k].inum, s.ino[d := AddLinks(SetEnts(s.ino[d], s.ino[d].ents[k := NOENT]), -1)];
    Tree(ino[j := AddLinks(ino[j], -1)], s.pending, s.up, s.pos)
  }

  ghost predicate Removable(s: Tree, d: int, k: int) {
    && Inv(s) && Linked(s, d) && 2 <= k < |s.ino[d].ents| && s.ino[d].ents[k].inum != 0
    && 0 <= s.ino[d].ents[k].inum < |s.ino|
    && s.ino[s.ino[d].ents[k].inum].kind == Dir && EmptyDir(s.ino[s.ino[d].ents[k].inum])
  }

  /** Two linked directories that name d: one as its `..`, the other in slot l. */
  lemma NamedTwice(ino: seq<Inode>, j: int, x: int, l: int, d: int)
    requires 0 <= j < |ino| && 0 <= x < |ino| && j != x && d != 0 && IsLinked(ino[j]) && IsLinked(ino[x])
    requires 1 < |ino[j].ents| && 1 <= l < |ino[x].ents| && ino[j].ents[1].inum == d && ino[x].ents[l].inum == d
    ensures Refs(ino, d) >= 2
  {
    var a := SetEnts(ino[j], ino[j].ents[1 := NOENT]);
    var b := SetEnts(ino[x], ino[x].ents[l := NOENT]);
    CntUpdate(ino[j].ents, 1, NOENT, d);
    CntUpdate(ino[x].ents, l, NOENT, d);
    RefsUpdate(ino, j, a, d);
    RefsUpdate(ino[j := a], x, b, d);
  }

  /** The parent of a directory is named at least twice. */
  lemma ParentTwice(s: Tree, d: int, k: int)
    requires Removable(s, d, k)
    ensures s.ino[d].nlink >= 2 && s.ino[d].ents[k].inum != d && SlotOk(s, d, k)
  {
    var j := s.ino[d].ents[k].inum;
    assert SlotOk(s, d, k) && DirOk(s, j) && DirOk(s, d) && InoOk(s, d) && j != d;
    NamedTwice(s.ino, j, s.up[d], s.pos[d], d);
  }

  /** The directory's one entry goes, and its own `..` with it. */
  lemma RemoveDirRefs(s: Tree, d: int, k: int, x: int)
    requires Removable(s, d, k) && s.ino[d].ents[k].inum != d && 1 <= x && s.ino[d].nlink >= 2
    ensures var j := s.ino[d].ents[k].inum;
            && 1 <= j && s.ino[j].nlink == 1
            && Refs(RemoveDir(s, d, k).ino, x) == Refs(s.ino, x) - (if x == j then 1 else 0) - (if x == d then 1 else 0)
  {
    var j, ents := s.ino[d].ents[k].inum, s.ino[d].ents[k := NOENT];
    var dp := AddLinks(SetEnts(s.ino[d], ents), -1);
    EmptyDirOneName(s, d, k);
    assert SlotOk(s, d, k) && DirOk(s, j);
    RefsUpdate(s.ino, d, dp, x);
    CntUpdate(s.ino[d].ents, k, NOENT, x);
    RefsUpdate(s.ino[d := dp], j, AddLinks(s.ino[j], -1), x);
    CntNone(s.ino[j].ents, x, 1);
  }

  lemma RemoveDirCounts(s: Tree, d: int, k: int, x: int)
    requires Removable(s, d, k) && s.ino[d].ents[k].inum != d && s.ino[d].nlink >= 2
    ensures InoOk(RemoveDir(s, d, k), x)
  {
    assert InoOk(s, x);
    if 1 <= x {
      RemoveDirRefs(s, d, k, x);
    }
  }

  lemma RemoveDirUp(s: Tree, d: int, k: int, x: int)
    requires Sizes(s) && Linked(s, d) && 2 <= k < |s.ino[d].ents| && 0 <= s.ino[d].ents[k].inum < |s.ino| && DirOk(s, x)
    requires s.ino[d].nlink >= 2 && s.ino[d].ents[k].inum != d && s.ino[s.ino[d].ents[k].inum].nlink == 1
    requires EmptyDir(s.ino[s.ino[d].ents[k].inum]) && DirOk(s, d)
    ensures DirOk(RemoveDir(s, d, k), x)
  {}

  lemma RemoveDirSlots(s: Tree, d: int, k: int, x: int, l: int)
    requires Sizes(s) && Linked(s, d) && 2 <= k < |s.ino[d].ents| && 0 <= s.ino[d].ents[k].inum < |s.ino|
    requires s.ino[d].nlink >= 2 && s.ino[d].ents[k].inum != d && s.ino[s.ino[d].ents[k].inum].nlink == 1
    requires s.ino[s.ino[d].ents[k].inum].kind == Dir && SlotOk(s, d, k) && SlotOk(s, x, l)
    ensures SlotOk(RemoveDir(s, d, k), x, l)
  {}

  lemma RemoveDirKeeps(s: Tree, d: int, k: int)
    requires Removable(s, d, k)
    ensures Inv(RemoveDir(s, d, k)) && !Linked(RemoveDir(s, d, k), s.ino[d].ents[k].inum)
  {
    var j, t := s.ino[d].ents[k].inum, RemoveDir(s, d, k);
    ParentTwice(s, d, k);
    EmptyDirOneName(s, d, k);
    assert DirOk(s, d) && DirOk(s, j) && SlotOk(s, d, k);
    forall x ensures InoOk(t, x) { RemoveDirCounts(s, d, k, x); }
    forall x ensures DirOk(t, x) {
      assert DirOk(s, x);
      RemoveDirUp(s, d, k, x);
    }
    forall x ensures GoneOk(t, x) { assert GoneOk(s, x); }
    forall x, l ensures SlotOk(t, x, l) {
      assert SlotOk(s, x, l);
      RemoveDirSlots(s, d, k, x, l);
    }
    forall x, l, m ensures NamesOk(t, x, l, m) { assert NamesOk(s, x, l, m); }
  }

  /** create of what is not a directory, in an inode that was free. */
  function Make(s: Tree, d: int, k: int, name: string, i: int, kind: Kind): Tree
    requires 0 <= d < |s.ino| && 0 <= k <= |s.ino[d].ents| && 0 <= i < |s.ino|
  {
    var ino := s.ino[i := Inode(kind, 1, [])];
    Tree(ino[d := SetEnts(s.ino[d], PutEnt(s.ino[d].ents, k, Ent(i, name)))], s.pending, s.up, s.pos)
  }

  ghost predicate Fresh(s: Tree, i: int) {
    1 <= i < |s.ino| && s.ino[i].kind == Free
  }

  lemma FreshHasNoLinks(s: Tree, i: int)
    requires Inv(s) && Fresh(s, i)
    ensures s.ino[i].nlink == 0 && s.pending[i] == 0 && Refs(s.ino, i) == 0
    ensures forall d, k | Linked(s, d) && 1 <= k < |s.ino[d].ents| :: s.ino[d].ents[k].inum != i
  {
    assert InoOk(s, i);
    forall d, k | Linked(s, d) && 1 <= k < |s.ino[d].ents| ensures s.ino[d].ents[k].inum != i {
      if s.ino[d].ents[k].inum != 0 {
        NamedIsLinked(s, d, k);
      }
    }
  }

  lemma MakeRefs(s: Tree, d: int, k: int, name: string, i: int, kind: Kind, x: int)
    requires Sizes(s) && 1 <= x && 0 <= d < |s.ino| && s.ino[d].kind == Dir && 0 <= k <= |s.ino[d].ents|
    requires IsLinked(s.ino[d]) ==> 1 <= k && (k < |s.ino[d].ents| ==> s.ino[d].ents[k].inum == 0)
    requires Fresh(s, i) && kind != Dir
    ensures Refs(Make(s, d, k, name, i, kind).ino, x) == Refs(s.ino, x) + if IsLinked(s.ino[d]) && x == i then 1 else 0
  {
    RefsUpdate(s.ino, i, Inode(kind, 1, []), x);
    RefsUpdate(s.ino[i := Inode(kind, 1, [])], d, SetEnts(s.ino[d], PutEnt(s.ino[d].ents, k, Ent(i, name))), x);
    if IsLinked(s.ino[d]) {
      PutEntCnt(s.ino[d].ents, k, Ent(i, name), x);
    }
  }

  lemma MakeCounts(s: Tree, d: int, k: int, name: string, i: int, kind: Kind, x: int)
    requires Sizes(s) && Linked(s, d) && Room(s.ino[d], k, name) && Fresh(s, i) && (kind == File || kind == Dev)
    requires InoOk(s, x) && InoOk(s, i)
    ensures InoOk(Make(s, d, k, name, i, kind), x)
  {
    if x >= 1 {
      MakeRefs(s, d, k, name, i, kind, x);
    }
  }

  lemma MakeUp(s: Tree, d: int, k: int, name: string, i: int, kind: Kind, x: int)
    requires Sizes(s) && Linked(s, d) && Room(s.ino[d], k, name) && Fresh(s, i) && kind != Dir && DirOk(s, x)
    ensures DirOk(Make(s, d, k, name, i, kind), x)
  {}

  lemma MakeKeeps(s: Tree, d: int, k: int, name: string, i: int, kind: Kind)
    requires Inv(s) && Linked(s, d) && Room(s.ino[d], k, name) && Fresh(s, i) && (kind == File || kind == Dev)
    ensures Inv(Make(s, d, k, name, i, kind))
  {
    var t := Make(s, d, k, name, i, kind);
    assert DirOk(s, d) && InoOk(s, i);
    forall x ensures InoOk(t, x) {
      assert InoOk(s, x);
      MakeCounts(s, d, k, name, i, kind, x);
    }
    forall x ensures DirOk(t, x) {
      assert DirOk(s, x);
      MakeUp(s, d, k, name, i, kind, x);
    }
    forall x ensures GoneOk(t, x) { assert GoneOk(s, x); }
    forall x, l ensures SlotOk(t, x, l) { assert SlotOk(s, x, l); }
    forall x, l, m ensures NamesOk(t, x, l, m) { assert NamesOk(s, x, l, m); }
  }

  /** create does not look at its directory's link count either. */
  lemma MakeKeepsIff(s: Tree, d: int, k: int, name: string, i: int, kind: Kind)
    requires Inv(s) && 1 <= d < |s.ino| && s.ino[d].kind == Dir && Fresh(s, i) && (kind == File || kind == Dev)
    requires if Linked(s, d) then Room(s.ino[d], k, name) else 0 <= k <= |s.ino[d].ents|
    ensures Inv(Make(s, d, k, name, i, kind)) <==> Linked(s, d)
  {
    if Linked(s, d) {
      MakeKeeps(s, d, k, name, i, kind);
    } else {
      assert InoOk(s, i);
      MakeRefs(s, d, k, name, i, kind, i);
      assert !InoOk(Make(s, d, k, name, i, kind), i);
    }
  }

  /** create of a directory: its `..` is one more link of its parent. */
  function MakeDir(s: Tree, d: int, k: int, name: string, i: int): Tree
    requires 0 <= d < |s.ino| && 0 <= k <= |s.ino[d].ents| && 0 <= i < |s.ino| == |s.up| == |s.pos|
  {
    var ino := s.ino[i := Inode(Dir, 1, [Ent(i, "."), Ent(d, "..")])];
    Tree(ino[d := AddLinks(SetEnts(s.ino[d], PutEnt(s.ino[d].ents, k, Ent(i, name))), 1)],
      s.pending, s.up[i := d], s.pos[i := k])
  }

  lemma MakeDirRefs(s: Tree, d: int, k: int, name: string, i: int, x: int)
    requires Sizes(s) && 1 <= x && Linked(s, d) && Room(s.ino[d], k, name) && Fresh(s, i)
    ensures Refs(MakeDir(s, d, k, name, i).ino, x) == Refs(s.ino, x) + (if x == i then 1 else 0)
      + (if x == d then 1 else 0)
  {
    var ents := PutEnt(s.ino[d].ents, k, Ent(i, name));
    var ip, dp := Inode(Dir, 1, [Ent(i, "."), Ent(d, "..")]), AddLinks(SetEnts(s.ino[d], ents), 1);
    RefsUpdate(s.ino, i, ip, x);
    RefsUpdate(s.ino[i := ip], d, dp, x);
    PutEntCnt(s.ino[d].ents, k, Ent(i, name), x);
    CntNone(ip.ents, x, 1);
  }

  lemma MakeDirCounts(s: Tree, d: int, k: int, name: string, i: int, x: int)
    requires Sizes(s) && Linked(s, d) && Room(s.ino[d], k, name) && Fresh(s, i) && InoOk(s, x) && InoOk(s, i)
    ensures InoOk(MakeDir(s, d, k, name, i), x)
  {
    if x >= 1 {
      MakeDirRefs(s, d, k, name, i, x);
    }
  }

  lemma MakeDirUp(s: Tree, d: int, k: int, name: string, i: int, x: int)
    requires Sizes(s) && Linked(s, d) && Room(s.ino[d], k, name) && Fresh(s, i) && DirOk(s, x) && i != ROOT
    ensures DirOk(MakeDir(s, d, k, name, i), x)
  {}

  lemma MakeDirKeeps(s: Tree, d: int, k: int, name: string, i: int)
    requires Inv(s) && Linked(s, d) && Room(s.ino[d], k, name) && Fresh(s, i)
    ensures Inv(MakeDir(s, d, k, name, i)) && Linked(MakeDir(s, d, k, name, i), i)
  {
    var t := MakeDir(s, d, k, name, i);
    FreshHasNoLinks(s, i);
    assert DirOk(s, d) && InoOk(s, d) && InoOk(s, i);
    forall x ensures InoOk(t, x) {
      assert InoOk(s, x);
      MakeDirCounts(s, d, k, name, i, x);
    }
    forall x ensures DirOk(t, x) {
      assert DirOk(s, x);
      MakeDirUp(s, d, k, name, i, x);
    }
    forall x ensures GoneOk(t, x) { assert GoneOk(s, x); }
    forall x, l ensures SlotOk(t, x, l) { assert SlotOk(s, x, l); }
    forall x, l, m ensures NamesOk(t, x, l, m) { assert NamesOk(s, x, l, m); }
  }

  /** A directory made in one that has been unlinked gives that one a link again, though no
      entry leads to it. */
  lemma MakeDirKeepsIff(s: Tree, d: int, k: int, name: string, i: int)
    requires Inv(s) && 1 <= d < |s.ino| && s.ino[d].kind == Dir && Fresh(s, i)
    requires if Linked(s, d) then Room(s.ino[d], k, name) else 0 <= k <= |s.ino[d].ents|
    ensures Inv(MakeDir(s, d, k, name, i)) <==> Linked(s, d)
  {
    if Linked(s, d) {
      MakeDirKeeps(s, d, k, name, i);
    } else {
      var t := MakeDir(s, d, k, name, i);
      assert InoOk(s, d);
      if Inv(t) {
        assert InoOk(t, d) && DirOk(t, d);
        NamedTwice(t.ino, i, t.up[d], t.pos[d], d);
      }
    }
  }

  /** An inode without links is given some other content: create gives up on it, or iput frees it. */
  lemma UnlinkedKeeps(s: Tree, i: int, kind: Kind, ents: seq<Ent>)
    requires Inv(s) && 1 <= i < |s.ino| && s.ino[i].nlink == 0 && s.pending[i] == 0
    requires kind == Dir ==> (s.ino[i].kind == Dir || s.ino[i].kind == Free) && OnlyDots(ents, |s.ino|)
    ensures Inv(Tree(s.ino[i := Inode(kind, 0, ents)], s.pending, s.up, s.pos))
  {
    var t := Tree(s.ino[i := Inode(kind, 0, ents)], s.pending, s.up, s.pos);
    forall x ensures InoOk(t, x) {
      assert InoOk(s, x);
      RefsUpdate(s.ino, i, Inode(kind, 0, ents), x);
    }
    forall d ensures DirOk(t, d) { assert DirOk(s, d); }
    forall d ensures GoneOk(t, d) { assert GoneOk(s, d); }
    forall d, k ensures SlotOk(t, d, k) {
      assert SlotOk(s, d, k);
      if Linked(s, d) && 1 <= k < |s.ino[d].ents| && s.ino[d].ents[k].inum != 0 {
        NamedIsLinked(s, d, k);
      }
    }
    forall d, k, l ensures NamesOk(t, d, k, l) { assert NamesOk(s, d, k, l); }
  }
}
