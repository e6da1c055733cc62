/** sys_link, sys_unlink and create, on inodes that path lookup has found (sysfile.c), and the
    directory functions under them (fs.c). Each method is one stretch with its inodes locked. */
module LinksCode {
  import opened Links

  predicate Named(ents: seq<Ent>, k: int, name: string) {
    0 <= k < |ents| && ents[k].inum != 0 && ents[k].name == Trunc(name)
  }

  /** The entry that a lookup finds. */
  predicate FirstNamed(ents: seq<Ent>, k: int, name: string) {
    Named(ents, k, name) && forall l | 0 <= l < k :: !Named(ents, l, name)
  }

  /** Where dirlink puts an entry: the first empty slot, or the end. */
  predicate FirstEmpty(ents: seq<Ent>, k: int) {
    0 <= k <= |ents| && (forall l | 0 <= l < k :: ents[l].inum != 0) && (k < |ents| ==> ents[k].inum == 0)
  }

  /** Not a directory with entries. */
  predicate EmptyIfDir(ino: seq<Inode>, j: int) {
    0 <= j < |ino| && (ino[j].kind == Dir ==> EmptyDir(ino[j]))
  }

  /** dirlookup: the first entry of this name, -1 if there is none. */
  method Dirlookup(ents: seq<Ent>, name: string) returns (k: int)
    ensures if k == -1 then forall l :: !Named(ents, l, name) else Named(ents, k, name)
    ensures forall l | 0 <= l < k :: !Named(ents, l, name)
  {
    k := 0;
    while k < |ents|
      invariant 0 <= k <= |ents|
      invariant forall l | 0 <= l < k :: !Named(ents, l, name)
    {
      if ents[k].inum != 0 && Trunc(name) == ents[k].name {
        return;
      }
      k := k + 1;
    }
    k := -1;
  }

  /** dirlink: the entry goes into the first empty slot or at the end, unless the name is
      there already or the block cannot be written. */
  method Dirlink(ents: seq<Ent>, name: string, inum: int, writable: bool) returns (ok: bool, ents': seq<Ent>, k: int)
    ensures ok <==> writable && forall l :: !Named(ents, l, name)
    ensures 0 <= k <= |ents| && (ok ==> FirstEmpty(ents, k))
    ensures ents' == if ok then PutEnt(ents, k, Ent(inum, Trunc(name))) else ents
  {
    ents', k := ents, 0;
    var found := Dirlookup(ents, name);
    if found != -1 {
      return false, ents, 0;
    }
    while k < |ents|
      invariant 0 <= k <= |ents|
      invariant forall l | 0 <= l < k :: ents[l].inum != 0
    {
      if ents[k].inum == 0 {
        break;
      }
      k := k + 1;
    }
    if !writable {
      return false, ents, k;
    }
    return true, PutEnt(ents, k, Ent(inum, Trunc(name))), k;
  }

  /** isdirempty */
  method Isdirempty(x: Inode) returns (b: bool)
    ensures b == EmptyDir(x)
  {
    var k := 2;
    while k < |x.ents|
      invariant 2 <= k
      invariant forall l | 2 <= l < k && l < |x.ents| :: x.ents[l].inum == 0
    {
      if x.ents[k].inum != 0 {
        return false;
      }
      k := k + 1;
    }
    return true;
  }

  lemma FirstTree(s: Tree)
    requires Sizes(s) && s.ino[ROOT] == Inode(Dir, 1, [Ent(ROOT, "."), Ent(ROOT, "..")])
    requires s.up[ROOT] == ROOT && s.pos[ROOT] == 1
    requires forall i | 0 <= i < |s.ino| && i != ROOT :: s.ino[i] == Inode(Free, 0, [])
    requires forall i | 0 <= i < |s.ino| :: s.pending[i] == 0
    ensures Inv(s)
  {
    forall i ensures InoOk(s, i) {
      RefsNone(s.ino, i, ROOT);
      CntNone(s.ino[ROOT].ents, i, 1);
    }
  }

  /** Where dirlink puts an entry in a linked directory, there is room for it. */
  lemma RoomAt(s: Tree, d: int, k: int, name: string)
    requires Inv(s) && Linked(s, d) && 0 <= k <= |s.ino[d].ents| && (k < |s.ino[d].ents| ==> s.ino[d].ents[k].inum == 0)
    requires forall l :: !Named(s.ino[d].ents, l, name)
    ensures Room(s.ino[d], k, Trunc(name))
  {
    assert DirOk(s, d) && DirOk(s, s.up[d]);
    forall l | 0 <= l < |s.ino[d].ents| && s.ino[d].ents[l].inum != 0 ensures s.ino[d].ents[l].name != Trunc(name) {
      assert !Named(s.ino[d].ents, l, name);
    }
  }

  lemma EnterIff(s: Tree, i: int, d: int, k: int, name: string)
    requires Inv(s) && 1 <= i < |s.ino| && s.pending[i] > 0 && 1 <= d < |s.ino| && s.ino[d].kind == Dir
    requires 0 <= k <= |s.ino[d].ents| && (k < |s.ino[d].ents| ==> s.ino[d].ents[k].inum == 0)
    requires forall l :: !Named(s.ino[d].ents, l, name)
    ensures Inv(Enter(s, i, d, k, Trunc(name))) <==> Linked(s, d)
  {
    if Linked(s, d) {
      RoomAt(s, d, k, name);
    }
    EnterKeepsIff(s, i, d, k, Trunc(name));
  }

  class Files {
    var ino: seq<Inode>
    ghost var pending: seq<int>
    ghost var up: seq<int>
    ghost var pos: seq<int>

    ghost function State(): Tree
      reads this
    {
      Tree(ino, pending, up, pos)
    }

    ghost predicate Valid()
      reads this
    {
      Inv(State())
    }

    /** The root directory that mkfs makes, and n free inodes. */
    constructor (n: nat)
      ensures Valid() && |ino| == n + 2 && ino[ROOT] == Inode(Dir, 1, [Ent(ROOT, "."), Ent(ROOT, "..")])
      ensures forall i | 2 <= i < |ino| :: ino[i] == Inode(Free, 0, [])
    {
      ino := [Inode(Free, 0, []), Inode(Dir, 1, [Ent(ROOT, "."), Ent(ROOT, "..")])] + seq(n, _ => Inode(Free, 0, []));
      pending, up, pos := seq(n + 2, _ => 0), seq(n + 2, _ => ROOT), seq(n + 2, _ => 1);
      new;
      FirstTree(State());
    }

    /** sys_link up to iunlock(ip): the count goes up before there is an entry. */
    method LinkBegin(i: int) returns (ret: int)
      requires Valid() && 1 <= i < |ino| && ino[i].kind != Free
      modifies this`ino, this`pending
      ensures Valid() && ret == if ino[i].kind == Dir then -1 else 0
      ensures State() == if ret == 0 then Raise(old(State()), i, 1) else old(State())
    {
      if ino[i].kind == Dir {
        return -1;
      }
      RaiseKeeps(State(), i, 1);
      pending := pending[i := pending[i] + 1];
      ino := ino[i := AddLinks(ino[i], 1)];
      return 0;
    }

    ghost predicate IsDir(d: int)
      reads this
    {
      1 <= d < |ino| && ino[d].kind == Dir
    }

    /** The rest of sys_link, in the directory d that nameiparent has found, or -1. Nothing tests
        that d is still linked: if it is not, the new entry breaks the invariant. */
    method LinkEnd(i: int, d: int, name: string, writable: bool) returns (ret: int, ghost k: int)
      requires Valid() && 1 <= i < |ino| && pending[i] > 0 && (d == -1 || IsDir(d))
      modifies this`ino, this`pending
      ensures (ret == 0 || ret == -1) && (Valid() <==> ret == -1 || Linked(old(State()), d))
      ensures ret == 0 <==> d != -1 && writable && forall l :: !Named(old(ino)[d].ents, l, name)
      ensures if ret == 0 then FirstEmpty(old(ino)[d].ents, k) && State() == Enter(old(State()), i, d, k, Trunc(name))
              else State() == Raise(old(State()), i, -1)
    {
      k := 0;
      assert InoOk(State(), i);
      if d != -1 {
        var ok, ents, at := Dirlink(ino[d].ents, name, i, writable);
        if ok {
          EnterIff(State(), i, d, at, name);
          ino := ino[d := SetEnts(ino[d], ents)];
          pending := pending[i := pending[i] - 1];
          return 0, at;
        }
      }
      RaiseKeeps(State(), i, -1);
      ino := ino[i := AddLinks(ino[i], -1)];
      pending := pending[i := pending[i] - 1];
      return -1, 0;
    }

    /** sys_unlink in the directory d; nothing is found in one that is itself unlinked. */
    method Unlink(d: int, name: string) returns (ret: int, ghost k: int)
      requires Valid() && IsDir(d)
      modifies this`ino
      ensures Valid() && (ret == 0 || ret == -1)
      ensures ret == -1 ==> State() == old(State())
      ensures ret == 0 <==> Trunc(name) != "." && Trunc(name) != ".." && exists l ::
                FirstNamed(old(ino)[d].ents, l, name) && EmptyIfDir(old(ino), old(ino)[d].ents[l].inum)
      ensures ret == 0 ==>
                && Linked(old(State()), d) && FirstNamed(old(ino)[d].ents, k, name)
                && k >= 2 && 1 <= old(ino)[d].ents[k].inum < |ino|
                && State() == if old(ino)[old(ino)[d].ents[k].inum].kind == Dir then RemoveDir(old(State()), d, k)
                              else Remove(old(State()), d, k)
    {
      k := -1;
      if Trunc(name) == "." || Trunc(name) == ".." {
        return -1, k;
      }
      var at := Dirlookup(ino[d].ents, name);
      k := at;
      if at == -1 {
        return -1, k;
      }
      assert GoneOk(State(), d) && DirOk(State(), d);
      NamedIsLinked(State(), d, at);
      var j := ino[d].ents[at].inum;
      assert ino[j].nlink >= 1;            // otherwise: "unlink: nlink < 1"
      if ino[j].kind == Dir {
        var empty := Isdirempty(ino[j]);
        if !empty {
          return -1, k;
        }
        ParentTwice(State(), d, at);
        RemoveDirKeeps(State(), d, at);
        ino := ino[d := SetEnts(ino[d], ino[d].ents[at := NOENT])];
        ino := ino[d := AddLinks(ino[d], -1)];
        assert ino == old(ino)[d := ino[d]];
      } else {
        RemoveKeeps(State(), d, at);
        ino := ino[d := SetEnts(ino[d], ino[d].ents[at := NOENT])];
      }
      ino := ino[j := AddLinks(ino[j], -1)];
      return 0, k;
    }

    /** The last part of create: the entry in d, and the link that `..` makes. */
    method Install(ghost s: Tree, d: int, name: string, kind: Kind, i: int, writable: bool)
      returns (ok: bool, ghost k: int)
      requires Inv(s) && 1 <= d < |s.ino| && s.ino[d].kind == Dir && kind != Free && Links.Fresh(s, i) && d != i
      requires ino == s.ino[i := Inode(kind, 1, if kind == Dir then [Ent(i, "."), Ent(d, "..")] else [])]
      requires pending == s.pending && up == s.up && pos == s.pos
      requires forall l :: !Named(s.ino[d].ents, l, name)
      modifies this`ino, this`up, this`pos
      ensures ok == writable && (!ok ==> ino == old(ino) && up == old(up) && pos == old(pos))
      ensures ok ==>
                && (Valid() <==> Linked(s, d)) && FirstEmpty(s.ino[d].ents, k)
                && State() == if kind == Dir then MakeDir(s, d, k, Trunc(name), i)
                  else Make(s, d, k, Trunc(name), i, kind)
    {
      var ents, at;
      k := 0;
      ok, ents, at := Dirlink(ino[d].ents, name, i, writable);
      if ok {
        k := at;
        if Linked(s, d) {
          RoomAt(s, d, at, name);
        }
        ghost var before := ino;
        ino := ino[d := SetEnts(ino[d], ents)];
        if kind == Dir {
          MakeDirKeepsIff(s, d, at, Trunc(name), i);
          ino := ino[d := AddLinks(ino[d], 1)];
          up, pos := up[i := d], pos[i := at];
          assert ino == before[d := ino[d]];
        } else {
          MakeKeepsIff(s, d, at, Trunc(name), i, kind);
        }
      }
    }

    /** The entries `.` and `..` of a new directory. */
    method Dots(i: int, d: int, w1: bool, w2: bool) returns (ok: bool, ents: seq<Ent>)
      requires i != 0
      ensures ok == (w1 && w2) && (ok ==> ents == [Ent(i, "."), Ent(d, "..")])
      ensures ents == [] || ents == [Ent(i, ".")] || ents == [Ent(i, "."), Ent(d, "..")]
    {
      var k;
      ok, ents, k := Dirlink([], ".", i, w1);
      if ok {
        assert ents == [Ent(i, ".")];
        assert forall l :: !Named(ents, l, "..");
        ok, ents, k := Dirlink(ents, "..", d, w2);
      }
    }

    /** create in the directory d; i is what ialloc finds, 0 if no inode is free; writable says
        of each of the up to three entries whether its block can be written. As in sys_link,
        nothing tests that d is still linked. */
    method Create(d: int, name: string, kind: Kind, i: int, writable: (bool, bool, bool)) returns (r: int, ghost k: int)
      requires Valid() && IsDir(d) && kind != Free && (i == 0 || Links.Fresh(State(), i))
      modifies this`ino, this`up, this`pos
      ensures 0 <= r < |ino|
      ensures Valid() <==> r == 0 || i == 0 || Linked(old(State()), d) || exists l :: Named(old(ino)[d].ents, l, name)
      ensures (exists l :: Named(old(ino)[d].ents, l, name)) || i == 0 ==> State() == old(State())
      ensures forall l | FirstNamed(old(ino)[d].ents, l, name) ::
                var j := old(ino)[d].ents[l].inum;
                0 < j < |ino| && r == if kind == File && (ino[j].kind == File || ino[j].kind == Dev) then j else 0
      ensures i == 0 && (forall l :: !Named(old(ino)[d].ents, l, name)) ==> r == 0
      ensures i != 0 && (forall l :: !Named(old(ino)[d].ents, l, name)) ==>
                if writable.0 && (kind == Dir ==> writable.1 && writable.2) then
                  && r == i && FirstEmpty(old(ino)[d].ents, k)
                  && State() == if kind == Dir then MakeDir(old(State()), d, k, Trunc(name), i)
                                else Make(old(State()), d, k, Trunc(name), i, kind)
                else r == 0 && ino == old(ino)[i := Inode(kind, 0, ino[i].ents)]
    {
      k := 0;
      var at := Dirlookup(ino[d].ents, name);
      if at != -1 {
        assert GoneOk(State(), d) && DirOk(State(), d) && SlotOk(State(), d, at);
        var j := ino[d].ents[at].inum;
        if kind == File && (ino[j].kind == File || ino[j].kind == Dev) {
          return j, k;
        }
        return 0, k;
      }
      if i == 0 {
        return 0, k;
      }
      ghost var s := State();
      FreshHasNoLinks(s, i);
      var ok, ents := true, [];
      if kind == Dir {
        ok, ents := Dots(i, d, writable.1, writable.2);
      }
      ino := ino[i := Inode(kind, 1, ents)];
      if ok {
        ok, k := Install(s, d, name, kind, i, writable.0);
      }
      if !ok {
        UnlinkedKeeps(s, i, kind, ents);
        ino := ino[i := Inode(kind, 0, ents)];
        assert ino == s.ino[i := Inode(kind, 0, ents)];
        return 0, k;
      }
      return i, k;
    }

    /** iput of the last reference to an inode without links. */
    method Discard(i: int)
      requires Valid() && 1 <= i < |ino| && ino[i].nlink == 0 && pending[i] == 0
      modifies this`ino
      ensures Valid() && ino == old(ino)[i := Inode(Free, 0, [])]
    {
      UnlinkedKeeps(State(), i, Free, []);
      ino := ino[i := Inode(Free, 0, [])];
    }
  }

  /** mkdir a, and rmdir a while it is somebody's working directory. */
  method RmdirWorking() returns (f: Files)
    ensures fresh(f) && f.Valid() && |f.ino| == 4 && Links.Fresh(f.State(), 3)
    ensures f.ino[2] == Inode(Dir, 0, [Ent(2, "."), Ent(ROOT, "..")])
  {
    f := new Files(2);
    var d, k := f.Create(ROOT, "a", Dir, 2, (true, true, true));
    ghost var s := f.State();
    assert Named(s.ino[ROOT].ents, k, "a");
    forall l | Named(s.ino[ROOT].ents, l, "a") ensures l == k {
      assert NamesOk(s, ROOT, l, k) && NamesOk(s, ROOT, k, l);
    }
    var u, l := f.Unlink(ROOT, "a");
  }

  /** Then open b there with O_CREATE: the new file has a link count of one and no name. */
  method CreateInUnlinked() returns (f: Files)
    ensures fresh(f) && !f.Valid() && |f.ino| == 4 && f.ino[3] == Inode(File, 1, []) && Refs(f.ino, 3) == 0
  {
    f := RmdirWorking();
    ghost var s := f.State();
    var r, k := f.Create(2, "b", File, 3, (true, true, true));
    FreshHasNoLinks(s, 3);
    MakeRefs(s, 2, k, "b", 3, File, 3);
  }
}
