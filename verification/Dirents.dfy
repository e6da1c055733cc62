/** Directory entries as the bytes of the directory's file (struct dirent in fs.h). */
module Dirents {
  import opened Links
  import FsBlocks
  import FsState
  import FsCode

  type Byte = FsBlocks.Byte

  const SIZE := 2 + DIRSIZ     // sizeof(struct dirent)

  /** What a dirent can hold: a 16-bit inode number and a C string of at most DIRSIZ bytes. */
  predicate Fits(e: Ent) {
    0 <= e.inum < 0x1_0000 && |e.name| <= DIRSIZ && forall k | 0 <= k < |e.name| :: 0 < e.name[k] as int < 0x100
  }

  predicate AllFit(ents: seq<Ent>) {
    forall k | 0 <= k < |ents| :: Fits(ents[k])
  }

  /** strncpy pads the name with NULs, and ends it with one only if there is room. */
  function NameBytes(s: string): (b: seq<Byte>)
    requires |s| <= DIRSIZ && forall k | 0 <= k < |s| :: 0 < s[k] as int < 0x100
    ensures |b| == DIRSIZ
  {
    seq(DIRSIZ, k requires 0 <= k < DIRSIZ => if k < |s| then s[k] as int else 0)
  }

  function EntBytes(e: Ent): (b: seq<Byte>)
    requires Fits(e)
    ensures |b| == SIZE
  {
    [e.inum % 0x100, e.inum / 0x100] + NameBytes(e.name)
  }

  /** The C string at the start of the bytes, or all of them if there is no NUL. */
  function NameOf(b: seq<Byte>): string {
    if b == [] || b[0] == 0 then "" else [b[0] as char] + NameOf(b[1..])
  }

  function EntOf(b: seq<Byte>): Ent
    requires |b| == SIZE
  {
    var lo: int, hi: int := b[0], b[1];
    Ent(lo + 0x100 * hi, NameOf(b[2..]))
  }

  lemma {:induction false} NameAt(b: seq<Byte>, s: string, j: nat)
    requires j <= |s| <= |b| && forall k | j <= k < |s| :: s[k] as int == b[k] && b[k] != 0
    requires |s| < |b| ==> b[|s|] == 0
    ensures NameOf(b[j..]) == s[j..]
    decreases |s| - j
  {
    if j < |s| {
      NameAt(b, s, j + 1);
      assert b[j..][1..] == b[j + 1..] && s[j..] == [s[j]] + s[j + 1..];
      assert b[j] as char == s[j];
    }
  }

  /** An entry that was written is the one that is read. */
  lemma EntRoundTrip(e: Ent)
    requires Fits(e)
    ensures EntOf(EntBytes(e)) == e
  {
    NameAt(NameBytes(e.name), e.name, 0);
    assert EntBytes(e)[2..] == NameBytes(e.name) == NameBytes(e.name)[0..] && e.name[0..] == e.name;
  }

  /** The file of a directory. */
  function DirBytes(ents: seq<Ent>): (b: seq<Byte>)
    requires AllFit(ents)
    ensures |b| == SIZE * |ents|
  {
    if ents == [] then [] else DirBytes(ents[..|ents| - 1]) + EntBytes(ents[|ents| - 1])
  }

  /** What readi finds at off: the entry with that number. */
  lemma {:induction false} ReadEnt(ents: seq<Ent>, k: nat)
    requires AllFit(ents) && k < |ents|
    ensures EntOf(DirBytes(ents)[SIZE * k..SIZE * k + SIZE]) == ents[k]
  {
    var n := |ents| - 1;
    if k == n {
      assert DirBytes(ents)[SIZE * n..SIZE * n + SIZE] == EntBytes(ents[n]);
      EntRoundTrip(ents[n]);
    } else {
      ReadEnt(ents[..n], k);
      assert DirBytes(ents)[SIZE * k..SIZE * k + SIZE] == DirBytes(ents[..n])[SIZE * k..SIZE * k + SIZE];
    }
  }

  lemma OverlayLeft(a: seq<Byte>, b: seq<Byte>, off: int, t: seq<Byte>)
    requires 0 <= off && off + |t| <= |a|
    ensures FsCode.Overlay(a + b, off, t) == FsCode.Overlay(a, off, t) + b
  {}

  lemma OverlayRight(a: seq<Byte>, b: seq<Byte>, t: seq<Byte>)
    requires |b| <= |t|
    ensures FsCode.Overlay(a + b, |a|, t) == a + t
  {}

  lemma DirStep(ents: seq<Ent>, e: Ent, all: seq<Ent>)
    requires AllFit(ents) && Fits(e) && all == ents + [e]
    ensures AllFit(all) && DirBytes(all) == DirBytes(ents) + EntBytes(e)
  {
    assert all[..|ents|] == ents;
  }

  lemma WriteLast(init: seq<Ent>, last: seq<Ent>, e: Ent, ents: seq<Ent>, all: seq<Ent>)
    requires AllFit(init) && AllFit(last) && |last| <= 1 && Fits(e) && ents == init + last && all == init + [e]
    ensures AllFit(ents) && AllFit(all)
    ensures FsCode.Overlay(DirBytes(ents), SIZE * |init|, EntBytes(e)) == DirBytes(all)
  {
    DirStep(init, e, all);
    if last == [] {
      assert ents == init && DirBytes(ents) == DirBytes(init) + [];
      OverlayRight(DirBytes(init), [], EntBytes(e));
    } else {
      DirStep(init, last[0], ents);
      OverlayRight(DirBytes(init), EntBytes(last[0]), EntBytes(e));
    }
  }

  lemma WriteInner(init: seq<Ent>, last: Ent, k: nat, e: Ent, ents: seq<Ent>, all: seq<Ent>)
    requires AllFit(init) && k < |init| && Fits(e) && Fits(last)
    requires ents == init + [last] && all == init[k := e] + [last]
    requires FsCode.Overlay(DirBytes(init), SIZE * k, EntBytes(e)) == DirBytes(init[k := e])
    ensures AllFit(ents) && AllFit(all)
    ensures FsCode.Overlay(DirBytes(ents), SIZE * k, EntBytes(e)) == DirBytes(all)
  {
    DirStep(init, last, ents);
    DirStep(init[k := e], last, all);
    OverlayLeft(DirBytes(init), EntBytes(last), SIZE * k, EntBytes(e));
  }

  /** The bytes of one entry, written at its place, give the directory with that entry. */
  lemma {:induction false} WriteEnt(ents: seq<Ent>, k: nat, e: Ent)
    requires AllFit(ents) && k <= |ents| && Fits(e)
    ensures AllFit(PutEnt(ents, k, e))
    ensures FsCode.Overlay(DirBytes(ents), SIZE * k, EntBytes(e)) == DirBytes(PutEnt(ents, k, e))
  {
    if k + 1 < |ents| {
      var n := |ents| - 1;
      WriteEnt(ents[..n], k, e);
      WriteInner(ents[..n], ents[n], k, e, ents, ents[k := e]);
    } else {
      assert PutEnt(ents, k, e) == ents[..k] + [e];
      WriteLast(ents[..k], ents[k..], e, ents, ents[..k] + [e]);
    }
  }

  /** The writei of dirlink, and that of sys_unlink, is the change of the k-th entry or one more
      entry, and no other file or directory changes. */
  lemma DirectoryWritten(f: FsState.Fs, g: FsState.Fs, d: int, ents: seq<Ent>, k: nat, e: Ent)
    requires AllFit(ents) && k <= |ents| && Fits(e)
    requires FsCode.WroteFile(f, g, d, SIZE * k, EntBytes(e)) && FsState.Contents(f, d) == DirBytes(ents)
    ensures AllFit(PutEnt(ents, k, e)) && FsState.Contents(g, d) == DirBytes(PutEnt(ents, k, e))
    ensures forall x | 0 <= x < |f.ino| && x != d :: FsState.Contents(g, x) == FsState.Contents(f, x)
  {
    WriteEnt(ents, k, e);
    forall x | 0 <= x < |f.ino|
      ensures FsState.Contents(g, x) ==
              if x == d then FsCode.Overlay(FsState.Contents(f, d), SIZE * k, EntBytes(e)) else FsState.Contents(f, x)
    {
      FsCode.WroteFileContents(f, g, d, SIZE * k, EntBytes(e), x);
    }
  }
}
