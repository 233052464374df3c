/** The result codes of the file system's calls, each with exactly the images it stands for, and
    what they mean for a directory that was just made. */
module FsOutcomes {
  import opened Bytes
  import opened Bitmap
  import opened Layout
  import opened BlockTree
  import opened Growth
  import opened Contents
  import opened Directory
  import opened DirSlots
  import opened FsState
  import opened FsEffects
  import opened FsStaging
  import opened FsOps
  import opened FsDelete
  import opened FsMove
  import opened FsWrite
  import opened FsRuns

  // In a healthy directory a lookup and the map agree, whichever lookup it is.
  lemma LookupIsMap(d: Image, p: int, name: seq<byte>)
    requires Healthy(d) && IsDir(d, p)
    ensures var es := DirEntries(d, p); var k := Find(es, name);
      && FindUsed(es, name) == k && (name in DirMap(d, p) <==> k < |es|)
      && (k < |es| ==> DirMap(d, p)[name] == es[k] && es[k].name == name)
  {
    hide NodeAt, DirEntries, Kempt, EntryKind, Bindings, Find;
    assert DirOK(d, p);
    BoundNames(DirEntries(d, p), name);
    FindAlike(DirEntries(d, p), name);
  }

  // What a proper name in a healthy directory is bound to is live.
  lemma BoundLive(d: Image, p: int, name: seq<byte>)
    requires Healthy(d) && IsDir(d, p) && name in DirMap(d, p) && !Dot(DirMap(d, p)[name])
    ensures InodeUsed(d, DirMap(d, p)[name].inode)
  {
    hide NodeAt, DirEntries, Sound, Apart, NamedOnce, EntryKind, Find, DirMap, IsDot;
    LookupIsMap(d, p, name);
    var es := DirEntries(d, p);
    assert DirOK(d, p) && DirTiled(d, p);
    assert EntryLive(d, p, es[Find(es, name)]);
  }

  lemma FullOfInodes(d: Image)
    ensures NoFreeInode(d) <==> |LiveInodes(d)| == 32
    ensures |LiveInodes(d)| <= 32
  {
    LiveRange(d, 33);
  }

  lemma LiveRange(d: Image, n: nat)
    requires n == INODES_PER_GROUP + 1
    ensures |LiveInodes(d)| <= n - 1
    ensures |LiveInodes(d)| == n - 1 <==> forall k :: 1 <= k < n ==> InodeUsed(d, k)
  {
    var all := Below(n) - {0};
    assert |all| == n - 1;
    assert LiveInodes(d) <= all;
    SubsetSize(LiveInodes(d), all);
    if forall k :: 1 <= k < n ==> InodeUsed(d, k) {
      assert LiveInodes(d) == all;
    } else {
      var k :| 1 <= k < n && !InodeUsed(d, k);
      SubsetSize(LiveInodes(d), all - {k});
    }
  }

  /** The room in a directory, in bytes, for the system calls and for write. */
  lemma RoomInBytes(d: Image, p: int, len: nat, name: Name)
    requires Healthy(d) && IsDir(d, p)
    ensures var b, es := d[DirBlock(d, p)], DirEntries(d, p);
      && Chain(b, 0) && es != []
      && (DirHasRoom(d, p, len) <==> Last(b, 0) + 9 + |es[|es| - 1].name| + 9 + len <= 512)
      && (Fits(d, p, name) <==> Last(b, 0) + (|Cut(name)| + 12) / 4 * 4 <= 512)
  {
    hide NodeAt, Chain, Entries, Last, Kempt, DirEntries, HasRoom, Overwritable;
    DirBlockOwn(d, p);
    RoomExact(d[DirBlock(d, p)], len);
    OverwritableExact(d[DirBlock(d, p)], |Cut(name)|);
  }

  // A name that can be entered into directory p.
  ghost predicate Enterable(d: Image, p: int, name: seq<byte>)
    requires 1 <= p <= INODES_PER_GROUP
  {
    IsDir(d, p) && name != [] && name !in DirMap(d, p)
  }

  /** create_directory, exactly. */
  lemma CreateExact(d: Image, p: int, name: Name)
    requires Healthy(d) && InodeUsed(d, p)
    ensures var rc, live, used := CreateOutcome(d, p, name), |LiveInodes(d)|, |Used(d)|;
      var room, can := DirHasRoom(d, p, |name|), Enterable(d, p, name);
      && (rc == 0 <==> can && live < 32 && used < 4096 && room)
      && (rc == -1 <==> name == [])
      && (rc == -2 <==> name != [] && !IsDir(d, p))
      && (rc == -3 <==> name != [] && IsDir(d, p) && name in DirMap(d, p))
      && (rc == -4 <==> can && live == 32)
      && (rc == -5 <==> can && live < 32 && used == 4096)
      && (rc == -6 <==> can && live < 32 && used < 4096 && !room)
  {
    hide NodeAt, DirEntries, Healthy, DirMap, Find, NoFreeInode, LiveInodes, DirHasRoom, Used;
    FullOfInodes(d);
    UsedAtMost(d);
    if IsDir(d, p) {
      LookupIsMap(d, p, name);
    }
  }

  lemma UsedAtMost(d: Image)
    ensures |Used(d)| <= 4096
  {
    MarkedSize(d[BLOCK_BITMAP]);
  }

  // A file that copy_file can find: bound, and not marked as a directory.
  ghost predicate FileBound(d: Image, p: int, name: seq<byte>)
    requires 1 <= p <= INODES_PER_GROUP
  {
    IsDir(d, p) && name in DirMap(d, p) && DirMap(d, p)[name].ftype != FT_DIR
  }

  // Whether the inode that is bound to the name is a directory itself.
  ghost predicate LeadsToDir(d: Image, p: int, name: seq<byte>)
    requires 1 <= p <= INODES_PER_GROUP && name in DirMap(d, p)
  {
    IsDir(d, DirMap(d, p)[name].inode)
  }

  // What the copy of the file that is bound to the name costs.
  ghost function CostBound(d: Image, p: int, name: seq<byte>): nat
    requires 1 <= p <= INODES_PER_GROUP && name in DirMap(d, p)
  {
    var x := DirMap(d, p)[name].inode;
    if 1 <= x <= INODES_PER_GROUP then CopyCost(NodeAt(d, x)) else 0
  }

  /** copy_file, exactly. */
  lemma CopyExact(d: Image, p: int, src: Name, dst: Name)
    requires Healthy(d) && InodeUsed(d, p)
    ensures var rc, live := CopyOutcome(d, p, src, dst), |LiveInodes(d)|;
      var named, file := src != [] && dst != [], FileBound(d, p, src);
      var can := named && file && dst !in DirMap(d, p) && !LeadsToDir(d, p, src);
      var fits := can && live < 32 && |Used(d)| + CostBound(d, p, src) <= 4096;
      && (rc == 0 <==> fits && DirHasRoom(d, p, |dst|))
      && (rc == -1 <==> !named || !IsDir(d, p) || src !in DirMap(d, p))
      && (rc == -2 <==> named && file && dst in DirMap(d, p))
      && (rc == -3 <==> named && IsDir(d, p) && src in DirMap(d, p)
                        && (!file || (dst !in DirMap(d, p) && LeadsToDir(d, p, src))))
      && (rc == -4 <==> can && live == 32)
      && (rc == -5 <==> can && live < 32 && |Used(d)| + CostBound(d, p, src) > 4096)
      && (rc == -8 <==> fits && !DirHasRoom(d, p, |dst|))
  {
    hide NodeAt, DirEntries, Healthy, DirMap, Find, NoFreeInode, LiveInodes, DirHasRoom, Used, CopyCost, IsDot;
    FullOfInodes(d);
    if IsDir(d, p) {
      LookupIsMap(d, p, src);
      LookupIsMap(d, p, dst);
      if FileBound(d, p, src) {
        BoundLive(d, p, src);
      }
    }
  }

  /** delete_file, exactly. */
  lemma DeleteFileExact(d: Image, p: int, name: Name)
    requires Healthy(d) && InodeUsed(d, p)
    ensures var rc := DeleteFileOutcome(d, p, name);
      && (rc == 0 <==> name != [] && FileBound(d, p, name))
      && (rc == -1 <==> name == [])
      && (rc == -2 <==> name != [] && !IsDir(d, p))
      && (rc == -3 <==> name != [] && IsDir(d, p) && name !in DirMap(d, p))
      && (rc == -6 <==> name != [] && IsDir(d, p) && name in DirMap(d, p) && DirMap(d, p)[name].ftype == FT_DIR)
  {
    hide NodeAt, DirEntries, Healthy, DirMap, Find;
    if IsDir(d, p) {
      LookupIsMap(d, p, name);
    }
  }

  // An entry for a directory, under a proper name.
  ghost predicate DirectoryBound(d: Image, p: int, name: seq<byte>)
    requires 1 <= p <= INODES_PER_GROUP
  {
    IsDir(d, p) && name in DirMap(d, p) && DirMap(d, p)[name].ftype == FT_DIR && !IsDot(name)
  }

  // The names in the directory that the name is bound to, none when its record was lost.
  ghost function NamesBelow(d: Image, p: int, name: seq<byte>): set<seq<byte>>
    requires 1 <= p <= INODES_PER_GROUP && name in DirMap(d, p)
  {
    var t := DirMap(d, p)[name].inode;
    if IsDir(d, t) then DirMap(d, t).Keys else {}
  }

  /** delete_directory, exactly, for names other than "." and "..": it succeeds if and only if the
      directory lists no other names than these two. */
  lemma DeleteDirectoryExact(d: Image, p: int, name: Name)
    requires Healthy(d) && InodeUsed(d, p) && !IsDot(name)
    ensures var rc, bound := DeleteDirectoryOutcome(d, p, name), DirectoryBound(d, p, name);
      && (rc == 0 <==> name != [] && bound && NamesBelow(d, p, name) <= {DOT, DOTDOT})
      && (rc == -1 <==> name == [])
      && (rc == -2 <==> name != [] && !IsDir(d, p))
      && (rc == -3 <==> name != [] && IsDir(d, p) && name !in DirMap(d, p))
      && (rc == -6 <==> name != [] && IsDir(d, p) && name in DirMap(d, p) && !bound)
      && (rc == -7 <==> name != [] && bound && !(NamesBelow(d, p, name) <= {DOT, DOTDOT}))
  {
    hide NodeAt, DirEntries, Healthy, DirMap, Find, IsDot, EmptyDirectory;
    if IsDir(d, p) {
      LookupIsMap(d, p, name);
      if DirectoryBound(d, p, name) {
        BoundLive(d, p, name);
        EmptyMeans(d, p, name);
      }
    }
  }

  lemma EmptyMeans(d: Image, p: int, name: seq<byte>)
    requires Healthy(d) && 1 <= p <= INODES_PER_GROUP && DirectoryBound(d, p, name)
    requires InodeUsed(d, DirMap(d, p)[name].inode)
    ensures EmptyDirectory(d, DirMap(d, p)[name].inode) <==> NamesBelow(d, p, name) <= {DOT, DOTDOT}
  {
    hide NodeAt, DirEntries, Sound, Apart, NamedOnce, Find, DirMap, EntryLive, UniqueNames;
    LookupIsMap(d, p, name);
    var t := DirMap(d, p)[name].inode;
    if IsDir(d, t) {
      assert DirTiled(d, t) && DirOK(d, t);
      KeysOf(d, t);
    } else {
      assert DirOK(d, p) && EntryKind(d, DirEntries(d, p)[Find(DirEntries(d, p), name)]);
    }
  }

  lemma KeysOf(d: Image, t: int)
    requires 1 <= t <= INODES_PER_GROUP && UniqueNames(DirEntries(d, t))
    ensures AllDots(DirEntries(d, t)) <==> DirMap(d, t).Keys <= {DOT, DOTDOT}
  {
    hide NodeAt, DirEntries, Bindings, Find, UniqueNames;
    var es := DirEntries(d, t);
    forall k | 0 <= k < |es| ensures es[k].name in DirMap(d, t) {
      FindUnique(es, k);
      BoundNames(es, es[k].name);
    }
    forall x | x in DirMap(d, t) ensures exists k :: 0 <= k < |es| && es[k].name == x {
      BoundNames(es, x);
      assert es[Find(es, x)].name == x;
    }
  }

  /** write, exactly; the limit is that of twelve direct, 128 indirect and 128 * 128 double indirect
      blocks. */
  lemma WriteExact(d: Image, p: int, name: Name, size: nat)
    requires Healthy(d) && InodeUsed(d, p)
    ensures var rc, live, s := WriteOutcome(d, p, name, size), |LiveInodes(d)|, Cut(name);
      var good := s != [] && size <= (12 + 128 + 128 * 128) * 512;
      && (rc == 0 <==> good && Enterable(d, p, s) && live < 32)
      && (rc == -1 <==> !good || (Enterable(d, p, s) && live == 32))
      && (rc == 1 <==> good && IsDir(d, p) && s in DirMap(d, p))
      && (rc == 2 <==> good && !IsDir(d, p))
  {
    hide NodeAt, DirEntries, Healthy, DirMap, Find, FindUsed, NoFreeInode, LiveInodes;
    FullOfInodes(d);
    if IsDir(d, p) {
      LookupIsMap(d, p, Cut(name));
    }
  }

  /** read, exactly, for names that lead to a live inode: 3 for no directory or no such name, 1 for a
      directory, 2 for a buffer that is too small. */
  lemma ReadExact(d: Image, p: int, name: Name, size: nat)
    requires Healthy(d) && InodeUsed(d, p) && NamesLive(d, p, name)
    ensures var rc, s := ReadOutcome(d, p, name, size), Cut(name);
      var bound := s != [] && size > 0 && IsDir(d, p) && s in DirMap(d, p);
      && (rc == -1 <==> s == [] || size == 0)
      && (rc == 3 <==> s != [] && size > 0 && !(IsDir(d, p) && s in DirMap(d, p)))
      && (rc == 1 <==> bound && LeadsToDir(d, p, s))
      && (rc == 2 <==> bound && !LeadsToDir(d, p, s) && SizeBound(d, p, s) > size)
      && (rc == 0 <==> bound && !LeadsToDir(d, p, s) && SizeBound(d, p, s) <= size)
  {
    hide NodeAt, DirEntries, Healthy, DirMap, Find, FindUsed;
    if IsDir(d, p) {
      LookupIsMap(d, p, Cut(name));
      if Cut(name) in DirMap(d, p) {
        UsedHas(d, p, Cut(name));
      }
    }
  }

  lemma UsedHas(d: Image, p: int, name: seq<byte>)
    requires Healthy(d) && IsDir(d, p) && name in DirMap(d, p)
    ensures DirMap(d, p)[name].inode != 0
  {
    hide NodeAt, DirEntries, Kempt, DirMap, Find, EntryKind, UniqueNames;
    LookupIsMap(d, p, name);
    assert DirOK(d, p);
  }

  // The size of the file that the name is bound to.
  ghost function SizeBound(d: Image, p: int, name: seq<byte>): nat
    requires 1 <= p <= INODES_PER_GROUP && name in DirMap(d, p)
  {
    var x := DirMap(d, p)[name].inode;
    if 1 <= x <= INODES_PER_GROUP then NodeAt(d, x).size else 0
  }

  /** delete, exactly; a directory that is to be deleted as such must list nothing but ".". */
  lemma DeleteExact(d: Image, p: int, name: Name, isDir: bool, past: Past)
    requires Healthy(d) && InodeUsed(d, p)
    ensures var rc, s := DeleteOutcome(d, p, name, isDir, past), Cut(name);
      && (rc == 3 <==> !IsDir(d, p))
      && (rc == 1 <==> IsDir(d, p) && s !in DirMap(d, p))
      && (IsDir(d, p) && s in DirMap(d, p) && !isDir ==> rc == 0)
      && (IsDir(d, p) && s in DirMap(d, p) && isDir && LeadsToDir(d, p, s) ==>
            rc == if DirMap(d, DirMap(d, p)[s].inode).Keys == {DOT} then 0 else 2)
  {
    hide NodeAt, DirEntries, Healthy, DirMap, Find, FindUsed, TargetEmpty;
    if IsDir(d, p) {
      LookupIsMap(d, p, Cut(name));
      if Cut(name) in DirMap(d, p) && LeadsToDir(d, p, Cut(name)) {
        var t := DirMap(d, p)[Cut(name)].inode;
        EmptyMeansAlone(d, t, past);
        OnlyDot(d, t);
      }
    }
  }

  lemma OnlyDot(d: Image, t: int)
    requires Healthy(d) && IsDir(d, t)
    ensures |DirEntries(d, t)| == 1 <==> DirMap(d, t).Keys == {DOT}
  {
    hide NodeAt, DirEntries, Kempt, EntryKind, Find, UniqueNames, Bindings;
    assert DirOK(d, t);
    var es := DirEntries(d, t);
    BoundNames(es, DOT);
    FindUnique(es, 0);
    if |es| > 1 {
      FindUnique(es, 1);
      BoundNames(es, es[1].name);
      assert es[1].name in DirMap(d, t);
    } else {
      forall x | x in DirMap(d, t) ensures x == DOT {
        BoundNames(es, x);
      }
    }
  }
}
