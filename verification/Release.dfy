/** Which blocks a teardown frees, in which order. */
module Release {
  import opened Bytes
  import opened Bitmap
  import opened Layout
  import opened BlockTree
  import opened Growth
  import opened Contents

  // The blocks freed for the first k entries of a table, and for a whole table: its
  // entries first, then the table itself. At level 1 the entries are data blocks.
  function Entries(d: Image, t: Table, k: nat, level: nat): seq<u32>
    requires k <= 128
    decreases level, 1, k
  {
    if k == 0 then []
    else Entries(d, t, k - 1, level) + Entry(d, t[k - 1], level)
  }

  function Entry(d: Image, p: u32, level: nat): seq<u32>
    decreases level, 0
  {
    if p == 0 then [] else if level > 1 then Under(d, p, level - 1) else [p]
  }

  function Under(d: Image, b: u32, level: nat): seq<u32>
    decreases level, 2
  {
    if b == 0 then [] else Entries(d, TableAt(d, b), 128, level) + [b]
  }

  function Directs(n: Inode, k: nat): seq<u32>
    requires k <= 12
  {
    if k == 0 then [] else Directs(n, k - 1) + if n.block[k - 1] == 0 then [] else [n.block[k - 1]]
  }

  // What hangs under an inode when k direct pointers are considered, in the order in
  // which it is freed, and everything that is reachable.
  function Listed(d: Image, n: Inode, k: nat): seq<u32>
    requires k <= 12
  {
    Directs(n, k) + Under(d, n.block[SINGLE], 1) + Under(d, n.block[DOUBLE], 2)
  }

  function FreeList(d: Image, n: Inode): seq<u32> {
    Listed(d, n, 12)
  }

  lemma ListedElems(d: Image, n: Inode, k: nat)
    requires k <= 12
    ensures Elems(Listed(d, n, k)) ==
            Elems(Directs(n, k)) + Elems(Under(d, n.block[SINGLE], 1)) + Elems(Under(d, n.block[DOUBLE], 2))
  {
    ElemsConcat(Directs(n, k), Under(d, n.block[SINGLE], 1));
    ElemsConcat(Directs(n, k) + Under(d, n.block[SINGLE], 1), Under(d, n.block[DOUBLE], 2));
  }

  lemma DirectsStep(n: Inode, k: nat)
    requires k < 12
    ensures Elems(Directs(n, k + 1)) == Elems(Directs(n, k)) + if n.block[k] == 0 then {} else {n.block[k]}
    ensures |Directs(n, k + 1)| == |Directs(n, k)| + if n.block[k] == 0 then 0 else 1
  {
    ElemsConcat(Directs(n, k), [n.block[k]]);
    assert Elems([n.block[k]]) == {n.block[k]};
    ElemsConcat(Directs(n, k), []);
  }

  lemma {:induction false} DirectListed(n: Inode, k: nat, i: nat)
    requires i < k <= 12 && n.block[i] != 0
    ensures n.block[i] in Directs(n, k)
  {
    if i < k - 1 {
      DirectListed(n, k - 1, i);
    }
  }

  // Empty direct pointers add nothing.
  lemma {:induction false} DirectsStop(n: Inode, m: nat, k: nat)
    requires m <= k <= 12 && forall i :: m <= i < k ==> n.block[i] == 0
    ensures Directs(n, k) == Directs(n, m)
  {
    if m < k {
      DirectsStop(n, m, k - 1);
    }
  }

  // Entry i of a table contributes to the list of the whole table.
  lemma {:induction false} EntryListed(d: Image, t: Table, k: nat, level: nat, i: nat)
    requires i < k <= 128
    ensures forall x :: x in Entry(d, t[i], level) ==> x in Entries(d, t, k, level)
  {
    if i < k - 1 {
      EntryListed(d, t, k - 1, level, i);
    }
  }

  lemma NextEntry(d: Image, t: Table, k: nat, level: nat)
    requires k < 128
    ensures Entries(d, t, k + 1, level) == Entries(d, t, k, level) + Entry(d, t[k], level)
  {
  }

  lemma EntriesStep(d: Image, t: Table, k: nat, level: nat)
    requires k < 128
    ensures Elems(Entries(d, t, k + 1, level)) == Elems(Entries(d, t, k, level)) + Elems(Entry(d, t[k], level))
  {
    ElemsConcat(Entries(d, t, k, level), Entry(d, t[k], level));
  }

  lemma NoEntries(d: Image, t: Table, level: nat)
    ensures Entries(d, t, 0, level) == [] && Elems(Entries(d, t, 0, level)) == {}
  {
  }

  lemma UnderElems(d: Image, b: u32, level: nat)
    requires b != 0
    ensures Elems(Under(d, b, level)) == Elems(Entries(d, TableAt(d, b), 128, level)) + {b}
  {
    ElemsConcat(Entries(d, TableAt(d, b), 128, level), [b]);
    assert Elems([b]) == {b};
  }

  // All blocks on the list can be freed: they lie in the only block group and are not
  // among the reserved ones.
  ghost predicate Freeable(s: seq<u32>) {
    forall x :: x in s ==> FIRST_FREE_BLOCK <= x < BLOCKS_PER_GROUP
  }

  function Elems<T(!new)>(s: seq<T>): (e: set<T>)
    ensures forall x :: x in e <==> x in s
  {
    set x | x in s
  }

  ghost predicate NoDup<T>(s: seq<T>) {
    forall i, j :: 0 <= i < j < |s| ==> s[i] != s[j]
  }

  lemma ElemsConcat<T(!new)>(a: seq<T>, b: seq<T>)
    ensures Elems(a + b) == Elems(a) + Elems(b)
  {
  }

  lemma {:induction false} NoDupSize<T(!new)>(s: seq<T>)
    requires NoDup(s)
    ensures |Elems(s)| == |s|
  {
    if s != [] {
      var r := s[..|s| - 1];
      NoDupSize(r);
      assert s == r + [s[|s| - 1]];
      ElemsConcat(r, [s[|s| - 1]]);
      assert Elems([s[|s| - 1]]) == {s[|s| - 1]};
    }
  }

  lemma NoDupConcat<T(!new)>(a: seq<T>, b: seq<T>)
    requires NoDup(a) && NoDup(b) && forall x :: x in a ==> x !in b
    ensures NoDup(a + b)
  {
    forall i, j | 0 <= i < j < |a + b| ensures (a + b)[i] != (a + b)[j] {
      if i < |a| <= j {
        assert a[i] in a && b[j - |a|] in b;
      }
    }
  }

  // The entries of one table of data pointers.
  lemma {:induction false} RowEntries(d: Image, t: Table, k: nat)
    requires k <= 128
    requires forall i, j :: 0 <= i < j < 128 && t[i] != 0 ==> t[i] != t[j]
    ensures NoDup(Entries(d, t, k, 1))
    ensures forall i :: 0 <= i < k && t[i] != 0 ==> t[i] in Entries(d, t, k, 1)
    ensures forall x :: x in Entries(d, t, k, 1) ==> x != 0 && x in t[..k]
  {
    if k > 0 {
      RowEntries(d, t, k - 1);
      assert t[..k] == t[..k - 1] + [t[k - 1]];
      if t[k - 1] != 0 {
        NoDupConcat(Entries(d, t, k - 1, 1), [t[k - 1]]);
      }
    }
  }

  lemma WholeTable(d: Image, b: u32)
    requires b != 0
    requires var t := TableAt(d, b); forall i, j :: 0 <= i < j < 128 && t[i] != 0 ==> t[i] != t[j]
    requires b !in TableAt(d, b)
    ensures NoDup(Under(d, b, 1))
    ensures forall x :: x in Under(d, b, 1) <==> x == b || (x != 0 && x in TableAt(d, b))
  {
    hide Entries, TableAt;
    var t := TableAt(d, b);
    var e := Entries(d, t, 128, 1);
    RowEntries(d, t, 128);
    assert t[..128] == t;
    NoDupConcat(e, [b]);
  }

  // The blocks hanging under the first k entries of the table of tables.
  ghost predicate Below(d: Image, n: Inode, k: nat, x: int) {
    exists s :: Valid(s) && (s.First? || s.Second?) && s.i < k && Ptr(d, n, s) == x
  }

  ghost predicate BelowOne(d: Image, n: Inode, i: nat, x: int) {
    exists s :: Valid(s) && (s.First? || s.Second?) && s.i == i && Ptr(d, n, s) == x
  }

  lemma SecondRow(d: Image, n: Inode, used: set<int>, i: nat)
    requires i < 128 && Tree(d, n, used)
    ensures forall j, k :: 0 <= j < k < 128 && TableAt(d, Ptr(d, n, First(i)))[j] != 0 ==>
              TableAt(d, Ptr(d, n, First(i)))[j] != TableAt(d, Ptr(d, n, First(i)))[k]
  {
    var t := TableAt(d, Ptr(d, n, First(i)));
    forall j, k | 0 <= j < k < 128 && t[j] != 0 ensures t[j] != t[k] {
      assert Ptr(d, n, Second(i, j)) == t[j] && Ptr(d, n, Second(i, k)) == t[k];
    }
  }

  lemma UnderInner(d: Image, n: Inode, used: set<int>, i: nat)
    requires i < 128 && Tree(d, n, used)
    ensures NoDup(Under(d, Ptr(d, n, First(i)), 1))
    ensures forall x :: x in Under(d, Ptr(d, n, First(i)), 1) <==> x != 0 && BelowOne(d, n, i, x)
  {
    var b := Ptr(d, n, First(i));
    var t := TableAt(d, b);
    forall x | x != 0 ensures BelowOne(d, n, i, x) <==> x == b || x in t {
      InnerTable(d, n, used, i, x);
    }
    if b != 0 {
      SecondRow(d, n, used, i);
      forall j | 0 <= j < 128 ensures t[j] != b {
        assert Ptr(d, n, Second(i, j)) == t[j];
      }
      WholeTable(d, b);
    }
  }

  lemma InnerTable(d: Image, n: Inode, used: set<int>, i: nat, x: int)
    requires i < 128 && Tree(d, n, used) && x != 0
    ensures BelowOne(d, n, i, x) <==> x == Ptr(d, n, First(i)) || x in TableAt(d, Ptr(d, n, First(i)))
  {
    var t := TableAt(d, Ptr(d, n, First(i)));
    if BelowOne(d, n, i, x) {
      var s :| Valid(s) && (s.First? || s.Second?) && s.i == i && Ptr(d, n, s) == x;
      assert s.Second? ==> t[s.j] == x;
    }
    if j :| 0 <= j < 128 && t[j] == x {
      assert Ptr(d, n, Second(i, j)) == x;
    }
  }

  lemma {:induction false} UnderDouble(d: Image, n: Inode, used: set<int>, k: nat)
    requires k <= 128 && Tree(d, n, used)
    ensures NoDup(Entries(d, TableAt(d, n.block[DOUBLE]), k, 2))
    ensures forall x :: x in Entries(d, TableAt(d, n.block[DOUBLE]), k, 2) <==> x != 0 && Below(d, n, k, x)
  {
    if k > 0 {
      UnderDouble(d, n, used, k - 1);
      UnderInner(d, n, used, k - 1);
      var t := TableAt(d, n.block[DOUBLE]);
      var e, u := Entries(d, t, k - 1, 2), Under(d, t[k - 1], 1);
      assert Entries(d, t, k, 2) == e + u;
      forall x | x in e ensures x !in u {
        RowsApart(d, n, used, k - 1, x);
      }
      NoDupConcat(e, u);
      forall x ensures Below(d, n, k, x) <==> Below(d, n, k - 1, x) || BelowOne(d, n, k - 1, x) {
        BelowStep(d, n, k, x);
      }
    }
  }

  lemma RowsApart(d: Image, n: Inode, used: set<int>, k: nat, x: int)
    requires Tree(d, n, used) && x != 0 && Below(d, n, k, x)
    ensures !BelowOne(d, n, k, x)
  {
    var s :| Valid(s) && (s.First? || s.Second?) && s.i < k && Ptr(d, n, s) == x;
    forall r | Valid(r) && (r.First? || r.Second?) && r.i == k ensures Ptr(d, n, r) != x {
      assert r != s;
    }
  }

  lemma BelowStep(d: Image, n: Inode, k: nat, x: int)
    requires 0 < k
    ensures Below(d, n, k, x) <==> Below(d, n, k - 1, x) || BelowOne(d, n, k - 1, x)
  {
    if Below(d, n, k - 1, x) {
      var s :| Valid(s) && (s.First? || s.Second?) && s.i < k - 1 && Ptr(d, n, s) == x;
      assert s.i < k;
    }
    if BelowOne(d, n, k - 1, x) {
      var s :| Valid(s) && (s.First? || s.Second?) && s.i == k - 1 && Ptr(d, n, s) == x;
      assert s.i < k;
    }
    if Below(d, n, k, x) {
      var s :| Valid(s) && (s.First? || s.Second?) && s.i < k && Ptr(d, n, s) == x;
      assert s.i < k - 1 || s.i == k - 1;
    }
  }

  ghost predicate UnderRoot(d: Image, n: Inode, x: int) {
    exists s :: Valid(s) && (s == Direct(SINGLE) || s.Single?) && Ptr(d, n, s) == x
  }

  lemma UnderSingle(d: Image, n: Inode, used: set<int>)
    requires Tree(d, n, used)
    ensures NoDup(Under(d, n.block[SINGLE], 1))
    ensures forall x :: x in Under(d, n.block[SINGLE], 1) <==> x != 0 && UnderRoot(d, n, x)
  {
    var b := Ptr(d, n, Direct(SINGLE));
    var t := TableAt(d, b);
    forall x | x != 0 ensures UnderRoot(d, n, x) <==> x == b || x in t {
      RootTable(d, n, used, x);
    }
    if b != 0 {
      forall j, k | 0 <= j < k < 128 && t[j] != 0 ensures t[j] != t[k] {
        assert Ptr(d, n, Single(j)) == t[j] && Ptr(d, n, Single(k)) == t[k];
      }
      forall j | 0 <= j < 128 ensures t[j] != b {
        assert Ptr(d, n, Single(j)) == t[j];
      }
      WholeTable(d, b);
    }
  }

  lemma RootTable(d: Image, n: Inode, used: set<int>, x: int)
    requires Tree(d, n, used) && x != 0
    ensures UnderRoot(d, n, x) <==> x == n.block[SINGLE] || x in TableAt(d, n.block[SINGLE])
  {
    var t := TableAt(d, n.block[SINGLE]);
    if UnderRoot(d, n, x) {
      var s :| Valid(s) && (s == Direct(SINGLE) || s.Single?) && Ptr(d, n, s) == x;
      assert s.Single? ==> t[s.i] == x;
    }
    if x == n.block[SINGLE] {
      assert Ptr(d, n, Direct(SINGLE)) == x;
    }
    if j :| 0 <= j < 128 && t[j] == x {
      assert Ptr(d, n, Single(j)) == x;
    }
  }

  ghost predicate UnderDirect(n: Inode, k: nat, x: int)
    requires k <= 12
  {
    exists i :: 0 <= i < k && n.block[i] == x
  }

  lemma {:induction false} DirectBlocks(d: Image, n: Inode, used: set<int>, k: nat)
    requires k <= 12 && Tree(d, n, used)
    ensures NoDup(Directs(n, k))
    ensures forall x :: x in Directs(n, k) <==> x != 0 && UnderDirect(n, k, x)
  {
    if k > 0 {
      DirectBlocks(d, n, used, k - 1);
      var b := n.block[k - 1];
      if b != 0 {
        forall i | 0 <= i < k - 1 ensures n.block[i] != b {
          assert Ptr(d, n, Direct(i)) == n.block[i] && Ptr(d, n, Direct(k - 1)) == b;
        }
        NoDupConcat(Directs(n, k - 1), [b]);
      }
    }
  }

  ghost predicate UnderAny(d: Image, n: Inode, x: int) {
    Below(d, n, 128, x) || n.block[DOUBLE] == x
  }

  lemma NothingBelow(d: Image, n: Inode, x: int)
    requires n.block[DOUBLE] == 0 && x != 0
    ensures !Below(d, n, 128, x)
  {
  }

  lemma DoubleNotBelow(d: Image, n: Inode, used: set<int>)
    requires Tree(d, n, used) && n.block[DOUBLE] != 0
    ensures !Below(d, n, 128, n.block[DOUBLE])
  {
    assert Ptr(d, n, Direct(DOUBLE)) == n.block[DOUBLE];
  }

  lemma UnderRootDouble(d: Image, n: Inode, used: set<int>)
    requires Tree(d, n, used)
    ensures NoDup(Under(d, n.block[DOUBLE], 2))
    ensures forall x :: x in Under(d, n.block[DOUBLE], 2) <==> x != 0 && UnderAny(d, n, x)
  {
    hide Tree, Below, Entries;
    var b := n.block[DOUBLE];
    if b != 0 {
      var e := Entries(d, TableAt(d, b), 128, 2);
      UnderDouble(d, n, used, 128);
      DoubleNotBelow(d, n, used);
      NoDupConcat(e, [b]);
    } else {
      forall x | x != 0 ensures !Below(d, n, 128, x) {
        NothingBelow(d, n, x);
      }
    }
  }

  lemma OwnsSplit(d: Image, n: Inode, x: int)
    ensures Owns(d, n, x) <==> UnderDirect(n, 12, x) || UnderRoot(d, n, x) || UnderAny(d, n, x)
  {
    if Owns(d, n, x) {
      var s :| Valid(s) && Ptr(d, n, s) == x;
      if s.Direct? && s.i < 12 {
        assert n.block[s.i] == x;
      } else if s.First? || s.Second? {
        assert s.i < 128;
        assert Below(d, n, 128, x);
      } else if s == Direct(DOUBLE) {
      } else {
        assert UnderRoot(d, n, x);
      }
    }
    if UnderDirect(n, 12, x) {
      var i :| 0 <= i < 12 && n.block[i] == x;
      assert Ptr(d, n, Direct(i)) == x;
    }
    if UnderAny(d, n, x) && n.block[DOUBLE] == x {
      assert Ptr(d, n, Direct(DOUBLE)) == x;
    }
  }

  lemma PartsDisjoint(d: Image, n: Inode, used: set<int>, x: int)
    requires Tree(d, n, used) && x != 0
    ensures !(UnderDirect(n, 12, x) && UnderRoot(d, n, x))
    ensures !(UnderDirect(n, 12, x) && UnderAny(d, n, x))
    ensures !(UnderRoot(d, n, x) && UnderAny(d, n, x))
  {
    if UnderDirect(n, 12, x) {
      var i :| 0 <= i < 12 && n.block[i] == x;
      assert Ptr(d, n, Direct(i)) == x;
    }
    if UnderAny(d, n, x) && n.block[DOUBLE] == x {
      assert Ptr(d, n, Direct(DOUBLE)) == x;
    }
  }

  /** The teardown list holds exactly the blocks the inode owns, each once. */
  lemma FreeListExact(d: Image, n: Inode, used: set<int>)
    requires Tree(d, n, used)
    ensures NoDup(FreeList(d, n))
    ensures forall b :: b in FreeList(d, n) <==> b != 0 && Owns(d, n, b)
  {
    hide Entries, Under, Directs, Owns, UnderDirect, UnderRoot, UnderAny, Tree;
    var a, b, c := Directs(n, 12), Under(d, n.block[SINGLE], 1), Under(d, n.block[DOUBLE], 2);
    DirectBlocks(d, n, used, 12);
    UnderSingle(d, n, used);
    UnderRootDouble(d, n, used);
    forall x ensures Owns(d, n, x) <==> UnderDirect(n, 12, x) || UnderRoot(d, n, x) || UnderAny(d, n, x) {
      OwnsSplit(d, n, x);
    }
    forall x | x in a ensures x !in b { PartsDisjoint(d, n, used, x); }
    NoDupConcat(a, b);
    forall x | x in a + b ensures x !in c { PartsDisjoint(d, n, used, x); }
    NoDupConcat(a + b, c);
  }

  /** Freeing a file that was just stored gives back the bitmap from before, and it frees
      one block for every data block and every pointer table. */
  lemma ReleaseUndoesStore(d0: Image, d: Image, n: Inode, k: nat)
    requires Written(d0, d, n, k)
    ensures Used(d) - Elems(FreeList(d, n)) == Used(d0)
    ensures |FreeList(d, n)| == k + Overhead(k)
  {
    hide FreeList;
    var l := FreeList(d, n);
    FreeListExact(d, n, Used(d));
    forall b: int ensures b in l <==> b in Used(d) && b !in Used(d0) {
      if b in Used(d) && b !in Used(d0) {
        assert b != 0 && Owns(d, n, b);
      }
    }
    NoDupSize(l);
    assert Used(d) == Used(d0) + Elems(l);
    assert Used(d0) !! Elems(l);
  }

  /** Whatever first fit handed out while at most 1024 blocks were in use can be freed. */
  lemma StoredIsFreeable(d0: Image, d: Image, n: Inode, k: nat)
    requires Written(d0, d, n, k) && |Used(d)| <= BLOCKS_PER_GROUP
    ensures Freeable(FreeList(d, n))
  {
    hide FreeList;
    FreeListExact(d, n, Used(d));
    forall b | b in FreeList(d, n) ensures FIRST_FREE_BLOCK <= b < BLOCKS_PER_GROUP {
      var s :| Valid(s) && Ptr(d, n, s) == b;
    }
  }

  // For a file of k blocks, looking at the first i_blocks direct pointers misses nothing.
  lemma StoredListedWhole(d: Image, n: Inode, k: nat)
    requires FilledTo(d, n, k)
    ensures Listed(d, n, if k < 12 then k else 12) == FreeList(d, n)
  {
    var m := if k < 12 then k else 12;
    forall i | m <= i < 12 ensures n.block[i] == 0 {
      assert Ptr(d, n, Direct(i)) == n.block[i];
    }
    DirectsStop(n, m, 12);
  }
}
