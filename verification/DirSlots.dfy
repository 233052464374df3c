/** Directory blocks as the file system proper treats them: it steps over empty slots and
    takes names as C strings. Its own insertion overwrites the last record; its own deletion
    empties the record and lets the predecessor absorb it. */
module DirSlots {
  import opened Bytes
  import opened Directory

  // The string that strlen and memcpy see: what stands before the first NUL.
  function Cut(name: seq<byte>): (s: seq<byte>)
    ensures |s| <= |name| && s == name[..|s|] && 0 !in s
    ensures |s| < |name| ==> name[|s|] == 0
  {
    if name == [] || name[0] == 0 then [] else [name[0]] + Cut(name[1..])
  }

  lemma CutWhole(name: seq<byte>)
    ensures Cut(name) == name <==> 0 !in name
  {
    if |Cut(name)| < |name| {
      assert name[|Cut(name)|] in name;
    }
  }

  // Index of the first used entry with this name, or the number of entries.
  function FindUsed(es: seq<Entry>, name: seq<byte>): (k: nat)
    ensures k <= |es|
    ensures k < |es| ==> es[k].inode != 0 && es[k].name == name
    ensures forall i :: 0 <= i < k ==> es[i].inode == 0 || es[i].name != name
  {
    if es == [] then 0
    else if es[0].inode != 0 && es[0].name == name then 0
    else 1 + FindUsed(es[1..], name)
  }

  lemma FindUsedIs(es: seq<Entry>, name: seq<byte>, k: nat)
    requires k <= |es| && forall i :: 0 <= i < k ==> es[i].inode == 0 || es[i].name != name
    requires k < |es| ==> es[k].inode != 0 && es[k].name == name
    ensures FindUsed(es, name) == k
  {
  }

  lemma FindAlike(es: seq<Entry>, name: seq<byte>)
    requires AllUsed(es)
    ensures FindUsed(es, name) == Find(es, name)
  {
    FindUsedIs(es, name, Find(es, name));
  }

  // The lookup here and the scan of the kernel's system calls find the same entry.
  ghost predicate SameFind(b: Block, name: Name) {
    Chain(b, 0) && AllUsed(Entries(b, 0)) ==> FindUsed(Entries(b, 0), Cut(name)) == Find(Entries(b, 0), name)
  }

  /** The two agree on every block of used records exactly for the names without a NUL. */
  lemma LookupsAgree(name: Name)
    ensures (forall b: Block :: SameFind(b, name)) <==> 0 !in name
  {
    CutWhole(name);
    if 0 !in name {
      forall b: Block ensures SameFind(b, name) {
        LookupsAgreeOn(b, name);
      }
    } else {
      var b := LookupsDiffer(name);
      assert !SameFind(b, name);
    }
  }

  lemma LookupsAgreeOn(b: Block, name: Name)
    requires 0 !in name
    ensures SameFind(b, name)
  {
    CutWhole(name);
    if Chain(b, 0) && AllUsed(Entries(b, 0)) {
      FindAlike(Entries(b, 0), name);
    }
  }

  // A block with one record, named by the part before the NUL.
  lemma LookupsDiffer(name: Name) returns (b: Block)
    requires Cut(name) != name
    ensures !SameFind(b, name)
  {
    hide EncodeEntry, Chain, Entries, EntryAt, RecordAt;
    var e := Entry(1, FT_REG, Cut(name));
    b := Splice(seq(512, _ => 0), 0, EncodeEntry(e, 512));
    assert b[0..0 + HEADER + |e.name|] == EncodeEntry(e, 512);
    EncodedRecord(b, 0, e, 512);
    assert Chain(b, 512) && Entries(b, 512) == [] by { NothingLeft(b); }
    JoinChain(b, 0);
    assert Entries(b, 0) == [e];
    FindUsedIs([e], Cut(name), 0);
    FindIs([e], name, 1);
  }

  lemma NothingLeft(b: Block)
    ensures Chain(b, 512) && Entries(b, 512) == []
  {
  }

  /** find_inode_in_dir: follows rec_len to the end of the block, past empty slots. */
  method FindInodeInDir(b: Block, name: Name) returns (found: bool, inode: u32, ghost k: nat)
    requires Chain(b, 0)
    ensures k == FindUsed(Entries(b, 0), Cut(name)) && (found <==> k < |Entries(b, 0)|)
    ensures found ==> inode == Entries(b, 0)[k].inode
  {
    hide Chain, Entries, RecordAt, Steps;
    ghost var es := Entries(b, 0);
    var s := Cut(name);
    var o := 0;
    k, found, inode := 0, false, 0;
    StepsStart(b, 0);
    while o < 512
      invariant Steps(b, 0, k, o) && Position(b, k, o)
      invariant forall i :: 0 <= i < k ==> es[i].inode == 0 || es[i].name != s
      decreases 512 - o
    {
      ChainHead(b, o);
      HeaderFits(b, o);
      if InodeAt(b, o) != 0 && NameLen(b, o) == |s| && b[o + HEADER..o + HEADER + NameLen(b, o)] == s {
        FindUsedIs(es, s, k);
        return true, InodeAt(b, o), k;
      }
      StepsMore(b, 0, k, o);
      o, k := o + RecLen(b, o), k + 1;
      PositionAfter(b, k, o);
    }
    FindUsedIs(es, s, k);
  }

  // The size of a new record: header and name, rounded up to a multiple of four.
  function Padded(n: nat): (m: nat)
    ensures HEADER + n <= m < HEADER + n + 4 && m % 4 == 0
  {
    var size := HEADER + n;
    if size % 4 != 0 then size + 4 - size % 4 else size
  }

  // Whether the last record can be overwritten with one for a name of n bytes.
  predicate Overwritable(b: Block, n: nat)
    requires Chain(b, 0)
  {
    Last(b, 0) + Padded(n) <= 512
  }

  /** It can exactly when the header of nine bytes and the name, rounded up to a multiple of four, end
      inside the block. */
  lemma OverwritableExact(b: Block, n: nat)
    requires Chain(b, 0)
    ensures Overwritable(b, n) <==> Last(b, 0) + (n + 12) / 4 * 4 <= 512
  {
    var size := HEADER + n;
    assert size % 4 != 0 ==> (size + 4 - size % 4) == (size + 3) / 4 * 4;
  }

  lemma LastOverwritten(b: Block, k: nat, l: nat, e: Entry, c: Block)
    requires Chain(b, 0) && Steps(b, 0, k, l) && RecordAt(b, l) && l + RecLen(b, l) == 512
    requires |e.name| <= 255 && l + HEADER + |e.name| <= 512
    requires forall x :: 0 <= x < l ==> c[x] == b[x]
    requires c[l..l + HEADER + |e.name|] == EncodeEntry(e, 512 - l)
    ensures Chain(c, 0) && |Entries(b, 0)| > 0 && Entries(c, 0) == Entries(b, 0)[..|Entries(b, 0)| - 1] + [e]
    ensures Last(c, 0) == l
  {
    hide RecordAt, EncodeEntry, EntryAt, RecLen, NameLen, Steps, Chain, Entries, Last;
    EncodedRecord(c, l, e, 512 - l);
    NothingLeft(c);
    JoinChain(c, l);
    TailRewritten(b, c, 0, k, l);
    LastReached(b, 0, k, l);
    StepsKept(b, 0, k, l, c);
    LastReached(c, 0, k, l);
  }

  /** add_inode_to_dir: the new record takes the place of the last one, which is lost; when it
      does not fit, or the name is empty, nothing happens and nobody is told. */
  method AddInodeToDir(buf: array<byte>, inode: u32, name: Name) returns (added: bool)
    requires buf.Length == 512 && Chain(buf[..], 0)
    modifies buf
    ensures added <==> Cut(name) != [] && Overwritable(old(buf[..]), |Cut(name)|)
    ensures added ==> Chain(buf[..], 0) && Last(buf[..], 0) == Last(old(buf[..]), 0)
    ensures added ==> var es := old(Entries(buf[..], 0));
      |es| > 0 && Entries(buf[..], 0) == es[..|es| - 1] + [Entry(inode, FT_REG, Cut(name))]
    ensures !added ==> buf[..] == old(buf[..])
  {
    hide Chain, Entries, RecordAt, EntryAt, Steps, Padded, Last, RecLen, NameLen;
    var s := Cut(name);
    if |s| == 0 {
      return false;
    }
    ghost var b := buf[..];
    var o := 0;
    ghost var k := 0;
    StepsStart(b, 0);
    while true
      invariant o < 512 && Steps(b, 0, k, o) && Chain(b, o) && buf[..] == b
      decreases 512 - o
    {
      ChainHead(b, o);
      HeaderFits(b, o);
      var rec := RecLenOf(buf, o);
      if rec == 0 || o + rec >= 512 {
        break;
      }
      StepsMore(b, 0, k, o);
      o, k := o + rec, k + 1;
    }
    LastReached(b, 0, k, o);
    added := o + Padded(|s|) <= 512;
    if added {
      Overwrite(buf, o, Padded(|s|), Entry(inode, FT_REG, s), k);
    }
  }

  // Clears the place of the last record and fills in the new one.
  method Overwrite(buf: array<byte>, o: nat, size: nat, e: Entry, ghost k: nat)
    requires buf.Length == 512 && Chain(buf[..], 0) && Steps(buf[..], 0, k, o)
    requires RecordAt(buf[..], o) && o + RecLen(buf[..], o) == 512
    requires o + size <= 512 && HEADER + |e.name| <= size && |e.name| <= 255
    modifies buf
    ensures Chain(buf[..], 0) && Last(buf[..], 0) == o
    ensures var es := old(Entries(buf[..], 0)); |es| > 0 && Entries(buf[..], 0) == es[..|es| - 1] + [e]
  {
    hide Chain, Entries, RecordAt, Steps, RecLen, NameLen, Splice, Last, EncodeEntry;
    ghost var b := buf[..];
    Put(buf, o, seq(size, _ => 0));
    PutEntry(buf, o, e, 512 - o);
    OverwrittenBytes(b, o, size, e, buf[..]);
    LastOverwritten(b, k, o, e, buf[..]);
  }

  lemma OverwrittenBytes(b: Block, o: nat, size: nat, e: Entry, c: Block)
    requires o + size <= 512 && HEADER + |e.name| <= size && |e.name| <= 255
    requires c == Splice(Splice(b, o, seq(size, _ => 0)), o, EncodeEntry(e, 512 - o))
    ensures forall x :: 0 <= x < o ==> c[x] == b[x]
    ensures c[o..o + HEADER + |e.name|] == EncodeEntry(e, 512 - o)
  {
  }

  // The entries after the one at k was deleted: the first record stays as an empty slot.
  function WithoutSlot(es: seq<Entry>, k: nat): seq<Entry>
    requires k < |es|
  {
    if k == 0 then [Entry(0, es[0].ftype, es[0].name)] + es[1..] else Without(es, k)
  }

  lemma FirstEmptied(b: Block, c: Block)
    requires Chain(b, 0) && c == Splice(b, 0, Bytes32(0))
    ensures Chain(c, 0) && |Entries(b, 0)| > 0 && Entries(c, 0) == WithoutSlot(Entries(b, 0), 0)
  {
    hide Chain, Entries, RecordAt, EntryAt, Splice, RecLen, NameLen;
    ChainHead(b, 0);
    assert 0 + RecLen(b, 0) == RecLen(b, 0);
    EmptiedSlot(b, 0, c);
    SameChain(b, c, RecLen(b, 0));
    JoinChain(c, 0);
    assert Entries(b, 0)[0] == EntryAt(b, 0);
  }

  // The inode number of the record at o is zeroed.
  lemma EmptiedSlot(b: Block, o: nat, c: Block)
    requires RecordAt(b, o) && c == Splice(b, o, Bytes32(0))
    ensures o + 4 <= o + RecLen(b, o)
    ensures RecordAt(c, o) && RecLen(c, o) == RecLen(b, o)
    ensures EntryAt(c, o) == Entry(0, EntryAt(b, o).ftype, EntryAt(b, o).name)
    ensures forall x :: 0 <= x < 512 && !(o <= x < o + 4) ==> c[x] == b[x]
  {
    JoinBytes32(0);
    assert c[o..o + 4] == Bytes32(0);
    assert c[o + 4..o + 4 + 2] == b[o + 4..o + 4 + 2];
    assert c[o + 6..o + 6 + 2] == b[o + 6..o + 6 + 2];
    assert c[o + HEADER..o + HEADER + NameLen(b, o)] == b[o + HEADER..o + HEADER + NameLen(b, o)];
  }

  /** remove_inode_from_dir: the record before absorbs the one that is deleted; a first record
      has none before it and stays as an empty slot. */
  method RemoveInodeFromDir(buf: array<byte>, name: Name) returns (ghost k: nat)
    requires buf.Length == 512 && Chain(buf[..], 0)
    modifies buf
    ensures k == FindUsed(old(Entries(buf[..], 0)), Cut(name)) && Chain(buf[..], 0)
    ensures Entries(buf[..], 0) == var es := old(Entries(buf[..], 0)); if k < |es| then WithoutSlot(es, k) else es
  {
    hide Chain, Entries, EntryAt, RecordAt, Steps, WithoutSlot, Before, RecLen, NameLen, InodeAt;
    ghost var b := buf[..];
    ghost var es := Entries(b, 0);
    var s := Cut(name);
    var o, prev := 0, 0;
    k := 0;
    StepsStart(b, 0);
    while o < 512
      invariant buf[..] == b && Steps(b, 0, k, o) && Position(b, k, o)
      invariant forall i :: 0 <= i < k ==> es[i].inode == 0 || es[i].name != s
      invariant if k == 0 then o == 0 else Before(b, k - 1, prev, o)
      decreases 512 - o
    {
      ChainHead(b, o);
      HeaderFits(b, o);
      var inode := InodeOf(buf, o);
      var rec := RecLenOf(buf, o);
      var same := NamedAs(buf, o, s);
      EntryInode(b, o);
      if inode != 0 && same {
        FindUsedIs(es, s, k);
        if o > 0 {
          Swallow(buf, prev, o, rec, k - 1);
        } else {
          Put(buf, 0, Bytes32(0));
          FirstEmptied(b, buf[..]);
        }
        return;
      }
      StepsMore(b, 0, k, o);
      PositionAfter(b, k + 1, o + rec);
      NowBefore(b, k, o);
      prev := o;
      o, k := o + rec, k + 1;
    }
    FindUsedIs(es, s, k);
  }

  // prev is the record in front of the one at o.
  ghost predicate Before(b: Block, k: nat, prev: nat, o: nat) {
    Steps(b, 0, k, prev) && RecordAt(b, prev) && prev + RecLen(b, prev) == o && o > 0
  }

  lemma NowBefore(b: Block, k: nat, o: nat)
    requires Steps(b, 0, k, o) && RecordAt(b, o)
    ensures Before(b, k, o, o + RecLen(b, o))
  {
  }

  lemma EntryInode(b: Block, o: nat)
    requires RecordAt(b, o)
    ensures EntryAt(b, o).inode == InodeAt(b, o)
  {
  }

  method NamedAs(buf: array<byte>, o: nat, s: seq<byte>) returns (same: bool)
    requires buf.Length == 512 && RecordAt(buf[..], o)
    ensures same <==> EntryAt(buf[..], o).name == s
  {
    var len := NameLenOf(buf, o);
    same := len == |s| && buf[o + HEADER..o + HEADER + len] == s;
  }

  // The record at prev takes over the one at o, which is emptied.
  method Swallow(buf: array<byte>, prev: nat, o: nat, rec: u16, ghost k: nat)
    requires buf.Length == 512 && Chain(buf[..], 0) && Before(buf[..], k, prev, o)
    requires RecordAt(buf[..], o) && rec == RecLen(buf[..], o)
    modifies buf
    ensures k + 1 < |old(Entries(buf[..], 0))|
    ensures Chain(buf[..], 0) && Entries(buf[..], 0) == WithoutSlot(old(Entries(buf[..], 0)), k + 1)
  {
    hide Chain, Entries, Steps, EntryAt, NameLen, RecordAt, RecLen, Splice, Without, Before;
    ghost var b := buf[..];
    Neighbours(b, k, prev, o);
    var r := RecLenOf(buf, prev);
    Put(buf, prev + 4, Bytes16(r + rec));
    Put(buf, o, Bytes32(0));
    SwallowedBytes(b, prev, o, buf[..]);
    AbsorbedChain(b, prev, k, o, buf[..]);
  }

  lemma Neighbours(b: Block, k: nat, prev: nat, o: nat)
    requires Before(b, k, prev, o) && RecordAt(b, o)
    ensures RecordAt(b, prev) && prev + HEADER <= 512 && prev + RecLen(b, prev) == o && Steps(b, 0, k, prev)
    ensures o + HEADER <= 512 && RecLen(b, prev) + RecLen(b, o) <= 512
  {
  }

  lemma SwallowedBytes(b: Block, prev: nat, t: nat, c: Block)
    requires RecordAt(b, prev) && RecordAt(b, t) && prev + RecLen(b, prev) == t
    requires c == Splice(Splice(b, prev + 4, Bytes16(RecLen(b, prev) + RecLen(b, t))), t, Bytes32(0))
    ensures Absorbed(b, prev, t, c)
  {
    var m := Splice(b, prev + 4, Bytes16(RecLen(b, prev) + RecLen(b, t)));
    assert c[prev + 4..prev + 6] == m[prev + 4..prev + 4 + 2];
  }

  // What lies in memory behind a block that was read.
  type Past = s: seq<byte> | |s| == 4 witness [0, 0, 0, 0]

  // get_dir_first_child_offset: where the second record starts, or the end of the block.
  function FirstChild(b: Block): nat {
    if InodeAt(b, 0) == 0 then 512 else RecLen(b, 0)
  }

  // is_empty_directory: it looks at the second record only, and it may look past the block.
  predicate LooksEmpty(b: Block, past: Past) {
    FirstChild(b) >= 512 || Word(b + past, FirstChild(b)) == 0
  }

  /** On a block that records tile nothing behind the block matters: the directory counts as empty
      exactly when the first record is an empty slot or the only one, or the second is empty. */
  lemma LooksEmptyExactly(b: Block, past: Past)
    requires Chain(b, 0)
    ensures Entries(b, 0) != []
    ensures var es := Entries(b, 0);
      LooksEmpty(b, past) <==> es[0].inode == 0 || |es| == 1 || es[1].inode == 0
  {
    hide Chain, Entries;
    var o := RecLen(b, 0);
    ChainHead(b, 0);
    ChainEnd(b, o);
    if o < 512 {
      ChainHead(b, o);
      assert (b + past)[o..o + 4] == b[o..o + 4];
    }
  }
}
