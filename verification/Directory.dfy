/** One directory block: variable-length records chained by rec_len that tile the 512
    bytes. A record is a 9-byte header (inode, rec_len, name_len, file_type) and a name;
    inode number 0 marks an empty slot. */
module Directory {
  import opened Bytes

  const HEADER := 9
  const FT_REG: byte := 1
  const FT_DIR: byte := 2

  type Name = s: seq<byte> | |s| <= 255 witness []

  datatype Entry = Entry(inode: u32, ftype: byte, name: seq<byte>)

  function InodeAt(b: Block, o: nat): u32
    requires o + HEADER <= 512
  {
    Word(b, o)
  }

  function RecLen(b: Block, o: nat): u16
    requires o + HEADER <= 512
  {
    Half(b, o + 4)
  }

  function NameLen(b: Block, o: nat): u16
    requires o + HEADER <= 512
  {
    Half(b, o + 6)
  }

  // A record starts at o and stays inside the block.
  predicate RecordAt(b: Block, o: nat) {
    && o + HEADER <= 512
    && NameLen(b, o) <= 255
    && RecLen(b, o) >= HEADER + NameLen(b, o)
    && o + RecLen(b, o) <= 512
  }

  function EntryAt(b: Block, o: nat): Entry
    requires RecordAt(b, o)
  {
    Entry(InodeAt(b, o), b[o + 8], b[o + HEADER..o + HEADER + NameLen(b, o)])
  }

  /** Which bytes of a record hold what: inode number, length of the record, length of the name, kind,
      name. */
  lemma RecordBytes(b: Block, o: nat)
    requires RecordAt(b, o)
    ensures var e, len := EntryAt(b, o), Two(b[o + 6], b[o + 7]);
      && e.inode == Four(b[o], b[o + 1], b[o + 2], b[o + 3]) && RecLen(b, o) == Two(b[o + 4], b[o + 5])
      && e.ftype == b[o + 8] && 0 <= len && o + 9 + len <= 512 && e.name == b[o + 9..o + 9 + len]
  {
    hide Half, Word, Two, Four;
    LittleEndian(b, o);
    LittleEndian(b, o + 4);
    LittleEndian(b, o + 6);
  }

  // The records from o on tile the rest of the block exactly.
  predicate Chain(b: Block, o: nat)
    decreases 512 - o
  {
    o == 512 || (RecordAt(b, o) && Chain(b, o + RecLen(b, o)))
  }

  function Entries(b: Block, o: nat): (es: seq<Entry>)
    requires Chain(b, o)
    decreases 512 - o
  {
    if o == 512 then [] else [EntryAt(b, o)] + Entries(b, o + RecLen(b, o))
  }

  // The record at t is reached from the one at o after k steps.
  predicate Steps(b: Block, o: nat, k: nat, t: nat)
    decreases k
  {
    if k == 0 then o == t else RecordAt(b, o) && Steps(b, o + RecLen(b, o), k - 1, t)
  }

  // After k steps the rest of the block lists what is left of the entries.
  lemma {:induction false} StepsReach(b: Block, o: nat, k: nat, t: nat)
    requires Chain(b, o) && Steps(b, o, k, t)
    ensures Chain(b, t) && o <= t && k <= |Entries(b, o)| && Entries(b, o)[k..] == Entries(b, t)
    ensures k > 0 ==> o < t
    decreases k
  {
    if k > 0 {
      StepsReach(b, o + RecLen(b, o), k - 1, t);
    }
  }

  lemma {:induction false} StepsMore(b: Block, o: nat, k: nat, t: nat)
    requires Steps(b, o, k, t) && RecordAt(b, t)
    ensures Steps(b, o, k + 1, t + RecLen(b, t))
    decreases k
  {
    if k > 0 {
      StepsMore(b, o + RecLen(b, o), k - 1, t);
    } else {
      assert Steps(b, o + RecLen(b, o), 0, t + RecLen(b, t));
    }
  }

  // A record only depends on its own bytes, a chain only on the bytes from its start on.
  lemma SameRecord(b: Block, c: Block, o: nat)
    requires RecordAt(b, o) && forall x :: o <= x < o + RecLen(b, o) ==> c[x] == b[x]
    ensures RecordAt(c, o) && RecLen(c, o) == RecLen(b, o) && EntryAt(c, o) == EntryAt(b, o)
  {
    assert c[o..o + 4] == b[o..o + 4];
    assert c[o + 4..o + 4 + 2] == b[o + 4..o + 4 + 2];
    assert c[o + 6..o + 6 + 2] == b[o + 6..o + 6 + 2];
    assert c[o + HEADER..o + HEADER + NameLen(b, o)] == b[o + HEADER..o + HEADER + NameLen(b, o)];
  }

  lemma {:induction false} SameChain(b: Block, c: Block, o: nat)
    requires Chain(b, o) && forall x :: o <= x < 512 ==> c[x] == b[x]
    ensures Chain(c, o) && Entries(c, o) == Entries(b, o)
    decreases 512 - o
  {
    if o < 512 {
      SameRecord(b, c, o);
      SameChain(b, c, o + RecLen(b, o));
    }
  }

  // The record at o stretched or shrunk to length n, everything else in it unchanged.
  ghost predicate Resized(b: Block, o: nat, n: u16, c: Block) {
    && o + HEADER <= 512
    && c[o + 4..o + 6] == Bytes16(n)
    && (forall x :: 0 <= x < 512 && x != o + 4 && x != o + 5 && x < o + HEADER + NameLen(b, o) ==> c[x] == b[x])
  }

  lemma ResizedRecord(b: Block, o: nat, n: u16, c: Block)
    requires RecordAt(b, o) && Resized(b, o, n, c)
    requires HEADER + NameLen(b, o) <= n && o + n <= 512
    ensures RecordAt(c, o) && RecLen(c, o) == n && EntryAt(c, o) == EntryAt(b, o)
  {
    assert c[o..o + 4] == b[o..o + 4];
    assert c[o + 4..o + 4 + 2] == Bytes16(n);
    JoinBytes16(n);
    assert c[o + 6..o + 6 + 2] == b[o + 6..o + 6 + 2];
    assert c[o + HEADER..o + HEADER + NameLen(b, o)] == b[o + HEADER..o + HEADER + NameLen(b, o)];
  }

  function EncodeEntry(e: Entry, recLen: u16): (s: seq<byte>)
    requires |e.name| <= 255
    ensures |s| == HEADER + |e.name|
    ensures s[0..4] == Bytes32(e.inode) && s[4..6] == Bytes16(recLen) && s[6..8] == Bytes16(|e.name|)
    ensures s[8] == e.ftype && s[HEADER..] == e.name
  {
    Bytes32(e.inode) + Bytes16(recLen) + Bytes16(|e.name|) + [e.ftype] + e.name
  }

  lemma EncodedRecord(c: Block, o: nat, e: Entry, recLen: u16)
    requires |e.name| <= 255 && HEADER + |e.name| <= recLen && o + recLen <= 512
    requires c[o..o + HEADER + |e.name|] == EncodeEntry(e, recLen)
    ensures RecordAt(c, o) && RecLen(c, o) == recLen && EntryAt(c, o) == e
  {
    var s, m := EncodeEntry(e, recLen), HEADER + |e.name|;
    SubSlice(c, o, m, 0, 4);
    SubSlice(c, o, m, 4, 6);
    SubSlice(c, o, m, 6, 8);
    SubSlice(c, o, m, HEADER, m);
    assert c[o + 8] == c[o..o + m][8];
    assert s[HEADER..m] == s[HEADER..];
    assert c[o..o + 4] == Bytes32(e.inode) && c[o + 4..o + 4 + 2] == Bytes16(recLen);
    assert c[o + 6..o + 6 + 2] == Bytes16(|e.name|) && c[o + HEADER..o + m] == e.name;
    JoinBytes32(e.inode);
    JoinBytes16(recLen);
    JoinBytes16(|e.name|);
  }

  lemma ChainHead(b: Block, o: nat)
    requires Chain(b, o) && o < 512
    ensures RecordAt(b, o) && Chain(b, o + RecLen(b, o))
    ensures Entries(b, o) == [EntryAt(b, o)] + Entries(b, o + RecLen(b, o))
  {
  }

  lemma ChainEnd(b: Block, o: nat)
    requires Chain(b, o)
    ensures o <= 512 && (Entries(b, o) == [] <==> o == 512)
  {
  }

  lemma JoinChain(c: Block, o: nat)
    requires RecordAt(c, o) && Chain(c, o + RecLen(c, o))
    ensures Chain(c, o) && Entries(c, o) == [EntryAt(c, o)] + Entries(c, o + RecLen(c, o))
  {
  }

  // Only the part from the k-th record on was rewritten.
  lemma {:induction false} TailRewritten(b: Block, c: Block, o: nat, k: nat, t: nat)
    requires Chain(b, o) && Steps(b, o, k, t) && Chain(c, t) && forall x :: 0 <= x < t ==> c[x] == b[x]
    ensures k <= |Entries(b, o)| && Chain(c, o) && Entries(c, o) == Entries(b, o)[..k] + Entries(c, t)
    decreases k
  {
    hide Chain, Entries, RecordAt, EntryAt, Steps, RecLen;
    StepsReach(b, o, k, t);
    if k > 0 {
      OneStep(b, o, k, t);
      TailRewritten(b, c, o + RecLen(b, o), k - 1, t);
      RecordKept(b, c, o, k - 1, t);
    } else {
      NothingKept(b, c, o, t);
    }
  }

  lemma OneStep(b: Block, o: nat, k: nat, t: nat)
    requires Chain(b, o) && Steps(b, o, k, t) && k > 0
    ensures RecordAt(b, o) && Chain(b, o + RecLen(b, o)) && Steps(b, o + RecLen(b, o), k - 1, t)
    ensures o < o + RecLen(b, o) <= t && o < 512
  {
    StepsReach(b, o + RecLen(b, o), k - 1, t);
  }

  lemma NothingKept(b: Block, c: Block, o: nat, t: nat)
    requires Chain(b, o) && Steps(b, o, 0, t) && Chain(c, t)
    ensures Chain(c, o) && Entries(c, o) == Entries(b, o)[..0] + Entries(c, t)
  {
  }

  lemma RecordKept(b: Block, c: Block, o: nat, k: nat, t: nat)
    requires o < 512 && Chain(b, o) && RecordAt(b, o) && o + RecLen(b, o) <= t && Chain(c, t)
    requires Chain(b, o + RecLen(b, o)) && Chain(c, o + RecLen(b, o)) && k <= |Entries(b, o + RecLen(b, o))|
    requires Entries(c, o + RecLen(b, o)) == Entries(b, o + RecLen(b, o))[..k] + Entries(c, t)
    requires forall x :: 0 <= x < t ==> c[x] == b[x]
    ensures Chain(c, o) && k + 1 <= |Entries(b, o)| && Entries(c, o) == Entries(b, o)[..k + 1] + Entries(c, t)
  {
    hide Chain, Entries, EntryAt, RecordAt, RecLen, NameLen;
    ChainHead(b, o);
    SameRecord(b, c, o);
    JoinChain(c, o);
    ConsPrefix(EntryAt(b, o), Entries(b, o + RecLen(b, o)), k, Entries(c, t));
  }

  lemma ConsPrefix<T>(x: T, s: seq<T>, k: nat, tail: seq<T>)
    requires k <= |s|
    ensures ([x] + s)[..k + 1] + tail == [x] + (s[..k] + tail)
  {
    assert ([x] + s)[..k + 1] == [x] + s[..k];
  }

  // The tail of the chain is replaced: the last record shrinks, a new one takes the rest.
  ghost predicate Appended(b: Block, last: nat, e: Entry, c: Block)
    requires RecordAt(b, last) && |e.name| <= 255
  {
    var o := last + HEADER + NameLen(b, last);
    && o + HEADER + |e.name| <= 512
    && Resized(b, last, HEADER + NameLen(b, last), c)
    && c[o..o + HEADER + |e.name|] == EncodeEntry(e, 512 - o)
  }

  lemma AppendedBefore(b: Block, last: nat, e: Entry, c: Block)
    requires RecordAt(b, last) && |e.name| <= 255 && Appended(b, last, e, c)
    ensures forall x :: 0 <= x < last ==> c[x] == b[x]
  {
  }

  // Where the new record stands.
  lemma AppendedAt(b: Block, last: nat, e: Entry, c: Block)
    requires RecordAt(b, last) && last + RecLen(b, last) == 512 && |e.name| <= 255 && Appended(b, last, e, c)
    ensures var o := last + HEADER + NameLen(b, last);
      && RecordAt(c, last) && last + RecLen(c, last) == o && EntryAt(c, last) == EntryAt(b, last)
      && RecordAt(c, o) && o + RecLen(c, o) == 512 && EntryAt(c, o) == e && NameLen(c, o) == |e.name|
  {
    hide EncodeEntry;
    var o := last + HEADER + NameLen(b, last);
    ResizedRecord(b, last, HEADER + NameLen(b, last), c);
    EncodedRecord(c, o, e, 512 - o);
    NameOf(c, o, e);
  }

  lemma NameOf(c: Block, o: nat, e: Entry)
    requires RecordAt(c, o) && EntryAt(c, o) == e
    ensures NameLen(c, o) == |e.name|
  {
  }

  lemma AppendedLast(b: Block, last: nat, e: Entry, c: Block)
    requires RecordAt(b, last) && last + RecLen(b, last) == 512 && |e.name| <= 255 && Appended(b, last, e, c)
    ensures Chain(b, last) && Chain(c, last) && Entries(c, last) == Entries(b, last) + [e]
  {
    hide Appended, EntryAt, RecLen, NameLen;
    var o := last + HEADER + NameLen(b, last);
    AppendedAt(b, last, e, c);
    assert Chain(b, 512) && Entries(b, 512) == [] && Chain(c, 512) && Entries(c, 512) == [];
    JoinChain(b, last);
    JoinChain(c, o);
    JoinChain(c, last);
  }

  lemma AppendedChain(b: Block, last: nat, k: nat, e: Entry, c: Block)
    requires Chain(b, 0) && Steps(b, 0, k, last) && RecordAt(b, last) && last + RecLen(b, last) == 512
    requires |e.name| <= 255 && Appended(b, last, e, c)
    ensures Chain(c, 0) && Entries(c, 0) == Entries(b, 0) + [e]
  {
    hide Chain, Entries, EntryAt, RecordAt, Steps, RecLen, Appended;
    AppendedLast(b, last, e, c);
    AppendedBefore(b, last, e, c);
    TailRewritten(b, c, 0, k, last);
    StepsReach(b, 0, k, last);
    var es := Entries(b, 0);
    assert es == es[..k] + es[k..];
  }

  // The record before the one at t absorbs it; whether the inode number of the absorbed
  // record is wiped makes no difference.
  ghost predicate Absorbed(b: Block, prev: nat, t: nat, c: Block)
    requires RecordAt(b, prev) && RecordAt(b, t)
  {
    && prev + RecLen(b, prev) == t
    && c[prev + 4..prev + 6] == Bytes16(RecLen(b, prev) + RecLen(b, t))
    && forall x :: 0 <= x < 512 && x != prev + 4 && x != prev + 5 && !(t <= x < t + 4) ==> c[x] == b[x]
  }

  function Without<T>(s: seq<T>, k: nat): (r: seq<T>)
    requires k < |s|
    ensures |r| == |s| - 1
  {
    s[..k] + s[k + 1..]
  }

  lemma AbsorbedRecord(b: Block, prev: nat, t: nat, c: Block)
    requires RecordAt(b, prev) && RecordAt(b, t) && Absorbed(b, prev, t, c)
    ensures RecordAt(c, prev) && prev + RecLen(c, prev) == t + RecLen(b, t) && EntryAt(c, prev) == EntryAt(b, prev)
    ensures forall x :: 0 <= x < prev || t + RecLen(b, t) <= x < 512 ==> c[x] == b[x]
  {
    ResizedRecord(b, prev, RecLen(b, prev) + RecLen(b, t), c);
  }

  // The two records and what follows them.
  lemma TwoOn(b: Block, k: nat, prev: nat, t: nat)
    requires Chain(b, 0) && Steps(b, 0, k, prev) && RecordAt(b, prev) && RecordAt(b, t) && prev + RecLen(b, prev) == t
    ensures Chain(b, t + RecLen(b, t)) && k + 2 <= |Entries(b, 0)|
    ensures Entries(b, 0)[k] == EntryAt(b, prev) && Entries(b, 0)[k + 2..] == Entries(b, t + RecLen(b, t))
  {
    hide Chain, Entries, Steps, EntryAt, RecLen, NameLen;
    StepsMore(b, 0, k, prev);
    StepsMore(b, 0, k + 1, t);
    StepsReach(b, 0, k, prev);
    StepsReach(b, 0, k + 2, t + RecLen(b, t));
    ChainHead(b, prev);
    assert Entries(b, 0)[k] == Entries(b, 0)[k..][0];
  }

  lemma AbsorbedChain(b: Block, prev: nat, k: nat, t: nat, c: Block)
    requires Chain(b, 0) && Steps(b, 0, k, prev) && RecordAt(b, prev) && RecordAt(b, t) && Absorbed(b, prev, t, c)
    ensures k + 1 < |Entries(b, 0)| && Chain(c, 0) && Entries(c, 0) == Without(Entries(b, 0), k + 1)
  {
    hide Chain, Entries, EntryAt, Steps, RecLen, NameLen;
    AbsorbedRecord(b, prev, t, c);
    TwoOn(b, k, prev, t);
    hide Absorbed, RecordAt;
    SameChain(b, c, t + RecLen(b, t));
    JoinChain(c, prev);
    TailRewritten(b, c, 0, k, prev);
    MiddleGone(Entries(b, 0), k, EntryAt(b, prev));
  }

  lemma MiddleGone(es: seq<Entry>, k: nat, x: Entry)
    requires k + 2 <= |es| && es[k] == x
    ensures es[..k] + ([x] + es[k + 2..]) == Without(es, k + 1)
  {
  }

  // No record is an empty slot.
  predicate AllUsed(es: seq<Entry>) {
    forall k :: 0 <= k < |es| ==> es[k].inode != 0
  }

  // Index of the first entry with this name, or the number of entries.
  function Find(es: seq<Entry>, name: seq<byte>): (k: nat)
    ensures k <= |es|
    ensures k < |es| ==> es[k].name == name
    ensures forall i :: 0 <= i < k ==> es[i].name != name
  {
    if es == [] then 0 else if es[0].name == name then 0 else 1 + Find(es[1..], name)
  }

  // The length test and the byte-by-byte comparison of a stored name with the request.
  method NamesMatch(buf: array<byte>, o: nat, name: Name) returns (same: bool)
    requires buf.Length == 512 && RecordAt(buf[..], o)
    ensures same <==> EntryAt(buf[..], o).name == name
  {
    var len := NameLenOf(buf, o);
    if len != |name| {
      return false;
    }
    var i := 0;
    while i < |name|
      invariant 0 <= i <= |name|
      invariant buf[o + HEADER..o + HEADER + i] == name[..i]
    {
      if buf[o + HEADER + i] != name[i] {
        assert EntryAt(buf[..], o).name[i] != name[i];
        return false;
      }
      i := i + 1;
    }
    assert name[..i] == name;
    return true;
  }

  /** The scan of the system calls over a block without empty slots: it stops at the first match
      or behind the last record, always inside the block. */
  method ScanFor(buf: array<byte>, name: Name) returns (o: nat, ghost k: nat)
    requires buf.Length == 512 && Chain(buf[..], 0) && AllUsed(Entries(buf[..], 0))
    ensures Steps(buf[..], 0, Find(Entries(buf[..], 0), name), o) && o <= 512
    ensures o < 512 <==> Find(Entries(buf[..], 0), name) < |Entries(buf[..], 0)|
    ensures k == Find(Entries(buf[..], 0), name)
  {
    hide Chain, Entries, RecordAt, EntryAt, Steps, AllUsed;
    ghost var b := buf[..];
    ghost var es := Entries(b, 0);
    o, k := 0, 0;
    StepsStart(b, 0);
    while o < 512
      invariant Chain(b, 0) && Steps(b, 0, k, o) && Position(b, k, o)
      invariant forall i :: 0 <= i < k ==> es[i].name != name
      decreases 512 - o
    {
      ChainHead(b, o);
      HeaderFits(b, o);
      UsedHere(b, k, o);
      var inode := InodeOf(buf, o);
      var rec := RecLenOf(buf, o);
      if inode == 0 || rec == 0 || o + rec > 512 {
        break;
      }
      var same := NamesMatch(buf, o, name);
      if same {
        break;
      }
      StepsMore(b, 0, k, o);
      o, k := o + rec, k + 1;
      PositionAfter(b, k, o);
    }
    FindIs(es, name, k);
  }

  // Where a walk along the chain stands after k steps.
  ghost predicate Position(b: Block, k: nat, o: nat)
    requires Chain(b, 0)
  {
    && o <= 512 && Chain(b, o) && k <= |Entries(b, 0)|
    && (o < 512 <==> k < |Entries(b, 0)|)
    && (o < 512 ==> Entries(b, 0)[k] == EntryAt(b, o))
  }

  lemma PositionAfter(b: Block, k: nat, o: nat)
    requires Chain(b, 0) && Steps(b, 0, k, o)
    ensures Position(b, k, o)
  {
    hide Chain, Entries, RecordAt, EntryAt, Steps;
    StepsReach(b, 0, k, o);
    ChainEnd(b, o);
    var es := Entries(b, 0);
    if o < 512 {
      ChainHead(b, o);
      assert es[k] == es[k..][0];
    }
  }

  lemma UsedHere(b: Block, k: nat, o: nat)
    requires Chain(b, 0) && Position(b, k, o) && o < 512 && AllUsed(Entries(b, 0))
    ensures o + HEADER <= 512 && InodeAt(b, o) != 0
  {
    assert Entries(b, 0)[k].inode == InodeAt(b, o);
  }

  lemma StepsStart(b: Block, o: nat)
    requires Chain(b, 0)
    ensures Steps(b, o, 0, o) && (o == 0 ==> Position(b, 0, 0))
  {
    assert Steps(b, 0, 0, 0);
    PositionAfter(b, 0, 0);
  }

  lemma HeaderFits(b: Block, o: nat)
    requires RecordAt(b, o)
    ensures o + HEADER + NameLen(b, o) <= 512 && 0 < RecLen(b, o) && o + RecLen(b, o) <= 512
  {
  }

  lemma FindIs(es: seq<Entry>, name: seq<byte>, k: nat)
    requires k <= |es| && (forall i :: 0 <= i < k ==> es[i].name != name)
    requires k < |es| ==> es[k].name == name
    ensures Find(es, name) == k
  {
  }

  method InodeOf(buf: array<byte>, o: nat) returns (r: u32)
    requires buf.Length == 512 && o + HEADER <= 512
    ensures r == InodeAt(buf[..], o)
  {
    assert buf[o..o + 4] == buf[..][o..o + 4];
    r := Join(buf[o..o + 4]);
  }

  method RecLenOf(buf: array<byte>, o: nat) returns (r: u16)
    requires buf.Length == 512 && o + HEADER <= 512
    ensures r == RecLen(buf[..], o)
  {
    assert buf[o + 4..o + 6] == buf[..][o + 4..o + 4 + 2];
    r := Join(buf[o + 4..o + 6]);
  }

  method NameLenOf(buf: array<byte>, o: nat) returns (r: u16)
    requires buf.Length == 512 && o + HEADER <= 512
    ensures r == NameLen(buf[..], o)
  {
    assert buf[o + 6..o + 8] == buf[..][o + 6..o + 6 + 2];
    r := Join(buf[o + 6..o + 8]);
  }

  // Start of the last record of the block.
  method FindLast(buf: array<byte>) returns (last: nat, ghost k: nat)
    requires buf.Length == 512 && Chain(buf[..], 0) && AllUsed(Entries(buf[..], 0))
    ensures last == Last(buf[..], 0)
    ensures Steps(buf[..], 0, k, last) && RecordAt(buf[..], last) && last + RecLen(buf[..], last) == 512
  {
    hide Last, Chain, Entries, EntryAt, RecordAt, Steps, AllUsed;
    ghost var b := buf[..];
    var o := 0;
    last, k := 0, 0;
    ghost var n := 0;
    StepsStart(b, 0);
    ChainHead(b, 0);
    HeaderFits(b, 0);
    while o < 512
      invariant Chain(b, 0) && Steps(b, 0, n, o) && Position(b, n, o)
      invariant n > 0 ==> k == n - 1 && Steps(b, 0, k, last) && RecordAt(b, last) && Follows(b, last, o)
      invariant n == 0 ==> o == 0
      decreases 512 - o
    {
      ChainHead(b, o);
      HeaderFits(b, o);
      UsedHere(b, n, o);
      var inode := InodeOf(buf, o);
      var rec := RecLenOf(buf, o);
      if inode == 0 || rec == 0 || o + rec > 512 {
        break;
      }
      last, k := o, n;
      StepsMore(b, 0, n, o);
      o, n := o + rec, n + 1;
      PositionAfter(b, n, o);
    }
    FollowsEnd(b, last, o);
    LastReached(b, 0, k, last);
  }

  ghost predicate Follows(b: Block, last: nat, o: nat)
    requires RecordAt(b, last)
  {
    last + RecLen(b, last) == o
  }

  lemma FollowsEnd(b: Block, last: nat, o: nat)
    requires RecordAt(b, last) && Follows(b, last, o)
    ensures last + RecLen(b, last) == o
  {
  }

  function Splice(s: seq<byte>, o: nat, t: seq<byte>): (r: seq<byte>)
    requires o + |t| <= |s|
    ensures |r| == |s| && r[o..o + |t|] == t
    ensures forall x :: 0 <= x < |s| && !(o <= x < o + |t|) ==> r[x] == s[x]
  {
    s[..o] + t + s[o + |t|..]
  }

  // Stores the bytes t at offset o of the buffer.
  method Put(buf: array<byte>, o: nat, t: seq<byte>)
    requires o + |t| <= buf.Length
    modifies buf
    ensures buf[..] == Splice(old(buf[..]), o, t)
  {
    var i := 0;
    while i < |t|
      invariant 0 <= i <= |t|
      invariant forall x :: 0 <= x < buf.Length ==> buf[x] == if o <= x < o + i then t[x - o] else old(buf[x])
    {
      buf[o + i] := t[i];
      i := i + 1;
    }
  }

  // Fills in a record field by field.
  method PutEntry(buf: array<byte>, o: nat, e: Entry, recLen: u16)
    requires |e.name| <= 255 && o + HEADER + |e.name| <= buf.Length
    modifies buf
    ensures buf[..] == Splice(old(buf[..]), o, EncodeEntry(e, recLen))
  {
    ghost var b := buf[..];
    Put(buf, o, Bytes32(e.inode));
    Put(buf, o + 6, Bytes16(|e.name|));
    Put(buf, o + 8, [e.ftype]);
    Put(buf, o + 4, Bytes16(recLen));
    Put(buf, o + HEADER, e.name);
    FieldsPut(b, o, e, recLen, buf[..]);
  }

  lemma FieldsPut(b: seq<byte>, o: nat, e: Entry, recLen: u16, c: seq<byte>)
    requires |e.name| <= 255 && o + HEADER + |e.name| <= |b|
    requires c == Splice(Splice(Splice(Splice(Splice(b, o, Bytes32(e.inode)), o + 6, Bytes16(|e.name|)),
                                       o + 8, [e.ftype]), o + 4, Bytes16(recLen)), o + HEADER, e.name)
    ensures c == Splice(b, o, EncodeEntry(e, recLen))
  {
    var s, m := EncodeEntry(e, recLen), HEADER + |e.name|;
    var r := Splice(b, o, s);
    forall x | 0 <= x < |b| ensures c[x] == r[x] {
      if o <= x < o + m {
        assert r[o..o + m][x - o] == s[x - o];
      }
    }
  }

  // Start of the last record of a chain.
  function Last(b: Block, o: nat): (l: nat)
    requires Chain(b, o) && o < 512
    ensures RecordAt(b, l) && l + RecLen(b, l) == 512
    decreases 512 - o
  {
    if o + RecLen(b, o) == 512 then o else Last(b, o + RecLen(b, o))
  }

  lemma {:induction false} LastReached(b: Block, o: nat, k: nat, last: nat)
    requires Chain(b, o) && o < 512 && Steps(b, o, k, last) && RecordAt(b, last) && last + RecLen(b, last) == 512
    ensures Last(b, o) == last && k + 1 == |Entries(b, o)|
    decreases k
  {
    hide RecLen, EntryAt;
    if k > 0 {
      OneStep(b, o, k, last);
      LastReached(b, o + RecLen(b, o), k - 1, last);
    } else {
      ChainHead(b, o);
      ChainEnd(b, 512);
    }
  }

  // The last record holds the last entry.
  lemma {:induction false} LastEntry(b: Block, o: nat)
    requires Chain(b, o) && o < 512
    ensures Entries(b, o) != [] && Entries(b, o)[|Entries(b, o)| - 1] == EntryAt(b, Last(b, o))
    ensures NameLen(b, Last(b, o)) == |Entries(b, o)[|Entries(b, o)| - 1].name|
    decreases 512 - o
  {
    ChainHead(b, o);
    ChainEnd(b, o + RecLen(b, o));
    if o + RecLen(b, o) < 512 {
      LastEntry(b, o + RecLen(b, o));
    }
  }

  // The unused tail of the last record can hold a record for a name of n bytes.
  predicate HasRoom(b: Block, n: nat)
    requires Chain(b, 0)
  {
    var last := Last(b, 0);
    last + HEADER + NameLen(b, last) + HEADER + n <= 512
  }

  /** There is room for a name of n bytes exactly when the header and the name of the last record, and
      a header and a name of n bytes behind them, end inside the block. */
  lemma RoomExact(b: Block, n: nat)
    requires Chain(b, 0)
    ensures Entries(b, 0) != []
    ensures HasRoom(b, n) <==> Last(b, 0) + 9 + |Entries(b, 0)[|Entries(b, 0)| - 1].name| + 9 + n <= 512
  {
    hide Chain, Entries, Last;
    LastEntry(b, 0);
  }

  /** Appends an entry by splitting the unused tail off the last record; refuses when the
      tail is too small. */
  method AppendEntry(buf: array<byte>, e: Entry) returns (added: bool)
    requires buf.Length == 512 && Chain(buf[..], 0) && AllUsed(Entries(buf[..], 0)) && |e.name| <= 255
    modifies buf
    ensures added <==> HasRoom(old(buf[..]), |e.name|)
    ensures added ==> Chain(buf[..], 0) && Entries(buf[..], 0) == old(Entries(buf[..], 0)) + [e]
    ensures added ==> forall n: nat :: HasRoom(buf[..], n) <==> HasRoom(old(buf[..]), HEADER + |e.name| + n)
    ensures !added ==> buf[..] == old(buf[..])
  {
    hide Chain, Entries, EntryAt, Steps, RecordAt, HasRoom, EncodeEntry, AllUsed;
    ghost var b := buf[..];
    var last, k := FindLast(buf);
    RoomOf(b, last, k, |e.name|);
    var newSize := HEADER + |e.name|;
    var lastRec := RecLenOf(buf, last);
    var lastName := NameLenOf(buf, last);
    var actual := HEADER + lastName % 256;
    added := lastRec - actual >= newSize;
    if added {
      SplitTail(buf, last, actual, e, k);
    }
  }

  lemma RoomOf(b: Block, last: nat, k: nat, n: nat)
    requires Chain(b, 0) && Steps(b, 0, k, last) && RecordAt(b, last) && last + RecLen(b, last) == 512
    ensures last + HEADER <= 512 && NameLen(b, last) <= 255
    ensures HasRoom(b, n) <==> RecLen(b, last) - (HEADER + NameLen(b, last)) >= HEADER + n
  {
    LastReached(b, 0, k, last);
  }

  // Shrinks the last record to the given size and writes the new one behind it.
  method SplitTail(buf: array<byte>, last: nat, actual: nat, e: Entry, ghost k: nat)
    requires buf.Length == 512 && Chain(buf[..], 0) && |e.name| <= 255
    requires Steps(buf[..], 0, k, last) && RecordAt(buf[..], last) && last + RecLen(buf[..], last) == 512
    requires actual == HEADER + NameLen(buf[..], last) && last + actual + HEADER + |e.name| <= 512
    modifies buf
    ensures Chain(buf[..], 0) && Entries(buf[..], 0) == old(Entries(buf[..], 0)) + [e]
    ensures forall n: nat :: HasRoom(buf[..], n) <==> HasRoom(old(buf[..]), HEADER + |e.name| + n)
  {
    hide Chain, Entries, EntryAt, Steps, EncodeEntry, Splice, HasRoom, Appended, NameLen, RecLen, Last;
    ghost var b := buf[..];
    HeaderFits(b, last);
    hide RecordAt;
    Put(buf, last + 4, Bytes16(actual));
    var o := last + actual;
    PutEntry(buf, o, e, 512 - o);
    AppendedBytes(b, last, e, buf[..]);
    AppendedChain(b, last, k, e, buf[..]);
    forall n: nat ensures HasRoom(buf[..], n) <==> HasRoom(b, HEADER + |e.name| + n) {
      AppendedRoom(b, last, k, e, buf[..], n);
    }
  }

  lemma {:induction false} StepsKept(b: Block, o: nat, k: nat, t: nat, c: Block)
    requires Chain(b, o) && Steps(b, o, k, t) && t <= 512 && forall x :: 0 <= x < t ==> c[x] == b[x]
    ensures Steps(c, o, k, t)
    decreases k
  {
    hide Chain, RecordAt, RecLen, EntryAt, Entries;
    if k > 0 {
      OneStep(b, o, k, t);
      SameRecord(b, c, o);
      StepsKept(b, o + RecLen(b, o), k - 1, t, c);
    }
  }

  lemma AppendedLastIs(b: Block, last: nat, k: nat, e: Entry, c: Block)
    requires Chain(b, 0) && Steps(b, 0, k, last) && RecordAt(b, last) && last + RecLen(b, last) == 512
    requires |e.name| <= 255 && Appended(b, last, e, c) && Chain(c, 0)
    ensures Last(c, 0) == last + HEADER + NameLen(b, last)
  {
    hide Chain, Entries, EntryAt, RecordAt, Steps, EncodeEntry, RecLen, NameLen, Appended, Last;
    AppendedAt(b, last, e, c);
    AppendedBefore(b, last, e, c);
    HeaderFits(b, last);
    StepsKept(b, 0, k, last, c);
    StepsMore(c, 0, k, last);
    LastReached(c, 0, k + 1, last + HEADER + NameLen(b, last));
  }

  // The room that is left: what was there less header and name of the new record.
  lemma AppendedRoom(b: Block, last: nat, k: nat, e: Entry, c: Block, n: nat)
    requires Chain(b, 0) && Steps(b, 0, k, last) && RecordAt(b, last) && last + RecLen(b, last) == 512
    requires |e.name| <= 255 && Appended(b, last, e, c) && Chain(c, 0)
    ensures HasRoom(c, n) <==> HasRoom(b, HEADER + |e.name| + n)
  {
    hide Chain, Entries, EntryAt, RecordAt, Steps, EncodeEntry, RecLen, NameLen, Appended, Last;
    AppendedAt(b, last, e, c);
    AppendedLastIs(b, last, k, e, c);
    HeaderFits(b, last);
    LastReached(b, 0, k, last);
  }

  lemma AppendedBytes(b: Block, last: nat, e: Entry, c: Block)
    requires RecordAt(b, last) && last + RecLen(b, last) == 512 && |e.name| <= 255
    requires last + HEADER + NameLen(b, last) + HEADER + |e.name| <= 512
    requires var o := last + HEADER + NameLen(b, last);
             c == Splice(Splice(b, last + 4, Bytes16(HEADER + NameLen(b, last))), o, EncodeEntry(e, 512 - o))
    ensures Appended(b, last, e, c)
  {
    var o := last + HEADER + NameLen(b, last);
    var b1 := Splice(b, last + 4, Bytes16(HEADER + NameLen(b, last)));
    assert c[last + 4..last + 6] == b1[last + 4..last + 4 + 2];
  }

  /** Removes the record at t by letting its predecessor absorb it. */
  method RemoveEntryAt(buf: array<byte>, t: nat, ghost k: nat)
    requires buf.Length == 512 && Chain(buf[..], 0) && Steps(buf[..], 0, k, t) && 0 < k && t < 512
    modifies buf
    ensures k < |old(Entries(buf[..], 0))|
    ensures Chain(buf[..], 0) && Entries(buf[..], 0) == Without(old(Entries(buf[..], 0)), k)
  {
    hide Chain, Entries, EntryAt, Steps, RecordAt;
    ghost var b := buf[..];
    PositionAfter(b, k, t);
    ChainHead(b, t);
    HeaderFits(b, t);
    var rec := RecLenOf(buf, t);
    StepsStart(b, 0);
    Towards(b, 0, k, t);
    var prev: nat, found := 0, false;
    ghost var n := 0;
    while prev < t
      invariant buf[..] == b
      invariant n < k && prev < t && Chain(b, 0) && Steps(b, 0, n, prev) && Position(b, n, prev)
      invariant Steps(b, prev, k - n, t)
      decreases k - n
    {
      ChainHead(b, prev);
      HeaderFits(b, prev);
      Towards(b, prev, k - n, t);
      var r := RecLenOf(buf, prev);
      if prev + r == t {
        found := true;
        break;
      }
      StepsMore(b, 0, n, prev);
      prev, n := prev + r, n + 1;
      PositionAfter(b, n, prev);
    }
    if found {
      AbsorbNext(buf, prev, t, rec, n);
    }
  }

  // prev->rec_len += rec_len of the record at t.
  method AbsorbNext(buf: array<byte>, prev: nat, t: nat, rec: u16, ghost n: nat)
    requires buf.Length == 512 && Chain(buf[..], 0) && Steps(buf[..], 0, n, prev)
    requires RecordAt(buf[..], prev) && RecordAt(buf[..], t)
    requires prev + RecLen(buf[..], prev) == t && rec == RecLen(buf[..], t)
    modifies buf
    ensures n + 1 < |old(Entries(buf[..], 0))|
    ensures Chain(buf[..], 0) && Entries(buf[..], 0) == Without(old(Entries(buf[..], 0)), n + 1)
  {
    hide Chain, Entries, EntryAt, Steps, Splice, Without;
    ghost var b := buf[..];
    var r := RecLenOf(buf, prev);
    Put(buf, prev + 4, Bytes16(r + rec));
    AbsorbedBytes(b, prev, t, buf[..]);
    AbsorbedChain(b, prev, n, t, buf[..]);
  }

  lemma Towards(b: Block, o: nat, j: nat, t: nat)
    requires Chain(b, o) && Steps(b, o, j, t) && o < 512 && (j > 0 || o < t)
    ensures 0 < j && RecordAt(b, o) && o + RecLen(b, o) <= t && Steps(b, o + RecLen(b, o), j - 1, t)
    ensures o + RecLen(b, o) == t <==> j == 1
  {
    StepsReach(b, o + RecLen(b, o), j - 1, t);
  }

  lemma AbsorbedBytes(b: Block, prev: nat, t: nat, c: Block)
    requires RecordAt(b, prev) && RecordAt(b, t) && prev + RecLen(b, prev) == t
    requires c == Splice(b, prev + 4, Bytes16(RecLen(b, prev) + RecLen(b, t)))
    ensures Absorbed(b, prev, t, c)
  {
    assert c[prev + 4..prev + 6] == c[prev + 4..prev + 4 + 2];
  }

  ghost predicate UniqueNames(es: seq<Entry>) {
    forall i, j :: 0 <= i < j < |es| ==> es[i].name != es[j].name
  }

  // The finite map a directory stands for.
  ghost function Bindings(es: seq<Entry>): map<seq<byte>, Entry> {
    map k | 0 <= k < |es| && Find(es, es[k].name) == k :: es[k].name := es[k]
  }

  lemma FindUnique(es: seq<Entry>, k: nat)
    requires UniqueNames(es) && k < |es|
    ensures Find(es, es[k].name) == k
  {
  }

  lemma BoundNames(es: seq<Entry>, name: seq<byte>)
    requires UniqueNames(es)
    ensures name in Bindings(es) <==> Find(es, name) < |es|
    ensures Find(es, name) < |es| ==> Bindings(es)[name] == es[Find(es, name)]
  {
    if k :| 0 <= k < |es| && es[k].name == name {
      FindUnique(es, k);
    }
  }

  /** Appending an entry under a new name adds exactly one binding. */
  lemma AppendBinds(es: seq<Entry>, e: Entry)
    requires UniqueNames(es) && Find(es, e.name) == |es|
    ensures UniqueNames(es + [e])
    ensures Bindings(es + [e]) == Bindings(es)[e.name := e]
  {
    hide Find, Bindings;
    forall name
      ensures name in Bindings(es + [e]) <==> name in Bindings(es)[e.name := e]
      ensures name in Bindings(es + [e]) ==> Bindings(es + [e])[name] == Bindings(es)[e.name := e][name]
    {
      BoundNames(es + [e], name);
      BoundNames(es, name);
      FindAppend(es, e, name);
    }
  }

  lemma FindAppend(es: seq<Entry>, e: Entry, name: seq<byte>)
    ensures Find(es + [e], name) ==
            if Find(es, name) < |es| then Find(es, name) else if e.name == name then |es| else |es| + 1
  {
    FindIs(es + [e], name,
           if Find(es, name) < |es| then Find(es, name) else if e.name == name then |es| else |es| + 1);
  }

  /** Removing an entry removes exactly its binding. */
  lemma RemoveUnbinds(es: seq<Entry>, k: nat)
    requires UniqueNames(es) && k < |es|
    ensures UniqueNames(Without(es, k))
    ensures Bindings(Without(es, k)) == Bindings(es) - {es[k].name}
  {
    hide Bindings, UniqueNames, Without, Find;
    WithoutUnique(es, k);
    var m, m' := Bindings(es), Bindings(Without(es, k));
    forall name
      ensures name in m' <==> name in m && name != es[k].name
      ensures name in m' ==> m'[name] == m[name]
    {
      RemoveUnbindsName(es, k, name);
    }
    assert m' == m - {es[k].name};
  }

  lemma RemoveUnbindsName(es: seq<Entry>, k: nat, name: seq<byte>)
    requires UniqueNames(es) && k < |es|
    ensures name in Bindings(Without(es, k)) <==> name in Bindings(es) && name != es[k].name
    ensures name in Bindings(Without(es, k)) ==> Bindings(Without(es, k))[name] == Bindings(es)[name]
  {
    WithoutUnique(es, k);
    hide Find, Bindings, UniqueNames, Without;
    BoundNames(Without(es, k), name);
    BoundNames(es, name);
    FindWithout(es, k, name);
    FindUnique(es, k);
  }

  lemma WithoutUnique(es: seq<Entry>, k: nat)
    requires UniqueNames(es) && k < |es|
    ensures UniqueNames(Without(es, k))
  {
    var fs := Without(es, k);
    assert forall i :: 0 <= i < |fs| ==> fs[i] == es[if i < k then i else i + 1];
  }

  lemma FindWithout(es: seq<Entry>, k: nat, name: seq<byte>)
    requires UniqueNames(es) && k < |es|
    ensures var f := Find(es, name);
            Find(Without(es, k), name) ==
            if name == es[k].name then |es| - 1 else if f < k then f else f - 1
    ensures name != es[k].name && Find(es, name) < |es| ==>
            Without(es, k)[Find(Without(es, k), name)] == es[Find(es, name)]
  {
    var fs, f := Without(es, k), Find(es, name);
    assert forall i :: 0 <= i < |fs| ==> fs[i] == es[if i < k then i else i + 1];
    FindUnique(es, k);
    assert name != es[k].name ==> f != k;
    FindIs(fs, name, if name == es[k].name then |es| - 1 else if f < k then f else f - 1);
  }
}
