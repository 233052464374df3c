/** Bytes, fixed-width integers, disk blocks and the little-endian layout of the
    integers that the file system keeps inside blocks (x86 byte order). */
module Bytes {

  type byte = x: int | 0 <= x < 256
  type u16 = x: int | 0 <= x < 0x1_0000
  type u32 = x: int | 0 <= x < 0x1_0000_0000

  const BLOCK_SIZE := 512

  type Block = b: seq<byte> | |b| == 512 witness seq(512, _ => 0)
  type Table = t: seq<u32> | |t| == 128 witness seq(128, _ => 0)

  // The k-th base-256 digit of x, least significant first.
  function ByteOf(x: nat, k: nat): byte
    decreases k
  {
    if k == 0 then x % 256 else ByteOf(x / 256, k - 1)
  }

  // The number whose base-256 digits are s, least significant first.
  function Join(s: seq<byte>): (x: nat)
    ensures |s| == 1 ==> x < 0x100
    ensures |s| == 2 ==> x < 0x1_0000
    ensures |s| == 3 ==> x < 0x100_0000
    ensures |s| == 4 ==> x < 0x1_0000_0000
  {
    if s == [] then 0 else s[0] + 256 * Join(s[1..])
  }

  function Bytes16(x: u16): seq<byte> { [ByteOf(x, 0), ByteOf(x, 1)] }
  function Bytes32(x: u32): seq<byte> { [ByteOf(x, 0), ByteOf(x, 1), ByteOf(x, 2), ByteOf(x, 3)] }

  lemma {:induction false} JoinByte(x: nat, s: seq<byte>)
    requires s != [] && s[0] == x % 256 && Join(s[1..]) == x / 256
    ensures Join(s) == x
  {
  }

  lemma {:induction false} JoinBytes16(x: u16)
    ensures Join(Bytes16(x)) == x
  {
    var s := Bytes16(x);
    assert ByteOf(x, 1) == ByteOf(x / 256, 0);
    assert Join(s[1..][1..]) == 0;
    JoinByte(x / 256, s[1..]);
    JoinByte(x, s);
  }

  lemma {:induction false} JoinBytes32(x: u32)
    ensures Join(Bytes32(x)) == x
  {
    var q1 := x / 256;
    var q2 := q1 / 256;
    var q3 := q2 / 256;
    assert ByteOf(x, 1) == ByteOf(q1, 0);
    assert ByteOf(x, 2) == ByteOf(q1, 1) == ByteOf(q2, 0);
    assert ByteOf(x, 3) == ByteOf(q1, 2) == ByteOf(q2, 1) == ByteOf(q3, 0);
    var s := Bytes32(x);
    assert s[1..][1..] == s[2..] && s[2..][1..] == s[3..] && s[3..][1..] == [];
    JoinByte(q3, s[3..]);
    JoinByte(q2, s[2..]);
    JoinByte(q1, s[1..]);
    JoinByte(x, s);
  }

  lemma JoinZeros(s: seq<byte>)
    requires forall k :: 0 <= k < |s| ==> s[k] == 0
    ensures Join(s) == 0
  {
  }

  // The integers stored at offset off.
  function Half(s: seq<byte>, off: nat): u16
    requires off + 2 <= |s|
  {
    Join(s[off..off + 2])
  }

  function Word(s: seq<byte>, off: nat): u32
    requires off + 4 <= |s|
  {
    Join(s[off..off + 4])
  }

  lemma SubSlice(c: seq<byte>, o: nat, m: nat, x: nat, y: nat)
    requires x <= y <= m && o + m <= |c|
    ensures c[o + x..o + y] == c[o..o + m][x..y]
  {
    var p, q := c[o + x..o + y], c[o..o + m][x..y];
    assert forall i :: 0 <= i < y - x ==> p[i] == q[i];
  }

  // The number in two and in four bytes, least significant first.
  function Two(a: int, b: int): int { a + 0x100 * b }
  function Four(a: int, b: int, c: int, d: int): int { a + 0x100 * b + 0x1_0000 * c + 0x100_0000 * d }

  /** Little-endian: the first byte is the least significant one. */
  lemma LittleEndian(s: seq<byte>, off: nat)
    ensures off + 2 <= |s| ==> Half(s, off) == Two(s[off], s[off + 1])
    ensures off + 4 <= |s| ==> Word(s, off) == Four(s[off], s[off + 1], s[off + 2], s[off + 3])
  {
    if off + 2 <= |s| {
      JoinStep(s[off..off + 2]);
      JoinStep(s[off..off + 2][1..]);
      assert s[off..off + 2][1..][1..] == [];
    }
    if off + 4 <= |s| {
      var t := s[off..off + 4];
      JoinStep(t);
      JoinStep(t[1..]);
      JoinStep(t[1..][1..]);
      JoinStep(t[1..][1..][1..]);
      assert t[1..][1..][1..][1..] == [];
    }
  }

  lemma JoinStep(s: seq<byte>)
    requires s != []
    ensures Join(s) == s[0] + 256 * Join(s[1..]) && Join([]) == 0
  {
  }

  // The bytes that store a row of 32-bit words.
  function Words(ws: seq<u32>): (s: seq<byte>)
    ensures |s| == 4 * |ws|
  {
    seq(4 * |ws|, k requires 0 <= k < 4 * |ws| => ByteOf(ws[k / 4], k % 4))
  }

  lemma WordBytes(ws: seq<u32>, i: nat, k: nat)
    requires i < |ws| && k < 4
    ensures Words(ws)[4 * i + k] == ByteOf(ws[i], k)
  {
    assert (4 * i + k) / 4 == i && (4 * i + k) % 4 == k;
  }

  lemma WordOfWords(ws: seq<u32>, i: nat)
    requires i < |ws|
    ensures Word(Words(ws), 4 * i) == ws[i]
  {
    WordBytes(ws, i, 0);
    WordBytes(ws, i, 1);
    WordBytes(ws, i, 2);
    WordBytes(ws, i, 3);
    JoinBytes32(ws[i]);
    assert Words(ws)[4 * i..4 * i + 4] == Bytes32(ws[i]);
  }

  // The first n words of a buffer.
  function DecodeWords(b: seq<byte>, n: nat): (t: seq<u32>)
    requires 4 * n <= |b|
    ensures |t| == n
  {
    if n == 0 then [] else DecodeWords(b, n - 1) + [Word(b, 4 * (n - 1))]
  }

  lemma DecodedWord(b: seq<byte>, n: nat, i: nat)
    requires 4 * n <= |b| && i < n
    ensures DecodeWords(b, n)[i] == Word(b, 4 * i)
  {
  }

  // A 512-byte buffer reinterpreted as 128 pointers, and back.
  function DecodeTable(b: Block): Table {
    DecodeWords(b, 128)
  }

  function EncodeTable(t: Table): Block {
    Words(t)
  }

  lemma TableRoundTrip(t: Table)
    ensures DecodeTable(EncodeTable(t)) == t
  {
    forall i | 0 <= i < 128 ensures DecodeTable(EncodeTable(t))[i] == t[i] {
      DecodedWord(EncodeTable(t), 128, i);
      WordOfWords(t, i);
    }
  }

  function ZeroBlock(): Block { seq(512, _ => 0) }
  function ZeroTable(): Table { seq(128, _ => 0) }

  lemma ZeroWords(b: seq<byte>, n: nat)
    requires 4 * n <= |b| && forall k :: 0 <= k < |b| ==> b[k] == 0
    ensures forall i :: 0 <= i < n ==> DecodeWords(b, n)[i] == 0
  {
    if n > 0 {
      ZeroWords(b, n - 1);
      JoinZeros(b[4 * (n - 1)..4 * n]);
    }
  }

  lemma ZeroBlockIsZeroTable()
    ensures DecodeTable(ZeroBlock()) == ZeroTable()
  {
    ZeroWords(ZeroBlock(), 128);
  }
}
