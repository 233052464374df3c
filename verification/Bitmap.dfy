/** One 512-byte bitmap block: bit j lives in byte j / 8 at position j % 8. */
module Bitmap {
  import opened Bytes

  const BITS := 4096

  // Bit k of a byte.
  predicate BitOf(x: nat, k: nat)
    decreases k
  {
    if k == 0 then x % 2 == 1 else BitOf(x / 2, k - 1)
  }

  function Pow2(n: nat): nat { if n == 0 then 1 else 2 * Pow2(n - 1) }

  // A number with bit k forced to one, and to zero.
  function With(x: nat, k: nat): (y: nat)
    decreases k
  {
    if k == 0 then x - x % 2 + 1 else 2 * With(x / 2, k - 1) + x % 2
  }

  function WithoutBit(x: nat, k: nat): (y: nat)
    decreases k
  {
    if k == 0 then x - x % 2 else 2 * WithoutBit(x / 2, k - 1) + x % 2
  }

  lemma {:induction false} BitBounds(x: nat, k: nat, n: nat, bound: nat)
    requires x < bound == Pow2(n) && k < n
    ensures With(x, k) < bound && WithoutBit(x, k) < bound
    decreases k
  {
    if k > 0 {
      BitBounds(x / 2, k - 1, n - 1, bound / 2);
    }
  }

  // The same for bytes.
  function Or(x: byte, k: nat): byte
    requires k < 8
  {
    assert Pow2(8) == 256;
    BitBounds(x, k, 8, 256);
    With(x, k)
  }

  function AndNot(x: byte, k: nat): byte
    requires k < 8
  {
    assert Pow2(8) == 256;
    BitBounds(x, k, 8, 256);
    WithoutBit(x, k)
  }

  predicate Bit(b: Block, j: int)
    requires 0 <= j < BITS
  {
    BitOf(b[j / 8], j % 8)
  }

  function SetBit(b: Block, j: int): Block
    requires 0 <= j < BITS
  {
    b[j / 8 := Or(b[j / 8], j % 8)]
  }

  function ClearBit(b: Block, j: int): Block
    requires 0 <= j < BITS
  {
    b[j / 8 := AndNot(b[j / 8], j % 8)]
  }

  // The indices of the bits that are set.
  function Marked(b: Block): (s: set<int>)
    ensures forall j :: j in s <==> 0 <= j < BITS && Bit(b, j)
  {
    set j | 0 <= j < BITS && Bit(b, j)
  }

  lemma LowBit(x: bv8)
    ensures (x & 1 != 0) == ((x as int) % 2 == 1)
  {
  }

  lemma Halved(x: bv8)
    ensures (x >> 1) as int == (x as int) / 2
  {
  }

  /** BitOf is the test the source performs, x & (1 << k). */
  lemma {:induction false} BitOfIsMask(x: bv8, k: nat)
    requires k < 8
    ensures BitOf(x as int, k) == (x & ((1 as bv8) << k) != 0)
    decreases k
  {
    if k == 0 {
      LowBit(x);
    } else {
      Halved(x);
      BitOfIsMask(x >> 1, k - 1);
      assert (x & ((1 as bv8) << k) != 0) == ((x >> 1) & ((1 as bv8) << (k - 1)) != 0);
    }
  }

  lemma OrMask(v: bv8, k: nat, m: nat)
    requires k < 8 && m < 8
    ensures ((v | ((1 as bv8) << k)) & ((1 as bv8) << m) != 0) == (k == m || v & ((1 as bv8) << m) != 0)
  {
  }

  lemma AndNotMask(v: bv8, k: nat, m: nat)
    requires k < 8 && m < 8
    ensures ((v & !((1 as bv8) << k)) & ((1 as bv8) << m) != 0) == (k != m && v & ((1 as bv8) << m) != 0)
  {
  }

  // Or forces exactly bit k to 1, AndNot forces exactly bit k to 0.
  lemma {:induction false} OrSets(x: nat, k: nat, m: nat)
    ensures BitOf(With(x, k), m) == (k == m || BitOf(x, m))
    decreases k
  {
    if k > 0 && m > 0 {
      OrSets(x / 2, k - 1, m - 1);
    }
  }

  lemma {:induction false} AndNotClears(x: nat, k: nat, m: nat)
    ensures BitOf(WithoutBit(x, k), m) == (k != m && BitOf(x, m))
    decreases k
  {
    if k > 0 && m > 0 {
      AndNotClears(x / 2, k - 1, m - 1);
    }
  }

  lemma {:induction false} BitsDetermine(x: byte, y: byte, n: nat, bound: nat)
    requires x < bound && y < bound && bound == Pow2(n)
    requires forall m :: 0 <= m < n ==> BitOf(x, m) == BitOf(y, m)
    ensures x == y
    decreases n
  {
    if n > 0 {
      assert BitOf(x, 0) == BitOf(y, 0);
      forall m | 0 <= m < n - 1 ensures BitOf(x / 2, m) == BitOf(y / 2, m) {
        assert BitOf(x, m + 1) == BitOf(y, m + 1);
      }
      BitsDetermine(x / 2, y / 2, n - 1, bound / 2);
    }
  }

  lemma SameByte(x: byte, y: byte)
    requires forall m :: 0 <= m < 8 ==> BitOf(x, m) == BitOf(y, m)
    ensures x == y
  {
    assert Pow2(8) == 256;
    BitsDetermine(x, y, 8, 256);
  }

  lemma OrBit(v: bv8, k: nat, m: nat)
    requires k < 8 && m < 8
    ensures BitOf((v | ((1 as bv8) << k)) as int, m) == (k == m || BitOf(v as int, m))
  {
    hide BitOf;
    BitOfIsMask(v, m);
    BitOfIsMask(v | ((1 as bv8) << k), m);
    OrMask(v, k, m);
  }

  lemma AndNotBit(v: bv8, k: nat, m: nat)
    requires k < 8 && m < 8
    ensures BitOf((v & !((1 as bv8) << k)) as int, m) == (k != m && BitOf(v as int, m))
  {
    hide BitOf;
    BitOfIsMask(v, m);
    BitOfIsMask(v & !((1 as bv8) << k), m);
    AndNotMask(v, k, m);
  }

  lemma SameBits(x: byte, y: byte, z: byte, k: nat, on: bool)
    requires k < 8 && y == if on then Or(x, k) else AndNot(x, k)
    requires forall m :: 0 <= m < 8 ==> (BitOf(z, m) <==> if m == k then on else BitOf(x, m))
    ensures y == z
  {
    hide BitOf, With, WithoutBit;
    forall m | 0 <= m < 8 ensures BitOf(y, m) == BitOf(z, m) {
      OrSets(x, k, m);
      AndNotClears(x, k, m);
    }
    SameByte(y, z);
  }

  /** Or and AndNot are the byte operations of the source, x | (1 << k) and x & ~(1 << k). */
  lemma OrIsMachine(v: bv8, k: nat, w: bv8)
    requires k < 8 && w == v | ((1 as bv8) << k)
    ensures Or(v as int, k) == w as int
  {
    hide BitOf, Or;
    var x: byte, y: byte := v as int, w as int;
    forall m: nat | m < 8 ensures BitOf(y, m) <==> if m == k then true else BitOf(x, m) {
      OrBit(v, k, m);
    }
    SameBits(x, Or(x, k), y, k, true);
  }

  lemma AndNotIsMachine(v: bv8, k: nat, w: bv8)
    requires k < 8 && w == v & !((1 as bv8) << k)
    ensures AndNot(v as int, k) == w as int
  {
    hide BitOf, AndNot;
    var x: byte, y: byte := v as int, w as int;
    forall m: nat | m < 8 ensures BitOf(y, m) <==> if m == k then false else BitOf(x, m) {
      AndNotBit(v, k, m);
    }
    SameBits(x, AndNot(x, k), y, k, false);
  }

  // Setting a bit marks exactly that index; clearing it unmarks exactly that index.
  lemma SetBitMarks(b: Block, j: int)
    requires 0 <= j < BITS
    ensures Marked(SetBit(b, j)) == Marked(b) + {j}
  {
    forall i | 0 <= i < BITS ensures Bit(SetBit(b, j), i) == (i == j || Bit(b, i)) {
      OrSets(b[j / 8], j % 8, i % 8);
      assert i == j <==> i / 8 == j / 8 && i % 8 == j % 8;
    }
  }

  lemma ClearBitUnmarks(b: Block, j: int)
    requires 0 <= j < BITS
    ensures Marked(ClearBit(b, j)) == Marked(b) - {j}
  {
    forall i | 0 <= i < BITS ensures Bit(ClearBit(b, j), i) == (i != j && Bit(b, i)) {
      AndNotClears(b[j / 8], j % 8, i % 8);
      assert i == j <==> i / 8 == j / 8 && i % 8 == j % 8;
    }
  }

  // Two bitmaps with the same marked indices are the same 512 bytes.
  lemma MarkedDetermines(b: Block, c: Block)
    requires Marked(b) == Marked(c)
    ensures b == c
  {
    forall x | 0 <= x < 512 ensures b[x] == c[x] {
      forall m | 0 <= m < 8 ensures BitOf(b[x], m) == BitOf(c[x], m) {
        var j := 8 * x + m;
        assert j / 8 == x && j % 8 == m;
        assert j in Marked(b) <==> j in Marked(c);
      }
      SameByte(b[x], c[x]);
    }
  }

  function Below(n: nat): (s: set<int>)
    ensures |s| == n
    ensures forall j :: j in s <==> 0 <= j < n
  {
    if n == 0 then {} else Below(n - 1) + {n - 1}
  }

  lemma SubsetSize<T>(a: set<T>, b: set<T>)
    requires a <= b
    ensures |a| <= |b|
    ensures |a| == |b| ==> a == b
  {
    assert b == a + (b - a);
  }

  // First fit never hands out an index above the number of marked indices.
  lemma FirstFitBound(b: Block, j: nat)
    requires j <= BITS
    requires forall i :: 0 <= i < j ==> Bit(b, i)
    ensures j <= |Marked(b)|
  {
    SubsetSize(Below(j), Marked(b));
  }

  lemma MarkedSize(b: Block)
    ensures |Marked(b)| <= BITS
    ensures |Marked(b)| == BITS <==> forall j :: 0 <= j < BITS ==> Bit(b, j)
  {
    MarkedUpTo(b, BITS);
  }

  lemma MarkedUpTo(b: Block, n: nat)
    requires n == BITS
    ensures |Marked(b)| <= n
    ensures |Marked(b)| == n <==> forall j :: 0 <= j < BITS ==> Bit(b, j)
  {
    hide Bit;
    SubsetSize(Marked(b), Below(n));
    if forall j :: 0 <= j < BITS ==> Bit(b, j) {
      assert Marked(b) == Below(n);
    }
  }

  // Taking a free bit and giving it back leaves the bitmap as it was.
  lemma SetThenClear(b: Block, j: int)
    requires 0 <= j < BITS && !Bit(b, j)
    ensures ClearBit(SetBit(b, j), j) == b
  {
    SetBitMarks(b, j);
    ClearBitUnmarks(SetBit(b, j), j);
    MarkedDetermines(ClearBit(SetBit(b, j), j), b);
  }
}
