/** Bitwise arithmetic on natural numbers and packed bitmaps, as the kernel uses them for
    its page bitmap and for the ext2 block and inode bitmaps: item `i` is bit `i % 8` of
    byte `i / 8`. */
module Bits {

  type byte = x: int | 0 <= x < 256
  type u64 = x: int | 0 <= x < 0x1_0000_0000_0000_0000

  // ------------------------------------------------------------------ single numbers

  /** Bit `k` of `n`: `(n >> k) & 1`. */
  predicate Bit(n: nat, k: nat) {
    if k == 0 then n % 2 == 1 else Bit(n / 2, k - 1)
  }

  /** `1 << k` */
  function Shl1(k: nat): (r: nat)
    ensures r > 0
  {
    if k == 0 then 1 else 2 * Shl1(k - 1)
  }

  /** `a | b` */
  function Or(a: nat, b: nat): nat {
    if a == 0 && b == 0 then 0
    else (if a % 2 == 1 || b % 2 == 1 then 1 else 0) + 2 * Or(a / 2, b / 2)
  }

  /** `a & b` */
  function And(a: nat, b: nat): nat {
    if a == 0 || b == 0 then 0
    else (if a % 2 == 1 && b % 2 == 1 then 1 else 0) + 2 * And(a / 2, b / 2)
  }

  /** `a & ~b` */
  function AndNot(a: nat, b: nat): nat {
    if a == 0 then 0
    else (if a % 2 == 1 && b % 2 == 0 then 1 else 0) + 2 * AndNot(a / 2, b / 2)
  }

  lemma {:induction false} BitOfZero(k: nat)
    ensures !Bit(0, k)
  {
    if k > 0 { BitOfZero(k - 1); }
  }

  lemma BitStep(n: nat, k: nat)
    ensures Bit(n, k) == if k == 0 then n % 2 == 1 else Bit(n / 2, k - 1)
  {
  }

  /** The lowest bit and the others of `a | b`. */
  lemma OrStep(a: nat, b: nat)
    ensures Or(a, b) % 2 == 1 <==> a % 2 == 1 || b % 2 == 1
    ensures Or(a, b) / 2 == Or(a / 2, b / 2)
  {
    if a > 0 || b > 0 { HalfOf(if a % 2 == 1 || b % 2 == 1 then 1 else 0, Or(a / 2, b / 2)); }
  }

  lemma HalfOf(low: nat, high: nat)
    requires low < 2
    ensures (low + 2 * high) % 2 == low && (low + 2 * high) / 2 == high
  {
  }

  lemma {:induction false} BitOr(a: nat, b: nat, k: nat)
    ensures Bit(Or(a, b), k) == (Bit(a, k) || Bit(b, k))
    decreases k
  {
    hide Bit, Or;
    OrStep(a, b);
    BitStep(Or(a, b), k);
    BitStep(a, k);
    BitStep(b, k);
    if k > 0 { BitOr(a / 2, b / 2, k - 1); }
  }

  lemma {:induction false} BitAndNot(a: nat, b: nat, k: nat)
    ensures Bit(AndNot(a, b), k) == (Bit(a, k) && !Bit(b, k))
  {
    if a == 0 {
      BitOfZero(k);
    } else if k > 0 {
      BitAndNot(a / 2, b / 2, k - 1);
    }
  }

  lemma {:induction false} BitShl1(j: nat, k: nat)
    ensures Bit(Shl1(j), k) == (j == k)
  {
    if j == 0 {
      if k > 0 { BitOfZero(k - 1); }
    } else if k > 0 {
      assert Shl1(j) / 2 == Shl1(j - 1);
      BitShl1(j - 1, k - 1);
    }
  }

  /** The C test `a & (1 << k)` is true exactly when bit `k` is set. */
  lemma {:induction false} AndShl1(a: nat, k: nat)
    ensures And(a, Shl1(k)) != 0 <==> Bit(a, k)
  {
    if a == 0 {
      BitOfZero(k);
    } else if k > 0 {
      assert Shl1(k) / 2 == Shl1(k - 1);
      AndShl1(a / 2, k - 1);
    } else {
      assert Shl1(k) / 2 == 0;
    }
  }

  /** `|` and `& ~` of two numbers of `m` bits fit in `m` bits. */
  lemma {:induction false} OrAndNotBound(a: nat, b: nat, m: nat)
    requires a < Shl1(m) && b < Shl1(m)
    ensures Or(a, b) < Shl1(m) && AndNot(a, b) < Shl1(m)
  {
    if m > 0 { OrAndNotBound(a / 2, b / 2, m - 1); }
  }

  /** `1 << k` for a bit position inside a byte. */
  lemma Shl1Byte(k: nat)
    requires k < 8
    ensures Shl1(k) < 256 && Shl1(8) == 256
  {
    assert Shl1(4) == 16;
    assert Shl1(7) == 128;
    if k < 4 { assert Shl1(k) <= 16; } else { assert k == 4 || k == 5 || k == 6 || k == 7; }
  }

  /** `b | (1 << k)` */
  function Set1(b: byte, k: nat): (r: byte)
    requires k < 8
    ensures forall j: nat :: Bit(r, j) == (j == k || Bit(b, j))
  {
    Shl1Byte(k);
    OrAndNotBound(b, Shl1(k), 8);
    assert forall j: nat :: Bit(Or(b, Shl1(k)), j) == (j == k || Bit(b, j)) by {
      forall j: nat ensures Bit(Or(b, Shl1(k)), j) == (j == k || Bit(b, j)) {
        BitOr(b, Shl1(k), j);
        BitShl1(k, j);
      }
    }
    Or(b, Shl1(k))
  }

  /** `b & ~(1 << k)` */
  function Clear1(b: byte, k: nat): (r: byte)
    requires k < 8
    ensures forall j: nat :: Bit(r, j) == (j != k && Bit(b, j))
  {
    Shl1Byte(k);
    OrAndNotBound(b, Shl1(k), 8);
    assert forall j: nat :: Bit(AndNot(b, Shl1(k)), j) == (j != k && Bit(b, j)) by {
      forall j: nat ensures Bit(AndNot(b, Shl1(k)), j) == (j != k && Bit(b, j)) {
        BitAndNot(b, Shl1(k), j);
        BitShl1(k, j);
      }
    }
    AndNot(b, Shl1(k))
  }

  /** A number of `m` bits is determined by them. */
  lemma {:induction false} BitsDetermine(m: nat, a: nat, b: nat)
    requires a < Shl1(m) && b < Shl1(m) && forall k: nat | k < m :: Bit(a, k) == Bit(b, k)
    ensures a == b
  {
    hide Bit;
    if m > 0 {
      BitStep(a, 0);
      BitStep(b, 0);
      forall k: nat | k < m - 1 ensures Bit(a / 2, k) == Bit(b / 2, k) {
        BitStep(a, k + 1);
        BitStep(b, k + 1);
      }
      BitsDetermine(m - 1, a / 2, b / 2);
    }
  }

  /** Setting a clear bit of a byte and clearing it again. */
  lemma SetThenClear(b: byte, k: nat)
    requires k < 8
    ensures !Bit(b, k) ==> Clear1(Set1(b, k), k) == b
    ensures Bit(b, k) ==> Set1(Clear1(b, k), k) == b
  {
    hide Bit;
    Shl1Byte(0);
    if Bit(b, k) { BitsDetermine(8, Set1(Clear1(b, k), k), b); } else { BitsDetermine(8, Clear1(Set1(b, k), k), b); }
  }

  // ------------------------------------------------------------------ bytes as a number

  /** The number that bytes stand for, the lowest first. */
  function LittleEndian(bs: seq<byte>): nat {
    if bs == [] then 0 else bs[0] + 256 * LittleEndian(bs[1..])
  }

  lemma LittleStep(bs: seq<byte>)
    ensures LittleEndian(bs) == if bs == [] then 0 else bs[0] + 256 * LittleEndian(bs[1..])
  {
  }

  lemma TwoBytes(bs: seq<byte>)
    requires |bs| == 2
    ensures LittleEndian(bs) == bs[0] as int + 0x100 * (bs[1] as int)
  {
    hide LittleEndian;
    LittleStep(bs);
    LittleStep(bs[1..]);
    LittleStep(bs[1..][1..]);
  }

  lemma FourBytes(bs: seq<byte>)
    requires |bs| == 4
    ensures LittleEndian(bs) ==
              bs[0] as int + 0x100 * (bs[1] as int) + 0x1_0000 * (bs[2] as int) + 0x100_0000 * (bs[3] as int)
  {
    hide LittleEndian;
    TwoBytes(bs[2..]);
    LittleStep(bs);
    LittleStep(bs[1..]);
    assert bs[1..][1..] == bs[2..];
  }

  /** The bits of a number whose lowest `m` bits are those of `low`. */
  lemma {:induction false} BitSplit(m: nat, low: nat, high: nat, k: nat)
    requires low < Shl1(m)
    ensures Bit(low + Shl1(m) * high, k) == if k < m then Bit(low, k) else Bit(high, k - m)
  {
    hide Bit;
    if m > 0 {
      var n := low / 2 + Shl1(m - 1) * high;
      assert low + Shl1(m) * high == low % 2 + 2 * n;
      HalfOf(low % 2, n);
      BitStep(low + Shl1(m) * high, k);
      BitStep(low, k);
      if k > 0 { BitSplit(m - 1, low / 2, high, k - 1); }
    }
  }

  // ------------------------------------------------------------------ packed bitmaps

  /** Item `i` of a packed bitmap is marked used. */
  predicate Used(bitmap: seq<byte>, i: nat)
    requires i < 8 * |bitmap|
  {
    Bit(bitmap[i / 8], i % 8)
  }

  /** A bitmap is one number, and item `i` its bit `i`. */
  lemma {:induction false} BitmapIsNumber(bitmap: seq<byte>, i: nat)
    requires i < 8 * |bitmap|
    ensures Used(bitmap, i) <==> Bit(LittleEndian(bitmap), i)
  {
    hide Bit;
    Shl1Byte(0);
    BitSplit(8, bitmap[0], LittleEndian(bitmap[1..]), i);
    if i >= 8 {
      assert (i - 8) / 8 == i / 8 - 1 && (i - 8) % 8 == i % 8;
      BitmapIsNumber(bitmap[1..], i - 8);
    }
  }

  /** The items below `n` whose bit is clear. */
  ghost function ClearBits(bitmap: seq<byte>, n: nat): set<nat>
    requires n <= 8 * |bitmap|
  {
    set i: nat | i < n && !Used(bitmap, i)
  }

  function MarkUsed(bitmap: seq<byte>, i: nat): (r: seq<byte>)
    requires i < 8 * |bitmap|
    ensures |r| == |bitmap|
    ensures forall j: nat | j < 8 * |bitmap| :: Used(r, j) == (j == i || Used(bitmap, j))
  {
    bitmap[i / 8 := Set1(bitmap[i / 8], i % 8)]
  }

  function MarkFree(bitmap: seq<byte>, i: nat): (r: seq<byte>)
    requires i < 8 * |bitmap|
    ensures |r| == |bitmap|
    ensures forall j: nat | j < 8 * |bitmap| :: Used(r, j) == (j != i && Used(bitmap, j))
  {
    bitmap[i / 8 := Clear1(bitmap[i / 8], i % 8)]
  }

  lemma MarkBack(bitmap: seq<byte>, i: nat)
    requires i < 8 * |bitmap|
    ensures !Used(bitmap, i) ==> MarkFree(MarkUsed(bitmap, i), i) == bitmap
    ensures Used(bitmap, i) ==> MarkUsed(MarkFree(bitmap, i), i) == bitmap
  {
    hide Bit, Set1, Clear1;
    SetThenClear(bitmap[i / 8], i % 8);
  }

  lemma ClearBitsMarkUsed(bitmap: seq<byte>, n: nat, i: nat)
    requires i < n <= 8 * |bitmap|
    ensures ClearBits(MarkUsed(bitmap, i), n) == ClearBits(bitmap, n) - {i}
  {
  }

  lemma ClearBitsMarkFree(bitmap: seq<byte>, n: nat, i: nat)
    requires i < n <= 8 * |bitmap|
    ensures ClearBits(MarkFree(bitmap, i), n) == ClearBits(bitmap, n) + {i}
  {
  }

  /** A bitmap filled with 0xFF has no clear bit. */
  lemma AllOnes(bitmap: seq<byte>, n: nat)
    requires n <= 8 * |bitmap|
    requires forall i | 0 <= i < |bitmap| :: bitmap[i] == 255
    ensures ClearBits(bitmap, n) == {}
  {
    assert Shl1(0) == 1;
    forall i: nat | i < n ensures Used(bitmap, i) {
      OnesBit(8, i % 8);
      Shl1Byte(0);
    }
  }

  /** `(1 << m) - 1` has its lowest `m` bits set and no others. */
  lemma {:induction false} OnesBit(m: nat, k: nat)
    ensures Bit(Shl1(m) - 1, k) == (k < m)
  {
    if m == 0 {
      BitOfZero(k);
    } else if k > 0 {
      assert (Shl1(m) - 1) / 2 == Shl1(m - 1) - 1;
      OnesBit(m - 1, k - 1);
    }
  }

  // ------------------------------------------------------------------ finite sets of numbers

  /** The least element of a finite set. */
  ghost function Least(s: set<nat>): (r: nat)
    requires s != {}
    ensures r in s && forall x | x in s :: r <= x
  {
    var x :| x in s;
    var rest := s - {x};
    assert s == rest + {x};
    if rest == {} then x
    else
      var y := Least(rest);
      if x < y then x else y
  }

  /** The numbers from `lo` up to but not including `hi`. */
  ghost function Interval(lo: nat, hi: nat): (s: set<nat>)
    ensures forall i: nat :: i in s <==> lo <= i < hi
    ensures |s| == if lo <= hi then hi - lo else 0
  {
    if lo < hi then Interval(lo, hi - 1) + {hi - 1} else {}
  }

  /** A set of numbers below `n` has at most `n` elements. */
  lemma BoundedSet(s: set<nat>, n: nat)
    requires forall x | x in s :: x < n
    ensures |s| <= n
  {
    Contained(s, Interval(0, n));
  }

  lemma Contained<T>(a: set<T>, b: set<T>)
    requires a <= b
    ensures |a| <= |b| && |b - a| == |b| - |a|
  {
    assert b == a + (b - a);
  }
}
