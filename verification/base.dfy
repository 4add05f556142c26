/** Arithmetic, sequence and byte helpers shared by every part of the model:
    optional values, powers of two, the `alignOffset` rounding used by both
    ends of the argument-buffer protocol, a bitwise AND on naturals, and
    little-endian byte stores. */
module Base {

  datatype Option<T> = None | Some(value: T)

  /** The outcome of a host operation that the source either completes or
      aborts (POCL_ABORT, std::abort, a failed assert). */
  datatype Result<T> = Ok(value: T) | Abort(reason: string)

  /** Where the source has a defect, the model takes the code as written or
      its evident correction: the stub's distribution of workgroups, the
      pointer value the host stores, the offset the device loads for the
      first local argument, and so on. */
  datatype Variant = AsWritten | Corrected

  /** Bytes are naturals below 256; wider values are stored little-endian. */
  type byte = x: nat | x < 256

  const U32: nat := 0x1_0000_0000

  const U64: nat := 0x1_0000_0000_0000_0000

  /** size_t decrement: one less, modulo 2^64, so 0 wraps to 2^64 - 1. */
  function Dec64(x: nat): (r: nat)
    requires x < U64
    ensures r < U64
    ensures r == (x + U64 - 1) % U64
  {
    if x == 0 then U64 - 1 else x - 1
  }

  /** size_t increment: one more, modulo 2^64, so 2^64 - 1 wraps to 0. */
  function Inc64(x: nat): (r: nat)
    requires x < U64
    ensures r < U64
    ensures r == (x + 1) % U64
  {
    if x == U64 - 1 then 0 else x + 1
  }

  /** The size_t increment and decrement undo each other on every count,
      the wrapping ones included. */
  lemma IncDecInverse(x: nat)
    requires x < U64
    ensures Dec64(Inc64(x)) == x
    ensures Inc64(Dec64(x)) == x
  {
  }

  /** A uint32 read into a C int: the int32 with the same bits, so values
      from 2^31 on come out negative. */
  function ToInt32(x: nat): (r: int)
    requires x < U32
    ensures -0x8000_0000 <= r < 0x8000_0000
    ensures r % U32 == x
    ensures x < 0x8000_0000 ==> r == x
  {
    if x < 0x8000_0000 then x else x - U32
  }

  function Min(a: int, b: int): int { if a < b then a else b }

  function Pow2(k: nat): (r: nat)
    ensures r >= 1
  {
    if k == 0 then 1 else 2 * Pow2(k - 1)
  }

  /** 2^32 is the uint32 modulus. */
  lemma Pow2ThirtyTwo()
    ensures Pow2(32) == U32
  {
    assert Pow2(8) == 256;
    Pow2Add(8, 8);
    Pow2Add(16, 16);
  }

  /** 2^64 is the uint64 modulus. */
  lemma Pow2SixtyFour()
    ensures Pow2(64) == U64
  {
    Pow2ThirtyTwo();
    Pow2Add(32, 32);
  }

  /** x is 2^k for some k. */
  predicate IsPow2(x: nat)
    decreases x
  {
    x == 1 || (x >= 2 && x % 2 == 0 && IsPow2(x / 2))
  }

  lemma {:induction false} Pow2IsPow2(k: nat)
    ensures IsPow2(Pow2(k))
  {
    if k > 0 {
      Pow2IsPow2(k - 1);
      assert Pow2(k) / 2 == Pow2(k - 1);
    }
  }

  lemma {:induction false} Pow2Add(a: nat, b: nat)
    ensures Pow2(a + b) == Pow2(a) * Pow2(b)
  {
    if a > 0 {
      Pow2Add(a - 1, b);
    }
  }

  lemma {:induction false} Pow2Monotone(a: nat, b: nat)
    requires a <= b
    ensures Pow2(a) <= Pow2(b)
  {
    if a < b {
      Pow2Monotone(a, b - 1);
    }
  }

  /** The two alignments the argument-buffer protocol uses: 4 bytes on a
      32-bit device, 8 bytes on a 64-bit one. */
  predicate IsAlign(a: nat) { a == 4 || a == 8 }

  /** `alignOffset(x, a)`: x rounded up to the next multiple of a. The
      source does not define it in the files modelled; both of its callers
      pass a power-of-two alignment of 4 or 8. */
  function AlignOffset(x: nat, a: nat): (r: nat)
    requires IsAlign(a)
    ensures r % a == 0
    ensures x <= r < x + a
  {
    if a == 4 then RoundDown(x + 3, 4); ((x + 3) / 4) * 4
    else RoundDown(x + 7, 8); ((x + 7) / 8) * 8
  }

  /** (y/m)*m is the multiple of m just at or below y. */
  lemma RoundDown(y: nat, m: nat)
    requires m > 0
    ensures (y / m) * m % m == 0 && y - m < (y / m) * m <= y
  {
    DivRemainder(y, m);
    DivModUnique((y / m) * m, m, y / m, 0);
  }

  /** Two multiples of a less than a apart are equal. */
  lemma MultipleWindow(r: nat, s: nat, a: nat)
    requires a > 0 && r % a == 0 && s % a == 0 && r <= s < r + a
    ensures r == s
  {
    DivRemainder(r, a);
    DivRemainder(s, a);
    if r / a < s / a {
      MulDistance(r / a, s / a, a);
      assert false;
    } else if s / a < r / a {
      MulDistance(s / a, r / a, a);
      assert false;
    }
  }

  /** AlignOffset picks the least multiple of a that is not below x. */
  lemma AlignOffsetLeast(x: nat, a: nat, m: nat)
    requires IsAlign(a) && m % a == 0 && x <= m
    ensures AlignOffset(x, a) <= m
  {
    var r := AlignOffset(x, a);
    if m < r {
      MultipleWindow(m, r, a);
      assert false;
    }
  }

  /** An already aligned offset stays put. */
  lemma AlignOffsetAligned(x: nat, a: nat)
    requires IsAlign(a) && x % a == 0
    ensures AlignOffset(x, a) == x
  {
    MultipleWindow(x, AlignOffset(x, a), a);
  }

  /** From an aligned offset, any step of 1..a bytes lands on the next
      alignment boundary. */
  lemma AlignStep(off: nat, n: nat, a: nat)
    requires IsAlign(a) && off % a == 0 && 0 < n <= a
    ensures AlignOffset(off + n, a) == off + a
  {
    DivRemainder(off, a);
    DivModUnique(off + a, a, off / a + 1, 0);
    var r := AlignOffset(off + n, a);
    if r < off + a {
      MultipleWindow(r, off + a, a);
    } else {
      MultipleWindow(off + a, r, a);
    }
  }

  /** Rounding commutes with a shift by a multiple of the alignment. */
  lemma AlignShift(x: nat, m: nat, a: nat)
    requires IsAlign(a) && m % a == 0
    ensures AlignOffset(x + m, a) == AlignOffset(x, a) + m
  {
    var r, s := AlignOffset(x + m, a), AlignOffset(x, a) + m;
    DivRemainder(m, a);
    DivRemainder(AlignOffset(x, a), a);
    MulAddDistrib(AlignOffset(x, a) / a, m / a, a);
    DivModUnique(s, a, AlignOffset(x, a) / a + m / a, 0);
    if r < s {
      MultipleWindow(r, s, a);
    } else {
      MultipleWindow(s, r, a);
    }
  }

  function Sum(s: seq<nat>): (r: nat)
  {
    if |s| == 0 then 0 else Sum(s[..|s| - 1]) + s[|s| - 1]
  }

  lemma SumAppend(s: seq<nat>, x: nat)
    ensures Sum(s + [x]) == Sum(s) + x
  {
    assert (s + [x])[..|s|] == s;
  }

  lemma {:induction false} SumConcat(a: seq<nat>, b: seq<nat>)
    ensures Sum(a + b) == Sum(a) + Sum(b)
    decreases |b|
  {
    if |b| == 0 {
      assert a + b == a;
    } else {
      var b' := b[..|b| - 1];
      assert a + b == (a + b') + [b[|b| - 1]];
      SumAppend(a + b', b[|b| - 1]);
      SumConcat(a, b');
      assert b == b' + [b[|b| - 1]];
      SumAppend(b', b[|b| - 1]);
    }
  }

  lemma SumCons(x: nat, s: seq<nat>)
    ensures Sum([x] + s) == x + Sum(s)
  {
    SumConcat([x], s);
    assert Sum([x]) == Sum([]) + x;
  }

  /** The consecutive naturals lo, lo+1, ..., lo+n-1. */
  function Range(lo: nat, n: nat): (r: seq<nat>)
    ensures |r| == n
    ensures forall i :: 0 <= i < n ==> r[i] == lo + i
  {
    seq(n, i requires 0 <= i < n => lo + i)
  }

  lemma RangeSplit(lo: nat, a: nat, b: nat)
    ensures Range(lo, a) + Range(lo + a, b) == Range(lo, a + b)
  {
  }

  /** Bitwise AND of two naturals, bit by bit from the least significant. */
  function BitAnd(a: nat, b: nat): (r: nat)
    ensures r <= a && r <= b
  {
    if a == 0 || b == 0 then 0 else 2 * BitAnd(a / 2, b / 2) + (a % 2) * (b % 2)
  }

  lemma {:induction false} BitAndSelf(a: nat)
    ensures BitAnd(a, a) == a
  {
    if a != 0 {
      BitAndSelf(a / 2);
    }
  }

  /** x & (x - 1) clears the lowest set bit, so it is 0 exactly for powers of two. */
  lemma {:induction false} BitAndPredecessor(x: nat)
    requires x >= 1
    ensures BitAnd(x, x - 1) == 0 <==> IsPow2(x)
    decreases x
  {
    if x == 1 {
    } else if x % 2 == 1 {
      assert (x - 1) / 2 == x / 2;
      BitAndSelf(x / 2);
      assert BitAnd(x, x - 1) == 2 * (x / 2);
    } else {
      assert (x - 1) / 2 == x / 2 - 1;
      assert BitAnd(x, x - 1) == 2 * BitAnd(x / 2, x / 2 - 1);
      BitAndPredecessor(x / 2);
    }
  }

  /** Little-endian encoding of x in n bytes; higher bits are dropped, as a
      memcpy of the low n bytes of a wider little-endian integer does. */
  function LE(x: nat, n: nat): (r: seq<byte>)
    ensures |r| == n
  {
    if n == 0 then [] else [(x % 256) as byte] + LE(x / 256, n - 1)
  }

  function Pow256(n: nat): (r: nat)
    ensures r >= 1
  {
    if n == 0 then 1 else 256 * Pow256(n - 1)
  }

  function FromLE(s: seq<byte>): nat
  {
    if |s| == 0 then 0 else s[0] + 256 * FromLE(s[1..])
  }

  /** Reading back n little-endian bytes yields x whenever x fits. */
  lemma {:induction false} LERoundTrip(x: nat, n: nat)
    requires x < Pow256(n)
    ensures FromLE(LE(x, n)) == x
  {
    if n > 0 {
      LERoundTrip(x / 256, n - 1);
      assert LE(x, n)[1..] == LE(x / 256, n - 1);
    }
  }

  /** n bytes read little-endian are below 256^n. */
  lemma {:induction false} FromLEBelow(s: seq<byte>)
    ensures FromLE(s) < Pow256(|s|)
  {
    if |s| > 0 {
      FromLEBelow(s[1..]);
      assert FromLE(s[1..]) + 1 <= Pow256(|s| - 1);
      assert 256 * (FromLE(s[1..]) + 1) <= 256 * Pow256(|s| - 1);
    }
  }

  /** Division with remainder is unique. */
  lemma DivModUnique(x: nat, m: nat, q: nat, r: nat)
    requires m > 0 && x == q * m + r && r < m
    ensures x / m == q && x % m == r
  {
    var q', r' := x / m, x % m;
    if q < q' {
      MulDistance(q, q', m);
      assert false;
    } else if q' < q {
      MulDistance(q', q, m);
      assert false;
    }
  }

  /** Two multiples of m with distinct factors lie at least m apart. */
  lemma MulDistance(a: nat, b: nat, m: nat)
    requires a < b
    ensures a * m + m <= b * m
  {
    MulAtLeast(b - a, m);
    assert b * m - a * m == (b - a) * m;
  }

  /** Reducing a summand first does not change a remainder. */
  lemma ModAddLeft(a: nat, b: nat, m: nat)
    requires m > 0
    ensures (a % m + b) % m == (a + b) % m
  {
    var c := a % m + b;
    DivRemainder(a, m);
    DivRemainder(c, m);
    MulAddDistrib(a / m, c / m, m);
    DivModUnique(a + b, m, a / m + c / m, c % m);
  }

  /** Adding in uint32 arithmetic step by step is adding once. */
  lemma ModAddAssoc(a: nat, b: nat, c: nat)
    ensures ((a + b) % U32 + c) % U32 == (a + (b + c)) % U32
  {
    ModAddLeft(a + b, c, U32);
  }

  lemma MulAddDistrib(a: nat, b: nat, m: nat)
    ensures (a + b) * m == a * m + b * m
  {
  }

  /** x - (x/m)*m is the remainder x % m. */
  lemma DivRemainder(x: nat, m: nat)
    requires m > 0
    ensures 0 <= x - (x / m) * m == x % m < m
  {
  }

  lemma DivNat(x: nat, m: nat)
    requires m > 0
    ensures x / m >= 0
  {
    DivRemainder(x, m);
  }

  lemma DivAtLeastOne(x: nat, m: nat)
    requires 0 < m
    ensures m <= x ==> x / m >= 1
  {
  }

  lemma MulMono(a: nat, b: nat, m: nat)
    requires a <= b
    ensures a * m <= b * m
  {
  }

  lemma MulAtLeast(k: nat, m: nat)
    requires k >= 1
    ensures k * m >= m
  {
  }

  /** Adding whole multiples of m keeps the remainder. */
  lemma ModAddMultiple(x: int, k: int, m: nat)
    requires m > 0
    ensures (x + m * k) % m == x % m
  {
    var q, r := x / m, x % m;
    assert x + m * k == m * (q + k) + r;
    IntDivModUnique(x + m * k, m, q + k, r);
  }

  /** Euclidean division on int is unique: a quotient and a remainder in [0, m)
      that rebuild n are n / m and n % m. */
  lemma IntDivModUnique(n: int, m: nat, q: int, r: int)
    requires m > 0 && 0 <= r < m && n == m * q + r
    ensures n / m == q && n % m == r
  {
    var q', r' := n / m, n % m;
    assert m * (q - q') == r' - r;
    if q > q' {
      MulAtLeast(q - q', m);
      assert false;
    } else if q < q' {
      MulAtLeast(q' - q, m);
      assert false;
    }
  }

  /** A negative int above -2^32 converted to uint32 is that int plus 2^32. */
  lemma NegativeToUnsigned(a: int)
    ensures 0 <= a + U32 && a < 0 ==> a % U32 == a + U32
  {
    if 0 <= a + U32 && a < 0 {
      IntDivModUnique(a, U32, -1, a + U32);
    }
  }

  /** Numbers with equal remainders keep equal remainders when multiplied
      by the same factor. */
  lemma MulModCongruent(t: nat, a: int, b: int, m: nat)
    requires m > 0 && a % m == b % m
    ensures (t * a) % m == (t * b) % m
  {
    var k := a / m - b / m;
    assert a == b + m * k;
    assert t * a == t * b + m * (t * k);
    ModAddMultiple(t * b, t * k, m);
  }

  lemma ModBelow(x: nat, m: nat)
    requires x < m
    ensures x % m == x
  {
  }

  /** Storing the low n bytes of x is storing x modulo 256^n. */
  lemma LETruncates(x: nat, n: nat)
    ensures LE(x, n) == LE(x % Pow256(n), n)
  {
    var P := Pow256(n);
    DivNat(x, P);
    var r, k := x % P, x / P;
    assert x == r + k * P by { DivRemainder(x, P); }
    LEPeriodic(r, k, n);
  }

  /** Adding a multiple of 256^n does not change the low n bytes. */
  lemma {:induction false} LEPeriodic(x: nat, k: nat, n: nat)
    ensures LE(x + k * Pow256(n), n) == LE(x, n)
  {
    if n > 0 {
      var c := k * Pow256(n - 1);
      var y := x + k * Pow256(n);
      assert y == x + 256 * c by {
        assert Pow256(n) == 256 * Pow256(n - 1);
      }
      assert y / 256 == x / 256 + c && y % 256 == x % 256 by {
        DivModUnique(y, 256, x / 256 + c, x % 256);
      }
      LEPeriodic(x / 256, k, n - 1);
      assert LE(y, n) == [(y % 256) as byte] + LE(y / 256, n - 1);
    }
  }

  /** Reading back n little-endian bytes yields x modulo 256^n. */
  lemma LERoundTripTruncated(x: nat, n: nat)
    ensures FromLE(LE(x, n)) == x % Pow256(n)
  {
    LETruncates(x, n);
    LERoundTrip(x % Pow256(n), n);
  }

  /** 256^4 is the 32-bit word range. */
  lemma Pow256Four()
    ensures Pow256(4) == U32
  {
  }

  /** Consecutive 32-bit little-endian words, as a struct of uint32_t
      fields is laid out in memory. */
  function Words32(ws: seq<nat>): (r: seq<byte>)
    ensures |r| == 4 * |ws|
  {
    if |ws| == 0 then [] else LE(ws[0], 4) + Words32(ws[1..])
  }

  /** Reading n consecutive 32-bit little-endian words. */
  function ReadWords32(b: seq<byte>, n: nat): (r: seq<nat>)
    requires |b| >= 4 * n
    ensures |r| == n
  {
    if n == 0 then [] else [FromLE(b[..4])] + ReadWords32(b[4..], n - 1)
  }

  /** Every word read from memory is a uint32. */
  lemma Words32Below(b: seq<byte>, n: nat)
    requires |b| >= 4 * n
    ensures forall i :: 0 <= i < n ==> ReadWords32(b, n)[i] < U32
  {
    var w := ReadWords32(b, n);
    forall i | 0 <= i < n
      ensures w[i] < U32
    {
      ReadWordBelow(b, n, i);
    }
  }

  lemma {:induction false} ReadWordBelow(b: seq<byte>, n: nat, i: nat)
    requires |b| >= 4 * n && i < n
    ensures ReadWords32(b, n)[i] < U32
    decreases n
  {
    if i > 0 {
      ReadWordBelow(b[4..], n - 1, i - 1);
    } else {
      FromLEBelow(b[..4]);
      Pow256Four();
    }
  }

  /** Slicing past a prefix is slicing the rest. */
  lemma SliceAfter<T>(a: seq<T>, t: seq<T>, lo: nat, hi: nat)
    requires lo <= hi <= |t|
    ensures (a + t)[|a| + lo .. |a| + hi] == t[lo..hi]
  {
  }

  /** Word i of the layout is the little-endian encoding of ws[i]. */
  lemma {:induction false} Words32At(ws: seq<nat>, i: nat)
    requires i < |ws|
    ensures Words32(ws)[4 * i .. 4 * i + 4] == LE(ws[i], 4)
  {
    if i > 0 {
      Words32At(ws[1..], i - 1);
      var t := Words32(ws[1..]);
      assert Words32(ws) == LE(ws[0], 4) + t;
      SliceAfter(LE(ws[0], 4), t, 4 * (i - 1), 4 * (i - 1) + 4);
    }
  }

  /** Reading the words back yields each value modulo 2^32. */
  lemma {:induction false} Words32RoundTrip(ws: seq<nat>)
    ensures ReadWords32(Words32(ws), |ws|) == seq(|ws|, i requires 0 <= i < |ws| => ws[i] % U32)
  {
    if |ws| > 0 {
      var b := Words32(ws);
      assert b[..4] == LE(ws[0], 4);
      assert b[4..] == Words32(ws[1..]);
      LERoundTripTruncated(ws[0], 4);
      Pow256Four();
      Words32RoundTrip(ws[1..]);
    }
  }

  function Zeros(n: nat): (r: seq<byte>)
    ensures |r| == n && forall i :: 0 <= i < n ==> r[i] == 0
  {
    seq(n, _ => 0)
  }

  /** One memcpy/memset into a host buffer: `data` written starting at `at`. */
  datatype Write = Write(at: nat, data: seq<byte>)
  {
    function End(): nat { at + |data| }
  }

  predicate InBounds(w: Write, size: nat) { w.End() <= size }

  predicate Disjoint(v: Write, w: Write)
  {
    v.End() <= w.at || w.End() <= v.at
  }

  /** buf after the single write w. */
  function Splice(buf: seq<byte>, w: Write): (r: seq<byte>)
    requires InBounds(w, |buf|)
    ensures |r| == |buf|
  {
    buf[..w.at] + w.data + buf[w.End()..]
  }

  /** A write leaves its data where it wrote it. */
  lemma SpliceRead(buf: seq<byte>, w: Write)
    requires InBounds(w, |buf|)
    ensures Splice(buf, w)[w.at..w.End()] == w.data
  {
  }

  /** A write leaves a range it does not touch as it was. */
  lemma SpliceKeep(buf: seq<byte>, w: Write, lo: nat, hi: nat)
    requires InBounds(w, |buf|) && lo <= hi <= |buf| && (hi <= w.at || w.End() <= lo)
    ensures Splice(buf, w)[lo..hi] == buf[lo..hi]
  {
    var s := Splice(buf, w);
    forall p | lo <= p < hi
      ensures s[p] == buf[p]
    {
    }
  }

  /** Byte p of buf after the writes ws, applied in order. */
  function ApplyWrites(buf: seq<byte>, ws: seq<Write>): (r: seq<byte>)
    requires forall k :: 0 <= k < |ws| ==> InBounds(ws[k], |buf|)
    ensures |r| == |buf|
    decreases |ws|
  {
    if |ws| == 0 then buf
    else
      var w := ws[0];
      assert InBounds(ws[0], |buf|);
      assert forall k :: 0 <= k < |ws| - 1 ==> ws[1..][k] == ws[k + 1];
      ApplyWrites(Splice(buf, w), ws[1..])
  }

  /** A byte that no write covers keeps its initial value. */
  lemma {:induction false} ApplyWritesUntouched(buf: seq<byte>, ws: seq<Write>, p: nat)
    requires forall k :: 0 <= k < |ws| ==> InBounds(ws[k], |buf|)
    requires p < |buf|
    requires forall k :: 0 <= k < |ws| ==> !(ws[k].at <= p < ws[k].End())
    ensures ApplyWrites(buf, ws)[p] == buf[p]
    decreases |ws|
  {
    if |ws| > 0 {
      var w := ws[0];
      var buf' := Splice(buf, w);
      assert buf'[p] == buf[p];
      assert forall k :: 0 <= k < |ws| - 1 ==> ws[1..][k] == ws[k + 1];
      ApplyWritesUntouched(buf', ws[1..], p);
    }
  }

  /** A write that overlaps no other write can be read back unchanged after
      all of them have been applied, whatever their order. */
  lemma {:induction false} ApplyWritesReadBack(buf: seq<byte>, ws: seq<Write>, k: nat, p: nat)
    requires forall m :: 0 <= m < |ws| ==> InBounds(ws[m], |buf|)
    requires k < |ws|
    requires forall m :: 0 <= m < |ws| && m != k ==> Disjoint(ws[m], ws[k])
    requires ws[k].at <= p < ws[k].End()
    ensures ApplyWrites(buf, ws)[p] == ws[k].data[p - ws[k].at]
    decreases |ws|
  {
    var w := ws[0];
    var buf' := Splice(buf, w);
    var rest := ws[1..];
    assert forall m :: 0 <= m < |rest| ==> rest[m] == ws[m + 1];
    if k == 0 {
      assert buf'[p] == w.data[p - w.at];
      forall m | 0 <= m < |rest|
        ensures !(rest[m].at <= p < rest[m].End())
      {
        assert Disjoint(ws[m + 1], ws[0]);
      }
      ApplyWritesUntouched(buf', rest, p);
    } else {
      ApplyWritesReadBack(buf', rest, k - 1, p);
    }
  }
}
