/**
 * Base 128 varints, as the generated pipeline codec writes and reads them.
 * Encode and ScanVarint are the wire format (Protocol Buffers encoding guide,
 * "Base 128 Varints"); the methods are the loops of the generated code.
 */
module Varint {
  import opened Basics

  /** The errors of the generated decoder. */
  datatype Error =
    | NoError
    | IntOverflow
    | UnexpectedEOF
    | InvalidLength
    | EndGroup
    | IllegalTag
    | WrongWireType
    | UnexpectedEndOfGroup
    | IllegalWireType

  function Pow128(n: nat): (p: nat)
    ensures p > 0
  {
    if n == 0 then 1 else 128 * Pow128(n - 1)
  }

  /** Little-endian groups of seven bits, every byte but the last with its top bit set. */
  function Encode(v: nat): (s: seq<byte>)
    ensures |s| > 0
  {
    if v < 128 then [v] else [v % 128 + 128] + Encode(v / 128)
  }

  /** The number written by the low seven bits of each byte, first byte least significant. */
  function Groups(s: seq<byte>): nat {
    if s == [] then 0 else s[0] % 128 + 128 * Groups(s[1..])
  }

  /** How many leading bytes ask for another one. */
  function Run(s: seq<byte>): (k: nat)
    ensures k <= |s| && (k < |s| ==> s[k] < 128) && forall j :: 0 <= j < k ==> s[j] >= 128
  {
    if s == [] || s[0] < 128 then 0 else 1 + Run(s[1..])
  }

  /**
   * Reading a varint: its mathematical value and its size in bytes, or what had
   * been accumulated when the tenth byte still asked for more, or when the input ended.
   */
  datatype Scan = Read(value: nat, size: nat) | Overflow(partial: nat) | Truncated(partial: nat)
  {
    function Accumulated(): nat {
      match this
      case Read(v, _) => v
      case Overflow(v) => v
      case Truncated(v) => v
    }

    function Failure(): Error {
      match this
      case Read(_, _) => NoError
      case Overflow(_) => IntOverflow
      case Truncated(_) => UnexpectedEOF
    }
  }

  /** Scan the front of s. */
  function ScanVarint(s: seq<byte>): (r: Scan)
    ensures r.Read? ==> 1 <= r.size <= |s| && r.size <= 10
  {
    var k := Run(s);
    if k >= 10 then Overflow(Groups(s[..10]))
    else if k == |s| then Truncated(Groups(s))
    else Read(Groups(s[..k + 1]), k + 1)
  }

  /** Every input: ten bytes that ask for more, fewer than ten and then the end, or a varint. */
  lemma ScanCases(s: seq<byte>)
    ensures ScanVarint(s).Overflow? <==> |s| >= 10 && forall i :: 0 <= i < 10 ==> s[i] >= 128
    ensures ScanVarint(s).Truncated? <==> |s| < 10 && forall i :: 0 <= i < |s| ==> s[i] >= 128
    ensures ScanVarint(s).Read? ==> var n := ScanVarint(s).size;
              s[n - 1] < 128 && (forall i :: 0 <= i < n - 1 ==> s[i] >= 128) && ScanVarint(s).value == Groups(s[..n])
  {
  }

  // -- The wire format is self-delimiting ----------------------------------------------

  lemma {:induction false} GroupsEncode(v: nat)
    ensures Groups(Encode(v)) == v
  {
    if v >= 128 {
      GroupsEncode(v / 128);
    }
  }

  lemma {:induction false} RunEncode(v: nat, rest: seq<byte>)
    ensures Run(Encode(v) + rest) == |Encode(v)| - 1
  {
    var s := Encode(v) + rest;
    if v >= 128 {
      RunEncode(v / 128, rest);
      assert s[1..] == Encode(v / 128) + rest;
    }
  }

  lemma Pow128Values()
    ensures Pow128(10) == 0x40_0000_0000_0000_0000
  {
    assert Pow128(2) == 16384;
    assert Pow128(4) == 128 * (128 * Pow128(2)) == 0x1000_0000;
    assert Pow128(6) == 128 * (128 * Pow128(4));
    assert Pow128(8) == 128 * (128 * Pow128(6));
    assert Pow128(10) == 128 * (128 * Pow128(8));
  }

  /** Every uint64 is read back exactly, whatever follows it. */
  lemma RoundTrip(v: uint64, rest: seq<byte>)
    ensures ScanVarint(Encode(v) + rest) == Read(v, |Encode(v)|)
  {
    GroupsEncode(v);
    RunEncode(v, rest);
    SovIsEncodedSize(v);
    assert (Encode(v) + rest)[..|Encode(v)|] == Encode(v);
  }

  /** v >> 7 * i */
  function Shift7(v: nat, i: nat): nat {
    if i == 0 then v else Shift7(v / 128, i - 1)
  }

  /** Byte i of an encoding holds bits 7i to 7i + 6, and says whether another byte follows. */
  lemma {:induction false} EncodeDigits(v: nat, i: nat)
    requires i < |Encode(v)|
    ensures Encode(v)[i] == Shift7(v, i) % 128 + (if i < |Encode(v)| - 1 then 128 else 0)
    decreases i
  {
    if i > 0 {
      EncodeDigits(v / 128, i - 1);
    }
  }

  /** The encoding is as short as it can be. */
  lemma {:induction false} EncodeShortest(v: nat)
    ensures v < Pow128(|Encode(v)|) && (|Encode(v)| > 1 ==> Pow128(|Encode(v)| - 1) <= v)
  {
    if v < 128 {
      assert Pow128(1) == 128 * Pow128(0);
    } else {
      EncodeShortest(v / 128);
      var n := |Encode(v / 128)|;
      assert Pow128(n + 1) == 128 * Pow128(n);
      assert n > 1 ==> Pow128(n) == 128 * Pow128(n - 1);
      assert Pow128(1) == 128 * Pow128(0);
    }
  }

  /** The first n bytes of s and t are the same. */
  ghost predicate Agree(s: seq<byte>, t: seq<byte>, n: nat) {
    n <= |s| && n <= |t| && forall j :: 0 <= j < n ==> s[j] == t[j]
  }

  lemma AgreeTail(s: seq<byte>, t: seq<byte>, i: nat, n: nat)
    requires i <= n && Agree(s, t, n)
    ensures Agree(s[i..], t[i..], n - i)
  {
  }

  /** What was read depends only on the bytes that were read. */
  lemma ScanLocal(s: seq<byte>, t: seq<byte>)
    requires ScanVarint(s).Read? && Agree(s, t, ScanVarint(s).size)
    ensures ScanVarint(t) == ScanVarint(s)
  {
    var k := ScanVarint(s).size;
    assert t[..k] == s[..k];
  }

  // -- Size of an encoding ---------------------------------------------------------------

  /** math/bits.Len64: the number of bits needed to write x. */
  function BitLen(x: nat): nat {
    if x == 0 then 0 else 1 + BitLen(x / 2)
  }

  /** x | 1 */
  function OrOne(x: nat): (r: nat)
    ensures r == if x % 2 == 0 then x + 1 else x
  {
    assert x > 0 ==> Or(x, 1) == 1 + 2 * Or(x / 2, 1 / 2);
    Or(x, 1)
  }

  function Sov(x: nat): nat {
    (BitLen(OrOne(x)) + 6) / 7
  }

  lemma BitLenGroup(x: nat)
    requires x >= 128
    ensures BitLen(x) == 7 + BitLen(x / 128)
  {
    assert x / 128 == x / 2 / 2 / 2 / 2 / 2 / 2 / 2;
    assert BitLen(x) == 1 + BitLen(x / 2) == 2 + BitLen(x / 2 / 2) == 3 + BitLen(x / 2 / 2 / 2);
    assert BitLen(x / 2 / 2 / 2) == 1 + BitLen(x / 2 / 2 / 2 / 2) == 2 + BitLen(x / 2 / 2 / 2 / 2 / 2);
    assert BitLen(x / 2 / 2 / 2 / 2 / 2) == 2 + BitLen(x / 2 / 2 / 2 / 2 / 2 / 2 / 2);
  }

  lemma {:induction false} BitLenSmall(x: nat, k: nat)
    requires 0 < x < 128
    ensures 1 <= BitLen(x) <= 7
  {
    assert BitLen(x) == 1 + BitLen(x / 2);
    assert x / 2 < 64 && x / 4 < 32 && x / 8 < 16 && x / 16 < 8 && x / 32 < 4 && x / 64 < 2 && x / 128 == 0;
    assert BitLen(x / 64) <= 1 && BitLen(x / 32) <= 2;
    assert x / 2 / 2 == x / 4 && x / 4 / 2 == x / 8 && x / 8 / 2 == x / 16 && x / 16 / 2 == x / 32;
    assert BitLen(x / 16) <= 3 && BitLen(x / 8) <= 4 && BitLen(x / 4) <= 5 && BitLen(x / 2) <= 6;
  }

  lemma {:induction false} GroupsOfBits(x: nat)
    requires x > 0
    ensures |Encode(x)| == (BitLen(x) + 6) / 7
    decreases x
  {
    if x < 128 {
      BitLenSmall(x, 0);
    } else {
      BitLenGroup(x);
      GroupsOfBits(x / 128);
    }
  }

  /** The size computed from the bit length is the number of bytes emitted; never above ten. */
  lemma SovIsEncodedSize(v: uint64)
    ensures Sov(v) == |Encode(v)| <= 10
  {
    if v == 0 {
      assert BitLen(1) == 1;
    } else {
      GroupsOfBits(v);
      if v % 2 == 0 {
        assert (v + 1) / 2 == v / 2;
        assert BitLen(v + 1) == 1 + BitLen((v + 1) / 2) == BitLen(v);
      }
    }
    Pow128Values();
    EncodedAtMost(v, 10);
  }

  lemma {:induction false} EncodedAtMost(v: nat, n: nat)
    requires n > 0 && v < Pow128(n)
    ensures |Encode(v)| <= n
  {
    if v >= 128 {
      assert Pow128(1) == 128 * Pow128(0);
      EncodedAtMost(v / 128, n - 1);
    }
  }

  // -- The loops of the generated code ---------------------------------------------------

  /** Bitwise or. */
  function Or(a: nat, b: nat): nat
    decreases a + b
  {
    if a == 0 then b else if b == 0 then a
    else (if a % 2 == 1 || b % 2 == 1 then 1 else 0) + 2 * Or(a / 2, b / 2)
  }

  function Pow2(k: nat): (p: nat)
    ensures p > 0
  {
    if k == 0 then 1 else 2 * Pow2(k - 1)
  }

  lemma OrDouble(a: nat, x: nat)
    requires a > 0 && x > 0
    ensures Or(a, 2 * x) == a % 2 + 2 * Or(a / 2, x)
  {
    assert 2 * x / 2 == x && 2 * x % 2 == 0;
  }

  lemma TimesDouble(m: nat, p: nat)
    requires m > 0 && p > 0
    ensures m * (2 * p) == 2 * (m * p) && m * p > 0
  {
  }

  /** Or-ing a number shifted left by k bits into k bits is addition. */
  lemma {:induction false} OrIsAddition(a: nat, m: nat, k: nat)
    requires a < Pow2(k)
    ensures Or(a, m * Pow2(k)) == a + m * Pow2(k)
  {
    if k > 0 && a > 0 && m > 0 {
      var p := Pow2(k - 1);
      assert Pow2(k) == 2 * p;
      TimesDouble(m, p);
      hide Or, Pow2;
      OrIsAddition(a / 2, m, k - 1);
      OrDouble(a, m * p);
    }
  }

  lemma {:induction false} Pow128IsPow2(n: nat)
    ensures Pow128(n) == Pow2(7 * n)
  {
    if n > 0 {
      Pow128IsPow2(n - 1);
      var k := 7 * (n - 1);
      assert Pow2(k + 7) == 2 * Pow2(k + 6) && Pow2(k + 6) == 2 * Pow2(k + 5) && Pow2(k + 5) == 2 * Pow2(k + 4);
      assert Pow2(k + 4) == 2 * Pow2(k + 3) && Pow2(k + 3) == 2 * Pow2(k + 2) && Pow2(k + 2) == 2 * Pow2(k + 1);
    }
  }

  /** The low seven bits with the top bit set. */
  lemma OrTopBit(v: nat)
    ensures Or(v % 128, 128) == v % 128 + 128
  {
    Pow128IsPow2(1);
    OrIsAddition(v % 128, 1, 7);
  }

  lemma {:induction false} GroupsBound(s: seq<byte>)
    ensures Groups(s) < Pow128(|s|)
  {
    if s != [] {
      GroupsBound(s[1..]);
    }
  }

  lemma Pow128Table()
    ensures Pow128(0) == 1 && Pow128(1) == 0x80 && Pow128(2) == 0x4000 && Pow128(3) == 0x20_0000
    ensures Pow128(4) == 0x1000_0000 && Pow128(5) == 0x8_0000_0000 && Pow128(6) == 0x400_0000_0000
    ensures Pow128(7) == 0x2_0000_0000_0000 && Pow128(8) == 0x100_0000_0000_0000 && Pow128(9) == TWO_63
  {
    assert Pow128(1) == 128 * Pow128(0);
    assert Pow128(2) == 128 * Pow128(1);
    assert Pow128(3) == 128 * Pow128(2);
    assert Pow128(4) == 128 * Pow128(3);
    assert Pow128(5) == 128 * Pow128(4);
    assert Pow128(6) == 128 * Pow128(5);
    assert Pow128(7) == 128 * Pow128(6);
    assert Pow128(8) == 128 * Pow128(7);
    assert Pow128(9) == 128 * Pow128(8);
  }

  lemma GroupBelow(acc: nat, c: nat, p: nat)
    requires c < 128 && acc < p
    ensures c * p <= acc + c * p < 128 * p
  {
    assert 127 * p == c * p + (127 - c) * p;
  }

  lemma {:induction false} Pow128Monotone(n: nat, m: nat)
    requires n <= m
    ensures Pow128(n) <= Pow128(m)
  {
    if n < m {
      Pow128Monotone(n, m - 1);
    }
  }

  /** While a shifted group fits, nothing is lost. */
  lemma ShiftFits(acc: nat, c: nat, n: nat, m: nat)
    requires n < m && c < 128 && acc < Pow128(n)
    ensures c * Pow128(n) <= acc + c * Pow128(n) < Pow128(m)
  {
    GroupBelow(acc, c, Pow128(n));
    Pow128Monotone(n + 1, m);
  }

  lemma Remainder64(x: nat, q: nat)
    requires x < TWO_64
    ensures (x + q * TWO_64) % TWO_64 == x
  {
  }

  lemma Remainder32(x: nat, q: nat)
    requires x < TWO_32
    ensures (x + q * TWO_32) % TWO_32 == x
  {
  }

  /** Of a group shifted by 63 bits one bit remains. */
  lemma ShiftToTop64(acc: nat, c: nat)
    requires acc < TWO_63
    ensures (acc + c * TWO_63) % TWO_64 == acc + c % 2 * TWO_63
  {
    var q, r := c / 2, c % 2;
    assert c * TWO_63 == r * TWO_63 + q * TWO_64;
    Remainder64(acc + r * TWO_63, q);
  }

  /** Of a group shifted by 28 bits four bits remain in 32. */
  lemma ShiftToTop32(acc: nat, c: nat)
    requires acc < 0x1000_0000
    ensures (acc + c * 0x1000_0000) % TWO_32 == acc + c % 16 * 0x1000_0000
  {
    var q, r := c / 16, c % 16;
    assert c * 0x1000_0000 == r * 0x1000_0000 + q * TWO_32;
    Remainder32(acc + r * 0x1000_0000, q);
  }

  /** Beyond 32 bits a shifted group is lost altogether. */
  lemma {:induction false} ShiftOut(c: nat, n: nat)
    requires n >= 5
    ensures c * Pow128(n) % TWO_32 == 0
    decreases n
  {
    Pow128Table();
    if n == 5 {
      assert c * Pow128(5) == 8 * c * TWO_32;
    } else {
      ShiftOut(128 * c, n - 1);
      assert c * Pow128(n) == 128 * c * Pow128(n - 1);
    }
  }

  /** A shifted group keeps the bits that fit. */
  lemma ShiftKeeps(wide: bool, acc: nat, c: nat, n: nat) returns (m: nat)
    requires n < 10 && c < 128 && acc < Pow128(n) && acc == Wrap(wide, acc)
    ensures Wrap(wide, c * Pow128(n)) == m * Pow128(n)
    ensures Wrap(wide, acc + c * Pow128(n)) == acc + m * Pow128(n)
  {
    hide Pow128;
    assert Pow128(n) > acc >= 0;
    if wide {
      m := ShiftKeepsWide(acc, c, n);
    } else {
      m := ShiftKeepsNarrow(acc, c, n);
    }
  }

  lemma ShiftKeepsWide(acc: nat, c: nat, n: nat) returns (m: nat)
    requires n < 10 && c < 128 && acc < Pow128(n)
    ensures c * Pow128(n) % TWO_64 == m * Pow128(n) && (acc + c * Pow128(n)) % TWO_64 == acc + m * Pow128(n)
  {
    assert Pow128(9) == TWO_63 by { Pow128Table(); }
    hide Pow128;
    if n < 9 {
      m := c;
      ShiftFits(acc, c, n, 9);
    } else {
      m := c % 2;
      ShiftToTop64(acc, c);
      ShiftToTop64(0, c);
    }
  }

  lemma ShiftAllOut(acc: nat, c: nat, n: nat) returns (m: nat)
    requires n >= 5 && acc < TWO_32
    ensures m == 0 && c * Pow128(n) % TWO_32 == m * Pow128(n) && (acc + c * Pow128(n)) % TWO_32 == acc + m * Pow128(n)
  {
    m := 0;
    ShiftOut(c, n);
    hide Pow128;
    AddMultiple(acc, c * Pow128(n));
  }

  lemma ShiftKeepsNarrow(acc: nat, c: nat, n: nat) returns (m: nat)
    requires n < 10 && c < 128 && acc < Pow128(n) && acc < TWO_32
    ensures c * Pow128(n) % TWO_32 == m * Pow128(n) && (acc + c * Pow128(n)) % TWO_32 == acc + m * Pow128(n)
  {
    assert Pow128(4) == 0x1000_0000 by { Pow128Table(); }
    hide Pow128;
    if n < 4 {
      m := c;
      ShiftFits(acc, c, n, 4);
    } else if n == 4 {
      m := c % 16;
      ShiftToTop32(acc, c);
      ShiftToTop32(0, c);
    } else {
      m := ShiftAllOut(acc, c, n);
    }
  }

  lemma AddMultiple(a: nat, b: nat)
    requires b % TWO_32 == 0 && a < TWO_32
    ensures (a + b) % TWO_32 == a
  {
    assert b == b / TWO_32 * TWO_32;
    Remainder32(a, b / TWO_32);
  }

  /** The update of the accumulator by one group. */
  lemma OrShift(wide: bool, acc: nat, c: nat, n: nat)
    requires n < 10 && c < 128 && acc < Pow128(n) && acc == Wrap(wide, acc)
    ensures Or(acc, Wrap(wide, c * Pow128(n))) == Wrap(wide, acc + c * Pow128(n))
  {
    var m := ShiftKeeps(wide, acc, c, n);
    Pow128IsPow2(n);
    OrIsAddition(acc, m, 7 * n);
  }

  /** The value an accumulator of 64 or of 32 bits holds. */
  function Wrap(wide: bool, x: nat): nat {
    if wide then x % TWO_64 else x % TWO_32
  }

  /**
   * One varint loop of Unmarshal starting at index i, for a 64-bit accumulator
   * (uint64 and int) or a 32-bit one (the enum).
   */
  method ReadVarint(d: seq<byte>, i: nat, wide: bool) returns (value: nat, next: nat, err: Error)
    requires i <= |d|
    ensures var scan := ScanVarint(d[i..]);
            && err == scan.Failure()
            && value == Wrap(wide, scan.Accumulated())
            && (scan.Read? ==> next == i + scan.size <= |d|)
  {
    value, next, err := 0, i, NoError;
    var shift, power: nat := 0, 1;
    ghost var n := 0;
    while true
      invariant n <= 10 && shift == 7 * n && power == Pow128(n) && next == i + n <= |d|
      invariant forall k :: 0 <= k < n ==> d[i..][k] >= 128
      invariant value == Wrap(wide, Groups(d[i..][..n]))
      decreases 10 - n
    {
      if shift >= 64 {
        err := IntOverflow;
        return;
      }
      if next >= |d| {
        assert d[i..][..n] == d[i..];
        err := UnexpectedEOF;
        return;
      }
      var b := d[next];
      value, next := Accumulate(wide, value, b, power, d[i..][..n]), next + 1;
      assert d[i..][..n] + [b] == d[i..][..n + 1];
      if b < 128 {
        return;
      }
      n, shift, power := n + 1, shift + 7, 128 * power;
    }
  }

  /** The update of the accumulator by one byte; `before` are the bytes already accumulated. */
  function Accumulate(wide: bool, acc: nat, b: byte, power: nat, ghost before: seq<byte>): (r: nat)
    requires power == Pow128(|before|) && |before| < 10 && acc == Wrap(wide, Groups(before))
    ensures r == Wrap(wide, Groups(before + [b]))
  {
    GroupsSnoc(before, b);
    GroupsBound(before);
    WrapAtMost(wide, Groups(before));
    WrapAdd(wide, Groups(before), b % 128 * power);
    OrShift(wide, acc, b % 128, |before|);
    Or(acc, Wrap(wide, b % 128 * power))
  }

  lemma WrapAtMost(wide: bool, x: nat)
    ensures Wrap(wide, x) <= x && Wrap(wide, Wrap(wide, x)) == Wrap(wide, x)
  {
  }

  lemma WrapAdd(wide: bool, a: nat, b: nat)
    ensures Wrap(wide, Wrap(wide, a) + b) == Wrap(wide, a + b)
  {
  }

  lemma Distribute(g: nat, c: nat, p: nat)
    ensures 128 * (g + c * p) == 128 * g + c * (128 * p)
  {
  }

  lemma {:induction false} GroupsSnoc(s: seq<byte>, b: byte)
    ensures Groups(s + [b]) == Groups(s) + b % 128 * Pow128(|s|)
  {
    if s != [] {
      GroupsSnoc(s[1..], b);
      assert (s + [b])[1..] == s[1..] + [b];
      Distribute(Groups(s[1..]), b % 128, Pow128(|s| - 1));
    }
  }
}
