/**
 * CIDR containment (nxe_cedar_ip_cidr_contains): the byte comparison and the bit mask decide
 * inclusion of address blocks, in the sense of section 3.1 of RFC 4632.
 */
module Cidr {
  import opened Common
  import opened IpText

  /** x >> (8 - n): the n most significant bits of a byte, as a number. */
  function High(x: Byte, n: nat): (h: nat)
    requires n <= 8
    decreases 8 - n
  {
    if n == 8 then x else High(x, n + 1) / 2
  }

  /** x << n, before any truncation. */
  function Shift(x: nat, n: nat): nat
    decreases n
  {
    if n == 0 then x else Shift(2 * x, n - 1)
  }

  /** x & (0xFF << (8 - n)): the byte with only its n most significant bits. */
  function KeepHigh(x: Byte, n: nat): nat
    requires n <= 8
  {
    Shift(High(x, n), 8 - n)
  }

  function Contains(obj: Ip, range: Ip): bool
  {
    var full, bits := range.prefix / 8, range.prefix % 8;
    obj.v6 == range.v6
    && obj.prefix >= range.prefix
    && (full > 0 ==> obj.addr[..full] == range.addr[..full])
    && (bits > 0 && full < (if obj.v6 then 16 else 4) ==>
          KeepHigh(obj.addr[full], bits) == KeepHigh(range.addr[full], bits))
  }

  function Pow2(n: nat): nat {
    if n == 0 then 1 else 2 * Pow2(n - 1)
  }

  lemma {:induction false} ShiftBound(v: nat, n: nat)
    requires n <= 8 && v < Pow2(n)
    ensures Shift(v, 8 - n) < 256
    decreases 8 - n
  {
    if n < 8 {
      ShiftBound(2 * v, n + 1);
    } else {
      assert Pow2(4) == 16;
      assert Pow2(8) == 256;
    }
  }

  // ---- Blocks as sets of addresses ----

  /** Bit j of a byte, counted from the most significant one. */
  predicate BitOf(x: Byte, j: nat)
    requires j < 8
  {
    High(x, j + 1) % 2 == 1
  }

  /** Bit k of an address in network order. */
  predicate Bit(addr: seq<Byte>, k: nat)
    requires k < 8 * |addr|
  {
    BitOf(addr[k / 8], k % 8)
  }

  /** The first n bits agree. */
  predicate Agree(a: seq<Byte>, b: seq<Byte>, n: nat)
    requires |a| == |b| == 16 && n <= 128
  {
    forall k :: 0 <= k < n ==> Bit(a, k) == Bit(b, k)
  }

  /** The addresses of a block are those that share its first `prefix` bits. */
  predicate InBlock(a: Address, block: Ip) {
    Agree(a, block.addr, block.prefix)
  }

  lemma {:induction false} ShiftInjective(x: nat, y: nat, n: nat)
    ensures Shift(x, n) == Shift(y, n) <==> x == y
    decreases n
  {
    if n > 0 {
      ShiftInjective(2 * x, 2 * y, n - 1);
    }
  }

  lemma {:induction false} SameHigh(x: Byte, y: Byte, n: nat)
    requires n <= 8
    ensures High(x, n) == High(y, n) <==> forall j: nat :: j < n ==> BitOf(x, j) == BitOf(y, j)
  {
    if n == 0 {
      HighBound(x, 0);
      HighBound(y, 0);
    } else {
      SameHigh(x, y, n - 1);
      assert High(x, n - 1) == High(x, n) / 2 && High(y, n - 1) == High(y, n) / 2;
      assert BitOf(x, n - 1) == (High(x, n) % 2 == 1) && BitOf(y, n - 1) == (High(y, n) % 2 == 1);
    }
  }

  lemma {:induction false} HighBound(x: Byte, n: nat)
    requires n <= 8
    ensures High(x, n) < Pow2(n)
    decreases 8 - n
  {
    if n < 8 {
      HighBound(x, n + 1);
    } else {
      assert Pow2(4) == 16;
      assert Pow2(8) == 256;
    }
  }

  /** Comparing under the mask is comparing the first n bits. */
  lemma SameHighBits(x: Byte, y: Byte, n: nat)
    requires n <= 8
    ensures KeepHigh(x, n) == KeepHigh(y, n) <==> forall j: nat :: j < n ==> BitOf(x, j) == BitOf(y, j)
  {
    hide BitOf, High, Shift;
    SameHigh(x, y, n);
    ShiftInjective(High(x, n), High(y, n), 8 - n);
  }

  lemma SameByte(x: Byte, y: Byte)
    ensures x == y <==> forall j: nat :: j < 8 ==> BitOf(x, j) == BitOf(y, j)
  {
    SameHigh(x, y, 8);
  }

  /** Whole bytes and masked bits together are the first 8 * full + bits bits. */
  lemma AgreeByBytes(a: seq<Byte>, b: seq<Byte>, full: nat, bits: nat)
    requires |a| == |b| == 16 && bits < 8 && 8 * full + bits <= 128
    ensures Agree(a, b, 8 * full + bits) <==>
      a[..full] == b[..full] && (bits > 0 ==> KeepHigh(a[full], bits) == KeepHigh(b[full], bits))
  {
    hide BitOf, KeepHigh;
    var n := 8 * full + bits;
    if bits > 0 {
      SameHighBits(a[full], b[full], bits);
    }
    if Agree(a, b, n) {
      forall i | 0 <= i < full ensures a[..full][i] == b[..full][i] {
        forall j: nat | j < 8 ensures BitOf(a[i], j) == BitOf(b[i], j) {
          assert Bit(a, 8 * i + j) == Bit(b, 8 * i + j);
        }
        SameByte(a[i], b[i]);
      }
      forall j: nat | j < bits ensures BitOf(a[full], j) == BitOf(b[full], j) {
        assert Bit(a, 8 * full + j) == Bit(b, 8 * full + j);
      }
    } else {
      var k :| 0 <= k < n && Bit(a, k) != Bit(b, k);
      assert k < 8 * full ==> a[..full][k / 8] != b[..full][k / 8];
    }
  }

  lemma {:induction false} HighShift(v: nat, n: nat)
    requires n <= 8 && 0 <= Shift(v, 8 - n) < 256
    ensures High(Shift(v, 8 - n), n) == v
    decreases 8 - n
  {
    if n < 8 {
      HighShift(2 * v, n + 1);
    }
  }

  lemma HighHalf(x: Byte, j: nat)
    requires j < 8
    ensures High(x, j) == High(x, j + 1) / 2
  {
  }

  /** A byte that has the first j bits of x and then the other bit. */
  lemma DivergingByte(x: Byte, j: nat) returns (y: Byte)
    requires j < 8
    ensures BitOf(y, j) != BitOf(x, j) && forall i: nat :: i < j ==> BitOf(y, i) == BitOf(x, i)
  {
    hide Shift, High;
    var v := FlippedLast(High(x, j + 1));
    FlippedFits(x, j);
    y := Shift(v, 7 - j);
    HighShift(v, j + 1);
    HighHalf(x, j);
    HighHalf(y, j);
    SameHigh(x, y, j);
  }

  /** h with its last bit flipped. */
  function FlippedLast(h: nat): nat {
    if h % 2 == 1 then h - 1 else h + 1
  }

  lemma FlippedBound(h: nat, p: nat)
    requires h < 2 * p
    ensures FlippedLast(h) < 2 * p
  {
  }

  lemma FlippedFits(x: Byte, j: nat)
    requires j < 8
    ensures 0 <= Shift(FlippedLast(High(x, j + 1)), 7 - j) < 256
  {
    hide High, Shift, FlippedLast;
    HighBound(x, j + 1);
    FlippedBound(High(x, j + 1), Pow2(j));
    ShiftBound(FlippedLast(High(x, j + 1)), j + 1);
  }

  /** An address that shares exactly the first k bits with a. */
  lemma DivergingAddress(a: seq<Byte>, k: nat) returns (b: seq<Byte>)
    requires |a| == 16 && k < 128
    ensures |b| == 16 && Agree(a, b, k) && Bit(a, k) != Bit(b, k)
  {
    hide BitOf;
    var y := DivergingByte(a[k / 8], k % 8);
    b := a[k / 8 := y];
  }

  /** nxe_cedar_ip_cidr_contains is inclusion of blocks. */
  lemma ContainsIsInclusion(obj: Ip, range: Ip)
    ensures Contains(obj, range) <==>
      obj.v6 == range.v6 && forall a: Address :: InBlock(a, obj) ==> InBlock(a, range)
  {
    hide Bit, KeepHigh;
    AgreeByBytes(obj.addr, range.addr, range.prefix / 8, range.prefix % 8);
    if obj.v6 == range.v6 {
      if obj.prefix < range.prefix {
        var k := obj.prefix;
        // an address of the object's block that differs from the range in the bit after it
        var a: Address := obj.addr;
        if Bit(obj.addr, k) == Bit(range.addr, k) {
          a := DivergingAddress(obj.addr, k);
        }
        assert InBlock(a, obj) && !InBlock(a, range);
      } else {
        assert InBlock(obj.addr, obj);
        assert Contains(obj, range) <==> Agree(obj.addr, range.addr, range.prefix);
      }
    }
  }

  /** Host bits do not matter: only the blocks do. */
  lemma HostBitsIgnored(obj: Ip, obj': Ip, range: Ip, range': Ip)
    requires obj.v6 == obj'.v6 && obj.prefix == obj'.prefix && Agree(obj.addr, obj'.addr, obj.prefix)
    requires range.v6 == range'.v6 && range.prefix == range'.prefix && Agree(range.addr, range'.addr, range.prefix)
    ensures Contains(obj, range) == Contains(obj', range')
  {
    hide Bit, KeepHigh;
    AgreeByBytes(obj.addr, range.addr, range.prefix / 8, range.prefix % 8);
    AgreeByBytes(obj'.addr, range'.addr, range.prefix / 8, range.prefix % 8);
  }

  lemma ContainsReflexive(ip: Ip)
    ensures Contains(ip, ip)
  {
  }

  lemma ContainsTransitive(a: Ip, b: Ip, c: Ip)
    requires Contains(a, b) && Contains(b, c)
    ensures Contains(a, c)
  {
    hide InBlock, Contains;
    ContainsIsInclusion(a, b);
    ContainsIsInclusion(b, c);
    ContainsIsInclusion(a, c);
  }
}
