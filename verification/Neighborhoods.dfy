/**
 The list of all neighbourhoods of a given depth (pkg/check/networkavailability/check.go): for each
 number below 2^bits, its bytes in little-endian order, the last one shifted to the left, padded to
 an address.
 */
module Neighborhoods {
  import opened Powers
  import opened Arithmetic

  const HASH_SIZE := 32

  type Octet = b: nat | b < 256

  type Octets = seq<Octet>

  //// Bits, most significant first

  // Bit k of an address.
  predicate Bit(a: Octets, k: nat)
    requires k < 8 * |a|
  {
    a[k / 8] / Pow2(7 - k % 8) % 2 == 1
  }

  // The last m bits of a number.
  function ToBits(v: nat, m: nat): (s: seq<bool>)
    ensures |s| == m
  {
    if m == 0 then [] else ToBits(v / 2, m - 1) + [v % 2 == 1]
  }

  function FromBits(s: seq<bool>): (v: nat)
    ensures v < Pow2(|s|)
  {
    if s == [] then 0 else 2 * FromBits(s[..|s| - 1]) + (if s[|s| - 1] then 1 else 0)
  }

  lemma {:induction false} BitsRoundTrip(v: nat, m: nat)
    requires v < Pow2(m)
    ensures FromBits(ToBits(v, m)) == v
    decreases m
  {
    if m > 0 {
      BitsRoundTrip(v / 2, m - 1);
      assert ToBits(v, m)[..m - 1] == ToBits(v / 2, m - 1);
    }
  }

  lemma {:induction false} NumberRoundTrip(s: seq<bool>)
    ensures ToBits(FromBits(s), |s|) == s
    decreases |s|
  {
    if s != [] {
      var front, last := s[..|s| - 1], s[|s| - 1];
      NumberRoundTrip(front);
      var v := FromBits(s);
      assert v == 2 * FromBits(front) + (if last then 1 else 0);
      assert v / 2 == FromBits(front) && (v % 2 == 1) == last;
      assert s == front + [last];
    }
  }

  lemma {:induction false} BitOfNumber(v: nat, m: nat, k: nat)
    requires k < m
    ensures ToBits(v, m)[k] <==> v / Pow2(m - 1 - k) % 2 == 1
    decreases m
  {
    if k < m - 1 {
      BitOfNumber(v / 2, m - 1, k);
      HalfThenDivide(v, Pow2(m - 2 - k));
    }
  }

  lemma DivideShiftedDown(v: nat, a: nat, b: nat)
    requires a <= b
    ensures v * Pow2(a) / Pow2(b) == v / Pow2(b - a)
  {
    Pow2Add(a, b - a);
    CancelCommon(v, Pow2(a), Pow2(b - a));
  }

  lemma DivideShiftedUp(v: nat, a: nat, b: nat)
    requires a > b
    ensures v * Pow2(a) / Pow2(b) % 2 == 0
  {
    Pow2Add(b, a - b);
    EvenQuotient(v, Pow2(b), Pow2(a - b - 1), Pow2(a));
  }

  lemma EvenQuotient(v: nat, d: nat, h: nat, product: nat)
    requires d > 0 && product == d * (2 * h)
    ensures v * product / d % 2 == 0
  {
    var half := v * h;
    assert v * product == (2 * half) * d;
    QuotientUnique(v * product, d, 2 * half, 0);
  }

  lemma CancelCommon(v: nat, c: nat, d: nat)
    requires c > 0 && d > 0
    ensures c * d > 0 && v * c / (c * d) == v / d
  {
    var q, r := v / d, v % d;
    assert v == q * d + r;
    assert v * c == q * (c * d) + r * c;
    assert r * c < d * c;
    QuotientUnique(v * c, c * d, q, r * c);
  }

  //// The address of one neighbourhood

  function LastByte(bits: nat, i: nat): Octet
    requires bits <= 8 && i < Pow2(bits)
  {
    ShiftFits(bits, i);
    i * Pow2(8 - bits)
  }

  // A number below 2^bits, eight bits at a time from the low end; the last bits are moved to the
  // high end of their byte.
  function Encode(bits: nat, i: nat): (a: Octets)
    requires i < Pow2(bits)
    ensures |a| == (bits + 7) / 8
  {
    if bits == 0 then []
    else if bits <= 8 then [LastByte(bits, i)]
    else
      TopPart(bits, i);
      [i % 256] + Encode(bits - 8, i / 256)
  }

  lemma ShiftFits(bits: nat, i: nat)
    requires bits <= 8 && i < Pow2(bits)
    ensures i * Pow2(8 - bits) < 256
  {
    Pow2Add(bits, 8 - bits);
    Pow2Of8();
    var s := Pow2(8 - bits);
    MulMonotone(i + 1, Pow2(bits), s);
    assert (i + 1) * s == i * s + s;
  }

  lemma Pow2Of8()
    ensures Pow2(8) == 256
  {
  }

  lemma TopPart(bits: nat, i: nat)
    requires bits > 8 && i < Pow2(bits)
    ensures i / 256 < Pow2(bits - 8)
  {
    Pow2Add(8, bits - 8);
    Pow2Of8();
  }

  function Padded(a: Octets): Octets
    requires |a| <= HASH_SIZE
  {
    a + seq(HASH_SIZE - |a|, _ => 0)
  }

  //// The prefix an address stands for

  // The bits of a number in the order they appear in its address.
  function PrefixOf(bits: nat, i: nat): (s: seq<bool>)
    ensures |s| == bits
  {
    if bits <= 8 then ToBits(i, bits) else ToBits(i % 256, 8) + PrefixOf(bits - 8, i / 256)
  }

  function IndexOf(p: seq<bool>): nat
    decreases |p|
  {
    if |p| <= 8 then FromBits(p) else FromBits(p[..8]) + 256 * IndexOf(p[8..])
  }

  lemma {:induction false} IndexRoundTrip(bits: nat, i: nat)
    requires i < Pow2(bits)
    ensures IndexOf(PrefixOf(bits, i)) == i
    decreases bits
  {
    if bits <= 8 {
      BitsRoundTrip(i, bits);
    } else {
      TopPart(bits, i);
      Pow2Of8();
      BitsRoundTrip(i % 256, 8);
      IndexRoundTrip(bits - 8, i / 256);
      var p := PrefixOf(bits, i);
      assert p[..8] == ToBits(i % 256, 8) && p[8..] == PrefixOf(bits - 8, i / 256);
    }
  }

  lemma {:induction false} PrefixRoundTrip(p: seq<bool>)
    ensures IndexOf(p) < Pow2(|p|)
    ensures PrefixOf(|p|, IndexOf(p)) == p
    decreases |p|
  {
    if |p| <= 8 {
      NumberRoundTrip(p);
    } else {
      PrefixRoundTrip(p[8..]);
      LongPrefixRoundTrip(p, IndexOf(p[8..]));
    }
  }

  lemma LongPrefixRoundTrip(p: seq<bool>, high: nat)
    requires |p| > 8 && high == IndexOf(p[8..]) < Pow2(|p| - 8) && PrefixOf(|p| - 8, high) == p[8..]
    ensures IndexOf(p) < Pow2(|p|)
    ensures PrefixOf(|p|, IndexOf(p)) == p
  {
    var low := ByteOf(p);
    JoinedPrefix(low, high, |p| - 8, |p|, IndexOf(p), p);
  }

  lemma JoinedPrefix(low: nat, high: nat, m: nat, n: nat, v: nat, p: seq<bool>)
    requires low < 256 && high < Pow2(m) && m > 0 && n == m + 8 && v == low + 256 * high
    requires |p| == n && ToBits(low, 8) == p[..8] && PrefixOf(m, high) == p[8..]
    ensures v < Pow2(n) && PrefixOf(n, v) == p
  {
    JoinParts(low, high, m);
    PrefixOfParts(low, high, m);
    assert p == p[..8] + p[8..];
  }

  lemma ByteOf(p: seq<bool>) returns (low: nat)
    requires |p| >= 8
    ensures low == FromBits(p[..8]) < 256 && ToBits(low, 8) == p[..8]
  {
    low := FromBits(p[..8]);
    NumberRoundTrip(p[..8]);
    Pow2Of8();
  }

  lemma PrefixOfParts(low: nat, high: nat, m: nat)
    requires low < 256 && high < Pow2(m) && m > 0
    ensures PrefixOf(m + 8, low + 256 * high) == ToBits(low, 8) + PrefixOf(m, high)
  {
    JoinParts(low, high, m);
  }

  lemma JoinParts(low: nat, high: nat, m: nat)
    requires low < 256 && high < Pow2(m)
    ensures (low + 256 * high) % 256 == low && (low + 256 * high) / 256 == high
    ensures low + 256 * high < Pow2(m + 8)
  {
    Pow2Add(m, 8);
    Pow2Of8();
  }

  // The bits of the shifted last byte.
  lemma BitsOfByte(bits: nat, i: nat, k: nat)
    requires bits <= 8 && k < 8
    ensures i * Pow2(8 - bits) / Pow2(7 - k) % 2 == 1 <==> k < bits && ToBits(i, bits)[k]
  {
    if k < bits {
      DivideShiftedDown(i, 8 - bits, 7 - k);
      assert 7 - k - (8 - bits) == bits - 1 - k;
      BitOfNumber(i, bits, k);
    } else {
      DivideShiftedUp(i, 8 - bits, 7 - k);
    }
  }

  lemma {:induction false} BitsOfEncoding(bits: nat, i: nat, k: nat)
    requires i < Pow2(bits) && k < 8 * |Encode(bits, i)|
    ensures Bit(Encode(bits, i), k) <==> k < bits && PrefixOf(bits, i)[k]
    decreases bits
  {
    if bits <= 8 {
      BitsOfLastByte(bits, i, k);
    } else {
      TopPart(bits, i);
      var rest := Encode(bits - 8, i / 256);
      assert Encode(bits, i) == [i % 256] + rest;
      if k < 8 {
        BitInFirst(i % 256, rest, k);
      } else {
        BitsOfEncoding(bits - 8, i / 256, k - 8);
        BitAfterFirst(i % 256, rest, k);
      }
    }
  }

  lemma BitsOfLastByte(bits: nat, i: nat, k: nat)
    requires 0 < bits <= 8 && i < Pow2(bits) && k < 8
    ensures Bit(Encode(bits, i), k) <==> k < bits && ToBits(i, bits)[k]
  {
    BitOfSingle(LastByte(bits, i), k);
    BitsOfByte(bits, i, k);
  }

  lemma BitOfSingle(b: Octet, k: nat)
    requires k < 8
    ensures Bit([b], k) <==> b / Pow2(7 - k) % 2 == 1
  {
    assert k / 8 == 0 && k % 8 == k;
  }

  lemma BitInFirst(first: Octet, rest: Octets, k: nat)
    requires k < 8
    ensures Bit([first] + rest, k) == ToBits(first, 8)[k]
  {
    assert k / 8 == 0 && k % 8 == k;
    BitOfNumber(first, 8, k);
  }

  lemma BitAfterFirst(first: Octet, rest: Octets, k: nat)
    requires 8 <= k < 8 + 8 * |rest|
    ensures Bit([first] + rest, k) == Bit(rest, k - 8)
  {
  }

  // The bits of an address are those of its prefix, then zeros.
  lemma BitsOfAddress(bits: nat, i: nat, k: nat)
    requires bits <= 32 && i < Pow2(bits) && k < 8 * HASH_SIZE
    ensures Bit(Padded(Encode(bits, i)), k) <==> k < bits && PrefixOf(bits, i)[k]
  {
    var code := Encode(bits, i);
    var a := Padded(code);
    if k < 8 * |code| {
      SameByte(a, code, k);
      BitsOfEncoding(bits, i, k);
    } else {
      ZeroByte(a, k);
    }
  }

  lemma SameByte(a: Octets, b: Octets, k: nat)
    requires k < 8 * |a| && k < 8 * |b| && a[k / 8] == b[k / 8]
    ensures Bit(a, k) == Bit(b, k)
  {
  }

  lemma ZeroByte(a: Octets, k: nat)
    requires k < 8 * |a| && a[k / 8] == 0
    ensures !Bit(a, k)
  {
    ZeroDivided(Pow2(7 - k % 8));
  }

  lemma ZeroDivided(d: nat)
    requires d > 0
    ensures 0 / d == 0
  {
  }

  //// The list

  ghost predicate HasPrefix(a: Octets, p: seq<bool>)
    requires |p| <= 8 * |a|
  {
    forall k :: 0 <= k < |p| ==> (Bit(a, k) <==> p[k])
  }

  lemma AddressHasPrefix(bits: nat, i: nat, p: seq<bool>)
    requires bits <= 32 && i < Pow2(bits) && |p| == bits
    ensures HasPrefix(Padded(Encode(bits, i)), p) <==> i == IndexOf(p)
  {
    var a := Padded(Encode(bits, i));
    forall k | 0 <= k < bits
      ensures Bit(a, k) <==> PrefixOf(bits, i)[k]
    {
      BitsOfAddress(bits, i, k);
    }
    PrefixRoundTrip(p);
    IndexRoundTrip(bits, i);
    if HasPrefix(a, p) {
      assert PrefixOf(bits, i) == p;
    }
  }

  method Neighborhoods(bits: nat) returns (ret: seq<Octets>)
    requires bits <= 32
    ensures |ret| == Pow2(bits)
    ensures forall i :: 0 <= i < |ret| ==> |ret[i]| == 32
    // every prefix of `bits` bits belongs to exactly one address
    ensures forall p: seq<bool> :: |p| == bits ==> exists i :: 0 <= i < |ret| && HasPrefix(ret[i], p)
    ensures forall i, j, p: seq<bool> :: 0 <= i < j < |ret| && |p| == bits ==>
              !HasPrefix(ret[i], p) || !HasPrefix(ret[j], p)
    // and all later bits are zero
    ensures forall i, k :: 0 <= i < |ret| && bits <= k < 8 * HASH_SIZE ==> !Bit(ret[i], k)
  {
    ret := ListAddresses(bits);
    EveryPrefixListed(bits, ret);
    NoPrefixTwice(bits, ret);
    ZeroAfterPrefix(bits, ret);
  }

  method ListAddresses(bits: nat) returns (ret: seq<Octets>)
    requires bits <= 32
    ensures IsList(bits, ret)
  {
    var max := Pow2(bits);
    ret := [];
    for i := 0 to max
      invariant |ret| == i
      invariant forall k :: 0 <= k < i ==> ret[k] == Padded(Encode(bits, k))
    {
      var a := AddressOf(bits, i);
      ret := ret + [a];
    }
  }

  ghost predicate IsList(bits: nat, ret: seq<Octets>) {
    bits <= 32 && |ret| == Pow2(bits) && forall i :: 0 <= i < |ret| ==> ret[i] == Padded(Encode(bits, i))
  }

  lemma EveryPrefixListed(bits: nat, ret: seq<Octets>)
    requires IsList(bits, ret)
    ensures forall p: seq<bool> :: |p| == bits ==> exists i :: 0 <= i < |ret| && HasPrefix(ret[i], p)
  {
    forall p: seq<bool> | |p| == bits
      ensures exists i :: 0 <= i < |ret| && HasPrefix(ret[i], p)
    {
      PrefixRoundTrip(p);
      AddressHasPrefix(bits, IndexOf(p), p);
      assert HasPrefix(ret[IndexOf(p)], p);
    }
  }

  lemma NoPrefixTwice(bits: nat, ret: seq<Octets>)
    requires IsList(bits, ret)
    ensures forall i, j, p: seq<bool> :: 0 <= i < j < |ret| && |p| == bits ==>
              !HasPrefix(ret[i], p) || !HasPrefix(ret[j], p)
  {
    forall i, j, p: seq<bool> | 0 <= i < j < |ret| && |p| == bits
      ensures !HasPrefix(ret[i], p) || !HasPrefix(ret[j], p)
    {
      AddressHasPrefix(bits, i, p);
      AddressHasPrefix(bits, j, p);
    }
  }

  lemma ZeroAfterPrefix(bits: nat, ret: seq<Octets>)
    requires IsList(bits, ret)
    ensures forall i, k :: 0 <= i < |ret| && bits <= k < 8 * HASH_SIZE ==> !Bit(ret[i], k)
  {
    forall i, k | 0 <= i < |ret| && bits <= k < 8 * HASH_SIZE
      ensures !Bit(ret[i], k)
    {
      BitsOfAddress(bits, i, k);
    }
  }

  // The loop body: fill a buffer, keep its first bytes, shift the last one, pad.
  method AddressOf(bits: nat, i: nat) returns (a: Octets)
    requires bits <= 32 && i < Pow2(bits)
    ensures a == Padded(Encode(bits, i))
  {
    var leftover := bits % 8;
    var size := if bits <= 8 then 1 else if bits <= 16 then 2 else if bits <= 24 then 3 else 4;
    var addr := FirstBytes(i, size);
    ShiftLastByte(addr, leftover);
    PaddedEncoding(bits, i, size);
    a := BytesToAddr(addr[..]);
  }

  method ShiftLastByte(addr: array<Octet>, leftover: nat)
    requires addr.Length > 0 && leftover < 8
    modifies addr
    ensures addr[..] == ShiftLast(old(addr[..]), leftover)
  {
    if leftover > 0 {
      addr[addr.Length - 1] := addr[addr.Length - 1] * Pow2(8 - leftover) % 256;
    }
  }

  // Padding hides that zero bits still take one byte.
  lemma PaddedEncoding(bits: nat, i: nat, size: nat)
    requires bits <= 32 && i < Pow2(bits)
    requires size == if bits <= 8 then 1 else if bits <= 16 then 2 else if bits <= 24 then 3 else 4
    ensures Padded(ShiftLast(LowBytes(i, size), bits % 8)) == Padded(Encode(bits, i))
  {
    if bits > 0 {
      assert size == (bits + 7) / 8;
      BytesAreEncoding(bits, i);
    } else {
      assert LowBytes(i, 1) == [0];
      assert Padded([0]) == Padded([]);
    }
  }

  method FirstBytes(i: nat, size: nat) returns (addr: array<Octet>)
    requires 1 <= size <= 4
    ensures fresh(addr) && addr.Length == size && addr[..] == LowBytes(i, size)
  {
    var buf := new Octet[4];
    buf[0], buf[1], buf[2], buf[3] := i % 256, i / 256 % 256, i / 256 / 256 % 256, i / 256 / 256 / 256 % 256;
    addr := new Octet[size];
    for k := 0 to size
      invariant forall j :: 0 <= j < k ==> addr[j] == buf[j]
      modifies addr
    {
      addr[k] := buf[k];
    }
    LowBytesUnrolled(i);
    assert addr[..] == buf[..][..size];
  }

  method BytesToAddr(b: Octets) returns (a: Octets)
    requires |b| <= HASH_SIZE
    ensures a == Padded(b)
  {
    var addr := new Octet[HASH_SIZE](_ => 0);
    for k := 0 to |b|
      invariant forall j :: 0 <= j < k ==> addr[j] == b[j]
      invariant forall j :: k <= j < HASH_SIZE ==> addr[j] == 0
    {
      addr[k] := b[k];
    }
    return addr[..];
  }

  function LowBytes(i: nat, size: nat): (s: Octets)
    ensures |s| == size
  {
    if size == 0 then [] else [i % 256] + LowBytes(i / 256, size - 1)
  }

  lemma LowBytesUnrolled(i: nat)
    ensures var b := [i % 256, i / 256 % 256, i / 256 / 256 % 256, i / 256 / 256 / 256 % 256];
            forall size: nat :: size <= 4 ==> LowBytes(i, size) == b[..size]
  {
    var i1, i2, i3 := i / 256, i / 256 / 256, i / 256 / 256 / 256;
    assert LowBytes(i3, 1) == [i3 % 256];
    assert LowBytes(i2, 2) == [i2 % 256] + LowBytes(i3, 1) && LowBytes(i2, 1) == [i2 % 256];
    assert LowBytes(i1, 3) == [i1 % 256] + LowBytes(i2, 2) && LowBytes(i1, 2) == [i1 % 256] + LowBytes(i2, 1);
    assert LowBytes(i1, 1) == [i1 % 256];
    assert LowBytes(i, 4) == [i % 256] + LowBytes(i1, 3) && LowBytes(i, 3) == [i % 256] + LowBytes(i1, 2);
    assert LowBytes(i, 2) == [i % 256] + LowBytes(i1, 1) && LowBytes(i, 1) == [i % 256];
  }

  function ShiftLast(s: Octets, leftover: nat): Octets
    requires s != [] && leftover < 8
  {
    if leftover == 0 then s else s[|s| - 1 := s[|s| - 1] * Pow2(8 - leftover) % 256]
  }

  lemma {:induction false} BytesAreEncoding(bits: nat, i: nat)
    requires 0 < bits && i < Pow2(bits)
    ensures ShiftLast(LowBytes(i, (bits + 7) / 8), bits % 8) == Encode(bits, i)
    decreases bits
  {
    if bits <= 8 {
      LastByteIsEncoding(bits, i);
    } else {
      TopPart(bits, i);
      BytesAreEncoding(bits - 8, i / 256);
      NextByte(bits, i);
      ShiftAfterFirst(i % 256, LowBytes(i / 256, (bits - 8 + 7) / 8), bits % 8);
    }
  }

  lemma NextByte(bits: nat, i: nat)
    requires bits > 8
    ensures (bits - 8 + 7) / 8 > 0 && bits % 8 == (bits - 8) % 8
    ensures LowBytes(i, (bits + 7) / 8) == [i % 256] + LowBytes(i / 256, (bits - 8 + 7) / 8)
  {
    assert (bits + 7) / 8 == (bits - 8 + 7) / 8 + 1;
  }

  lemma ShiftAfterFirst(first: Octet, rest: Octets, leftover: nat)
    requires rest != [] && leftover < 8
    ensures ShiftLast([first] + rest, leftover) == [first] + ShiftLast(rest, leftover)
  {
  }

  lemma LastByteIsEncoding(bits: nat, i: nat)
    requires 0 < bits <= 8 && i < Pow2(bits)
    ensures (bits + 7) / 8 == 1
    ensures ShiftLast(LowBytes(i, 1), bits % 8) == Encode(bits, i)
  {
    ByteFits(bits, i);
    assert LowBytes(i, 1) == [i];
    if bits < 8 {
      ShiftedByte(bits, i);
    } else {
      FullByte(i);
    }
  }

  lemma FullByte(i: nat)
    requires i < Pow2(8)
    ensures LastByte(8, i) == i
  {
    assert Pow2(0) == 1;
  }

  lemma ShiftedByte(bits: nat, i: nat)
    requires 0 < bits < 8 && i < Pow2(bits) && i < 256
    ensures ShiftLast([i], bits) == [LastByte(bits, i)]
  {
    ShiftFits(bits, i);
    SmallRemainder(LastByte(bits, i));
  }

  lemma SmallRemainder(v: nat)
    requires v < 256
    ensures v % 256 == v
  {
  }

  lemma ByteFits(bits: nat, i: nat)
    requires bits <= 8 && i < Pow2(bits)
    ensures i < 256
  {
    Pow2Of8();
    Pow2Monotone(bits, 8);
  }
}
