/** Matching addresses against network prefixes, on the bytes of the addresses in network order. */
module Cidr {
  import opened Quotients

  // ----- words of the host -----

  /** Four bytes as one word, the first byte on top. */
  function Pack(a: bv8, b: bv8, c: bv8, d: bv8): bv32
  {
    (a as bv32 << 24) | (b as bv32 << 16) | (c as bv32 << 8) | d as bv32
  }

  function Swap(x: bv32): bv32
  {
    (x << 24) | ((x & 0xFF00) << 8) | ((x >> 8) & 0xFF00) | (x >> 24)
  }

  /** Four bytes of memory read as one word of a little-endian or a big-endian host. */
  function Load(s: seq<bv8>, little: bool): bv32
    requires |s| == 4
  {
    if little then Pack(s[3], s[2], s[1], s[0]) else Pack(s[0], s[1], s[2], s[3])
  }

  /** From the byte order of the host to network order. */
  function Htonl(x: bv32, little: bool): bv32
  {
    if little then Swap(x) else x
  }

  /** Ones but for the last k bits. */
  function Mask(k: bv8): bv32
    requires k < 32
  {
    0xFFFFFFFF << k
  }

  /** The bits under a mask in which two words differ. */
  function Difference(a: bv32, n: bv32, mask: bv32): bv32
  {
    (a ^ n) & mask
  }

  /** Whether two words agree under the mask for their first bits. */
  predicate Masked(a: bv32, n: bv32, bits: bv8, little: bool)
    requires 0 < bits <= 32
  {
    Difference(a, n, Htonl(Mask(32 - bits), little)) == 0
  }

  predicate CidrMatch(addr: seq<bv8>, net: seq<bv8>, bits: bv8, little: bool)
    requires |addr| == |net| == 4 && bits <= 32
  {
    bits == 0 || Masked(Load(addr, little), Load(net, little), bits, little)
  }

  function Words(s: seq<bv8>, w: nat): seq<bv8>
    requires 4 * w + 4 <= |s|
  {
    s[4 * w..4 * w + 4]
  }

  /** Whole words first, then the rest of one word. */
  predicate Cidr6Match(address: seq<bv8>, network: seq<bv8>, bits: bv8, little: bool)
    requires |address| == |network| == 16 && bits <= 128
  {
    var whole, incomplete := WholeWords(bits), bits & 0x1F;
    if whole > 0 && address[..4 * whole] != network[..4 * whole] then false
    else incomplete == 0 ||
         (SplitBits(bits);
          Masked(Load(Words(address, whole), little), Load(Words(network, whole), little), incomplete, little))
  }

  function WholeWords(bits: bv8): (w: nat)
    requires bits <= 128
    ensures w <= 4
  {
    SplitBits(bits);
    (bits >> 5) as int
  }

  lemma SplitBits(bits: bv8)
    ensures bits as int == 32 * ((bits >> 5) as int) + (bits & 0x1F) as int
    ensures bits & 0x1F < 32 && (bits & 0x1F == 0 <==> (bits & 0x1F) as int == 0)
    ensures bits <= 128 ==> (bits >> 5) as int <= 4 && ((bits >> 5) as int == 4 ==> bits & 0x1F == 0)
  {
  }

  // ----- from words to bytes -----

  lemma SwapOfPack(a: bv8, b: bv8, c: bv8, d: bv8)
    ensures Swap(Pack(a, b, c, d)) == Pack(d, c, b, a)
  {
  }

  /** The bits under a mask in which two bytes differ. */
  function ByteDifference(x: bv8, y: bv8, mask: bv8): bv8
  {
    (x ^ y) & mask
  }

  lemma DifferenceOfPacks(a: bv8, b: bv8, c: bv8, d: bv8, e: bv8, f: bv8, g: bv8, h: bv8, m: bv8, n: bv8, o: bv8,
                          p: bv8)
    ensures Difference(Pack(a, b, c, d), Pack(e, f, g, h), Pack(m, n, o, p)) ==
            Pack(ByteDifference(a, e, m), ByteDifference(b, f, n), ByteDifference(c, g, o), ByteDifference(d, h, p))
  {
  }

  lemma PackIsZero(a: bv8, b: bv8, c: bv8, d: bv8)
    ensures Pack(a, b, c, d) == 0 <==> a == 0 && b == 0 && c == 0 && d == 0
  {
  }

  /** The byte of a mask that has its first `bits` bits set. */
  function MaskByte(bits: bv8): bv8
  {
    if bits >= 8 then 0xFF else 0xFF << (8 - bits)
  }

  function Less(bits: bv8, n: bv8): bv8
  {
    if bits <= n then 0 else bits - n
  }

  lemma MaskBytes(k: bv8)
    requires k < 8
    ensures Mask(k) == Pack(0xFF, 0xFF, 0xFF, 0xFF << k)
    ensures Mask(k + 8) == Pack(0xFF, 0xFF, 0xFF << k, 0)
    ensures Mask(k + 16) == Pack(0xFF, 0xFF << k, 0, 0)
    ensures Mask(k + 24) == Pack(0xFF << k, 0, 0, 0)
  {
  }

  lemma MaskIsPack(bits: bv8)
    requires 0 < bits <= 32
    ensures Mask(32 - bits) ==
            Pack(MaskByte(bits), MaskByte(Less(bits, 8)), MaskByte(Less(bits, 16)), MaskByte(Less(bits, 24)))
  {
    hide Mask, Pack;
    if bits <= 8 {
      MaskBytes(8 - bits);
    } else if bits <= 16 {
      MaskBytes(16 - bits);
    } else if bits <= 24 {
      MaskBytes(24 - bits);
    } else {
      MaskBytes(32 - bits);
    }
  }

  /** Two bytes agree in their first bits, of which there are at least eight or as many as given. */
  predicate ByteAgrees(x: bv8, y: bv8, bits: bv8)
  {
    ByteDifference(x, y, MaskByte(bits)) == 0
  }

  /** Under either byte order of the host the words agree under the mask exactly when each byte
      agrees in its share of the prefix. */
  lemma MaskedByBytes(x: seq<bv8>, y: seq<bv8>, bits: bv8, little: bool)
    requires |x| == |y| == 4 && 0 < bits <= 32
    ensures Masked(Load(x, little), Load(y, little), bits, little) <==>
            ByteAgrees(x[0], y[0], bits) && ByteAgrees(x[1], y[1], Less(bits, 8)) &&
            ByteAgrees(x[2], y[2], Less(bits, 16)) && ByteAgrees(x[3], y[3], Less(bits, 24))
  {
    MaskIsPack(bits);
    var m, n, o, p := MaskByte(bits), MaskByte(Less(bits, 8)), MaskByte(Less(bits, 16)), MaskByte(Less(bits, 24));
    hide Pack, Swap, Mask, Difference, MaskByte, Less, ByteDifference;
    if little {
      SwapOfPack(m, n, o, p);
      DifferenceOfPacks(x[3], x[2], x[1], x[0], y[3], y[2], y[1], y[0], p, o, n, m);
      PackIsZero(ByteDifference(x[3], y[3], p), ByteDifference(x[2], y[2], o),
                 ByteDifference(x[1], y[1], n), ByteDifference(x[0], y[0], m));
    } else {
      DifferenceOfPacks(x[0], x[1], x[2], x[3], y[0], y[1], y[2], y[3], m, n, o, p);
      PackIsZero(ByteDifference(x[0], y[0], m), ByteDifference(x[1], y[1], n),
                 ByteDifference(x[2], y[2], o), ByteDifference(x[3], y[3], p));
    }
  }

  // ----- from bytes to numbers -----

  function Number(x: bv8): (n: nat)
    ensures n < 256
  {
    x as int
  }

  function ByteShift(x: bv8, k: bv8): bv8
    requires k <= 8
  {
    x >> k
  }

  lemma NumberIsInjective(x: bv8, y: bv8)
    ensures Number(x) == Number(y) <==> x == y
  {
  }

  lemma HalfOfByte(x: bv8, k: bv8)
    requires 0 < k <= 8
    ensures ByteShift(x, k) == ByteShift(ByteShift(x, k - 1), 1) && Number(k) == Number(k - 1) + 1
  {
  }

  lemma HalfOfNumber(x: bv8)
    ensures Number(ByteShift(x, 1)) == Number(x) / 2
  {
  }

  lemma {:induction false} ByteQuotient(x: bv8, k: bv8)
    requires k <= 8
    ensures Number(ByteShift(x, k)) == Number(x) / Pow2(Number(k))
    decreases k
  {
    if k > 0 {
      HalfOfByte(x, k);
      ByteQuotient(x, k - 1);
      HalfOfNumber(ByteShift(x, k - 1));
      QuotientTwice(Number(x), Pow2(Number(k - 1)), 2);
      hide Number, ByteShift;
    }
  }

  lemma ByteAgreesIsShift(x: bv8, y: bv8, bits: bv8)
    ensures 0 < bits <= 8 ==> (ByteAgrees(x, y, bits) <==> ByteShift(x, 8 - bits) == ByteShift(y, 8 - bits))
    ensures bits >= 8 ==> (ByteAgrees(x, y, bits) <==> x == y)
    ensures bits == 0 ==> ByteAgrees(x, y, bits)
  {
  }

  lemma EightLess(bits: bv8)
    requires bits <= 8
    ensures Number(8 - bits) == 8 - Number(bits)
  {
  }

  lemma ByteAgreesIsQuotient(x: bv8, y: bv8, bits: bv8)
    requires 0 < bits <= 8
    ensures Number(bits) <= 8
    ensures ByteAgrees(x, y, bits) <==> Number(x) / Pow2(8 - Number(bits)) == Number(y) / Pow2(8 - Number(bits))
  {
    EightLess(bits);
    ByteAgreesIsShift(x, y, bits);
    ByteQuotient(x, 8 - bits);
    ByteQuotient(y, 8 - bits);
    NumberIsInjective(ByteShift(x, 8 - bits), ByteShift(y, 8 - bits));
    hide Number, ByteShift, ByteAgrees;
  }

  type Digit = d: nat | d < 256

  function Numbers(s: seq<bv8>): (n: seq<Digit>)
    ensures |n| == |s|
  {
    seq(|s|, i requires 0 <= i < |s| => Number(s[i]))
  }

  /** Bytes as a big-endian number. */
  function Value(s: seq<Digit>): nat
  {
    if s == [] then 0 else 256 * Value(s[..|s| - 1]) + s[|s| - 1]
  }

  /** The first `bits` bits agree, byte for byte. */
  predicate PrefixAgrees(a: seq<Digit>, b: seq<Digit>, bits: nat)
    requires |a| == |b| && bits <= 8 * |a|
    decreases |a|
  {
    var n := |a|;
    n == 0 ||
    if bits <= 8 * n - 8 then PrefixAgrees(a[..n - 1], b[..n - 1], bits)
    else a[..n - 1] == b[..n - 1] && a[n - 1] / Pow2(8 * n - bits) == b[n - 1] / Pow2(8 * n - bits)
  }

  lemma {:induction false} ValueIsInjective(a: seq<Digit>, b: seq<Digit>)
    requires |a| == |b|
    ensures Value(a) == Value(b) <==> a == b
  {
    if a != [] {
      var n := |a| - 1;
      ValueIsInjective(a[..n], b[..n]);
      SameParts(256, Value(a[..n]), a[n], Value(b[..n]), b[n]);
      assert a == a[..n] + [a[n]] && b == b[..n] + [b[n]];
    }
  }

  lemma DropByte(v: nat, d: Digit, k: nat)
    requires k >= 8
    ensures (256 * v + d) / Pow2(k) == v / Pow2(k - 8)
  {
    Pow2Of8();
    Pow2Sum(k - 8, 8);
    QuotientTwice(256 * v + d, 256, Pow2(k - 8));
    QuotientIs(256 * v + d, 256, v, d);
  }

  lemma SplitByte(v: nat, d: Digit, k: nat)
    requires k < 8
    ensures (256 * v + d) / Pow2(k) == Pow2(8 - k) * v + d / Pow2(k)
  {
    var p, q := Pow2(k), Pow2(8 - k);
    Pow2Of8();
    Pow2Sum(k, 8 - k);
    Associate(p, q, v);
    MultiplePlus(p, q * v, d);
  }

  lemma ByteQuotientFits(d: Digit, k: nat)
    requires k < 8
    ensures d / Pow2(k) < Pow2(8 - k)
  {
    Pow2Of8();
    Pow2Sum(k, 8 - k);
    QuotientFits(d, Pow2(k), Pow2(8 - k));
  }

  lemma Associate(p: nat, q: nat, v: nat)
    ensures p * q * v == p * (q * v)
  {
  }

  lemma {:induction false} PrefixUnfolds(a: seq<Digit>, b: seq<Digit>, bits: nat)
    requires |a| == |b| > 0 && bits <= 8 * |a|
    ensures Value(a) == 256 * Value(a[..|a| - 1]) + a[|a| - 1]
    ensures Value(b) == 256 * Value(b[..|b| - 1]) + b[|b| - 1]
    ensures bits <= 8 * |a| - 8 ==>
              (PrefixAgrees(a, b, bits) <==> PrefixAgrees(a[..|a| - 1], b[..|a| - 1], bits))
    ensures bits > 8 * |a| - 8 ==>
              (PrefixAgrees(a, b, bits) <==>
               a[..|a| - 1] == b[..|a| - 1] &&
               a[|a| - 1] / Pow2(8 * |a| - bits) == b[|a| - 1] / Pow2(8 * |a| - bits))
  {
  }

  /** What is left of a number and a byte behind it when fewer than eight bits are dropped. */
  function Joined(v: nat, d: Digit, k: nat): nat
    requires k < 8
  {
    Join(Pow2(8 - k), v, Without(d, k))
  }

  function Join(q: nat, v: nat, x: nat): nat
  {
    q * v + x
  }

  lemma JoinAlike(q: nat, v: nat, x: nat, w: nat, y: nat)
    requires x < q && y < q
    ensures Join(q, v, x) == Join(q, w, y) <==> v == w && x == y
  {
    SameParts(q, v, x, w, y);
  }

  /** A number without its last k bits. */
  function Without(v: nat, k: nat): nat
  {
    Quotient(v, Pow2(k))
  }

  function Quotient(v: nat, p: nat): nat
    requires p > 0
  {
    v / p
  }

  function Behind(v: nat, d: Digit): nat
  {
    256 * v + d
  }

  lemma JoinedIsQuotient(v: nat, d: Digit, k: nat)
    requires k < 8
    ensures Without(Behind(v, d), k) == Joined(v, d, k)
  {
    SplitByte(v, d, k);
  }

  lemma JoinedAlike(v: nat, x: Digit, w: nat, y: Digit, k: nat)
    requires k < 8
    ensures Joined(v, x, k) == Joined(w, y, k) <==> v == w && Without(x, k) == Without(y, k)
  {
    ByteQuotientFits(x, k);
    ByteQuotientFits(y, k);
    hide Pow2, Without, Join;
    JoinAlike(Pow2(8 - k), v, Without(x, k), w, Without(y, k));
  }

  lemma LastByteIsQuotient(u: seq<Digit>, v: seq<Digit>, x: Digit, y: Digit, k: nat)
    requires |u| == |v| && k < 8
    ensures u == v && Without(x, k) == Without(y, k) <==>
            Without(Behind(Value(u), x), k) == Without(Behind(Value(v), y), k)
  {
    hide Pow2, Value, Joined, Behind, Without;
    ValueIsInjective(u, v);
    JoinedIsQuotient(Value(u), x, k);
    JoinedIsQuotient(Value(v), y, k);
    JoinedAlike(Value(u), x, Value(v), y, k);
  }

  /** The first bits of two addresses agree exactly when the addresses agree as numbers after the
      division that drops the other bits. */
  lemma {:induction false} PrefixIsQuotient(a: seq<Digit>, b: seq<Digit>, bits: nat)
    requires |a| == |b| && bits <= 8 * |a|
    ensures PrefixAgrees(a, b, bits) <==> Value(a) / Pow2(8 * |a| - bits) == Value(b) / Pow2(8 * |a| - bits)
    decreases |a|
  {
    var n := |a|;
    if n > 0 {
      hide Value, Pow2, PrefixAgrees;
      PrefixUnfolds(a, b, bits);
      var k := 8 * n - bits;
      var u, v, x, y := a[..n - 1], b[..n - 1], a[n - 1], b[n - 1];
      if k >= 8 {
        PrefixIsQuotient(u, v, bits);
        assert 8 * |u| - bits == k - 8;
        DropByte(Value(u), x, k);
        DropByte(Value(v), y, k);
      } else {
        LastByteIsQuotient(u, v, x, y, k);
      }
    }
  }

  lemma WholePrefixStep(u: seq<Digit>, v: seq<Digit>)
    requires |u| == |v| > 0
    ensures PrefixAgrees(u, v, 8 * |u|) <==> u == v
  {
    hide PrefixAgrees, Pow2, Value;
    var n := |u| - 1;
    PrefixUnfolds(u, v, 8 * |u|);
    WholeByte(u[n]);
    WholeByte(v[n]);
    assert u == u[..n] + [u[n]] && v == v[..n] + [v[n]];
  }

  lemma WholePrefix(u: seq<Digit>, v: seq<Digit>)
    requires |u| == |v|
    ensures PrefixAgrees(u, v, 8 * |u|) <==> u == v
  {
    if u != [] {
      WholePrefixStep(u, v);
    }
  }

  lemma WholeByte(d: Digit)
    ensures d / Pow2(0) == d
  {
  }

  // ----- one word -----

  predicate DigitAgrees(x: Digit, y: Digit, k: nat)
  {
    x / Pow2(k) == y / Pow2(k)
  }

  lemma LessBits(bits: bv8, n: bv8)
    requires bits <= 32 && n <= 24
    ensures Number(Less(bits, n)) == if Number(bits) <= Number(n) then 0 else Number(bits) - Number(n)
    ensures Less(bits, n) <= 32
    ensures Less(bits, n) == 0 <==> Number(bits) <= Number(n)
    ensures Less(bits, n) >= 8 <==> Number(bits) >= Number(n) + 8
  {
  }

  /** A byte agrees in its share of the prefix: wholly, partly or not asked at all. */
  predicate ShareAgrees(x: Digit, y: Digit, bits: nat, n: nat)
  {
    if bits <= n then true else if bits >= n + 8 then x == y else DigitAgrees(x, y, n + 8 - bits)
  }

  lemma ShareIsByte(x: bv8, y: bv8, bits: bv8, n: bv8)
    requires bits <= 32 && n <= 24
    ensures ByteAgrees(x, y, Less(bits, n)) <==> ShareAgrees(Number(x), Number(y), Number(bits), Number(n))
  {
    LessBits(bits, n);
    var b := Less(bits, n);
    hide Less, ByteAgrees, Number, Pow2, ByteShift;
    ByteAgreesIsShift(x, y, b);
    NumberIsInjective(x, y);
    if 0 < b <= 8 {
      ByteAgreesIsQuotient(x, y, b);
    }
  }

  lemma LastDigit(a: seq<Digit>, b: seq<Digit>, bits: nat)
    requires |a| == |b| > 0 && bits <= 8 * |a|
    ensures PrefixAgrees(a, b, bits) <==>
            (if bits <= 8 * |a| - 8 then PrefixAgrees(a[..|a| - 1], b[..|a| - 1], bits)
             else PrefixAgrees(a[..|a| - 1], b[..|a| - 1], 8 * |a| - 8) &&
                  ShareAgrees(a[|a| - 1], b[|a| - 1], bits, 8 * |a| - 8))
  {
    hide Value, Pow2, PrefixAgrees;
    PrefixUnfolds(a, b, bits);
    WholePrefix(a[..|a| - 1], b[..|a| - 1]);
    WholeByte(a[|a| - 1]);
    WholeByte(b[|a| - 1]);
  }

  lemma {:induction false} PrefixByShares(a: seq<Digit>, b: seq<Digit>, bits: nat)
    requires |a| == |b| && bits <= 8 * |a|
    ensures PrefixAgrees(a, b, bits) <==> forall i :: 0 <= i < |a| ==> ShareAgrees(a[i], b[i], bits, 8 * i)
  {
    if a != [] {
      var n := |a| - 1;
      LastDigit(a, b, bits);
      var c := if bits <= 8 * n then bits else 8 * n;
      PrefixByShares(a[..n], b[..n], c);
      hide PrefixAgrees, DigitAgrees;
      assert forall i :: 0 <= i < n ==>
             (ShareAgrees(a[i], b[i], bits, 8 * i) <==> ShareAgrees(a[..n][i], b[..n][i], c, 8 * i));
    }
  }

  lemma FourShares(a: seq<Digit>, b: seq<Digit>, bits: nat)
    requires |a| == |b| == 4 && bits <= 32
    ensures PrefixAgrees(a, b, bits) <==>
            ShareAgrees(a[0], b[0], bits, 0) && ShareAgrees(a[1], b[1], bits, 8) &&
            ShareAgrees(a[2], b[2], bits, 16) && ShareAgrees(a[3], b[3], bits, 24)
  {
    PrefixByShares(a, b, bits);
    hide ShareAgrees, PrefixAgrees;
    assert ShareAgrees(a[0], b[0], bits, 8 * 0) <==> ShareAgrees(a[0], b[0], bits, 0);
    assert ShareAgrees(a[1], b[1], bits, 8 * 1) <==> ShareAgrees(a[1], b[1], bits, 8);
    assert ShareAgrees(a[2], b[2], bits, 8 * 2) <==> ShareAgrees(a[2], b[2], bits, 16);
    assert ShareAgrees(a[3], b[3], bits, 8 * 3) <==> ShareAgrees(a[3], b[3], bits, 24);
  }

  lemma SharesAreBytes(x: seq<bv8>, y: seq<bv8>, bits: bv8)
    requires |x| == |y| == 4 && bits <= 32
    ensures ByteAgrees(x[0], y[0], bits) <==> ShareAgrees(Number(x[0]), Number(y[0]), Number(bits), 0)
    ensures ByteAgrees(x[1], y[1], Less(bits, 8)) <==> ShareAgrees(Number(x[1]), Number(y[1]), Number(bits), 8)
    ensures ByteAgrees(x[2], y[2], Less(bits, 16)) <==> ShareAgrees(Number(x[2]), Number(y[2]), Number(bits), 16)
    ensures ByteAgrees(x[3], y[3], Less(bits, 24)) <==> ShareAgrees(Number(x[3]), Number(y[3]), Number(bits), 24)
  {
    ThirtyTwo(bits);
    assert 0 as bv8 as int == 0 && 8 as bv8 as int == 8 && 16 as bv8 as int == 16 && 24 as bv8 as int == 24;
    hide ShareAgrees, ByteAgrees, Less;
    ShareIsByte(x[0], y[0], bits, 0);
    ShareIsByte(x[1], y[1], bits, 8);
    ShareIsByte(x[2], y[2], bits, 16);
    ShareIsByte(x[3], y[3], bits, 24);
  }

  /** Under either byte order of the host a masked comparison of words is a comparison of the
      first bits of the bytes. */
  lemma WordPrefix(x: seq<bv8>, y: seq<bv8>, bits: bv8, little: bool)
    requires |x| == |y| == 4 && 0 < bits <= 32
    ensures Number(bits) <= 32
    ensures Masked(Load(x, little), Load(y, little), bits, little) <==>
            PrefixAgrees(Numbers(x), Numbers(y), Number(bits))
  {
    hide Masked, Load, ShareAgrees, ByteAgrees, Less, Number, PrefixAgrees;
    MaskedByBytes(x, y, bits, little);
    SharesAreBytes(x, y, bits);
    ThirtyTwo(bits);
    FourShares(Numbers(x), Numbers(y), Number(bits));
  }

  lemma ThirtyTwo(bits: bv8)
    ensures bits <= 32 <==> Number(bits) <= 32
    ensures Less(bits, 0) == bits
  {
  }

  // ----- several words -----

  /** A prefix of whole words. */
  lemma PrefixOfWholeWords(a: seq<Digit>, b: seq<Digit>, w: nat)
    requires |a| == |b| && 4 * w <= |a|
    ensures PrefixAgrees(a, b, 32 * w) <==> a[..4 * w] == b[..4 * w]
  {
    PrefixByShares(a, b, 32 * w);
    hide PrefixAgrees, DigitAgrees;
    assert forall i :: 0 <= i < |a| ==> (ShareAgrees(a[i], b[i], 32 * w, 8 * i) <==> (i < 4 * w ==> a[i] == b[i]));
    if a[..4 * w] == b[..4 * w] {
      forall i | 0 <= i < 4 * w ensures a[i] == b[i] {
        assert a[..4 * w][i] == b[..4 * w][i];
      }
    }
  }

  lemma ShareMoves(x: Digit, y: Digit, bits: nat, n: nat, m: nat)
    ensures ShareAgrees(x, y, m + bits, m + n) <==> ShareAgrees(x, y, bits, n)
  {
    hide DigitAgrees;
  }

  lemma ShareOfWords(x: Digit, y: Digit, w: nat, r: nat, i: nat)
    requires r <= 32
    ensures i < 4 * w ==> (ShareAgrees(x, y, 32 * w + r, 8 * i) <==> x == y)
    ensures 0 <= i - 4 * w < 4 ==> (ShareAgrees(x, y, 32 * w + r, 8 * i) <==> ShareAgrees(x, y, r, 8 * (i - 4 * w)))
    ensures i >= 4 * w + 4 ==> ShareAgrees(x, y, 32 * w + r, 8 * i)
  {
    hide DigitAgrees;
    if i >= 4 * w {
      ShareMoves(x, y, r, 8 * (i - 4 * w), 32 * w);
    }
  }

  /** A prefix of whole words and a part of the next. */
  lemma PrefixOfWords(a: seq<Digit>, b: seq<Digit>, w: nat, r: nat)
    requires |a| == |b| && 4 * w + 4 <= |a| && r <= 32
    ensures PrefixAgrees(a, b, 32 * w + r) <==>
            a[..4 * w] == b[..4 * w] && PrefixAgrees(a[4 * w..4 * w + 4], b[4 * w..4 * w + 4], r)
  {
    hide PrefixAgrees, ShareAgrees;
    var c, d := a[4 * w..4 * w + 4], b[4 * w..4 * w + 4];
    PrefixByShares(a, b, 32 * w + r);
    PrefixByShares(c, d, r);
    forall i | 0 <= i < |a|
      ensures ShareAgrees(a[i], b[i], 32 * w + r, 8 * i) <==>
              (i < 4 * w ==> a[i] == b[i]) &&
                  (0 <= i - 4 * w < 4 ==> ShareAgrees(c[i - 4 * w], d[i - 4 * w], r, 8 * (i - 4 * w)))
    {
      ShareOfWords(a[i], b[i], w, r, i);
    }
    if a[..4 * w] == b[..4 * w] {
      forall i | 0 <= i < 4 * w ensures a[i] == b[i] {
        assert a[..4 * w][i] == b[..4 * w][i];
      }
    }
    if PrefixAgrees(a, b, 32 * w + r) {
      forall j | 0 <= j < 4 ensures ShareAgrees(c[j], d[j], r, 8 * j) {
        assert ShareAgrees(a[4 * w + j], b[4 * w + j], 32 * w + r, 8 * (4 * w + j));
      }
    }
  }

  lemma NumbersKeepSlices(x: seq<bv8>, y: seq<bv8>, i: nat, j: nat)
    requires |x| == |y| && i <= j <= |x|
    ensures Numbers(x)[i..j] == Numbers(x[i..j]) && Numbers(y)[i..j] == Numbers(y[i..j])
    ensures x[i..j] == y[i..j] <==> Numbers(x[i..j]) == Numbers(y[i..j])
  {
    var u, v := x[i..j], y[i..j];
    if Numbers(u) == Numbers(v) {
      forall k | 0 <= k < |u| ensures u[k] == v[k] {
        assert Numbers(u)[k] == Numbers(v)[k];
        NumberIsInjective(u[k], v[k]);
      }
    }
    hide Number;
  }

  lemma WordsOfPrefix(bits: bv8)
    requires bits <= 128
    ensures bits & 0x1F < 32
    ensures Number(bits) == 32 * WholeWords(bits) + Number(bits & 0x1F)
    ensures Number(bits & 0x1F) == 0 <==> bits & 0x1F == 0
    ensures WholeWords(bits) == 4 ==> bits & 0x1F == 0
    ensures Number(bits) <= 128
  {
    SplitBits(bits);
  }

  lemma Cidr6Prefix(address: seq<bv8>, network: seq<bv8>, bits: bv8, little: bool)
    requires |address| == |network| == 16 && bits <= 128
    ensures Number(bits) <= 128
    ensures Cidr6Match(address, network, bits, little) <==>
            PrefixAgrees(Numbers(address), Numbers(network), Number(bits))
  {
    WordsOfPrefix(bits);
    var w, r := WholeWords(bits), bits & 0x1F;
    hide Number, WholeWords, Numbers, PrefixAgrees, Masked, Load;
    var a, b := Numbers(address), Numbers(network);
    NumbersKeepSlices(address, network, 0, 4 * w);
    assert address[..4 * w] == address[0..4 * w] && network[..4 * w] == network[0..4 * w];
    assert a[..4 * w] == a[0..4 * w] && b[..4 * w] == b[0..4 * w];
    if r == 0 {
      PrefixOfWholeWords(a, b, w);
    } else {
      PrefixOfWords(a, b, w, Number(r));
      NumbersKeepSlices(address, network, 4 * w, 4 * w + 4);
      WordPrefix(Words(address, w), Words(network, w), r, little);
    }
  }

  // ----- what a match means -----

  /** Two addresses are equal as numbers once all but their first `bits` bits are divided away. */
  predicate SamePrefix(x: seq<bv8>, y: seq<bv8>, bits: bv8)
    requires |x| == |y| && Number(bits) <= 8 * |x|
  {
    var unit := Pow2(8 * |x| - Number(bits));
    Value(Numbers(x)) / unit == Value(Numbers(y)) / unit
  }

  lemma CidrMatchIsSamePrefix(addr: seq<bv8>, net: seq<bv8>, bits: bv8, little: bool)
    requires |addr| == |net| == 4 && bits <= 32
    ensures Number(bits) <= 32
    ensures CidrMatch(addr, net, bits, little) <==> SamePrefix(addr, net, bits)
  {
    ThirtyTwo(bits);
    PrefixIsQuotient(Numbers(addr), Numbers(net), Number(bits));
    if bits != 0 {
      WordPrefix(addr, net, bits, little);
    } else {
      NoPrefix(addr, net);
    }
    hide Value, Pow2, Number, Numbers, PrefixAgrees, Masked, Load;
  }

  lemma NoPrefix(x: seq<bv8>, y: seq<bv8>)
    requires |x| == |y| == 4
    ensures Number(0) == 0 && PrefixAgrees(Numbers(x), Numbers(y), 0)
  {
    PrefixByShares(Numbers(x), Numbers(y), 0);
  }

  lemma Cidr6MatchIsSamePrefix(address: seq<bv8>, network: seq<bv8>, bits: bv8, little: bool)
    requires |address| == |network| == 16 && bits <= 128
    ensures Number(bits) <= 128
    ensures Cidr6Match(address, network, bits, little) <==> SamePrefix(address, network, bits)
  {
    hide Value, Pow2, Number, Numbers, PrefixAgrees, Cidr6Match;
    Cidr6Prefix(address, network, bits, little);
    PrefixIsQuotient(Numbers(address), Numbers(network), Number(bits));
  }

  /** A match at some length is a match at every smaller one. */
  lemma ShorterPrefixesMatch(x: seq<bv8>, y: seq<bv8>, bits: bv8, fewer: bv8, little: bool)
    requires |x| == |y| && fewer <= bits
    ensures |x| == 4 && bits <= 32 && CidrMatch(x, y, bits, little) ==> CidrMatch(x, y, fewer, little)
    ensures |x| == 16 && bits <= 128 && Cidr6Match(x, y, bits, little) ==> Cidr6Match(x, y, fewer, little)
  {
    hide CidrMatch, Cidr6Match;
    assert Number(fewer) <= Number(bits);
    if |x| == 4 && bits <= 32 && CidrMatch(x, y, bits, little) {
      CidrMatchIsSamePrefix(x, y, bits, little);
      CidrMatchIsSamePrefix(x, y, fewer, little);
      FewerBits(x, y, bits, fewer);
    } else if |x| == 16 && bits <= 128 && Cidr6Match(x, y, bits, little) {
      Cidr6MatchIsSamePrefix(x, y, bits, little);
      Cidr6MatchIsSamePrefix(x, y, fewer, little);
      FewerBits(x, y, bits, fewer);
    }
  }

  lemma FewerBits(x: seq<bv8>, y: seq<bv8>, bits: bv8, fewer: bv8)
    requires |x| == |y| && Number(fewer) <= Number(bits) <= 8 * |x| && SamePrefix(x, y, bits)
    ensures SamePrefix(x, y, fewer)
  {
    hide Value, Pow2, Number, Numbers;
    CoarserQuotient(Value(Numbers(x)), Value(Numbers(y)), 8 * |x| - Number(bits), 8 * |x| - Number(fewer));
  }

  /** Matching at one length sorts the addresses into networks: it is reflexive, symmetric and
      transitive, and does not depend on the byte order of the host. */
  lemma MatchSortsIntoNetworks(x: seq<bv8>, y: seq<bv8>, z: seq<bv8>, bits: bv8, little: bool)
    requires |x| == |y| == |z| == 4 && bits <= 32
    ensures CidrMatch(x, x, bits, little)
    ensures CidrMatch(x, y, bits, little) <==> CidrMatch(y, x, bits, !little)
    ensures CidrMatch(x, y, bits, little) && CidrMatch(y, z, bits, little) ==> CidrMatch(x, z, bits, little)
  {
    hide CidrMatch, Value, Pow2, Number, Numbers;
    CidrMatchIsSamePrefix(x, x, bits, little);
    CidrMatchIsSamePrefix(x, y, bits, little);
    CidrMatchIsSamePrefix(y, x, bits, !little);
    CidrMatchIsSamePrefix(y, z, bits, little);
    CidrMatchIsSamePrefix(x, z, bits, little);
  }

  lemma Match6SortsIntoNetworks(x: seq<bv8>, y: seq<bv8>, z: seq<bv8>, bits: bv8, little: bool)
    requires |x| == |y| == |z| == 16 && bits <= 128
    ensures Cidr6Match(x, x, bits, little)
    ensures Cidr6Match(x, y, bits, little) <==> Cidr6Match(y, x, bits, !little)
    ensures Cidr6Match(x, y, bits, little) && Cidr6Match(y, z, bits, little) ==> Cidr6Match(x, z, bits, little)
  {
    hide Cidr6Match, Value, Pow2, Number, Numbers;
    Cidr6MatchIsSamePrefix(x, x, bits, little);
    Cidr6MatchIsSamePrefix(x, y, bits, little);
    Cidr6MatchIsSamePrefix(y, x, bits, !little);
    Cidr6MatchIsSamePrefix(y, z, bits, little);
    Cidr6MatchIsSamePrefix(x, z, bits, little);
  }
}
