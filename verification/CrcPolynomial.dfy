/**
 The checksum of ts-apps/vscode/src/sidebar-provider.ts as a remainder: section 8 of RFC 1952 takes CRC-32 from
 ISO 3309, which divides polynomials over the two-element field. A polynomial is the set of its exponents.
 */
module CrcPolynomial {
  import opened Checksums

  type Poly = set<nat>

  /** x^32 + x^26 + x^23 + x^22 + x^16 + x^12 + x^11 + x^10 + x^8 + x^7 + x^5 + x^4 + x^2 + x + 1 */
  const GENERATOR: Poly := {32, 26, 23, 22, 16, 12, 11, 10, 8, 7, 5, 4, 2, 1, 0}

  function Plus(a: Poly, b: Poly): Poly {
    (a - b) + (b - a)
  }

  /** The product with x^k. */
  function Times(a: Poly, k: nat): Poly {
    set e | e in a :: e + k
  }

  /** The sum of the generator's products with these powers. */
  function Multiple(powers: seq<nat>): Poly {
    if powers == [] then {} else Plus(Multiple(powers[..|powers| - 1]), Times(GENERATOR, powers[|powers| - 1]))
  }

  /** They have the same remainder. */
  ghost predicate Congruent(a: Poly, b: Poly) {
    exists powers :: Plus(a, b) == Multiple(powers)
  }

  // ----- Polynomials of words and messages -----

  /** The lowest `n` bits of a word, the lowest of them first: the coefficient of x^(n-1). */
  function PolyOf(c: bv32, n: nat): Poly
    decreases n
  {
    if n == 0 then {} else (if Odd(c) then {n - 1} else {}) + PolyOf(Half(c), n - 1)
  }

  /** Bits in the order in which they are sent, the first one for the highest power. */
  function MessageOf(bits: seq<bool>): Poly {
    set i | 0 <= i < |bits| && bits[i] :: |bits| - 1 - i
  }

  /** All powers below x^n. */
  function Below(n: nat): (p: Poly)
    ensures forall e: nat :: e in p <==> e < n
  {
    if n == 0 then {} else Below(n - 1) + {n - 1}
  }

  /** What is divided: the message with 32 zeros behind it, its first 32 bits complemented. */
  function Dividend(bits: seq<bool>): Poly {
    Plus(Times(MessageOf(bits), 32), Times(Below(32), |bits|))
  }

  /** The lowest bit of each byte is sent first. */
  function BitsOf(data: seq<Byte>): seq<bool> {
    if data == [] then [] else BitsOf(data[..|data| - 1]) + ByteBits(data[|data| - 1])
  }

  /** The lowest `k` binary digits of `n`, the lowest first. */
  function Digits(n: nat, k: nat): (bits: seq<bool>)
    ensures |bits| == k
    decreases k
  {
    if k == 0 then [] else [n % 2 == 1] + Digits(n / 2, k - 1)
  }

  function ByteBits(b: Byte): seq<bool> {
    Digits(b as int, 8)
  }

  function FeedAll(c: bv32, bits: seq<bool>): bv32 {
    if bits == [] then c else FeedBit(FeedAll(c, bits[..|bits| - 1]), bits[|bits| - 1])
  }

  // ----- Laws of polynomials -----

  lemma TimesAt(a: Poly, k: nat, e: nat)
    ensures e in Times(a, k) <==> e >= k && e - k in a
  {
    if e >= k && e - k in a {
      assert e == (e - k) + k;
    }
  }

  lemma TimesTwice(a: Poly, k: nat, l: nat)
    ensures Times(Times(a, k), l) == Times(a, k + l)
  {
    forall e: nat ensures e in Times(Times(a, k), l) <==> e in Times(a, k + l) {
      TimesAt(Times(a, k), l, e);
      if e >= l {
        TimesAt(a, k, e - l);
      }
      TimesAt(a, k + l, e);
    }
  }

  lemma TimesPlus(a: Poly, b: Poly, k: nat)
    ensures Times(Plus(a, b), k) == Plus(Times(a, k), Times(b, k))
  {
    forall e: nat ensures e in Times(Plus(a, b), k) <==> e in Plus(Times(a, k), Times(b, k)) {
      TimesAt(Plus(a, b), k, e);
      TimesAt(a, k, e);
      TimesAt(b, k, e);
    }
  }

  lemma {:induction false} MultipleTimes(powers: seq<nat>) returns (more: seq<nat>)
    ensures Multiple(more) == Times(Multiple(powers), 1)
  {
    if powers == [] {
      more := [];
    } else {
      var init, last := powers[..|powers| - 1], powers[|powers| - 1];
      var m := MultipleTimes(init);
      more := m + [last + 1];
      assert more[..|m|] == m;
      TimesTwice(GENERATOR, last, 1);
      TimesPlus(Multiple(init), Times(GENERATOR, last), 1);
    }
  }

  lemma CongruentTimes(a: Poly, b: Poly)
    requires Congruent(a, b)
    ensures Congruent(Times(a, 1), Times(b, 1))
  {
    var powers :| Plus(a, b) == Multiple(powers);
    var more := MultipleTimes(powers);
    TimesPlus(a, b, 1);
    assert Plus(Times(a, 1), Times(b, 1)) == Multiple(more);
  }

  lemma CongruentPlus(a: Poly, b: Poly, c: Poly)
    requires Congruent(a, b)
    ensures Congruent(Plus(a, c), Plus(b, c))
  {
    var powers :| Plus(a, b) == Multiple(powers);
    assert Plus(Plus(a, c), Plus(b, c)) == Plus(a, b);
  }

  lemma CongruentGenerator(a: Poly, b: Poly)
    requires Congruent(a, b)
    ensures Congruent(Plus(a, GENERATOR), b)
  {
    var powers :| Plus(a, b) == Multiple(powers);
    var more := powers + [0];
    assert more[..|powers|] == powers;
    assert Times(GENERATOR, 0) == GENERATOR by {
      forall e: nat ensures e in Times(GENERATOR, 0) <==> e in GENERATOR {
        TimesAt(GENERATOR, 0, e);
      }
    }
    assert Plus(Plus(a, GENERATOR), b) == Plus(Plus(a, b), GENERATOR) == Multiple(more);
  }

  // ----- Laws of words -----

  lemma {:induction false} PolyBound(c: bv32, n: nat)
    ensures forall e | e in PolyOf(c, n) :: e < n
    decreases n
  {
    if n > 0 {
      PolyBound(Half(c), n - 1);
    }
  }

  lemma {:induction false} PolyXor(a: bv32, b: bv32, n: nat)
    ensures PolyOf(Xor(a, b), n) == Plus(PolyOf(a, n), PolyOf(b, n))
    decreases n
  {
    hide Xor, Half, Odd;
    if n > 0 {
      OddXor(a, b);
      HalfXor(a, b);
      PolyXor(Half(a), Half(b), n - 1);
      PolyBound(Half(a), n - 1);
      PolyBound(Half(b), n - 1);
    }
  }

  lemma PolyStep(c: bv32, n: nat)
    requires n > 0
    ensures PolyOf(c, n) == (if Odd(c) then {n - 1} else {}) + PolyOf(Half(c), n - 1)
    ensures Down(c, n) == Down(Half(c), n - 1)
  {
  }

  lemma PolyEmpty(c: bv32)
    ensures PolyOf(c, 0) == {} && Down(c, 0) == c
  {
  }

  lemma TimesTop(odd: bool, a: Poly, n: nat)
    requires n > 0
    ensures Times((if odd then {n - 1} else {}) + a, 1) == (if odd then {n} else {}) + Times(a, 1)
  {
    var top: Poly := if odd then {n - 1} else {};
    forall e: nat ensures e in Times(top + a, 1) <==> (odd && e == n) || e in Times(a, 1) {
      TimesAt(top + a, 1, e);
      TimesAt(a, 1, e);
    }
  }

  /** One bit more makes room at the bottom. */
  lemma {:induction false} PolyGrows(c: bv32, n: nat)
    ensures PolyOf(c, n + 1) == Times(PolyOf(c, n), 1) + if Odd(Down(c, n)) then {0} else {}
    decreases n
  {
    hide Half, Odd, PolyOf, Down, Times;
    PolyStep(c, n + 1);
    if n > 0 {
      PolyStep(c, n);
      PolyGrows(Half(c), n - 1);
      TimesTop(Odd(c), PolyOf(Half(c), n - 1), n);
    } else {
      PolyEmpty(c);
      PolyEmpty(Half(c));
      NothingTimes();
    }
  }

  lemma NothingTimes()
    ensures Times({}, 1) == {}
  {
  }

  lemma {:induction false} DownInParts(c: bv32, m: nat, n: nat)
    ensures Down(c, m + n) == Down(Down(c, m), n)
    decreases m
  {
    hide Half;
    if m > 0 {
      DownInParts(Half(c), m - 1, n);
    }
  }

  lemma FourBytesDown(c: bv32, c1: bv32, c2: bv32, c3: bv32, c4: bv32)
    requires c1 == c >> 8 && c2 == c1 >> 8 && c3 == c2 >> 8 && c4 == c3 >> 8
    ensures !Odd(c4)
  {
  }

  lemma DownAll(c: bv32)
    ensures Down(c, 32) == Down(Down(Down(Down(c, 8), 8), 8), 8)
  {
    hide Down;
    DownInParts(c, 8, 24);
    DownInParts(Down(c, 8), 8, 16);
    DownInParts(Down(Down(c, 8), 8), 8, 8);
  }

  lemma NothingLeft(c: bv32)
    ensures !Odd(Down(c, 32))
  {
    hide Odd, Half, Down;
    DownAll(c);
    var c1 := Down(c, 8);
    var c2 := Down(c1, 8);
    var c3 := Down(c2, 8);
    var c4 := Down(c3, 8);
    DownEight(c);
    DownEight(c1);
    DownEight(c2);
    DownEight(c3);
    FourBytesDown(c, c1, c2, c3, c4);
  }

  lemma TopComesOut(odd: bool, q: Poly)
    requires forall e | e in q :: e < 31
    ensures var p := (if odd then {31} else {}) + q;
            Times(q, 1) == Times(p, 1) - {32} && (32 in Times(p, 1) <==> odd)
  {
    TimesTop(odd, q, 32);
    TimesAt(q, 1, 32);
    hide Times;
  }

  /** Moving a word down by a bit is multiplying by x, without the coefficient that comes out on top. */
  lemma PolyHalf(c: bv32)
    ensures PolyOf(Half(c), 32) == Times(PolyOf(c, 32), 1) - {32}
    ensures 32 in Times(PolyOf(c, 32), 1) <==> Odd(c)
  {
    hide Odd, Half, PolyOf, Times;
    var d := Half(c);
    PolyGrows(d, 31);
    PolyStep(c, 32);
    NothingLeft(c);
    PolyBound(d, 31);
    TopComesOut(Odd(c), PolyOf(d, 31));
  }

  // ----- The constants -----

  function Four(c: bv32): bv32 {
    Half(Half(Half(Half(c))))
  }

  /** Four coefficients. */
  function NibbleAt(c: bv32, n: nat): Poly {
    (if Odd(c) then {n + 3} else {}) + (if Odd(Half(c)) then {n + 2} else {}) +
    (if Odd(Half(Half(c))) then {n + 1} else {}) + (if Odd(Half(Half(Half(c)))) then {n} else {})
  }

  lemma PolyNibble(c: bv32, n: nat)
    ensures PolyOf(c, n + 4) == NibbleAt(c, n) + PolyOf(Four(c), n)
  {
    hide PolyOf, Odd, Half;
    PolyStep(c, n + 4);
    PolyStep(Half(c), n + 3);
    PolyStep(Half(Half(c)), n + 2);
    PolyStep(Half(Half(Half(c))), n + 1);
  }

  lemma ConstantParts()
    ensures Four(0xedb8_8320) == 0x0edb_8832 && Four(0x0edb_8832) == 0x00ed_b883 && Four(0x00ed_b883) == 0x000e_db88
    ensures Four(0x000e_db88) == 0x0000_edb8 && Four(0x0000_edb8) == 0x0000_0edb && Four(0x0000_0edb) == 0x0000_00ed
    ensures Four(0x0000_00ed) == 0x0000_000e && Four(0x0000_000e) == 0
    ensures NibbleAt(0xedb8_8320, 28) == {} && NibbleAt(0x0edb_8832, 24) == {26}
    ensures NibbleAt(0x00ed_b883, 20) == {23, 22} && NibbleAt(0x000e_db88, 16) == {16}
    ensures NibbleAt(0x0000_edb8, 12) == {12} && NibbleAt(0x0000_0edb, 8) == {11, 10, 8}
    ensures NibbleAt(0x0000_00ed, 4) == {7, 5, 4} && NibbleAt(0x0000_000e, 0) == {2, 1, 0}
  {
  }

  /** The constant of the code is the generator without its highest power. */
  lemma ConstantIsGenerator()
    ensures PolyOf(POLYNOMIAL, 32) == GENERATOR - {32}
  {
    hide PolyOf, NibbleAt, Four;
    ConstantParts();
    PolyNibble(0xedb8_8320, 28);
    PolyNibble(0x0edb_8832, 24);
    PolyNibble(0x00ed_b883, 20);
    PolyNibble(0x000e_db88, 16);
    PolyNibble(0x0000_edb8, 12);
    PolyNibble(0x0000_0edb, 8);
    PolyNibble(0x0000_00ed, 4);
    PolyNibble(0x0000_000e, 0);
    PolyEmpty(0);
  }

  lemma OnesParts()
    ensures Four(0xffff_ffff) == 0x0fff_ffff && Four(0x0fff_ffff) == 0x00ff_ffff && Four(0x00ff_ffff) == 0x000f_ffff
    ensures Four(0x000f_ffff) == 0x0000_ffff && Four(0x0000_ffff) == 0x0000_0fff && Four(0x0000_0fff) == 0x0000_00ff
    ensures Four(0x0000_00ff) == 0x0000_000f && Four(0x0000_000f) == 0
  {
  }

  lemma FullNibble(c: bv32, n: nat)
    requires c & 0xf == 0xf
    ensures NibbleAt(c, n) == {n + 3, n + 2, n + 1, n}
  {
  }

  lemma FullStep(c: bv32, n: nat)
    requires c & 0xf == 0xf && PolyOf(Four(c), n) == Below(n)
    ensures PolyOf(c, n + 4) == Below(n + 4)
  {
    hide PolyOf, NibbleAt, Four, Below;
    PolyNibble(c, n);
    FullNibble(c, n);
  }

  lemma OnesAreOnes()
    ensures PolyOf(0xffff_ffff, 32) == Below(32)
  {
    hide PolyOf, Four, Below;
    OnesParts();
    PolyEmpty(0);
    assert Below(0) == {};
    FullStep(0x0000_000f, 0);
    FullStep(0x0000_00ff, 4);
    FullStep(0x0000_0fff, 8);
    FullStep(0x0000_ffff, 12);
    FullStep(0x000f_ffff, 16);
    FullStep(0x00ff_ffff, 20);
    FullStep(0x0fff_ffff, 24);
    FullStep(0xffff_ffff, 28);
  }

  lemma WideBits(n: int)
    requires 0 <= n < 256
    ensures Odd(Wide(n as Byte)) <==> n % 2 == 1
    ensures Half(Wide(n as Byte)) == Wide((n / 2) as Byte)
  {
  }

  lemma {:induction false} FeedAllAppend(c: bv32, a: seq<bool>, b: seq<bool>)
    ensures FeedAll(c, a + b) == FeedAll(FeedAll(c, a), b)
  {
    hide FeedBit;
    if b == [] {
      assert a + b == a;
    } else {
      var init, last := b[..|b| - 1], b[|b| - 1];
      FeedAllAppend(c, a, init);
      assert (a + b)[..|a + b| - 1] == a + init;
    }
  }

  lemma FeedOne(c: bv32, bit: bool, bits: seq<bool>)
    ensures FeedAll(c, [bit] + bits) == FeedAll(FeedBit(c, bit), bits)
  {
    FeedAllAppend(c, [bit], bits);
    assert [bit][..0] == [];
    assert FeedAll(c, [bit]) == FeedBit(FeedAll(c, []), bit);
  }

  /** Feeding a byte bit by bit, as the masks pick the bits, is feeding its binary digits. */
  lemma {:induction false} ByteIsFed(c: bv32, n: nat, k: nat)
    requires n < 256
    ensures FeedBits(c, Wide(n as Byte), k) == FeedAll(c, Digits(n, k))
    decreases k
  {
    hide Wide, Odd, Half, FeedBit;
    if k > 0 {
      WideBits(n);
      ByteIsFed(FeedBit(c, n % 2 == 1), n / 2, k - 1);
      FeedOne(c, n % 2 == 1, Digits(n / 2, k - 1));
    }
  }

  // ----- The remainder -----

  lemma CongruentSelf(a: Poly)
    ensures Congruent(a, a)
  {
    assert Plus(a, a) == Multiple([]);
  }

  function BitPoly(bit: bool): Poly {
    if bit then {32} else {}
  }

  /** One bit: multiply by x, add the bit, and subtract the generator if x^32 comes out. */
  lemma FeedBitDivides(c: bv32, bit: bool)
    ensures var p := Plus(Times(PolyOf(c, 32), 1), BitPoly(bit));
            PolyOf(FeedBit(c, bit), 32) == if 32 in p then Plus(p, GENERATOR) else p
  {
    hide PolyOf, Odd, Half, Xor, Times;
    PolyHalf(c);
    PolyXor(POLYNOMIAL, Half(c), 32);
    ConstantIsGenerator();
    var p := Plus(Times(PolyOf(c, 32), 1), BitPoly(bit));
    assert 32 in p <==> Odd(c) != bit;
    assert 32 in GENERATOR;
  }

  lemma FeedBitKeeps(c: bv32, bit: bool, d: Poly)
    requires Congruent(PolyOf(c, 32), d)
    ensures Congruent(PolyOf(FeedBit(c, bit), 32), Plus(Times(d, 1), BitPoly(bit)))
  {
    hide PolyOf, Odd, Half, Xor, Times, Plus, Congruent, FeedBit, BitPoly;
    FeedBitDivides(c, bit);
    CongruentTimes(PolyOf(c, 32), d);
    CongruentPlus(Times(PolyOf(c, 32), 1), Times(d, 1), BitPoly(bit));
    CongruentGenerator(Plus(Times(PolyOf(c, 32), 1), BitPoly(bit)), Plus(Times(d, 1), BitPoly(bit)));
  }

  lemma MessageSnoc(bits: seq<bool>, bit: bool)
    ensures MessageOf(bits + [bit]) == Times(MessageOf(bits), 1) + if bit then {0} else {}
  {
    var more := bits + [bit];
    forall e: nat ensures e in MessageOf(more) <==> e in Times(MessageOf(bits), 1) + if bit then {0} else {} {
      TimesAt(MessageOf(bits), 1, e);
      if e in MessageOf(more) {
        var i: nat :| i < |more| && more[i] && e == |more| - 1 - i;
        assert i < |bits| ==> bits[i] && |bits| - 1 - i in MessageOf(bits);
      }
      if e > 0 && e - 1 in MessageOf(bits) {
        var i: nat :| i < |bits| && bits[i] && e - 1 == |bits| - 1 - i;
        assert more[i] && e == |more| - 1 - i;
      }
      if e == 0 && bit {
        assert more[|bits|] && 0 == |more| - 1 - |bits|;
      }
    }
  }

  lemma LowBitMoves(m: Poly, bit: bool)
    ensures Times(Times(m, 1) + if bit then {0} else {}, 32) == Plus(Times(m, 33), BitPoly(bit))
  {
    var low: Poly := if bit then {0} else {};
    forall e: nat ensures e in Times(Times(m, 1) + low, 32) <==> e in Plus(Times(m, 33), BitPoly(bit)) {
      TimesAt(Times(m, 1) + low, 32, e);
      TimesAt(m, 33, e);
      if e >= 32 {
        TimesAt(m, 1, e - 32);
      }
    }
  }

  lemma PlusMoves(a: Poly, b: Poly, c: Poly)
    ensures Plus(Plus(a, c), b) == Plus(Plus(a, b), c)
  {
  }

  lemma DividendSnoc(bits: seq<bool>, bit: bool)
    ensures Dividend(bits + [bit]) == Plus(Times(Dividend(bits), 1), BitPoly(bit))
  {
    hide Times, MessageOf, Plus, Below;
    var m := MessageOf(bits);
    MessageSnoc(bits, bit);
    TimesPlus(Times(m, 32), Times(Below(32), |bits|), 1);
    TimesTwice(m, 32, 1);
    TimesTwice(Below(32), |bits|, 1);
    LowBitMoves(m, bit);
    PlusMoves(Times(m, 33), Times(Below(32), |bits| + 1), BitPoly(bit));
  }

  lemma {:induction false} FedIsDivided(bits: seq<bool>)
    ensures Congruent(PolyOf(FeedAll(0xffff_ffff, bits), 32), Dividend(bits))
  {
    hide PolyOf, FeedBit, Dividend, Congruent, Plus, Times, BitPoly;
    if bits == [] {
      OnesAreOnes();
      NothingDivided();
      CongruentSelf(Below(32));
    } else {
      var init, last := bits[..|bits| - 1], bits[|bits| - 1];
      assert bits == init + [last];
      FedIsDivided(init);
      FeedBitKeeps(FeedAll(0xffff_ffff, init), last, Dividend(init));
      DividendSnoc(init, last);
    }
  }

  lemma NothingDivided()
    ensures Dividend([]) == Below(32)
  {
    forall e: nat ensures e in Times(Below(32), 0) <==> e in Below(32) {
      TimesAt(Below(32), 0, e);
    }
  }

  lemma {:induction false} BytesAreFed(c: bv32, data: seq<Byte>)
    ensures FeedBytes(c, data) == FeedAll(c, BitsOf(data))
  {
    hide FeedBits, Wide, Digits;
    if data != [] {
      var init, last := data[..|data| - 1], data[|data| - 1];
      BytesAreFed(c, init);
      ByteIsFed(FeedAll(c, BitsOf(init)), last as int, 8);
      FeedAllAppend(c, BitsOf(init), ByteBits(last));
    }
  }

  /**
   The checksum is the complement of the remainder: its polynomial with all coefficients flipped has the remainder of
   the dividend, and is of lower degree than the generator.
   */
  lemma ChecksumIsRemainder(data: seq<Byte>)
    ensures var remainder := Plus(PolyOf(Crc(data), 32), Below(32));
            Congruent(remainder, Dividend(BitsOf(data))) && forall e | e in remainder :: e < 32
  {
    hide PolyOf, FeedBytes, Dividend, Congruent, Xor;
    var c := FeedBytes(0xffff_ffff, data);
    BytesAreFed(0xffff_ffff, data);
    FedIsDivided(BitsOf(data));
    PolyXor(c, 0xffff_ffff, 32);
    OnesAreOnes();
    PolyBound(c, 32);
    assert Plus(Plus(PolyOf(c, 32), Below(32)), Below(32)) == PolyOf(c, 32);
  }
}
