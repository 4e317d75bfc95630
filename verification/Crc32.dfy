/** The checksum of ts-apps/vscode/src/sidebar-provider.ts, and the CRC-32 of section 8 of RFC 1952 bit by bit. */
module Checksums {
  newtype Byte = b: int | 0 <= b < 0x100

  const POLYNOMIAL: bv32 := 0xedb8_8320

  // The operations on words are functions, so that a proof can work with their laws alone.

  function Xor(a: bv32, b: bv32): bv32 {
    a ^ b
  }

  function Half(a: bv32): bv32 {
    a >> 1
  }

  predicate Odd(a: bv32) {
    a & 1 == 1
  }

  function LowByte(a: bv32): bv32 {
    a & 0xff
  }

  function Wide(b: Byte): bv32 {
    (b as int) as bv32
  }

  // ----- Bit by bit -----

  /** One bit of the message enters the remainder. */
  function FeedBit(c: bv32, bit: bool): bv32 {
    if Odd(c) != bit then Xor(POLYNOMIAL, Half(c)) else Half(c)
  }

  /** The lowest bit first. */
  function FeedBits(c: bv32, bits: bv32, n: nat): bv32
    decreases n
  {
    if n == 0 then c else FeedBits(FeedBit(c, Odd(bits)), Half(bits), n - 1)
  }

  function FeedBytes(c: bv32, data: seq<Byte>): bv32 {
    if data == [] then c else FeedBits(FeedBytes(c, data[..|data| - 1]), Wide(data[|data| - 1]), 8)
  }

  /** The checksum of the standard. */
  function Crc(data: seq<Byte>): bv32 {
    Xor(FeedBytes(0xffff_ffff, data), 0xffff_ffff)
  }

  // ----- By table -----

  function Shift(c: bv32): bv32 {
    if Odd(c) then Xor(POLYNOMIAL, Half(c)) else Half(c)
  }

  function Shifts(c: bv32, n: nat): bv32
    decreases n
  {
    if n == 0 then c else Shifts(Shift(c), n - 1)
  }

  function TableEntry(i: nat): bv32
    requires i < 256
  {
    Shifts(Wide(i as Byte), 8)
  }

  predicate IsTable(table: seq<bv32>) {
    |table| == 256 && forall i | 0 <= i < 256 :: table[i] == TableEntry(i)
  }

  // ----- Laws of words -----

  lemma OddXor(a: bv32, b: bv32)
    ensures Odd(Xor(a, b)) <==> Odd(a) != Odd(b)
  {
  }

  lemma HalfXor(a: bv32, b: bv32)
    ensures Half(Xor(a, b)) == Xor(Half(a), Half(b))
  {
  }

  lemma XorAssociates(a: bv32, b: bv32, c: bv32)
    ensures Xor(Xor(a, b), c) == Xor(a, Xor(b, c))
  {
  }

  lemma FeedIsShift(c: bv32, bits: bv32)
    ensures Xor(FeedBit(c, Odd(bits)), Half(bits)) == Shift(Xor(c, bits))
  {
    hide Xor, Half, Odd;
    OddXor(c, bits);
    HalfXor(c, bits);
    XorAssociates(POLYNOMIAL, Half(c), Half(bits));
  }

  lemma ShiftIsLinear(a: bv32, high: bv32)
    requires !Odd(high)
    ensures Shift(Xor(a, high)) == Xor(Shift(a), Half(high))
  {
    hide Xor, Half, Odd;
    OddXor(a, high);
    HalfXor(a, high);
    XorAssociates(POLYNOMIAL, Half(a), Half(high));
  }

  lemma EightHalves(x: bv32)
    ensures Half(Half(Half(Half(Half(Half(Half(Half(x)))))))) == x >> 8
  {
  }

  lemma HighBitsAreEven(x: bv32)
    ensures var h := x & 0xffff_ff00;
            && !Odd(h) && !Odd(Half(h)) && !Odd(Half(Half(h))) && !Odd(Half(Half(Half(h))))
            && !Odd(Half(Half(Half(Half(h))))) && !Odd(Half(Half(Half(Half(Half(h))))))
            && !Odd(Half(Half(Half(Half(Half(Half(h)))))))
            && !Odd(Half(Half(Half(Half(Half(Half(Half(h))))))))
  {
  }

  lemma LowAndHigh(x: bv32)
    ensures Xor(LowByte(x), x & 0xffff_ff00) == x && (x & 0xffff_ff00) >> 8 == x >> 8
  {
  }

  lemma XorZero(x: bv32)
    ensures Xor(x, 0) == x
  {
  }

  lemma WideIsSmall(b: Byte)
    ensures Wide(b) >> 8 == 0
  {
    assert Wide(b) < 0x100;
  }

  lemma SmallDoesNotMatter(c: bv32, d: bv32)
    requires d >> 8 == 0
    ensures Xor(c, d) >> 8 == c >> 8
  {
  }

  lemma LowByteIndex(x: bv32)
    ensures LowByte(x) as int < 256 && Wide((LowByte(x) as int) as Byte) == LowByte(x)
  {
  }

  // ----- They agree -----

  /** `n` times down by one bit. */
  function Down(x: bv32, n: nat): bv32
    decreases n
  {
    if n == 0 then x else Down(Half(x), n - 1)
  }

  /** Feeding the bits one at a time is adding them all first and shifting. */
  lemma {:induction false} FeedIsShifts(c: bv32, bits: bv32, n: nat)
    ensures Xor(FeedBits(c, bits, n), Down(bits, n)) == Shifts(Xor(c, bits), n)
    decreases n
  {
    hide Xor, Half, Odd, Shift, FeedBit;
    if n > 0 {
      FeedIsShift(c, bits);
      FeedIsShifts(FeedBit(c, Odd(bits)), Half(bits), n - 1);
    }
  }

  /** The lowest `n` bits are zero. */
  predicate LowZeros(x: bv32, n: nat)
    decreases n
  {
    n == 0 || (!Odd(x) && LowZeros(Half(x), n - 1))
  }

  /** Bits that are shifted down without reaching the end just move. */
  lemma {:induction false} ShiftsAreLinear(a: bv32, high: bv32, n: nat)
    requires LowZeros(high, n)
    ensures Shifts(Xor(a, high), n) == Xor(Shifts(a, n), Down(high, n))
    decreases n
  {
    hide Xor, Half, Odd, Shift;
    if n > 0 {
      ShiftIsLinear(a, high);
      ShiftsAreLinear(Shift(a), Half(high), n - 1);
    }
  }

  lemma DownFour(x: bv32, n: nat)
    ensures Down(x, n + 4) == Down(Half(Half(Half(Half(x)))), n)
  {
    hide Half;
    assert Down(x, n + 4) == Down(Half(x), n + 3);
    assert Down(Half(x), n + 3) == Down(Half(Half(x)), n + 2);
    assert Down(Half(Half(x)), n + 2) == Down(Half(Half(Half(x))), n + 1);
  }

  lemma DownEight(x: bv32)
    ensures Down(x, 8) == x >> 8
  {
    hide Half;
    DownFour(x, 4);
    DownFour(Half(Half(Half(Half(x)))), 0);
    EightHalves(x);
  }

  lemma FourLowZeros(x: bv32, n: nat)
    requires !Odd(x) && !Odd(Half(x)) && !Odd(Half(Half(x))) && !Odd(Half(Half(Half(x))))
    requires LowZeros(Half(Half(Half(Half(x)))), n)
    ensures LowZeros(x, n + 4)
  {
    hide Half, Odd;
    assert LowZeros(Half(Half(Half(x))), n + 1);
    assert LowZeros(Half(Half(x)), n + 2);
    assert LowZeros(Half(x), n + 3);
  }

  lemma HighHasLowZeros(x: bv32)
    ensures LowZeros(x & 0xffff_ff00, 8)
  {
    hide Half, Odd;
    var h := x & 0xffff_ff00;
    HighBitsAreEven(x);
    var g := Half(Half(Half(Half(h))));
    FourLowZeros(g, 0);
    FourLowZeros(h, 4);
  }

  /** The low byte is looked up, the rest moves down. */
  lemma HighBitsMove(x: bv32)
    ensures Shifts(x, 8) == Xor(Shifts(LowByte(x), 8), x >> 8)
  {
    hide *;
    var high := x & 0xffff_ff00;
    LowAndHigh(x);
    HighHasLowZeros(x);
    ShiftsAreLinear(LowByte(x), high, 8);
    DownEight(high);
  }

  /** One lookup does the work of eight bits. */
  lemma LookupFeedsByte(c: bv32, b: Byte)
    ensures var i := LowByte(Xor(c, Wide(b))) as int;
            i < 256 && Xor(TableEntry(i), c >> 8) == FeedBits(c, Wide(b), 8)
  {
    hide Xor, Half, Odd, LowByte, Wide, FeedBits, Shifts, Down;
    var d := Wide(b);
    var x := Xor(c, d);
    LowByteIndex(x);
    HighBitsMove(x);
    WideIsSmall(b);
    DownEight(d);
    FeedIsShifts(c, d, 8);
    XorZero(FeedBits(c, d, 8));
    SmallDoesNotMatter(c, d);
  }

  // ----- The code -----

  lemma {:induction false} OneMoreShift(c: bv32, n: nat)
    ensures Shifts(c, n + 1) == Shift(Shifts(c, n))
    decreases n
  {
    hide Shift;
    if n > 0 {
      OneMoreShift(Shift(c), n - 1);
    }
  }

  method CrcTable() returns (table: array<bv32>)
    ensures fresh(table) && IsTable(table[..])
  {
    hide Shifts, Xor, Half, Odd, Wide;
    table := new bv32[256];
    for i := 0 to 256
      invariant forall k | 0 <= k < i :: table[k] == TableEntry(k)
    {
      var c := Wide(i as Byte);
      NoShift(c);
      for j := 0 to 8
        invariant c == Shifts(Wide(i as Byte), j)
        invariant forall k | 0 <= k < i :: table[k] == TableEntry(k)
      {
        OneMoreShift(Wide(i as Byte), j);
        assert Shift(c) == if Odd(c) then Xor(POLYNOMIAL, Half(c)) else Half(c);
        c := if Odd(c) then Xor(POLYNOMIAL, Half(c)) else Half(c);
      }
      assert c == TableEntry(i);
      table[i] := c;
    }
  }

  lemma NoShift(c: bv32)
    ensures Shifts(c, 0) == c
  {
  }

  /** The table-driven checksum is that of the standard. */
  method Crc32(table: array<bv32>, data: seq<Byte>) returns (crc: bv32)
    requires IsTable(table[..])
    ensures crc == Crc(data)
  {
    hide FeedBits, Wide, Xor, LowByte, TableEntry;
    crc := 0xffff_ffff;
    for i := 0 to |data|
      invariant crc == FeedBytes(0xffff_ffff, data[..i])
    {
      assert data[..i + 1][..i] == data[..i];
      LookupFeedsByte(crc, data[i]);
      var at := LowByte(Xor(crc, Wide(data[i]))) as int;
      assert table[..][at] == TableEntry(at);
      crc := Xor(table[at], crc >> 8);
    }
    assert data[..|data|] == data;
    crc := Xor(crc, 0xffff_ffff);
  }
}
