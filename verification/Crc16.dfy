/** The checksum of the HID protocol. The firmware computes it in 16-bit unsigned arithmetic, the
    daemon on Python's unbounded integers; both are the same shift register run over the bits of
    the message, and that register detects every burst of at most 16 bits. */
module Crc16 {
  import opened Bits

  const POLYNOM: Word := 0xA001

  const INITIAL: Word := 0xFFFF

  type Bit = x: int | 0 <= x < 2

  // ----- The shift register -----

  /** One clock of the register: shift right and, when a one falls out, fold in the polynomial. */
  function Shift(crc: nat): nat {
    if crc % 2 == 0 then crc / 2 else Xor(crc / 2, POLYNOM)
  }

  function ShiftN(crc: nat, n: nat): nat
    decreases n
  {
    if n == 0 then crc else ShiftN(Shift(crc), n - 1)
  }

  /** The register fed with one bit at a time. */
  function Serial(crc: nat, bits: seq<Bit>): nat
    decreases |bits|
  {
    if bits == [] then crc else Serial(Shift(Xor(crc, bits[0])), bits[1..])
  }

  /** The `n` low bits of `x`, least significant first: the order in which bytes are processed. */
  function BitsOf(x: nat, n: nat): (r: seq<Bit>)
    ensures |r| == n
  {
    if n == 0 then [] else [x % 2] + BitsOf(x / 2, n - 1)
  }

  function ValueOf(bits: seq<Bit>): (r: nat)
    ensures r < Pow2(|bits|)
  {
    if bits == [] then 0 else bits[0] + 2 * ValueOf(bits[1..])
  }

  /** A message as the bit stream the register sees. */
  function Stream(data: seq<Byte>): (r: seq<Bit>)
    ensures |r| == 8 * |data|
  {
    if data == [] then [] else BitsOf(data[0], 8) + Stream(data[1..])
  }

  /** The checksum of a message: the register, preset to all ones, after the whole stream. */
  function Crc(data: seq<Byte>): nat {
    Serial(INITIAL, Stream(data))
  }

  // ----- Algebra of the register -----

  lemma ShiftIsWord(crc: Word)
    ensures Shift(crc) < 0x10000
  {
    Pow2Values();
    XorBound(crc / 2, POLYNOM, 16);
  }

  lemma XorIsWord(a: Word, b: Word)
    ensures Xor(a, b) < 0x10000
  {
    Pow2Values();
    XorBound(a, b, 16);
  }

  /** The register is linear over XOR. */
  lemma ShiftLinear(x: nat, y: nat)
    ensures Shift(Xor(x, y)) == Xor(Shift(x), Shift(y))
  {
    hide Xor;
    var u, v := x / 2, y / 2;
    var z := Xor(x, y);
    XorStep(x, y);
    XorFold(u, v, POLYNOM);
    if x % 2 == 0 && y % 2 == 0 {
      assert z % 2 == 0;
    } else if x % 2 == 1 && y % 2 == 1 {
      assert z % 2 == 0;
    } else {
      assert z % 2 == 1;
    }
  }

  /** No two register contents are merged by a clock, since the polynomial has its top bit set. */
  lemma ShiftInjective(x: Word, y: Word)
    requires Shift(x) == Shift(y)
    ensures x == y
  {
    XorInjective(Shift(x), Shift(y));
    ShiftLinear(x, y);
    var z := Xor(x, y);
    XorIsWord(x, y);
    XorInjective(z / 2, POLYNOM);
    assert z == 0;
    XorInjective(x, y);
  }

  lemma {:induction false} ShiftNInjective(x: Word, y: Word, n: nat)
    requires ShiftN(x, n) == ShiftN(y, n)
    ensures x == y
    decreases n
  {
    if n > 0 {
      ShiftIsWord(x);
      ShiftIsWord(y);
      ShiftNInjective(Shift(x), Shift(y), n - 1);
      ShiftInjective(x, y);
    }
  }

  /** The bits above the lowest only slide down. */
  lemma ShiftSplit(x: nat, low: nat, high: nat)
    requires x == low + 2 * high && low < 2
    ensures Shift(x) == Xor(Shift(low), high)
  {
    assert x / 2 == high && x % 2 == low;
    XorZero(high);
    if low == 1 {
      FoldFirst(high, POLYNOM);
    }
  }

  lemma FoldFirst(high: nat, p: nat)
    ensures Xor(Xor(0, p), high) == Xor(high, p)
  {
    XorZero(p);
    XorComm(high, p);
  }

  /** Feeding a bit and clocking commutes with folding in the remaining bits of a value. */
  lemma FoldBit(crc: nat, x: nat)
    ensures Xor(Shift(Xor(crc, x % 2)), x / 2) == Shift(Xor(crc, x))
  {
    ShiftLinear(crc, x % 2);
    ShiftLinear(crc, x);
    ShiftSplit(x, x % 2, x / 2);
    XorAssoc(Shift(crc), Shift(x % 2), x / 2);
  }

  /** The bit-serial register over `n` bits is one parallel XOR followed by `n` clocks: the step
      the byte-wise code relies on. */
  lemma {:induction false} SerialIsParallel(crc: nat, x: nat, n: nat)
    requires x < Pow2(n)
    ensures Serial(crc, BitsOf(x, n)) == ShiftN(Xor(crc, x), n)
    decreases n
  {
    if n == 0 {
      XorZero(crc);
    } else {
      assert BitsOf(x, n)[1..] == BitsOf(x / 2, n - 1);
      SerialIsParallel(Shift(Xor(crc, x % 2)), x / 2, n - 1);
      FoldBit(crc, x);
    }
  }

  lemma {:induction false} ValueOfBits(bits: seq<Bit>)
    ensures BitsOf(ValueOf(bits), |bits|) == bits
  {
    if bits != [] {
      ValueOfBits(bits[1..]);
      assert ValueOf(bits) / 2 == ValueOf(bits[1..]);
      assert bits == [bits[0]] + bits[1..];
    }
  }

  lemma {:induction false} SerialAppend(crc: nat, a: seq<Bit>, b: seq<Bit>)
    ensures Serial(crc, a + b) == Serial(Serial(crc, a), b)
    decreases |a|
  {
    if a == [] {
      assert a + b == b;
    } else {
      assert (a + b)[1..] == a[1..] + b;
      SerialAppend(Shift(Xor(crc, a[0])), a[1..], b);
    }
  }

  lemma {:induction false} SerialIsWord(crc: Word, bits: seq<Bit>)
    ensures Serial(crc, bits) < 0x10000
    decreases |bits|
  {
    if bits != [] {
      XorIsWord(crc, bits[0]);
      ShiftIsWord(Xor(crc, bits[0]));
      SerialIsWord(Shift(Xor(crc, bits[0])), bits[1..]);
    }
  }

  /** Distinct register contents stay distinct whatever common bits follow. */
  lemma {:induction false} SerialInjective(x: Word, y: Word, bits: seq<Bit>)
    requires Serial(x, bits) == Serial(y, bits)
    ensures x == y
    decreases |bits|
  {
    if bits != [] {
      var p, q := Xor(x, bits[0]), Xor(y, bits[0]);
      XorIsWord(x, bits[0]);
      XorIsWord(y, bits[0]);
      ShiftIsWord(p);
      ShiftIsWord(q);
      SerialInjective(Shift(p), Shift(q), bits[1..]);
      ShiftInjective(p, q);
      XorCancel(x, bits[0]);
      XorCancel(y, bits[0]);
    }
  }

  /** Up to 16 consecutive bits act on the register injectively. */
  lemma WindowInjective(crc: Word, v: seq<Bit>, w: seq<Bit>)
    requires |v| == |w| <= 16
    requires Serial(crc, v) == Serial(crc, w)
    ensures v == w
  {
    hide Serial, Xor, ShiftN;
    var n := |v|;
    ValueOfBits(v);
    ValueOfBits(w);
    SerialIsParallel(crc, ValueOf(v), n);
    SerialIsParallel(crc, ValueOf(w), n);
    Pow2Values();
    Pow2Monotone(n, 16);
    XorIsWord(crc, ValueOf(v));
    XorIsWord(crc, ValueOf(w));
    ShiftNInjective(Xor(crc, ValueOf(v)), Xor(crc, ValueOf(w)), n);
    XorCancel(crc, ValueOf(v));
    XorCancel(crc, ValueOf(w));
  }

  lemma {:induction false} Pow2Monotone(a: nat, b: nat)
    requires a <= b
    ensures Pow2(a) <= Pow2(b)
    decreases b
  {
    if a < b {
      Pow2Monotone(a, b - 1);
    }
  }

  // ----- Main results -----

  lemma CrcIsWord(data: seq<Byte>)
    ensures Crc(data) < 0x10000
  {
    SerialIsWord(INITIAL, Stream(data));
  }

  lemma BitBurstDetected(a: seq<Bit>, b: seq<Bit>, start: nat, end: nat)
    requires |a| == |b| && start <= end <= |a| && end - start <= 16
    requires forall j :: 0 <= j < |a| && !(start <= j < end) ==> a[j] == b[j]
    requires Serial(INITIAL, a) == Serial(INITIAL, b)
    ensures a == b
  {
    hide Serial, Xor, Shift;
    var pre, v, w, post := a[..start], a[start..end], b[start..end], a[end..];
    assert a == (pre + v) + post && b == (pre + w) + post;
    var mid := Serial(INITIAL, pre);
    SerialIsWord(INITIAL, pre);
    SerialAppend(INITIAL, pre + v, post);
    SerialAppend(INITIAL, pre, v);
    SerialAppend(INITIAL, pre + w, post);
    SerialAppend(INITIAL, pre, w);
    SerialIsWord(mid, v);
    SerialIsWord(mid, w);
    SerialInjective(Serial(mid, v), Serial(mid, w), post);
    WindowInjective(mid, v, w);
  }

  /** Every error burst of at most 16 bits, at any bit position of a message of any length,
      changes the checksum. */
  lemma BurstDetected(sent: seq<Byte>, received: seq<Byte>, start: nat, width: nat)
    requires |sent| == |received| && sent != received
    requires width <= 16 && start + width <= 8 * |sent|
    requires forall j :: 0 <= j < 8 * |sent| && !(start <= j < start + width) ==>
                           Stream(sent)[j] == Stream(received)[j]
    ensures Crc(sent) != Crc(received)
  {
    if Crc(sent) == Crc(received) {
      BitBurstDetected(Stream(sent), Stream(received), start, start + width);
      StreamInjective(sent, received);
      assert false;
    }
  }

  /** In bytes: whatever happens to two adjacent bytes, the checksum notices. */
  lemma AdjacentBytesDetected(sent: seq<Byte>, received: seq<Byte>, i: nat)
    requires |sent| == |received| && sent != received && i + 2 <= |sent|
    requires forall j :: 0 <= j < |sent| && j != i && j != i + 1 ==> sent[j] == received[j]
    ensures Crc(sent) != Crc(received)
  {
    forall j | 0 <= j < 8 * |sent| && !(8 * i <= j < 8 * i + 16)
      ensures Stream(sent)[j] == Stream(received)[j]
    {
      StreamAt(sent, j);
      StreamAt(received, j);
      assert j / 8 != i && j / 8 != i + 1;
    }
    BurstDetected(sent, received, 8 * i, 16);
  }

  /** The checksum is affine: the XOR of two checksums depends only on the XOR of the messages. */
  lemma {:induction false} SerialAffine(x: nat, y: nat, a: seq<Bit>, b: seq<Bit>)
    requires |a| == |b|
    ensures Xor(Serial(x, a), Serial(y, b)) == Serial(Xor(x, y), Difference(a, b))
    decreases |a|
  {
    if a != [] {
      hide Xor, Shift;
      var p, q := Xor(x, a[0]), Xor(y, b[0]);
      assert Difference(a, b)[1..] == Difference(a[1..], b[1..]);
      SerialAffine(Shift(p), Shift(q), a[1..], b[1..]);
      ShiftLinear(p, q);
      XorSwap(x, a[0], y, b[0]);
      XorOfBits(a[0], b[0]);
    }
  }

  lemma XorOfBits(a: Bit, b: Bit)
    ensures Xor(a, b) == if a == b then 0 else 1
  {
  }

  function Difference(a: seq<Bit>, b: seq<Bit>): (r: seq<Bit>)
    requires |a| == |b|
    ensures |r| == |a|
  {
    seq(|a|, i requires 0 <= i < |a| => if a[i] == b[i] then 0 else 1)
  }

  lemma CrcAffine(a: seq<Byte>, b: seq<Byte>)
    requires |a| == |b|
    ensures Xor(Crc(a), Crc(b)) == Serial(0, Difference(Stream(a), Stream(b)))
  {
    SerialAffine(INITIAL, INITIAL, Stream(a), Stream(b));
    XorSelf(INITIAL);
  }

  // ----- Streams and bytes -----

  lemma {:induction false} StreamAt(data: seq<Byte>, j: nat)
    requires j < 8 * |data|
    ensures Stream(data)[j] == BitsOf(data[j / 8], 8)[j % 8]
    decreases |data|
  {
    if j >= 8 {
      StreamAt(data[1..], j - 8);
      assert data[1..][(j - 8) / 8] == data[j / 8];
    }
  }

  lemma {:induction false} BitsOfInjective(x: nat, y: nat, n: nat)
    requires x < Pow2(n) && y < Pow2(n) && BitsOf(x, n) == BitsOf(y, n)
    ensures x == y
    decreases n
  {
    if n > 0 {
      assert BitsOf(x, n)[0] == BitsOf(y, n)[0];
      assert BitsOf(x / 2, n - 1) == BitsOf(x, n)[1..] == BitsOf(y, n)[1..] == BitsOf(y / 2, n - 1);
      BitsOfInjective(x / 2, y / 2, n - 1);
    }
  }

  lemma {:induction false} StreamInjective(a: seq<Byte>, b: seq<Byte>)
    requires |a| == |b| && Stream(a) == Stream(b)
    ensures a == b
  {
    if a != [] {
      assert BitsOf(a[0], 8) == Stream(a)[..8] == Stream(b)[..8] == BitsOf(b[0], 8);
      assert Stream(a[1..]) == Stream(a)[8..] == Stream(b)[8..] == Stream(b[1..]);
      Pow2Values();
      BitsOfInjective(a[0], b[0], 8);
      StreamInjective(a[1..], b[1..]);
      assert a == [a[0]] + a[1..] && b == [b[0]] + b[1..];
    }
  }

  lemma {:induction false} StreamSnoc(data: seq<Byte>, byte: Byte)
    ensures Stream(data + [byte]) == Stream(data) + BitsOf(byte, 8)
  {
    if data == [] {
      assert data + [byte] == [byte];
      assert Stream([byte]) == BitsOf(byte, 8) + Stream([]);
    } else {
      assert (data + [byte])[1..] == data[1..] + [byte];
      StreamSnoc(data[1..], byte);
    }
  }

  /** What one turn of the outer loop adds. */
  lemma CrcSnoc(data: seq<Byte>, byte: Byte)
    ensures Crc(data + [byte]) == ShiftN(Xor(Crc(data), byte), 8)
  {
    StreamSnoc(data, byte);
    SerialAppend(INITIAL, Stream(data), BitsOf(byte, 8));
    Pow2Values();
    SerialIsParallel(Crc(data), byte, 8);
  }

  lemma {:induction false} ShiftNStep(crc: nat, n: nat)
    ensures ShiftN(crc, n + 1) == Shift(ShiftN(crc, n))
    decreases n
  {
    if n > 0 {
      ShiftNStep(Shift(crc), n - 1);
    }
  }

  // ----- The register as arithmetic, for examples -----

  /** A clock without bit operations: the polynomial has the bits 15, 13 and 0. */
  function Clock(crc: nat): nat {
    if crc % 2 == 0 then crc / 2
    else
      var x := crc / 2;
      0x8000 + (if x / 0x2000 % 2 == 0 then x + 0x2000 else x - 0x2000) + (if x % 2 == 0 then 1 else -1)
  }

  lemma XorFive()
    ensures Xor(0, 5) == 5 && Xor(1, 5) == 4 && Xor(2, 5) == 7 && Xor(3, 5) == 6
  {
    XorZero(0);
  }

  lemma ThirteenBits()
    ensures Pow2(13) == 0x2000
  {
    Pow2Values();
    assert Pow2(12) == 4096;
  }

  lemma ShiftIsClock(crc: Word)
    ensures Shift(crc) == Clock(crc)
  {
    if crc % 2 == 1 {
      var x := crc / 2;
      var h, l := x / 0x2000, x % 0x2000;
      ThirteenBits();
      XorSplit(h, l, 5, 1, 13);
      XorFive();
      XorOne(l);
      hide Xor, Pow2;
      assert x == h * 0x2000 + l;
      assert h == 0 || h == 1 || h == 2 || h == 3;
      assert Xor(x, POLYNOM) == Xor(h, 5) * 0x2000 + Xor(l, 1);
    }
  }

  lemma EightClocks(x: seq<Word>)
    requires |x| == 9 && forall i :: 0 <= i < 8 ==> Clock(x[i]) == x[i + 1]
    ensures ShiftN(x[0], 8) == x[8]
  {
    ClocksAreShifts(x, 8);
  }

  lemma {:induction false} ClocksAreShifts(x: seq<Word>, n: nat)
    requires |x| == 9 && n <= 8 && forall i :: 0 <= i < 8 ==> Clock(x[i]) == x[i + 1]
    ensures ShiftN(x[0], n) == x[n]
  {
    if n > 0 {
      ClocksAreShifts(x, n - 1);
      ShiftNStep(x[0], n - 1);
      ShiftIsClock(x[n - 1]);
    }
  }

  // ----- The two implementations -----

  /** Storing an integer into a 16-bit variable. */
  function U16(x: nat): (r: Word)
    ensures x < 0x10000 ==> r == x
  {
    x % 0x10000
  }

  /** The firmware: every intermediate value is stored back into 16 bits. */
  method PhCrc16(buf: seq<Byte>, len: nat) returns (crc: Word)
    requires len <= |buf|
    ensures crc == Crc(buf[..len])
  {
    hide Xor, Crc, ShiftN;
    crc := INITIAL;
    assert buf[..0] == [];
    CrcOfNothing();
    for byteCount := 0 to len
      invariant crc == Crc(buf[..byteCount])
    {
      CrcSnoc(buf[..byteCount], buf[byteCount]);
      assert buf[..byteCount + 1] == buf[..byteCount] + [buf[byteCount]];
      XorIsWord(crc, buf[byteCount]);
      crc := U16(Xor(crc, buf[byteCount]));
      crc := ShiftByte(crc);
    }
  }

  /** The inner loop of the firmware. */
  method ShiftByte(start: Word) returns (crc: Word)
    ensures crc == ShiftN(start, 8)
  {
    crc := start;
    for bitCount := 0 to 8
      invariant crc == ShiftN(start, bitCount)
    {
      ShiftNStep(start, bitCount);
      ShiftIsWord(crc);
      if crc % 2 == 0 {
        crc := crc / 2;
      } else {
        crc := crc / 2;
        crc := U16(Xor(crc, POLYNOM));
      }
    }
  }

  lemma CrcOfNothing()
    ensures Crc([]) == INITIAL
  {
  }

  /** The daemon: unbounded integers, which nevertheless never leave 16 bits. */
  method MakeCrc16(data: seq<Byte>) returns (crc: nat)
    ensures crc == Crc(data)
    ensures crc < 0x10000
  {
    crc := 0xFFFF;
    for i := 0 to |data|
      invariant crc == Crc(data[..i])
    {
      CrcSnoc(data[..i], data[i]);
      assert data[..i + 1] == data[..i] + [data[i]];
      crc := Xor(crc, data[i]);
      ghost var start := crc;
      for bit := 0 to 8
        invariant crc == ShiftN(start, bit)
      {
        ShiftNStep(start, bit);
        if crc % 2 == 0 {
          crc := crc / 2;
        } else {
          crc := crc / 2;
          crc := Xor(crc, 0xA001);
        }
      }
    }
    assert data[..|data|] == data;
    CrcIsWord(data);
  }
}
