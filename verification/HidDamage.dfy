/** What the checksum of a request protects against. The shift register takes the bits of a byte from
    the least significant one on, while the frame carries the checksum high byte first; so a burst
    inside the six checked bytes, or inside the checksum, is always noticed, but one across the seam
    between them may not be. */
module HidDamage {
  import opened Bits
  import opened Crc16
  import opened HidProtocol

  /** Refused with a checksum error, without any effect. */
  predicate Inert(f: Frame) {
    CodeOf(f) == RESP_CRC_ERROR && EffectsOf(f) == [] && !DemandsReset(f)
  }

  /** All differing bits lie within `width` bits from `start` on, in the order of the register. */
  predicate BurstAt(f: Frame, g: Frame, start: nat, width: nat) {
    forall j :: 0 <= j < 64 && !(start <= j < start + width) ==> Stream(f)[j] == Stream(g)[j]
  }

  /** The register over the damage of the checked bytes. */
  function Syndrome(f: Frame, g: Frame): nat {
    Serial(0, Difference(Stream(f[..6]), Stream(g[..6])))
  }

  function ChecksumField(f: Frame): Word {
    Merge8(f[6], f[7])
  }

  lemma NotIntactIsInert(f: Frame)
    ensures Inert(f) <==> !Intact(f)
  {
  }

  lemma XorAgrees(c: nat, m: nat, n: nat)
    ensures Xor(c, m) == Xor(c, n) <==> m == n
  {
    XorCancel(c, m);
    XorCancel(c, n);
  }

  /** Whatever happens to a request, it is executed exactly when its magic byte survived and the
      damage of the checked bytes, run through the register from zero, is the damage of the checksum
      field; otherwise it is refused and has no effect. */
  lemma DamageIsAcceptedIff(f: Frame, g: Frame)
    requires Intact(f)
    ensures Intact(g) <==> g[0] == f[0] && Syndrome(f, g) == Xor(ChecksumField(f), ChecksumField(g))
    ensures Inert(g) <==> !Intact(g)
  {
    hide Crc, Serial, Stream, Difference, Xor;
    CrcAffine(f[..6], g[..6]);
    XorAgrees(Crc(f[..6]), Crc(g[..6]), ChecksumField(g));
    NotIntactIsInert(g);
  }

  lemma StreamOfPrefix(f: Frame, j: nat)
    requires j < 48
    ensures Stream(f[..6])[j] == Stream(f)[j]
  {
    StreamAt(f, j);
    StreamAt(f[..6], j);
  }

  lemma ByteFromBits(f: Frame, g: Frame, k: nat)
    requires k < 8 && forall j :: 8 * k <= j < 8 * k + 8 ==> Stream(f)[j] == Stream(g)[j]
    ensures f[k] == g[k]
  {
    forall j | 0 <= j < 8 ensures BitsOf(f[k], 8)[j] == BitsOf(g[k], 8)[j] {
      StreamAt(f, 8 * k + j);
      StreamAt(g, 8 * k + j);
      assert Stream(f)[8 * k + j] == Stream(g)[8 * k + j];
      Quotient(k, j);
    }
    Pow2Values();
    BitsOfInjective(f[k], g[k], 8);
  }

  lemma Quotient(k: nat, j: nat)
    requires j < 8
    ensures (8 * k + j) / 8 == k && (8 * k + j) % 8 == j
  {
  }

  lemma ChecksumBurstIsInert(f: Frame, g: Frame)
    requires Intact(f) && g != f && forall j :: 0 <= j < 48 ==> Stream(f)[j] == Stream(g)[j]
    ensures Inert(g)
  {
    forall k | 0 <= k < 6 ensures f[k] == g[k] { ByteFromBits(f, g, k); }
    assert f[..6] == g[..6];
    SameFrame(f, g);
    hide Crc, BurstAt, Stream;
  }

  lemma SameFrame(f: Frame, g: Frame)
    ensures f[..6] == g[..6] && f[6] == g[6] && f[7] == g[7] ==> f == g
  {
    assert f == f[..6] + [f[6], f[7]] && g == g[..6] + [g[6], g[7]];
  }

  lemma BodyBurstIsInert(f: Frame, g: Frame, start: nat, width: nat)
    requires Intact(f) && g != f && width <= 16 && BurstAt(f, g, start, width) && start + width <= 48
    ensures Inert(g)
  {
    ByteFromBits(f, g, 6);
    ByteFromBits(f, g, 7);
    SameFrame(f, g);
    forall j | 0 <= j < 48 && !(start <= j < start + width) ensures Stream(f[..6])[j] == Stream(g[..6])[j] {
      StreamOfPrefix(f, j);
      StreamOfPrefix(g, j);
    }
    BurstDetected(f[..6], g[..6], start, width);
  }

  /** A burst of at most 16 bits that stays within the checked bytes, or within the checksum, is
      refused. */
  lemma DamagedRequestIsInert(f: Frame, g: Frame, start: nat, width: nat)
    requires Intact(f) && g != f && width <= 16 && BurstAt(f, g, start, width)
    requires start + width <= 48 || start >= 48
    ensures Inert(g)
  {
    hide Inert, Intact;
    if start >= 48 {
      ChecksumBurstIsInert(f, g);
    } else {
      BodyBurstIsInert(f, g, start, width);
    }
  }

  /** So is any damage to two neighbouring bytes, whichever way the line orders their bits, unless
      they are the two at the seam. */
  lemma DamagedPairIsInert(f: Frame, g: Frame, i: nat)
    requires Intact(f) && g != f && i < 7 && i != 5
    requires forall k :: 0 <= k < 8 && k != i && k != i + 1 ==> g[k] == f[k]
    ensures Inert(g)
  {
    hide Crc;
    SameFrame(f, g);
    if i == 6 {
      assert f[..6] == g[..6];
    } else {
      AdjacentBytesDetected(f[..6], g[..6], i);
    }
  }

  /** Damage to the last checked byte and the first byte of the checksum is accepted exactly when the
      register, run over the one, gives the other. */
  lemma SeamDamageIsAcceptedIff(f: Frame, g: Frame)
    requires Intact(f) && forall k :: 0 <= k < 8 && k != 5 && k != 6 ==> g[k] == f[k]
    ensures Intact(g) <==> ShiftN(Xor(f[5], g[5]), 8) == 256 * Xor(f[6], g[6])
  {
    assert f[..6] == f[..5] + [f[5]] && g[..6] == f[..5] + [g[5]];
    CrcSnoc(f[..5], f[5]);
    CrcSnoc(f[..5], g[5]);
    ShiftNLinear(Xor(Crc(f[..5]), f[5]), Xor(Crc(f[..5]), g[5]), 8);
    SeamFold(Crc(f[..5]), f[5], g[5]);
    FieldXor(f[6], g[6], f[7]);
    XorAgrees(Crc(f[..6]), Crc(g[..6]), ChecksumField(g));
  }

  lemma SeamFold(c: nat, a: nat, b: nat)
    ensures Xor(Xor(c, a), Xor(c, b)) == Xor(a, b)
  {
    XorComm(c, a);
    XorComm(c, b);
    XorFold(a, b, c);
  }

  lemma FieldXor(a: Byte, b: Byte, low: Byte)
    ensures Xor(Merge8(a, low), Merge8(b, low)) == 256 * Xor(a, b)
  {
    hide Xor, Pow2;
    Pow2Values();
    XorSplit(a, low, b, low, 8);
    XorSelf(low);
  }

  lemma {:induction false} ShiftNLinear(x: nat, y: nat, n: nat)
    ensures Xor(ShiftN(x, n), ShiftN(y, n)) == ShiftN(Xor(x, y), n)
    decreases n
  {
    if n > 0 {
      hide Xor, Shift;
      ShiftLinear(x, y);
      ShiftNLinear(Shift(x), Shift(y), n - 1);
    }
  }

  // ----- A mouse move that becomes another -----

  /** A request to move the pointer to 0, 0, and what a burst of nine bits makes of it. */
  const MOVE: Frame := [0x33, 0x12, 0x00, 0x00, 0x00, 0x00, 0xDB, 0xBD]
  const OTHER: Frame := [0x33, 0x12, 0x00, 0x00, 0x00, 0x0C, 0xDE, 0xBD]

  /** One checked byte. */
  lemma Advance(data: seq<Byte>, k: nat, from: Word, to: Word)
    requires k < |data| && from == Xor(Crc(data[..k]), data[k]) && ShiftN(from, 8) == to
    ensures Crc(data[..k + 1]) == to
  {
    CrcSnoc(data[..k], data[k]);
    assert data[..k + 1] == data[..k] + [data[k]];
  }

  lemma ClocksOfCommand()
    ensures ShiftN(0xFFCC, 8) == 0x55FF && ShiftN(0x55ED, 8) == 0x4D95
  {
    hide ShiftN;
    EightClocks([0xFFCC, 0x7FE6, 0x3FF3, 0xBFF8, 0x5FFC, 0x2FFE, 0x17FF, 0xABFE, 0x55FF]);
    EightClocks([0x55ED, 0x8AF7, 0xE57A, 0x72BD, 0x995F, 0xECAE, 0x7657, 0x9B2A, 0x4D95]);
  }

  lemma ClocksOfZeros()
    ensures ShiftN(0x4D95, 8) == 0x6F8D && ShiftN(0x6F8D, 8) == 0x65AF
  {
    hide ShiftN;
    EightClocks([0x4D95, 0x86CB, 0xE364, 0x71B2, 0x38D9, 0xBC6D, 0xFE37, 0xDF1A, 0x6F8D]);
    EightClocks([0x6F8D, 0x97C7, 0xEBE2, 0x75F1, 0x9AF9, 0xED7D, 0xD6BF, 0xCB5E, 0x65AF]);
  }

  lemma ClocksOfLastZeros()
    ensures ShiftN(0x65AF, 8) == 0x7C25 && ShiftN(0x7C25, 8) == 0xDBBD
  {
    hide ShiftN;
    EightClocks([0x65AF, 0x92D6, 0x496B, 0x84B4, 0x425A, 0x212D, 0xB097, 0xF84A, 0x7C25]);
    EightClocks([0x7C25, 0x9E13, 0xEF08, 0x7784, 0x3BC2, 0x1DE1, 0xAEF1, 0xF779, 0xDBBD]);
  }

  lemma ClocksOfDamage()
    ensures ShiftN(0x000C, 8) == 0x0500
  {
    hide ShiftN;
    EightClocks([0x000C, 0x0006, 0x0003, 0xA000, 0x5000, 0x2800, 0x1400, 0x0A00, 0x0500]);
  }

  lemma TwoBits()
    ensures Xor(3, 0) == 3 && Xor(3, 1) == 2 && Xor(3, 2) == 1 && Xor(2, 3) == 1 && Xor(3, 3) == 0
  {
    XorZero(3);
    XorOne(3);
    XorSelf(3);
  }

  lemma NibbleXors()
    ensures Xor(15, 3) == 12 && Xor(15, 1) == 14 && Xor(15, 2) == 13 && Xor(11, 14) == 5
  {
    hide Xor;
    assert Pow2(2) == 4;
    TwoBits();
    XorSplit(3, 3, 0, 3, 2);
    XorSplit(3, 3, 0, 1, 2);
    XorSplit(3, 3, 0, 2, 2);
    XorSplit(2, 3, 3, 2, 2);
  }

  lemma XorsOfMove()
    ensures Xor(0xFFFF, 0x33) == 0xFFCC && Xor(0x55FF, 0x12) == 0x55ED && Xor(0xDB, 0xDE) == 0x05
  {
    hide Xor;
    Pow2Values();
    assert Pow2(4) == 16;
    NibbleXors();
    XorSplit(15, 15, 3, 3, 4);
    XorSplit(0xFF, 0xFF, 0, 0x33, 8);
    XorSplit(15, 15, 1, 2, 4);
    XorSplit(0x55, 0xFF, 0, 0x12, 8);
    XorSplit(13, 11, 13, 14, 4);
    XorZero(0xFF);
    XorZero(0x55);
    XorSelf(13);
  }

  lemma MoveChecksum(d: seq<Byte>)
    requires |d| == 6 && d[0] == 0x33 && d[1] == 0x12 && d[2] == 0 && d[3] == 0 && d[4] == 0 && d[5] == 0
    ensures Crc(d) == 0xDBBD
  {
    hide Crc, Xor, ShiftN;
    XorsOfMove();
    ClocksOfCommand();
    ClocksOfZeros();
    ClocksOfLastZeros();
    CrcOfNothing();
    Advance(d, 0, 0xFFCC, 0x55FF);
    Advance(d, 1, 0x55ED, 0x4D95);
    XorZero(0x4D95);
    Advance(d, 2, 0x4D95, 0x6F8D);
    XorZero(0x6F8D);
    Advance(d, 3, 0x6F8D, 0x65AF);
    XorZero(0x65AF);
    Advance(d, 4, 0x65AF, 0x7C25);
    XorZero(0x7C25);
    Advance(d, 5, 0x7C25, 0xDBBD);
    assert d[..6] == d;
  }

  lemma MoveIsIntact(f: Frame)
    requires f == MOVE
    ensures Intact(f)
  {
    hide Crc;
    var d: seq<Byte> := f[..6];
    MoveChecksum(d);
  }

  lemma OtherIsIntact(f: Frame, g: Frame)
    requires f == MOVE && g == OTHER && Intact(f)
    ensures Intact(g)
  {
    hide Intact, ShiftN, Xor;
    SeamDamageIsAcceptedIff(f, g);
    ClocksOfDamage();
    XorsOfMove();
    XorZero(0x0C);
  }

  /** All the damage is in one burst of nine bits, the checksum does not notice, and the wrong move is
      executed. */
  lemma DamagedMoveIsExecuted(f: Frame, g: Frame)
    requires f == MOVE && g == OTHER
    ensures Intact(f) && BurstAt(f, g, 42, 9)
    ensures EffectsOf(f) == [Effect(CMD_MOUSE_ABS, f[2..])]
    ensures EffectsOf(g) == [Effect(CMD_MOUSE_ABS, g[2..])] && g[2..] != f[2..]
  {
    hide BurstAt, Intact;
    MoveIsIntact(f);
    OtherIsIntact(f, g);
    MoveDamageIsOneBurst(f, g);
    assert f[2..][3] != g[2..][3];
  }

  lemma MoveDamageIsOneBurst(f: Frame, g: Frame)
    requires f == MOVE && g == OTHER
    ensures BurstAt(f, g, 42, 9)
  {
    hide Stream, BitsOf;
    forall j | 0 <= j < 64 && !(42 <= j < 51) ensures Stream(f)[j] == Stream(g)[j] {
      MoveBit(f, g, j / 8, j % 8);
      assert 8 * (j / 8) + j % 8 == j;
    }
  }

  lemma MoveBit(f: Frame, g: Frame, k: nat, b: nat)
    requires f == MOVE && g == OTHER && k < 8 && b < 8 && !(42 <= 8 * k + b < 51)
    ensures Stream(f)[8 * k + b] == Stream(g)[8 * k + b]
  {
    hide Stream, BitsOf;
    StreamAt(f, 8 * k + b);
    StreamAt(g, 8 * k + b);
    Quotient(k, b);
    if k == 5 || k == 6 {
      BitsDiffer(f[k], g[k], b);
    }
  }

  /** Only the bits 2 and 3 of the one byte, and 0 and 2 of the other, are damaged. */
  lemma BitsDiffer(a: Byte, b: Byte, k: nat)
    requires k < 8
    requires (a == 0x00 && b == 0x0C && k < 2) || (a == 0xDB && b == 0xDE && k >= 3)
    ensures BitsOf(a, 8)[k] == BitsOf(b, 8)[k]
  {
    FirstThree(a);
    FirstThree(b);
    hide BitsOf;
  }

  lemma FirstThree(x: Byte)
    ensures BitsOf(x, 8) == [x % 2, x / 2 % 2, x / 4 % 2] + BitsOf(x / 8, 5)
  {
    hide BitsOf;
    BitsStep(x, 8);
    BitsStep(x / 2, 7);
    BitsStep(x / 4, 6);
    assert x / 2 / 2 == x / 4 && x / 4 / 2 == x / 8;
  }

  lemma BitsStep(x: nat, n: nat)
    requires n > 0
    ensures BitsOf(x, n) == [x % 2] + BitsOf(x / 2, n - 1)
  {
  }
}
