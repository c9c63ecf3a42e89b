/** EDID files: checksums (VESA E-EDID Release A2, section 3.11), the hexadecimal text form and the
    binary form. Text is handled as a sequence of ASCII codes. */
module EdidFile {
  import opened Bits
  import opened Wrappers
  import opened EdidCea
  import opened EdidFields

  // ----- Checksums -----

  function Sum(s: seq<Item>): (r: nat) {
    if s == [] then 0 else Sum(s[..|s| - 1]) + s[|s| - 1]
  }

  lemma SumSnoc(s: seq<Item>, x: Item)
    ensures Sum(s + [x]) == Sum(s) + x
  {
    assert (s + [x])[..|s|] == s;
  }

  lemma {:induction false} SumAppend(a: seq<Item>, b: seq<Item>)
    ensures Sum(a + b) == Sum(a) + Sum(b)
    decreases |b|
  {
    if b == [] {
      assert a + b == a;
    } else {
      var n := |b| - 1;
      SumAppend(a, b[..n]);
      SumSnoc(a + b[..n], b[n]);
      assert a + b == (a + b[..n]) + [b[n]];
    }
  }

  function Checksum(payload: seq<Item>): (r: Item)
    ensures (Sum(payload) + r) % 256 == 0
    ensures r > 0
  {
    256 - Sum(payload) % 256
  }

  function Checksummed(d: Image): (r: Image) {
    var s := d[127 := Checksum(d[..127])];
    if |d| == 256 then s[255 := Checksum(d[128..255])] else s
  }

  /** Every block of an image about to be written sums to zero modulo 256. */
  lemma BlocksSumToZero(d: Image)
    ensures Sum(Checksummed(d)[..128]) % 256 == 0
    ensures |d| == 256 ==> Sum(Checksummed(d)[128..]) % 256 == 0
  {
    var r := Checksummed(d);
    assert r[..128][..127] == d[..127];
    if |d| == 256 {
      assert r[128..][..127] == d[128..255];
    }
  }

  /** The recomputed checksum does not fit a byte: the payload already sums to zero. */
  predicate Overflows(payload: seq<Item>) {
    Sum(payload) % 256 == 0
  }

  predicate SomeOverflow(d: Image) {
    Overflows(d[..127]) || (|d| == 256 && Overflows(d[128..255]))
  }

  // ----- Text -----

  function Digit(n: nat): Byte
    requires n < 16
  {
    if n < 10 then 48 + n else 55 + n
  }

  /** At least two digits; three where a checksum overflowed. */
  function HexItem(x: Item): seq<Byte> {
    if x < 256 then [Digit(x / 16), Digit(x % 16)] else [49, 48, 48]
  }

  function Digits(d: seq<Item>): seq<Byte> {
    if d == [] then [] else HexItem(d[0]) + Digits(d[1..])
  }

  const NEWLINE: Byte := 10

  function Lines(d: seq<Item>): seq<Byte>
    decreases |d|
  {
    if d == [] then []
    else if |d| <= 16 then Digits(d) + [NEWLINE]
    else Digits(d[..16]) + [NEWLINE] + Lines(d[16..])
  }

  predicate IsSpace(ch: Byte) {
    9 <= ch <= 13 || 28 <= ch <= 32
  }

  function WithoutSpaces(text: seq<Byte>): seq<Byte> {
    if text == [] then []
    else (if IsSpace(text[0]) then [] else [text[0]]) + WithoutSpaces(text[1..])
  }

  function DigitValue(ch: Byte): (v: Option<nat>)
    ensures v.Some? ==> v.value < 16
  {
    if 48 <= ch <= 57 then Some(ch - 48)
    else if 65 <= ch <= 70 then Some(ch - 55)
    else if 97 <= ch <= 102 then Some(ch - 87)
    else None
  }

  /** `int(chunk, 16)` for one or two ASCII characters without spaces. */
  function ParseInt(chunk: seq<Byte>): Option<int>
    requires 1 <= |chunk| <= 2
  {
    var last := DigitValue(chunk[|chunk| - 1]);
    if last.None? then None
    else if |chunk| == 1 then Some(last.value)
    else if chunk[0] == 43 then Some(last.value)
    else if chunk[0] == 45 then Some(-(last.value as int))
    else if DigitValue(chunk[0]).None? then None
    else Some(DigitValue(chunk[0]).value * 16 + last.value)
  }

  function ParsePairs(text: seq<Byte>): Result<seq<Byte>, EdidError>
    decreases |text|
  {
    if text == [] then Ok([])
    else
      var v := ParseInt(Take(text, 2));
      if v.None? || v.value < 0 then Err(ValueError)
      else
        match ParsePairs(text[Min(2, |text|)..])
        case Err(e) => Err(e)
        case Ok(rest) => Ok([v.value] + rest)
  }

  // ----- Files -----

  /** What the constructor demands of the bytes. */
  predicate WellFormed(d: seq<Item>) {
    && (|d| == 128 || |d| == 256)
    && (|d| == 256 ==> d[126] == 1 && d[128] == 2 && d[129] == 3)
  }

  function Construct(bytes: seq<Byte>): (r: Result<Image, EdidError>)
    ensures r.Ok? ==> WellFormed(r.value)
  {
    if WellFormed(bytes) then Ok(bytes) else Err(AssertionFailed)
  }

  const HEADER: seq<Byte> := [0x00, 0xFF, 0xFF, 0xFF, 0xFF, 0xFF, 0xFF, 0x00]

  function FromFile(content: seq<Byte>): Result<Image, EdidError> {
    if HEADER <= content then Construct(content)
    else
      match ParsePairs(WithoutSpaces(content))
      case Err(e) => Err(e)
      case Ok(bytes) => Construct(bytes)
  }

  /** The bytes `write_hex` puts into the file. */
  function HexFile(d: Image): seq<Byte> {
    Lines(Checksummed(d))
  }

  /** The bytes `write_bin` puts into the file, unless a checksum overflows. */
  function BinFile(d: Image): Result<seq<Byte>, EdidError> {
    var r := Checksummed(d);
    if AllBytes(r) then Ok(ToBytes(r)) else Err(ValueError)
  }

  const UPPER := "0123456789ABCDEF"
  const LOWER := "0123456789abcdef"

  /** Items are written with two upper-case hexadecimal digits, the high one first, and 256 as three. */
  lemma HexIsWritten(x: Item)
    ensures x < 256 ==> HexItem(x) == [UPPER[x / 16] as int, UPPER[x % 16] as int]
    ensures x == 256 ==> HexItem(x) == ['1' as int, '0' as int, '0' as int]
  {
  }

  /** Read are digits of either case; one that stands alone counts for itself, and so does one behind a
      sign. */
  lemma HexIsRead(a: Byte, b: Byte, v: nat, w: nat)
    requires v < 16 && w < 16 && a in {UPPER[v] as int, LOWER[v] as int} && b in {UPPER[w] as int, LOWER[w] as int}
    ensures ParseInt([a, b]) == Some(v * 16 + w) && ParseInt([b]) == Some(w)
    ensures ParseInt(['+' as int, b]) == Some(w) && ParseInt(['-' as int, b]) == Some(-(w as int))
  {
    DigitIsRead(a, v);
    DigitIsRead(b, w);
    hide DigitValue;
  }

  lemma DigitIsRead(ch: Byte, v: nat)
    requires v < 16 && (ch == UPPER[v] as int || ch == LOWER[v] as int)
    ensures DigitValue(ch) == Some(v) && ch != 43 && ch != 45
  {
  }

  /** Nothing else is a digit. */
  lemma DigitsOnly(ch: Byte)
    ensures DigitValue(ch).Some? <==> exists v :: 0 <= v < 16 && (ch == UPPER[v] as int || ch == LOWER[v] as int)
  {
    if DigitValue(ch).Some? {
      var v := DigitValue(ch).value;
      assert ch == UPPER[v] as int || ch == LOWER[v] as int;
    }
  }

  /** White space is taken out wherever it stands, and nothing else. */
  lemma SpaceIsTakenOut(a: seq<Byte>, ch: Byte, b: seq<Byte>)
    ensures WithoutSpaces(a + [ch] + b)
         == if ch in {9, 10, 11, 12, 13, 28, 29, 30, 31, 32} then WithoutSpaces(a) + WithoutSpaces(b)
            else WithoutSpaces(a) + [ch] + WithoutSpaces(b)
  {
    WithoutSpacesAppend(a + [ch], b);
    WithoutSpacesAppend(a, [ch]);
    assert [ch][1..] == [];
    assert WithoutSpaces([ch]) == if IsSpace(ch) then [] else [ch];
    assert WithoutSpaces(a) + [] == WithoutSpaces(a);
  }

  /** Two characters that are no number fail: no digit at the end, or neither digit nor sign before it. */
  lemma NoNumber(a: Byte, b: Byte)
    ensures ParseInt([a, b]).None? <==>
      DigitValue(b).None? || (DigitValue(a).None? && a != '+' as int && a != '-' as int)
    ensures ParseInt([b]).None? <==> DigitValue(b).None?
  {
  }

  /** Any digits, of whatever case, are read two by two, the high one first. */
  lemma {:induction false} PairsAreRead(text: seq<Byte>)
    requires IsDigits(text) && |text| % 2 == 0
    ensures var r := ParsePairs(text);
      && r.Ok? && |r.value| == |text| / 2
      && forall i :: 0 <= i < |text| / 2 ==>
           r.value[i] == DigitValue(text[2 * i]).value * 16 + DigitValue(text[2 * i + 1]).value
    decreases |text|
  {
    if text != [] {
      var rest := text[2..];
      assert forall k :: 0 <= k < |rest| ==> rest[k] == text[k + 2];
      PairsAreRead(rest);
      assert Take(text, 2) == [text[0], text[1]];
      FirstPair(text[0], text[1]);
      hide DigitValue, ParseInt;
      forall i | 0 < i < |text| / 2
        ensures ParsePairs(text).value[i] == DigitValue(text[2 * i]).value * 16 + DigitValue(text[2 * i + 1]).value
      {
        assert ParsePairs(text).value[i] == ParsePairs(rest).value[i - 1];
        assert rest[2 * (i - 1)] == text[2 * i] && rest[2 * (i - 1) + 1] == text[2 * i + 1];
      }
    }
  }

  lemma FirstPair(a: Byte, b: Byte)
    requires DigitValue(a).Some? && DigitValue(b).Some?
    ensures ParseInt([a, b]) == Some(DigitValue(a).value * 16 + DigitValue(b).value)
  {
  }

  /** Accepted are 128 bytes, or 256 that announce one extension, of the right kind and version. */
  lemma ConstructIff(bytes: seq<Byte>)
    ensures Construct(bytes) ==
      if |bytes| == 128 || (|bytes| == 256 && bytes[126] == 1 && bytes[128] == 2 && bytes[129] == 3)
      then Ok(bytes) else Err(AssertionFailed)
  {
  }

  // ----- Reading back what was written -----

  lemma {:induction false} WithoutSpacesAppend(a: seq<Byte>, b: seq<Byte>)
    ensures WithoutSpaces(a + b) == WithoutSpaces(a) + WithoutSpaces(b)
  {
    if a == [] {
      assert a + b == b;
    } else {
      assert (a + b)[1..] == a[1..] + b;
      WithoutSpacesAppend(a[1..], b);
    }
  }

  lemma {:induction false} DigitsAreSolid(d: seq<Item>)
    ensures WithoutSpaces(Digits(d)) == Digits(d)
  {
    if d != [] {
      DigitsAreSolid(d[1..]);
      WithoutSpacesAppend(HexItem(d[0]), Digits(d[1..]));
      ItemIsSolid(d[0]);
    }
  }

  lemma ItemIsSolid(x: Item)
    ensures WithoutSpaces(HexItem(x)) == HexItem(x)
  {
    var h := HexItem(x);
    assert forall k :: 0 <= k < |h| ==> !IsSpace(h[k]);
    SolidStays(h);
  }

  lemma {:induction false} SolidStays(text: seq<Byte>)
    requires forall k :: 0 <= k < |text| ==> !IsSpace(text[k])
    ensures WithoutSpaces(text) == text
  {
    if text != [] {
      SolidStays(text[1..]);
    }
  }

  lemma {:induction false} DigitsAppend(a: seq<Item>, b: seq<Item>)
    ensures Digits(a + b) == Digits(a) + Digits(b)
  {
    if a == [] {
      assert a + b == b;
    } else {
      assert (a + b)[1..] == a[1..] + b;
      DigitsAppend(a[1..], b);
    }
  }

  lemma DigitsSnoc(d: seq<Item>, x: Item)
    ensures Digits(d + [x]) == Digits(d) + HexItem(x)
  {
    DigitsAppend(d, [x]);
    assert Digits([x]) == HexItem(x) + Digits([]);
  }

  lemma LinesOfNone()
    ensures Lines([]) == []
  {
  }

  lemma OneLine(first: seq<Item>, rest: seq<Item>)
    requires |first| == 16
    ensures Lines(first + rest) == Digits(first) + [NEWLINE] + Lines(rest)
  {
    hide Digits;
    var d := first + rest;
    if rest == [] {
      assert d == first;
    } else {
      assert d[..16] == first && d[16..] == rest;
    }
  }

  lemma {:induction false} LinesSnoc(d: seq<Item>, chunk: seq<Item>)
    requires |d| % 16 == 0 && |chunk| == 16
    ensures Lines(d + chunk) == Lines(d) + Digits(chunk) + ['\n' as int]
    decreases |d|
  {
    hide Lines, Digits;
    if d == [] {
      OneLine(chunk, d);
      LinesOfNone();
      assert d + chunk == chunk && chunk + d == chunk;
    } else {
      var first, rest := d[..16], d[16..];
      LinesSnoc(rest, chunk);
      OneLine(first, rest);
      OneLine(first, rest + chunk);
      assert first + rest == d && d + chunk == first + (rest + chunk);
      Regroup(Digits(first) + [NEWLINE], Lines(rest), Digits(chunk), [NEWLINE]);
    }
  }

  lemma Regroup(a: seq<Byte>, b: seq<Byte>, c: seq<Byte>, d: seq<Byte>)
    ensures a + (b + c + d) == a + b + c + d
  {
  }

  /** The line structure disappears on reading. */
  lemma {:induction false} LinesAreDigits(d: seq<Item>)
    ensures WithoutSpaces(Lines(d)) == Digits(d)
    decreases |d|
  {
    if d != [] {
      var n := Min(16, |d|);
      var head, tail := d[..n], d[n..];
      assert WithoutSpaces([NEWLINE]) == [] by { assert IsSpace(NEWLINE); }
      DigitsAreSolid(head);
      WithoutSpacesAppend(Digits(head), [NEWLINE]);
      if |d| <= 16 {
        assert head == d;
      } else {
        LinesAreDigits(tail);
        WithoutSpacesAppend(Digits(head) + [NEWLINE], Lines(tail));
        DigitsAppend(head, tail);
        assert head + tail == d;
      }
    }
  }

  lemma PairRoundTrip(x: Byte)
    ensures ParseInt(HexItem(x)) == Some(x)
  {
  }

  lemma {:induction false} BytesReadBack(d: seq<Byte>)
    ensures ParsePairs(Digits(d)) == Ok(d)
  {
    if d != [] {
      BytesReadBack(d[1..]);
      PairRoundTrip(d[0]);
      var text := Digits(d);
      assert Take(text, 2) == HexItem(d[0]);
      assert text[2..] == Digits(d[1..]);
      assert [d[0]] + d[1..] == d;
    }
  }

  predicate IsDigits(text: seq<Byte>) {
    forall k :: 0 <= k < |text| ==> DigitValue(text[k]).Some?
  }

  /** Digits are always read, but an odd number of them shifts all pairs. */
  lemma {:induction false} DigitsParse(text: seq<Byte>)
    requires IsDigits(text)
    ensures ParsePairs(text).Ok? && |ParsePairs(text).value| == (|text| + 1) / 2
    decreases |text|
  {
    if text != [] {
      assert DigitValue(text[0]).Some?;
      DigitsParse(text[Min(2, |text|)..]);
    }
  }

  function Overflowed(d: seq<Item>): nat {
    if d == [] then 0 else (if d[0] == 256 then 1 else 0) + Overflowed(d[1..])
  }

  lemma {:induction false} DigitsCount(d: seq<Item>)
    ensures IsDigits(Digits(d)) && |Digits(d)| == 2 * |d| + Overflowed(d)
  {
    if d != [] {
      DigitsCount(d[1..]);
      assert IsDigits(HexItem(d[0]));
    }
  }

  lemma {:induction false} OverflowedAppend(a: seq<Item>, b: seq<Item>)
    ensures Overflowed(a + b) == Overflowed(a) + Overflowed(b)
  {
    if a == [] {
      assert a + b == b;
    } else {
      assert (a + b)[1..] == a[1..] + b;
      OverflowedAppend(a[1..], b);
    }
  }

  lemma {:induction false} NoneOverflowed(d: seq<Item>)
    requires AllBytes(d)
    ensures Overflowed(d) == 0
  {
    if d != [] {
      NoneOverflowed(d[1..]);
    }
  }

  lemma OverflowCount(d: Image)
    ensures var n := Overflowed(Checksummed(d)); n <= 2 && (n == 0 <==> !SomeOverflow(d))
    ensures AllBytes(Checksummed(d)) <==> !SomeOverflow(d)
  {
    var r := Checksummed(d);
    assert r[127] == 256 <==> Overflows(d[..127]);
    OverflowedInBlock(r[..128]);
    if |d| == 256 {
      assert r[255] == 256 <==> Overflows(d[128..255]);
      OverflowedInBlock(r[128..]);
      OverflowedAppend(r[..128], r[128..]);
      assert r[..128] + r[128..] == r;
    } else {
      assert r[..128] == r;
    }
  }

  lemma OverflowedInBlock(b: seq<Item>)
    requires |b| == 128 && AllBytes(b[..127])
    ensures Overflowed(b) == if b[127] == 256 then 1 else 0
  {
    NoneOverflowed(b[..127]);
    OverflowedAppend(b[..127], [b[127]]);
    assert b[..127] + [b[127]] == b;
    assert Overflowed([b[127]]) == if b[127] == 256 then 1 else 0;
  }

  /** Re-reading the hexadecimal file restores exactly the bytes written if and only if no block's
      payload sums to zero modulo 256; otherwise the file is rejected. */
  lemma HexRoundTrip(d: Image)
    requires WellFormed(d)
    ensures FromFile(HexFile(d))
         == if SomeOverflow(d) then Err(AssertionFailed) else Ok(Checksummed(d))
  {
    hide Checksum, Digits, Lines, ParsePairs, WithoutSpaces, Overflowed, SomeOverflow;
    var r := Checksummed(d);
    LinesAreDigits(r);
    OverflowCount(d);
    DigitsCount(r);
    NotBinary(r);
    if SomeOverflow(d) {
      DigitsParse(Digits(r));
    } else {
      assert ToBytes(r) == r;
      BytesReadBack(ToBytes(r));
    }
  }

  /** A hexadecimal file is never mistaken for a binary one. */
  lemma NotBinary(d: Image)
    ensures !(HEADER <= Lines(d))
  {
    assert Lines(d)[0] == HexItem(d[0])[0] by {
      assert d[..16][0] == d[0];
      assert Digits(d[..16]) == HexItem(d[0]) + Digits(d[..16][1..]);
    }
    assert Lines(d)[0] != HEADER[0];
  }

  /** The binary file can be written under the same condition, and an image with the standard header
      then reads back as written. */
  lemma BinRoundTrip(d: Image)
    requires WellFormed(d)
    ensures BinFile(d).Ok? <==> !SomeOverflow(d)
    ensures BinFile(d).Ok? && HEADER <= d ==> FromFile(BinFile(d).value) == Ok(Checksummed(d))
  {
    OverflowCount(d);
    if BinFile(d).Ok? && HEADER <= d {
      var r := Checksummed(d);
      assert ToBytes(r) == r;
      assert r[..8] == d[..8];
      assert HEADER <= r;
    }
  }

  /** No setter can spoil what the constructor demanded. */
  lemma EditsStayWellFormed(d: Image, e: Edit, c: Codec)
    requires ValidCodec(c) && WellFormed(d) && Apply(d, e, c).Ok?
    ensures WellFormed(Apply(d, e, c).value)
  {
    match e
    case MfcId(id) => MfcIdFrame(d, id, c);
    case ProductId(n) =>
    case Serial(n) =>
    case Name(t) => TextFrame(d, NAME, t, c);
    case MonitorSerial(t) => TextFrame(d, MONITOR_SERIAL, t, c);
    case Audio(on) => AudioFrame(d, on);
  }
}
