/** The editable fields of an EDID image (VESA E-EDID Release A2, sections 3.4 and 3.10) as
    functions of the bytes, and the proof that the bytes behave like an abstract record. */
module EdidFields {
  import opened Bits
  import opened Wrappers
  import opened EdidCea

  /** One or two blocks of 128 bytes; only the checksum at the end of a block may be 256. */
  predicate IsImage(d: seq<Item>) {
    && (|d| == 128 || |d| == 256)
    && forall k :: 0 <= k < |d| && k != 127 && k != 255 ==> d[k] < 256
  }

  type Image = d: seq<Item> | IsImage(d) witness seq(128, _ => 0)

  function At(d: Image, k: nat): int
    requires k < |d|
  {
    d[k]
  }

  // ----- Text encoding -----

  /** A one-byte character set: what can be encoded, how each byte is decoded, which characters
      count as white space, and the characters whose upper case is another string. */
  datatype Codec = Codec(enc: map<char, Byte>, dec: seq<char>, spaces: set<char>,
                         upper: map<char, string>)

  predicate ValidCodec(c: Codec) {
    && |c.dec| == 256
    && (forall ch :: ch in c.enc ==> c.dec[c.enc[ch]] == ch)
    && '\n' in c.enc && ' ' in c.enc && '\n' in c.spaces && ' ' in c.spaces
    && forall ch :: ch in c.upper ==> c.upper[ch] != ""
  }

  predicate Encodable(c: Codec, s: string) {
    forall k :: 0 <= k < |s| ==> s[k] in c.enc
  }

  function Encode(c: Codec, s: string): (r: seq<Byte>)
    requires Encodable(c, s)
    ensures |r| == |s|
  {
    seq(|s|, k requires 0 <= k < |s| => c.enc[s[k]])
  }

  function Decode(c: Codec, raw: seq<Item>): (r: string)
    requires ValidCodec(c) && AllBytes(raw)
  {
    seq(|raw|, k requires 0 <= k < |raw| => c.dec[raw[k]])
  }

  lemma DecodeEncode(c: Codec, s: string)
    requires ValidCodec(c) && Encodable(c, s)
    ensures Decode(c, Encode(c, s)) == s
  {
  }

  function StripLeft(s: string, spaces: set<char>): string {
    if s != [] && s[0] in spaces then StripLeft(s[1..], spaces) else s
  }

  function StripRight(s: string, spaces: set<char>): string {
    if s != [] && s[|s| - 1] in spaces then StripRight(s[..|s| - 1], spaces) else s
  }

  function Strip(s: string, spaces: set<char>): string {
    StripLeft(StripRight(s, spaces), spaces)
  }

  lemma {:induction false} StripPadding(s: string, pad: string, spaces: set<char>)
    requires forall k :: 0 <= k < |pad| ==> pad[k] in spaces
    ensures StripRight(s + pad, spaces) == StripRight(s, spaces)
    decreases |pad|
  {
    if pad == [] {
      assert s + pad == s;
    } else {
      var n := |pad| - 1;
      assert (s + pad)[..|s + pad| - 1] == s + pad[..n];
      StripPadding(s, pad[..n], spaces);
    }
  }

  function UpperChar(c: Codec, ch: char): string {
    if ch in c.upper then c.upper[ch] else [ch]
  }

  function Upper(c: Codec, s: string): string {
    if s == [] then [] else UpperChar(c, s[0]) + Upper(c, s[1..])
  }

  lemma {:induction false} UpperLength(c: Codec, s: string)
    requires ValidCodec(c)
    ensures |Upper(c, s)| >= |s|
  {
    if s != [] {
      UpperLength(c, s[1..]);
    }
  }

  // ----- Vendor and product identification -----

  predicate IsLetter(ch: char) {
    'A' <= ch <= 'Z'
  }

  function LetterCode(ch: char): int {
    ch as int - 0x40
  }

  function CodeLetter(n: int): char
    requires 0 <= n < 32
  {
    (n + 0x40) as char
  }

  function GetMfcId(d: Image): string {
    var raw := At(d, 8) * 256 + At(d, 9);
    [CodeLetter(raw / 1024 % 32), CodeLetter(raw / 32 % 32), CodeLetter(raw % 32)]
  }

  function SetMfcId(d: Image, id: string, c: Codec): (r: Result<Image, EdidError>)
    requires ValidCodec(c)
  {
    var up := Upper(c, id);
    if |id| != 3 then Err(AssertionFailed)
    else if exists k :: 0 <= k < |up| && up[k] as int >= 128 then Err(ValueError)
    else if exists k :: 0 <= k < |up| && !IsLetter(up[k]) then Err(AssertionFailed)
    else
      UpperLength(c, id);
      var raw := LetterCode(up[0]) * 1024 + LetterCode(up[1]) * 32 + LetterCode(up[2]);
      Ok(d[8 := raw / 256][9 := raw % 256])
  }

  function GetProductId(d: Image): int {
    At(d, 10) + At(d, 11) * 256
  }

  function SetProductId(d: Image, n: int): Result<Image, EdidError> {
    if !(0 <= n <= 0xFFFF) then Err(AssertionFailed)
    else Ok(d[10 := n % 256][11 := n / 256 % 256])
  }

  function GetSerial(d: Image): int {
    At(d, 12) + At(d, 13) * 0x100 + At(d, 14) * 0x1_0000 + At(d, 15) * 0x100_0000
  }

  function SetSerial(d: Image, n: int): Result<Image, EdidError> {
    if !(0 <= n <= 0xFFFF_FFFF) then Err(AssertionFailed)
    else Ok(d[12 := n % 256][13 := n / 0x100 % 256][14 := n / 0x1_0000 % 256][15 := n / 0x100_0000 % 256])
  }

  // ----- Texts in 18-byte descriptors -----

  const NAME := 0xFC
  const MONITOR_SERIAL := 0xFF

  /** The text offset of the first descriptor of a type, or -1. */
  function FindText(d: Image, dType: int): (i: int)
    ensures i == -1 || i == 59 || i == 77 || i == 95 || i == 113
    ensures i != -1 ==> d[i - 2] == dType
  {
    if d[57] == dType then 59
    else if d[75] == dType then 77
    else if d[93] == dType then 95
    else if d[111] == dType then 113
    else -1
  }

  function GetText(d: Image, dType: int, c: Codec): Result<string, EdidError>
    requires ValidCodec(c)
  {
    var i := FindText(d, dType);
    if i == -1 then Err(NoBlock)
    else Ok(Strip(Decode(c, d[i..i + 13]), c.spaces))
  }

  const PADDING := "\n            "

  function Padded(text: string): (r: string)
    ensures |r| == 13
  {
    (Take(text, 13) + PADDING)[..13]
  }

  function Overwrite(d: Image, at: nat, bytes: seq<Byte>): (r: Image)
    requires at + |bytes| <= |d|
    ensures |r| == |d|
    ensures forall k :: 0 <= k < |d| && !(at <= k < at + |bytes|) ==> r[k] == d[k]
    ensures r[at..at + |bytes|] == bytes
  {
    d[..at] + bytes + d[at + |bytes|..]
  }

  function SetText(d: Image, dType: int, text: string, c: Codec): Result<Image, EdidError>
    requires ValidCodec(c)
  {
    var i := FindText(d, dType);
    if i == -1 then Err(NoBlock)
    else if !Encodable(c, Padded(text)) then Err(ValueError)
    else Ok(Overwrite(d, i, Encode(c, Padded(text))))
  }

  // ----- Audio -----

  predicate IsAudio(b: Block) {
    b.tag == CEA_AUDIO || b.tag == CEA_SPEAKERS
  }

  function WithoutAudio(blocks: seq<Block>): (r: seq<Block>)
    ensures AllValid(blocks) ==> AllValid(r)
    ensures forall k :: 0 <= k < |r| ==> !IsAudio(r[k])
  {
    if blocks == [] then []
    else
      var b := blocks[|blocks| - 1];
      WithoutAudio(blocks[..|blocks| - 1]) + if IsAudio(b) then [] else [b]
  }

  const AUDIO_BLOCKS: seq<Block> :=
    [Block(CEA_AUDIO, [0x09, 0x7F, 0x07]), Block(CEA_SPEAKERS, [0x01, 0x00, 0x00])]

  function WithAudio(c: Cea, enabled: bool): (r: Cea)
    ensures AllValid(c.blocks) ==> AllValid(r.blocks)
  {
    c.(blocks := WithoutAudio(c.blocks) + if enabled then AUDIO_BLOCKS else [])
  }

  predicate BasicAudio(d: Image)
    requires |d| == 256
  {
    d[CEA + 3] / 64 % 2 == 1
  }

  function SetBasicAudio(x: Byte, enabled: bool): Byte {
    if enabled then (if x / 64 % 2 == 1 then x else x + 64)
    else (if x / 64 % 2 == 1 then x - 64 else x)
  }

  predicate HasTag(blocks: seq<Block>, tag: int) {
    exists k :: 0 <= k < |blocks| && blocks[k].tag == tag
  }

  function GetAudio(d: Image): Result<bool, EdidError> {
    match ParseCea(d)
    case Err(e) => Err(e)
    case Ok(c) => Ok(HasTag(c.blocks, CEA_AUDIO) && HasTag(c.blocks, CEA_SPEAKERS) && BasicAudio(d))
  }

  function SetAudio(d: Image, enabled: bool): Result<Image, EdidError> {
    match ParseCea(d)
    case Err(e) => Err(e)
    case Ok(c) =>
      var c' := WithAudio(c, enabled);
      if !Fits(c') then Err(AssertionFailed)
      else
        var r := ReplaceCea(d, c');
        Ok(r[CEA + 3 := SetBasicAudio(r[CEA + 3], enabled)])
  }

  // ----- The abstract record -----

  datatype Fields = Fields(mfcId: string, productId: int, serial: int,
                           name: Result<string, EdidError>, monitorSerial: Result<string, EdidError>,
                           audio: Result<bool, EdidError>)

  function View(d: Image, c: Codec): Fields
    requires ValidCodec(c)
  {
    Fields(GetMfcId(d), GetProductId(d), GetSerial(d), GetText(d, NAME, c),
           GetText(d, MONITOR_SERIAL, c), GetAudio(d))
  }

  datatype Edit =
    | MfcId(id: string)
    | ProductId(product: int)
    | Serial(serial: int)
    | Name(text: string)
    | MonitorSerial(text: string)
    | Audio(enabled: bool)

  /** What the setters do to the bytes. */
  function Apply(d: Image, e: Edit, c: Codec): Result<Image, EdidError>
    requires ValidCodec(c)
  {
    match e
    case MfcId(id) => SetMfcId(d, id, c)
    case ProductId(n) => SetProductId(d, n)
    case Serial(n) => SetSerial(d, n)
    case Name(t) => SetText(d, NAME, t, c)
    case MonitorSerial(t) => SetText(d, MONITOR_SERIAL, t, c)
    case Audio(on) => SetAudio(d, on)
  }

  /** What they are meant to do to the record: each sets its own field and nothing else. */
  function Update(f: Fields, e: Edit, c: Codec): Fields
    requires ValidCodec(c)
  {
    match e
    case MfcId(id) => f.(mfcId := Take(Upper(c, id), 3))
    case ProductId(n) => f.(productId := n)
    case Serial(n) => f.(serial := n)
    case Name(t) => f.(name := Ok(Strip(Take(t, 13), c.spaces)))
    case MonitorSerial(t) => f.(monitorSerial := Ok(Strip(Take(t, 13), c.spaces)))
    case Audio(on) => f.(audio := Ok(on))
  }

  // ----- One setter at a time -----

  lemma SameText(d: Image, r: Image, dType: int, c: Codec)
    requires ValidCodec(c) && |d| == |r|
    requires forall k :: 16 <= k < 126 ==> r[k] == d[k]
    ensures GetText(r, dType, c) == GetText(d, dType, c)
  {
    var i := FindText(d, dType);
    if i != -1 {
      assert r[i..i + 13] == d[i..i + 13];
    }
  }

  /** Two images that agree below the extension have the same base fields. */
  lemma BaseFields(d: Image, r: Image, c: Codec)
    requires ValidCodec(c) && |d| == |r|
    requires forall k :: 8 <= k < 126 ==> r[k] == d[k]
    ensures GetMfcId(r) == GetMfcId(d) && GetProductId(r) == GetProductId(d)
    ensures GetSerial(r) == GetSerial(d)
    ensures GetText(r, NAME, c) == GetText(d, NAME, c)
    ensures GetText(r, MONITOR_SERIAL, c) == GetText(d, MONITOR_SERIAL, c)
  {
    hide Strip, Decode;
    SameText(d, r, NAME, c);
    SameText(d, r, MONITOR_SERIAL, c);
  }

  /** Two images that agree on the extension have the same audio state. */
  lemma ExtensionFields(d: Image, r: Image)
    requires |d| == |r| && forall k :: 128 <= k < |d| ==> r[k] == d[k]
    ensures ParseCea(r) == ParseCea(d) && GetAudio(r) == GetAudio(d)
  {
    if |d| == 256 {
      var end := CEA + Min(d[CEA + 2], 128);
      if d[CEA + 2] > 4 {
        assert r[CEA + 4..end] == d[CEA + 4..end];
      }
      assert r[end..] == d[end..];
    }
  }

  lemma MfcIdSet(d: Image, id: string, c: Codec)
    requires ValidCodec(c) && SetMfcId(d, id, c).Ok?
    ensures GetMfcId(SetMfcId(d, id, c).value) == Take(Upper(c, id), 3)
    ensures SetMfcId(d, id, c).value[8] < 128
  {
    var up := Upper(c, id);
    UpperLength(c, id);
    var a, b, e := LetterCode(up[0]), LetterCode(up[1]), LetterCode(up[2]);
    assert IsLetter(up[0]) && IsLetter(up[1]) && IsLetter(up[2]);
    FiveBits(a, b, e);
  }

  lemma FiveBits(a: int, b: int, c: int)
    requires 0 <= a < 32 && 0 <= b < 32 && 0 <= c < 32
    ensures var raw := a * 1024 + b * 32 + c;
      raw / 1024 % 32 == a && raw / 32 % 32 == b && raw % 32 == c
      && raw / 256 * 256 + raw % 256 == raw && raw / 256 < 256
  {
  }

  lemma SerialBytes(n: int)
    requires 0 <= n <= 0xFFFF_FFFF
    ensures n % 256 + n / 0x100 % 256 * 0x100 + n / 0x1_0000 % 256 * 0x1_0000
          + n / 0x100_0000 % 256 * 0x100_0000 == n
  {
    var m, k := n / 0x100, n / 0x100 / 0x100;
    By65536(n, k, n % 0x100 + m % 0x100 * 0x100);
    By16777216(n, k / 0x100, n % 0x100 + m % 0x100 * 0x100 + k % 0x100 * 0x1_0000);
  }

  predicate TextOffset(i: int) {
    i == 59 || i == 77 || i == 95 || i == 113
  }

  /** Writing a text moves no descriptor type. */
  lemma FindUnmoved(d: Image, at: nat, bytes: seq<Byte>, t: int)
    requires TextOffset(at) && |bytes| == 13
    ensures FindText(Overwrite(d, at, bytes), t) == FindText(d, t)
  {
  }

  lemma PaddedStrips(text: string, spaces: set<char>)
    requires '\n' in spaces && ' ' in spaces
    ensures Strip(Padded(text), spaces) == Strip(Take(text, 13), spaces)
  {
    var body := Take(text, 13);
    var pad := Padded(text)[|body|..];
    assert Padded(text) == body + pad;
    assert forall k :: 0 <= k < |pad| ==> pad[k] == PADDING[k];
    StripPadding(body, pad, spaces);
  }

  lemma OwnTextSet(d: Image, dType: int, text: string, c: Codec)
    requires ValidCodec(c) && SetText(d, dType, text, c).Ok?
    ensures GetText(SetText(d, dType, text, c).value, dType, c) == Ok(Strip(Take(text, 13), c.spaces))
  {
    hide Strip, Encode, Decode;
    var i, p := FindText(d, dType), Padded(text);
    FindUnmoved(d, i, Encode(c, p), dType);
    DecodeEncode(c, p);
    PaddedStrips(text, c.spaces);
  }

  lemma OtherTextUnmoved(d: Image, dType: int, text: string, c: Codec, other: int)
    requires ValidCodec(c) && SetText(d, dType, text, c).Ok? && other != dType
    ensures GetText(SetText(d, dType, text, c).value, other, c) == GetText(d, other, c)
  {
    hide Strip, Encode, Decode;
    var i, j := FindText(d, dType), FindText(d, other);
    var r := SetText(d, dType, text, c).value;
    FindUnmoved(d, i, Encode(c, Padded(text)), other);
    if j != -1 {
      assert j + 13 <= i || i + 13 <= j;
      TextFrameAt(d, i, Encode(c, Padded(text)));
      SameSlice(r, d, j, j + 13);
    }
  }

  lemma SameSlice(r: Image, d: Image, lo: nat, hi: nat)
    requires lo <= hi <= |r| && |r| == |d| && forall k :: lo <= k < hi ==> r[k] == d[k]
    ensures r[lo..hi] == d[lo..hi]
  {
  }

  lemma TextFrameAt(d: Image, at: nat, bytes: seq<Byte>)
    requires at + |bytes| <= |d|
    ensures forall k :: 0 <= k < |d| && !(at <= k < at + |bytes|) ==> Overwrite(d, at, bytes)[k] == d[k]
  {
  }

  /** The parser does not look at the flags byte of the extension. */
  lemma FlagsUnparsed(d: seq<Item>, r: seq<Item>)
    requires |d| == 256 && |r| == 256 && forall k :: 130 <= k < 256 && k != CEA + 3 ==> r[k] == d[k]
    ensures ParseCea(r) == ParseCea(d)
  {
    var end := CEA + Min(d[CEA + 2], 128);
    if d[CEA + 2] > 4 {
      assert r[CEA + 4..end] == d[CEA + 4..end];
    }
    if d[CEA + 2] >= 4 {
      assert r[end..] == d[end..];
    }
  }

  lemma HasTagAppend(blocks: seq<Block>, tag: int)
    requires tag == CEA_AUDIO || tag == CEA_SPEAKERS
    ensures !HasTag(WithoutAudio(blocks), tag)
    ensures HasTag(WithoutAudio(blocks) + AUDIO_BLOCKS, tag)
  {
    var n := |WithoutAudio(blocks)|;
    assert (WithoutAudio(blocks) + AUDIO_BLOCKS)[n] == AUDIO_BLOCKS[0];
    assert (WithoutAudio(blocks) + AUDIO_BLOCKS)[n + 1] == AUDIO_BLOCKS[1];
  }

  /** Switching audio on or off: afterwards the state is as requested, the other blocks are still
      there in their order, and so are the descriptors, except that the last one is lost when the
      result fits exactly; nothing outside the extension, its offset and its flags has changed. */
  lemma AudioSet(d: Image, enabled: bool)
    requires SetAudio(d, enabled).Ok?
    ensures var r := SetAudio(d, enabled).value; var c := ParseCea(d).value;
      && GetAudio(r) == Ok(enabled)
      && WholeDtds(c.dtds) && ParseCea(r) == Ok(ReadBack(WithAudio(c, enabled)))
      && forall k :: 0 <= k < 256 && k != CEA + 2 && k != CEA + 3 && !(CEA + 4 <= k < CEA + 127) ==>
           r[k] == d[k]
  {
    hide ParseCea, ReplaceCea, PackAll, WholeDtds;
    var c := ParseCea(d).value;
    var c' := WithAudio(c, enabled);
    assert |d| == 256 by { ParsedIsLong(d); }
    ParsedIsPrintable(d);
    CeaRoundTrip(d, c');
    var mid := ReplaceCea(d, c');
    FlagsUnparsed(mid, SetAudio(d, enabled).value);
    HasTagAppend(c.blocks, CEA_AUDIO);
    HasTagAppend(c.blocks, CEA_SPEAKERS);
  }

  lemma ParsedIsLong(d: Image)
    requires ParseCea(d).Ok?
    ensures |d| == 256
  {
  }

  lemma IdIsUpdate(d: Image, id: string, c: Codec)
    requires ValidCodec(c) && Apply(d, MfcId(id), c).Ok?
    ensures View(Apply(d, MfcId(id), c).value, c) == Update(View(d, c), MfcId(id), c)
  {
    hide ParseCea, GetAudio, SetAudio, GetText, SetText, SetMfcId, Strip, Upper, Overwrite;
    var r := Apply(d, MfcId(id), c).value;
    MfcIdFrame(d, id, c);
    MfcIdSet(d, id, c);
    TextsApart(d, r, c);
    ExtensionFields(d, r);
  }

  lemma ProductSet(d: Image, n: int)
    requires SetProductId(d, n).Ok?
    ensures var r := SetProductId(d, n).value;
      && GetProductId(r) == n && GetSerial(r) == GetSerial(d) && GetMfcId(r) == GetMfcId(d)
      && |r| == |d| && forall k :: 0 <= k < |d| && k != 10 && k != 11 ==> r[k] == d[k]
  {
  }

  lemma SerialSet(d: Image, n: int)
    requires SetSerial(d, n).Ok?
    ensures var r := SetSerial(d, n).value;
      && GetSerial(r) == n && GetProductId(r) == GetProductId(d) && GetMfcId(r) == GetMfcId(d)
      && |r| == |d| && forall k :: 0 <= k < |d| && !(12 <= k < 16) ==> r[k] == d[k]
  {
    SerialBytes(n);
  }

  lemma NumberIsUpdate(d: Image, e: Edit, c: Codec)
    requires ValidCodec(c) && Apply(d, e, c).Ok? && (e.ProductId? || e.Serial?)
    ensures View(Apply(d, e, c).value, c) == Update(View(d, c), e, c)
  {
    hide ParseCea, GetAudio, SetAudio, GetText, SetText, SetMfcId, Strip, Upper, Overwrite,
      SetSerial, GetSerial, SetProductId, GetProductId, GetMfcId;
    var r := Apply(d, e, c).value;
    if e.Serial? { SerialSet(d, e.serial); } else { ProductSet(d, e.product); }
    TextsApart(d, r, c);
    ExtensionFields(d, r);
  }

  lemma TextIsUpdate(d: Image, e: Edit, c: Codec)
    requires ValidCodec(c) && Apply(d, e, c).Ok? && (e.Name? || e.MonitorSerial?)
    ensures View(Apply(d, e, c).value, c) == Update(View(d, c), e, c)
  {
    hide ParseCea, GetAudio, SetAudio, GetText, SetText, SetMfcId, Strip, Upper, Overwrite;
    var (own, other) := if e.Name? then (NAME, MONITOR_SERIAL) else (MONITOR_SERIAL, NAME);
    var t := e.text;
    TextFrame(d, own, t, c);
    OwnTextSet(d, own, t, c);
    OtherTextUnmoved(d, own, t, c, other);
    ExtensionFields(d, Apply(d, e, c).value);
  }

  lemma AudioIsUpdate(d: Image, on: bool, c: Codec)
    requires ValidCodec(c) && Apply(d, Audio(on), c).Ok?
    ensures View(Apply(d, Audio(on), c).value, c) == Update(View(d, c), Audio(on), c)
  {
    hide ParseCea, GetAudio, SetAudio, GetText, SetText, SetMfcId, Strip, Upper, Overwrite;
    AudioSet(d, on);
    AudioFrame(d, on);
    BaseFields(d, Apply(d, Audio(on), c).value, c);
  }

  /** Every setter that succeeds changes its own field as meant and no other field, whatever the
      image was. */
  lemma EditIsUpdate(d: Image, e: Edit, c: Codec)
    requires ValidCodec(c) && Apply(d, e, c).Ok?
    ensures View(Apply(d, e, c).value, c) == Update(View(d, c), e, c)
  {
    hide View, Update, Apply;
    match e
    case MfcId(id) => IdIsUpdate(d, id, c);
    case ProductId(_) => NumberIsUpdate(d, e, c);
    case Serial(_) => NumberIsUpdate(d, e, c);
    case Name(_) => TextIsUpdate(d, e, c);
    case MonitorSerial(_) => TextIsUpdate(d, e, c);
    case Audio(on) => AudioIsUpdate(d, on, c);
  }

  lemma TextsApart(d: Image, r: Image, c: Codec)
    requires ValidCodec(c) && |d| == |r| && forall k :: 16 <= k < |d| ==> r[k] == d[k]
    ensures GetText(r, NAME, c) == GetText(d, NAME, c)
    ensures GetText(r, MONITOR_SERIAL, c) == GetText(d, MONITOR_SERIAL, c)
  {
    SameText(d, r, NAME, c);
    SameText(d, r, MONITOR_SERIAL, c);
  }

  lemma MfcIdFrame(d: Image, id: string, c: Codec)
    requires ValidCodec(c) && SetMfcId(d, id, c).Ok?
    ensures var r := SetMfcId(d, id, c).value;
      |r| == |d| && forall k :: 0 <= k < |d| && k != 8 && k != 9 ==> r[k] == d[k]
  {
  }

  lemma TextFrame(d: Image, dType: int, text: string, c: Codec)
    requires ValidCodec(c) && SetText(d, dType, text, c).Ok?
    ensures var r := SetText(d, dType, text, c).value;
      |r| == |d| && forall k :: 0 <= k < |d| && !(59 <= k < 126) ==> r[k] == d[k]
  {
  }

  lemma AudioFrame(d: Image, on: bool)
    requires SetAudio(d, on).Ok?
    ensures var r := SetAudio(d, on).value;
      |r| == |d| && forall k :: 0 <= k < 130 ==> r[k] == d[k]
  {
  }

  // ----- Where the fields are -----

  /** The identifier is three groups of five bits with the first letter on top, product and serial number
      have their low byte first (VESA E-EDID Release A2, section 3.4). */
  lemma NumbersAreAt(d: Image)
    ensures var id := GetMfcId(d);
      && |id| == 3 && id[0] as int == 64 + d[8] / 4 % 32
      && id[1] as int == 64 + d[8] % 4 * 8 + d[9] / 32 && id[2] as int == 64 + d[9] % 32
    ensures GetProductId(d) % 256 == d[10] && GetProductId(d) / 256 == d[11]
    ensures var n := GetSerial(d);
      n % 256 == d[12] && n / 0x100 % 256 == d[13] && n / 0x1_0000 % 256 == d[14] && n / 0x100_0000 == d[15]
  {
    hide GetMfcId, GetSerial;
    IdIsAt(d);
    SerialIsAt(d, d[12], d[13], d[14], d[15]);
  }

  lemma IdIsAt(d: Image)
    ensures var id := GetMfcId(d);
      && |id| == 3 && id[0] as int == 64 + d[8] / 4 % 32
      && id[1] as int == 64 + d[8] % 4 * 8 + d[9] / 32 && id[2] as int == 64 + d[9] % 32
  {
    FiveBitGroups(d[8], d[9]);
  }

  lemma FiveBitGroups(hi: int, lo: int)
    requires 0 <= hi < 256 && 0 <= lo < 256
    ensures var raw := hi * 256 + lo;
      raw / 1024 % 32 == hi / 4 % 32 && raw / 32 % 32 == hi % 4 * 8 + lo / 32 && raw % 32 == lo % 32
  {
    var raw, q, r, m, l := hi * 256 + lo, hi / 4, hi % 4, lo / 32, lo % 32;
    By32(raw, 32 * q + (8 * r + m), l);
    By32(32 * q + (8 * r + m), q, 8 * r + m);
    By1024(raw, q, 256 * r + lo);
  }

  lemma By32(n: int, q: int, r: int)
    requires n == q * 32 + r && 0 <= r < 32
    ensures n / 32 == q && n % 32 == r
  {
  }

  lemma By1024(n: int, q: int, r: int)
    requires n == q * 1024 + r && 0 <= r < 1024
    ensures n / 1024 == q
  {
  }

  lemma By256(n: int, q: int, r: int)
    requires n == q * 0x100 + r && 0 <= r < 0x100
    ensures n / 0x100 == q && n % 0x100 == r
  {
  }

  lemma By65536(n: int, q: int, r: int)
    requires n == q * 0x1_0000 + r && 0 <= r < 0x1_0000
    ensures n / 0x1_0000 == q
  {
  }

  lemma By16777216(n: int, q: int, r: int)
    requires n == q * 0x100_0000 + r && 0 <= r < 0x100_0000
    ensures n / 0x100_0000 == q
  {
  }

  lemma SerialIsAt(d: Image, a: int, b: int, c: int, e: int)
    requires a == d[12] && b == d[13] && c == d[14] && e == d[15]
    ensures var n := GetSerial(d);
      n % 256 == a && n / 0x100 % 256 == b && n / 0x1_0000 % 256 == c && n / 0x100_0000 == e
  {
    var n := GetSerial(d);
    assert n == a + b * 0x100 + c * 0x1_0000 + e * 0x100_0000;
    assert a < 256 && b < 256 && c < 256;
    hide GetSerial;
    By256(n, b + c * 0x100 + e * 0x1_0000, a);
    By65536(n, c + e * 0x100, a + b * 0x100);
    By16777216(n, e, a + b * 0x100 + c * 0x1_0000);
    By256(b + c * 0x100 + e * 0x1_0000, c + e * 0x100, b);
    By256(c + e * 0x100, e, c);
  }

  /** A text is the 13 bytes from the sixth on of the first of the four descriptors whose fourth byte is
      the type. */
  lemma TextIsAt(d: Image, dType: int, k: nat, c: Codec)
    requires ValidCodec(c) && k <= 4
    requires forall j :: 0 <= j < k ==> d[54 + 18 * j + 3] != dType
    requires k < 4 ==> d[54 + 18 * k + 3] == dType
    ensures GetText(d, dType, c)
         == if k == 4 then Err(NoBlock) else Ok(Strip(Decode(c, d[54 + 18 * k + 5..54 + 18 * k + 18]), c.spaces))
  {
    hide Strip, Decode;
    assert forall j :: 0 <= j < k ==> d[54 + 18 * j + 3] != dType;
    assert k > 0 ==> d[54 + 18 * 0 + 3] != dType;
    assert k > 1 ==> d[54 + 18 * 1 + 3] != dType;
    assert k > 2 ==> d[54 + 18 * 2 + 3] != dType;
    assert k > 3 ==> d[54 + 18 * 3 + 3] != dType;
  }

  /** Stripping takes white space off both ends and nothing else. */
  lemma StripMeans(s: string, spaces: set<char>) returns (lo: nat, hi: nat)
    ensures lo <= hi <= |s| && Strip(s, spaces) == s[lo..hi]
    ensures forall k :: 0 <= k < lo || hi <= k < |s| ==> s[k] in spaces
    ensures lo < hi ==> s[lo] !in spaces && s[hi - 1] !in spaces
  {
    hide StripLeft, StripRight;
    hi := StripRightMeans(s, spaces);
    lo := StripLeftMeans(s[..hi], spaces);
    assert s[..hi][lo..] == s[lo..hi];
    assert forall k :: 0 <= k < lo ==> s[..hi][k] == s[k];
  }

  lemma {:induction false} StripRightMeans(s: string, spaces: set<char>) returns (hi: nat)
    ensures hi <= |s| && StripRight(s, spaces) == s[..hi]
    ensures forall k :: hi <= k < |s| ==> s[k] in spaces
    ensures hi > 0 ==> s[hi - 1] !in spaces
  {
    if s != [] && s[|s| - 1] in spaces {
      hi := StripRightMeans(s[..|s| - 1], spaces);
      assert s[..|s| - 1][..hi] == s[..hi];
    } else {
      hi := |s|;
    }
  }

  lemma {:induction false} StripLeftMeans(s: string, spaces: set<char>) returns (lo: nat)
    ensures lo <= |s| && StripLeft(s, spaces) == s[lo..]
    ensures forall k :: 0 <= k < lo ==> s[k] in spaces
    ensures lo < |s| ==> s[lo] !in spaces
  {
    if s != [] && s[0] in spaces {
      var n := StripLeftMeans(s[1..], spaces);
      lo := n + 1;
      assert s[1..][n..] == s[lo..];
      assert forall k :: 0 < k < lo ==> s[k] == s[1..][k - 1];
    } else {
      lo := 0;
    }
  }

  /** The bytes a text is written as: it, a line feed, and spaces, as far as 13 go. */
  lemma TextIsWritten(d: Image, dType: int, text: string, c: Codec, k: nat)
    requires ValidCodec(c) && SetText(d, dType, text, c).Ok? && k < 13
    ensures var ch := if k < |text| then text[k] else if k == |text| then '\n' else ' ';
            var i := FindText(d, dType);
      ch in c.enc && SetText(d, dType, text, c).value[i + k] == c.enc[ch]
  {
    var i, p := FindText(d, dType), Padded(text);
    var bytes := Encode(c, p);
    assert Overwrite(d, i, bytes)[i + k] == bytes[k] by {
      assert Overwrite(d, i, bytes)[i..i + 13][k] == bytes[k];
    }
    assert p[k] == if k < |text| then text[k] else PADDING[k - |text|];
  }

  /** The audio is on if the two data blocks are there and bit 6 of the flags is set; switching it sets
      that bit as asked and leaves the other flags. */
  lemma AudioIsAt(d: Image, on: bool)
    ensures GetAudio(d) == Ok(true) <==>
      ParseCea(d).Ok? && d[131] / 64 % 2 == 1
      && (exists b :: b in ParseCea(d).value.blocks && b.tag == 1)
      && (exists b :: b in ParseCea(d).value.blocks && b.tag == 4)
    ensures SetAudio(d, on).Ok? ==>
      var r := SetAudio(d, on).value;
      (r[131] / 64 % 2 == 1 <==> on) && r[131] % 64 == d[131] % 64 && r[131] / 128 == d[131] / 128
  {
    hide ParseCea, PackAll, WithoutAudio;
    if ParseCea(d).Ok? {
      ParsedIsLong(d);
      TagIsThere(ParseCea(d).value.blocks, 1);
      TagIsThere(ParseCea(d).value.blocks, 4);
    }
  }

  lemma TagIsThere(blocks: seq<Block>, tag: int)
    ensures HasTag(blocks, tag) <==> exists b :: b in blocks && b.tag == tag
  {
    if HasTag(blocks, tag) {
      var k :| 0 <= k < |blocks| && blocks[k].tag == tag;
      assert blocks[k] in blocks;
    }
  }

  /** Only the two kinds of audio blocks are taken out, and the others keep their order. */
  lemma {:induction false} WithoutAudioIsFilter(a: seq<Block>, b: Block, rest: seq<Block>)
    ensures WithoutAudio(a + rest) == WithoutAudio(a) + WithoutAudio(rest)
    ensures WithoutAudio([b]) == if b.tag == 1 || b.tag == 4 then [] else [b]
  {
    assert [b][..0] == [];
    if rest == [] {
      assert a + rest == a;
    } else {
      var n := |rest| - 1;
      WithoutAudioIsFilter(a, b, rest[..n]);
      assert (a + rest)[..|a + rest| - 1] == a + rest[..n];
    }
  }

  /** What is appended for the audio: a format of two channels, and the front speakers. */
  lemma AudioIsAppended(c: Cea)
    ensures WithAudio(c, false) == Cea(WithoutAudio(c.blocks), c.dtds)
    ensures WithAudio(c, true)
         == Cea(WithoutAudio(c.blocks) + [Block(1, [0x09, 0x7F, 0x07]), Block(4, [0x01, 0x00, 0x00])], c.dtds)
  {
    assert WithoutAudio(c.blocks) + [] == WithoutAudio(c.blocks);
  }

  // ----- When a setter succeeds -----

  /** Bytes that the blocks other than audio take. */
  function KeptSize(blocks: seq<Block>): nat {
    if blocks == [] then 0
    else
      var b := blocks[|blocks| - 1];
      KeptSize(blocks[..|blocks| - 1])
        + if b.tag == 1 || b.tag == 4 then 0 else 1 + |b.data|
  }

  /** What a request must be like, given the image, to be accepted. */
  predicate Acceptable(d: Image, e: Edit, c: Codec)
    requires ValidCodec(c)
  {
    match e
    case MfcId(id) => |id| == 3 && forall k :: 0 <= k < |Upper(c, id)| ==> 'A' <= Upper(c, id)[k] <= 'Z'
    case ProductId(n) => 0 <= n < 0x1_0000
    case Serial(n) => 0 <= n < 0x1_0000_0000
    case Name(t) => HasDescriptor(d, 0xFC) && FirstEncodable(c, t)
    case MonitorSerial(t) => HasDescriptor(d, 0xFF) && FirstEncodable(c, t)
    case Audio(on) =>
      && ParseCea(d).Ok?
      && KeptSize(ParseCea(d).value.blocks) + (if on then 8 else 0) + |ParseCea(d).value.dtds| <= 123
  }

  predicate HasDescriptor(d: Image, dType: int) {
    d[54 + 3] == dType || d[72 + 3] == dType || d[90 + 3] == dType || d[108 + 3] == dType
  }

  predicate FirstEncodable(c: Codec, text: string) {
    forall k :: 0 <= k < |text| && k < 13 ==> text[k] in c.enc
  }

  /** For every setter: it succeeds if and only if the request is acceptable. */
  lemma SucceedsIff(d: Image, e: Edit, c: Codec)
    requires ValidCodec(c)
    ensures Apply(d, e, c).Ok? <==> Acceptable(d, e, c)
  {
    match e
    case MfcId(id) => IdSucceedsIff(d, id, c);
    case ProductId(n) =>
    case Serial(n) =>
    case Name(t) => TextSucceedsIff(d, NAME, t, c);
    case MonitorSerial(t) => TextSucceedsIff(d, MONITOR_SERIAL, t, c);
    case Audio(on) => AudioSucceedsIff(d, on);
  }

  /** Why a request is refused: characters that cannot be encoded, a descriptor or an extension that is
      not there, or one that cannot be parsed; all else breaks an assertion. */
  function Reason(d: Image, e: Edit, c: Codec): EdidError
    requires ValidCodec(c)
  {
    match e
    case MfcId(id) =>
      if |id| == 3 && exists k :: 0 <= k < |Upper(c, id)| && Upper(c, id)[k] as int > 127 then ValueError
      else AssertionFailed
    case ProductId(_) => AssertionFailed
    case Serial(_) => AssertionFailed
    case Name(_) => if HasDescriptor(d, 0xFC) then ValueError else NoBlock
    case MonitorSerial(_) => if HasDescriptor(d, 0xFF) then ValueError else NoBlock
    case Audio(_) => if ParseCea(d).Err? then ParseCea(d).error else AssertionFailed
  }

  lemma FailsWithReason(d: Image, e: Edit, c: Codec)
    requires ValidCodec(c) && !Acceptable(d, e, c)
    ensures Apply(d, e, c) == Err(Reason(d, e, c))
  {
    hide Acceptable, Upper, Overwrite, ReplaceCea, PackAll, ParseCea;
    SucceedsIff(d, e, c);
  }

  lemma IdSucceedsIff(d: Image, id: string, c: Codec)
    requires ValidCodec(c)
    ensures SetMfcId(d, id, c).Ok? <==> |id| == 3 && forall k :: 0 <= k < |Upper(c, id)| ==> IsLetter(Upper(c, id)[k])
  {
    var up := Upper(c, id);
    UpperLength(c, id);
    hide Upper;
    if |id| == 3 {
      if SetMfcId(d, id, c).Ok? {
        forall k | 0 <= k < |up| ensures IsLetter(Upper(c, id)[k]) {
          assert IsLetter(up[k]);
        }
      } else {
        var k :| 0 <= k < |up| && (up[k] as int >= 128 || !IsLetter(up[k]));
        assert !IsLetter(Upper(c, id)[k]);
      }
    }
  }

  lemma TextSucceedsIff(d: Image, dType: int, text: string, c: Codec)
    requires ValidCodec(c)
    ensures SetText(d, dType, text, c).Ok? <==> HasDescriptor(d, dType) && FirstEncodable(c, text)
  {
    hide Encode, Overwrite;
    var p := Padded(text);
    forall k | 0 <= k < 13 ensures p[k] == if k < |text| then text[k] else PADDING[k - |text|] {
    }
    if FirstEncodable(c, text) {
      forall k | 0 <= k < |p| ensures p[k] in c.enc {
        assert k >= |text| ==> PADDING[k - |text|] in {'\n', ' '};
      }
    } else {
      var k :| 0 <= k < |text| && k < 13 && text[k] !in c.enc;
      assert p[k] == text[k];
    }
  }

  lemma {:induction false} KeptIsPacked(blocks: seq<Block>)
    requires AllValid(blocks)
    ensures |PackAll(WithoutAudio(blocks))| == KeptSize(blocks)
  {
    if blocks != [] {
      var before, b := blocks[..|blocks| - 1], blocks[|blocks| - 1];
      KeptIsPacked(before);
      assert WithoutAudio(before) + [] == WithoutAudio(before);
      assert (WithoutAudio(before) + [b])[..|WithoutAudio(before)|] == WithoutAudio(before);
    }
  }

  lemma AudioAdds(blocks: seq<Block>)
    requires AllValid(blocks)
    ensures AllValid(blocks + AUDIO_BLOCKS) && |PackAll(blocks + AUDIO_BLOCKS)| == |PackAll(blocks)| + 8
  {
    var mid := blocks + [AUDIO_BLOCKS[0]];
    var all := mid + [AUDIO_BLOCKS[1]];
    assert blocks + AUDIO_BLOCKS == all;
    assert all[..|mid|] == mid && mid[..|blocks|] == blocks;
  }

  lemma AudioSucceedsIff(d: Image, on: bool)
    ensures SetAudio(d, on).Ok? <==>
      && ParseCea(d).Ok?
      && KeptSize(ParseCea(d).value.blocks) + (if on then 8 else 0) + |ParseCea(d).value.dtds| <= 123
  {
    hide ParseCea, PackAll, WithoutAudio, KeptSize, ReplaceCea;
    if ParseCea(d).Ok? {
      var blocks := ParseCea(d).value.blocks;
      KeptIsPacked(blocks);
      AudioAdds(WithoutAudio(blocks));
      assert WithoutAudio(blocks) + [] == WithoutAudio(blocks);
      ParsedIsLong(d);
    }
  }

  // ----- Any sequence of setters -----

  /** A setter that fails leaves the image alone. */
  function Run(d: Image, edits: seq<Edit>, c: Codec): Image
    requires ValidCodec(c)
    decreases |edits|
  {
    if edits == [] then d
    else
      match Apply(d, edits[0], c)
      case Ok(r) => Run(r, edits[1..], c)
      case Err(_) => Run(d, edits[1..], c)
  }

  /** The edits of a sequence that are acceptable when their turn comes. */
  function Accepted(d: Image, edits: seq<Edit>, c: Codec): seq<Edit>
    requires ValidCodec(c)
    decreases |edits|
  {
    if edits == [] then []
    else if Acceptable(d, edits[0], c) then
      SucceedsIff(d, edits[0], c);
      [edits[0]] + Accepted(Apply(d, edits[0], c).value, edits[1..], c)
    else Accepted(d, edits[1..], c)
  }

  function UpdateAll(f: Fields, edits: seq<Edit>, c: Codec): Fields
    requires ValidCodec(c)
    decreases |edits|
  {
    if edits == [] then f else UpdateAll(Update(f, edits[0], c), edits[1..], c)
  }

  /** The image refines the record: after any sequence of setters, successful or not, the getters
      return what the acceptable edits, replayed on the record, say. */
  lemma {:induction false} ImageRefinesRecord(d: Image, edits: seq<Edit>, c: Codec)
    requires ValidCodec(c)
    ensures View(Run(d, edits, c), c) == UpdateAll(View(d, c), Accepted(d, edits, c), c)
    decreases |edits|
  {
    hide View, Update, Apply, Acceptable;
    if edits != [] {
      var rest := edits[1..];
      SucceedsIff(d, edits[0], c);
      match Apply(d, edits[0], c)
      case Ok(r) =>
        EditIsUpdate(d, edits[0], c);
        ImageRefinesRecord(r, rest, c);
        assert ([edits[0]] + Accepted(r, rest, c))[1..] == Accepted(r, rest, c);
      case Err(_) =>
        ImageRefinesRecord(d, rest, c);
    }
  }
}
