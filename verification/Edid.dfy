/** The EDID editor object: a list of bytes edited in place. Every method is tied to the function on
    byte sequences that it computes; what those functions are good for is proved beside them. */
module EdidObject {
  import opened Bits
  import opened Wrappers
  import opened EdidCea
  import opened EdidFields
  import opened EdidFile

  type Outcome = Result<(), EdidError>

  class Edid {
    const data: array<Item>

    ghost predicate Valid()
      reads this, data
    {
      IsImage(data[..]) && WellFormed(data[..])
    }

    constructor (bytes: seq<Byte>)
      requires WellFormed(bytes)
      ensures Valid() && fresh(data) && data[..] == bytes
    {
      data := new Item[|bytes|](k requires 0 <= k < |bytes| => bytes[k]);
      new;
      assert data[..] == bytes;
    }

    /** The sum of a stretch of the image. */
    method SumOf(lo: nat, hi: nat) returns (total: nat)
      requires lo <= hi <= data.Length
      ensures total == Sum(data[lo..hi])
    {
      total := 0;
      for k := lo to hi
        invariant total == Sum(data[lo..k])
      {
        SumSnoc(data[lo..k], data[k]);
        assert data[lo..k + 1] == data[lo..k] + [data[k]];
        total := total + data[k];
      }
    }

    /** Afterwards every block sums to zero modulo 256, and only the last item of each has changed,
        to a value from 1 to 256. */
    method UpdateChecksums()
      requires Valid()
      modifies data
      ensures Valid() && data[..] == Checksummed(old(data[..]))
      ensures Sum(data[..128]) % 256 == 0 && data[127] > 0
      ensures data.Length == 256 ==> Sum(data[128..]) % 256 == 0 && data[255] > 0
      ensures forall k :: 0 <= k < data.Length && k != 127 && k != 255 ==> data[k] == old(data[k])
    {
      hide Sum;
      ghost var was: Image := data[..];
      var total := SumOf(0, 127);
      assert data[0..127] == was[..127];
      data[127] := 256 - total % 256;
      assert data[..] == was[127 := Checksum(was[..127])];
      if data.Length == 256 {
        total := SumOf(128, 255);
        assert data[128..255] == was[128..255];
        data[255] := 256 - total % 256;
      }
      assert data[..] == Checksummed(was);
      BlocksSumToZero(was);
      assert data[..][..128] == data[..128] && data[..][128..] == data[128..];
    }

    /** One line of the text. */
    method HexLine(index: nat) returns (line: seq<Byte>)
      requires index + 16 <= data.Length
      ensures line == Digits(data[index..index + 16])
    {
      line := [];
      for k := index to index + 16
        invariant line == Digits(data[index..k])
      {
        DigitsSnoc(data[index..k], data[k]);
        assert data[index..k + 1] == data[index..k] + [data[k]];
        line := line + HexItem(data[k]);
      }
    }

    /** The text written to the file, which reads back as the image now stands, checksums included,
        unless some checksum does not fit a byte. */
    method WriteHex() returns (text: seq<Byte>)
      requires Valid()
      modifies data
      ensures Valid() && data[..] == Checksummed(old(data[..])) && text == HexFile(old(data[..]))
      ensures FromFile(text)
           == if SomeOverflow(old(data[..])) then Err(AssertionFailed) else Ok(data[..])
    {
      hide Digits, Lines, FromFile, SomeOverflow, Sum, Checksummed;
      ghost var was: Image := data[..];
      UpdateChecksums();
      ghost var now := data[..];
      text := [];
      var index := 0;
      while index < data.Length
        invariant 0 <= index <= data.Length && index % 16 == 0 && data[..] == now
        invariant index == 0 ==> text == []
        invariant index > 0 ==> text + [NEWLINE] == Lines(now[..index])
      {
        var line := HexLine(index);
        assert data[index..index + 16] == now[index..index + 16];
        LinesSnoc(now[..index], now[index..index + 16]);
        assert now[..index + 16] == now[..index] + now[index..index + 16];
        text := (if index > 0 then text + [NEWLINE] else text) + line;
        LinesOfNone();
        index := index + 16;
      }
      text := text + [NEWLINE];
      assert now[..data.Length] == now;
      HexRoundTrip(was);
    }

    method SetMfcId(id: string, c: Codec) returns (r: Outcome)
      requires Valid() && ValidCodec(c)
      modifies data
      ensures Valid()
      ensures match Apply(old(data[..]), MfcId(id), c)
        case Ok(after) => r == Ok(()) && data[..] == after
        case Err(e) => r == Err(e) && data[..] == old(data[..])
    {
      hide Upper, WellFormed;
      ghost var was: Image := data[..];
      if |id| != 3 {
        return Err(AssertionFailed);
      }
      var up := Upper(c, id);
      UpperLength(c, id);
      if exists k :: 0 <= k < |up| && up[k] as int >= 128 {
        return Err(ValueError);
      }
      var k := 0;
      while k < |up|
        invariant 0 <= k <= |up| && forall j :: 0 <= j < k ==> IsLetter(up[j])
      {
        if !IsLetter(up[k]) {
          return Err(AssertionFailed);
        }
        k := k + 1;
      }
      var raw := LetterCode(up[2]) + LetterCode(up[1]) * 32 + LetterCode(up[0]) * 1024;
      assert IsLetter(up[0]) && IsLetter(up[1]) && IsLetter(up[2]);
      FiveBits(LetterCode(up[0]), LetterCode(up[1]), LetterCode(up[2]));
      MfcIdAccepted(was, id, c);
      EditsStayWellFormed(was, MfcId(id), c);
      StoreTwo(8, raw / 256 % 256, raw % 256);
      return Ok(());
    }

    method StoreTwo(at: nat, first: Byte, second: Byte)
      requires at + 1 < data.Length
      modifies data
      ensures data[..] == old(data[..])[at := first][at + 1 := second]
    {
      data[at] := first;
      data[at + 1] := second;
    }

    method SetProductId(n: int) returns (r: Outcome)
      requires Valid()
      modifies data
      ensures Valid()
      ensures match EdidFields.SetProductId(old(data[..]), n)
        case Ok(after) => r == Ok(()) && data[..] == after
        case Err(e) => r == Err(e) && data[..] == old(data[..])
    {
      if !(0 <= n <= 0xFFFF) {
        return Err(AssertionFailed);
      }
      data[10] := n % 256;
      data[11] := n / 256 % 256;
      return Ok(());
    }

    method SetSerial(n: int) returns (r: Outcome)
      requires Valid()
      modifies data
      ensures Valid()
      ensures match EdidFields.SetSerial(old(data[..]), n)
        case Ok(after) => r == Ok(()) && data[..] == after
        case Err(e) => r == Err(e) && data[..] == old(data[..])
    {
      if !(0 <= n <= 0xFFFF_FFFF) {
        return Err(AssertionFailed);
      }
      data[12] := n % 256;
      data[13] := n / 0x100 % 256;
      data[14] := n / 0x1_0000 % 256;
      data[15] := n / 0x100_0000 % 256;
      return Ok(());
    }

    method FindDtdText(dType: int) returns (i: int)
      requires Valid()
      ensures i == FindText(data[..], dType)
    {
      var index := 54;
      while index <= 108
        invariant index == 54 || index == 72 || index == 90 || index == 108 || index == 126
        invariant index > 54 ==> data[57] != dType
        invariant index > 72 ==> data[75] != dType
        invariant index > 90 ==> data[93] != dType
        invariant index > 108 ==> data[111] != dType
        decreases 126 - index
      {
        if data[index + 3] == dType {
          return index + 5;
        }
        index := index + 18;
      }
      return -1;
    }

    method SetDtdText(dType: int, text: string, c: Codec) returns (r: Outcome)
      requires Valid() && ValidCodec(c)
      modifies data
      ensures Valid()
      ensures match SetText(old(data[..]), dType, text, c)
        case Ok(after) => r == Ok(()) && data[..] == after
        case Err(e) => r == Err(e) && data[..] == old(data[..])
    {
      ghost var was: Image := data[..];
      var index := FindDtdText(dType);
      if index == -1 {
        return Err(NoBlock);
      }
      var p := Padded(text);
      if !Encodable(c, p) {
        return Err(ValueError);
      }
      var encoded := Encode(c, p);
      var offset := 0;
      while offset < |encoded|
        invariant 0 <= offset <= |encoded| && data.Length == |was|
        invariant forall k :: 0 <= k < |was| ==>
          data[k] == if index <= k < index + offset then encoded[k - index] else was[k]
      {
        data[index + offset] := encoded[offset];
        offset := offset + 1;
      }
      assert data[..] == Overwrite(was, index, encoded);
      return Ok(());
    }

    method GetDtdText(dType: int, c: Codec) returns (r: Result<string, EdidError>)
      requires Valid() && ValidCodec(c)
      ensures r == GetText(data[..], dType, c)
    {
      var index := FindDtdText(dType);
      if index == -1 {
        return Err(NoBlock);
      }
      var raw := data[index..index + 13];
      assert raw == data[..][index..index + 13];
      assert forall k :: 0 <= k < 13 ==> raw[k] == data[..][index + k];
      return Ok(Strip(Decode(c, raw), c.spaces));
    }

    method ParseExtension() returns (r: Result<Cea, EdidError>)
      requires Valid()
      ensures r == ParseCea(data[..])
    {
      if data.Length != 256 {
        return Err(NoBlock);
      }
      var begin := data[CEA + 2];
      if begin == 0 {
        return Ok(Cea([], []));
      }
      var end := CEA + Min(begin, 128);
      var blocks: seq<Block> := [];
      if begin > 4 {
        var cbs := ParseDataBlocks(data[CEA + 4..end]);
        assert data[CEA + 4..end] == data[..][CEA + 4..end];
        if cbs.Err? {
          return Err(cbs.error);
        }
        blocks := cbs.value;
      }
      if begin < 4 {
        return Err(AssertionFailed);
      }
      var dtds := ParseDescriptors(data[end..]);
      assert data[end..] == data[..][end..];
      if dtds.Err? {
        return Err(dtds.error);
      }
      return Ok(Cea(blocks, dtds.value));
    }

    static method ParseDataBlocks(start: seq<Item>) returns (r: Result<seq<Block>, EdidError>)
      ensures r == ParseBlocks(start)
    {
      var raw, blocks: seq<Block> := start, [];
      BehindLaws(blocks, blocks, ParseBlocks(start));
      while |raw| != 0
        invariant ParseBlocks(start) == Behind(blocks, ParseBlocks(raw))
        decreases |raw|
      {
        var first := FirstFromRaw(raw);
        if first.Err? {
          return Err(first.error);
        }
        var cb := first.value;
        BehindLaws(blocks, [cb], ParseBlocks(raw[1 + |cb.data|..]));
        blocks := blocks + [cb];
        raw := raw[1 + |cb.data|..];
      }
      assert blocks + [] == blocks;
      return Ok(blocks);
    }

    static method ParseDescriptors(start: seq<Item>) returns (r: Result<seq<Byte>, EdidError>)
      ensures r == ParseDtds(start)
    {
      var raw, dtds: seq<Byte> := start, [];
      BehindLaws(dtds, dtds, ParseDtds(start));
      while |raw| > 18 + 1 && raw[0] != 0
        invariant ParseDtds(start) == Behind(dtds, ParseDtds(raw))
        decreases |raw|
      {
        if !AllBytes(raw[..18]) {
          return Err(ValueError);
        }
        var one := ToBytes(raw[..18]);
        BehindLaws(dtds, one, ParseDtds(raw[18..]));
        dtds := dtds + one;
        raw := raw[18..];
      }
      assert dtds + [] == dtds;
      return Ok(dtds);
    }

    method ReplaceExtension(c: Cea) returns (r: Outcome)
      requires Valid() && data.Length == 256 && AllValid(c.blocks)
      modifies data
      ensures Valid()
      ensures if Fits(c) then r == Ok(()) && data[..] == ReplaceCea(old(data[..]), c)
              else r == Err(AssertionFailed) && data[..] == old(data[..])
    {
      ghost var was := data[..];
      var packed: seq<Byte> := [];
      var n := 0;
      assert c.blocks[..0] == [];
      while n < |c.blocks|
        invariant 0 <= n <= |c.blocks|
        invariant AllValid(c.blocks[..n]) && packed == PackAll(c.blocks[..n])
      {
        assert c.blocks[..n + 1][..n] == c.blocks[..n];
        packed := packed + Pack(c.blocks[n]);
        n := n + 1;
      }
      assert c.blocks[..n] == c.blocks;
      var raw := packed + c.dtds;
      if |raw| > 128 - 4 - 1 {
        return Err(AssertionFailed);
      }
      data[CEA + 2] := if |raw| == 0 then 0 else |packed| + 4;
      var index := 4;
      while index < 127
        invariant 4 <= index <= 127
        invariant forall k :: 0 <= k < 256 ==>
          data[k] == if k == CEA + 2 || CEA + 4 <= k < CEA + index then ReplacedItem(was, c, k)
                     else was[k]
      {
        data[CEA + index] := if index - 4 < |raw| then raw[index - 4] else 0;
        index := index + 1;
      }
      assert data[..] == ReplaceCea(was, c);
      return Ok(());
    }

    method ReadAudio() returns (r: Result<bool, EdidError>)
      requires Valid()
      ensures r == GetAudio(data[..])
    {
      var parsed := ParseExtension();
      if parsed.Err? {
        return Err(parsed.error);
      }
      var cbs := parsed.value.blocks;
      var audio, speakers := false, false;
      for k := 0 to |cbs|
        invariant audio <==> HasTag(cbs[..k], CEA_AUDIO)
        invariant speakers <==> HasTag(cbs[..k], CEA_SPEAKERS)
      {
        TagSnoc(cbs, k, CEA_AUDIO);
        TagSnoc(cbs, k, CEA_SPEAKERS);
        if cbs[k].tag == CEA_AUDIO {
          audio := true;
        } else if cbs[k].tag == CEA_SPEAKERS {
          speakers := true;
        }
      }
      assert cbs[..|cbs|] == cbs;
      return Ok(audio && speakers && data[CEA + 3] / 64 % 2 == 1);
    }

    method WriteAudio(enabled: bool) returns (r: Outcome)
      requires Valid()
      modifies data
      ensures Valid()
      ensures match SetAudio(old(data[..]), enabled)
        case Ok(after) => r == Ok(()) && data[..] == after
        case Err(e) => r == Err(e) && data[..] == old(data[..])
    {
      ghost var was: Image := data[..];
      var parsed := ParseExtension();
      if parsed.Err? {
        return Err(parsed.error);
      }
      var c := parsed.value;
      var cbs := WithoutAudio(c.blocks);
      if enabled {
        cbs := cbs + AUDIO_BLOCKS;
      } else {
        assert cbs + [] == cbs;
      }
      assert WithAudio(c, enabled) == Cea(cbs, c.dtds);
      r := ReplaceExtension(Cea(cbs, c.dtds));
      if r.Ok? {
        ghost var mid := data[..];
        data[CEA + 3] := SetBasicAudio(data[CEA + 3], enabled);
        assert data[..] == mid[CEA + 3 := SetBasicAudio(mid[CEA + 3], enabled)];
      }
    }
  }

  lemma MfcIdAccepted(d: Image, id: string, c: Codec)
    requires ValidCodec(c) && |id| == 3 && |Upper(c, id)| >= 3
    requires forall k :: 0 <= k < |Upper(c, id)| ==> IsLetter(Upper(c, id)[k])
    ensures var up := Upper(c, id);
      var raw := LetterCode(up[2]) + LetterCode(up[1]) * 32 + LetterCode(up[0]) * 1024;
      && 0 <= raw < 0x8000
      && SetMfcId(d, id, c) == Ok(d[8 := raw / 256 % 256][9 := raw % 256])
  {
    var up := Upper(c, id);
    assert IsLetter(up[0]) && IsLetter(up[1]) && IsLetter(up[2]);
  }

  /** A parse result with what was already parsed put in front. */
  function Behind<T>(done: seq<T>, r: Result<seq<T>, EdidError>): Result<seq<T>, EdidError> {
    match r
    case Ok(rest) => Ok(done + rest)
    case Err(e) => Err(e)
  }

  lemma BehindLaws<T>(done: seq<T>, more: seq<T>, r: Result<seq<T>, EdidError>)
    ensures Behind([], r) == r
    ensures Behind(done, Behind(more, r)) == Behind(done + more, r)
  {
    if r.Ok? {
      assert [] + r.value == r.value;
      assert done + (more + r.value) == (done + more) + r.value;
    }
  }

  lemma TagSnoc(blocks: seq<Block>, k: nat, tag: int)
    requires k < |blocks|
    ensures HasTag(blocks[..k + 1], tag) <==> HasTag(blocks[..k], tag) || blocks[k].tag == tag
  {
    var a, b := blocks[..k], blocks[..k + 1];
    assert forall j :: 0 <= j < k ==> b[j] == a[j];
    if blocks[k].tag == tag {
      assert b[k].tag == tag;
    }
    if HasTag(a, tag) {
      var j :| 0 <= j < |a| && a[j].tag == tag;
      assert b[j].tag == tag;
    }
  }
}
