/** The CEA extension of an EDID image (CTA-861, section 7.5): a parser for the data block
    collection and the detailed timing descriptors behind it, and the printer that should undo it. */
module EdidCea {
  import opened Bits
  import opened Wrappers

  /** An item of the image. Checksum items may hold 256 after they have been recomputed. */
  type Item = x: int | 0 <= x <= 256

  datatype EdidError = AssertionFailed | ValueError | NoBlock

  datatype Block = Block(tag: nat, data: seq<Byte>)

  const CEA := 128
  const CEA_AUDIO := 1
  const CEA_SPEAKERS := 4

  /** Bytes of the extension that blocks and descriptors may occupy together. */
  const ROOM := 123

  predicate ValidBlock(b: Block) {
    0 < b.tag <= 7 && 0 < |b.data| <= 31
  }

  predicate AllValid(blocks: seq<Block>) {
    forall k :: 0 <= k < |blocks| ==> ValidBlock(blocks[k])
  }

  // ----- Printing -----

  function Pack(b: Block): (r: seq<Byte>)
    requires ValidBlock(b)
  {
    [b.tag * 32 + |b.data|] + b.data
  }

  function PackAll(blocks: seq<Block>): (r: seq<Byte>)
    requires AllValid(blocks)
  {
    if blocks == [] then [] else PackAll(blocks[..|blocks| - 1]) + Pack(blocks[|blocks| - 1])
  }

  // ----- Parsing -----

  predicate AllBytes(raw: seq<Item>) {
    forall k :: 0 <= k < |raw| ==> raw[k] < 256
  }

  function ToBytes(raw: seq<Item>): seq<Byte>
    requires AllBytes(raw)
  {
    seq(|raw|, k requires 0 <= k < |raw| => raw[k])
  }

  function Take<T>(s: seq<T>, n: nat): seq<T> {
    if n <= |s| then s[..n] else s
  }

  function FirstFromRaw(raw: seq<Item>): (r: Result<Block, EdidError>)
    requires raw != []
    ensures r.Ok? ==> ValidBlock(r.value) && 1 + |r.value.data| <= |raw|
  {
    if !(0 < raw[0] <= 0xFF) then Err(AssertionFailed)
    else
      var data := Take(raw[1..], raw[0] % 32);
      if !AllBytes(data) then Err(ValueError)
      else
        var b := Block(raw[0] / 32, ToBytes(data));
        if ValidBlock(b) then Ok(b) else Err(AssertionFailed)
  }

  function ParseBlocks(raw: seq<Item>): (r: Result<seq<Block>, EdidError>)
    ensures r.Ok? ==> AllValid(r.value)
  {
    if raw == [] then Ok([])
    else
      match FirstFromRaw(raw)
      case Err(e) => Err(e)
      case Ok(b) =>
        match ParseBlocks(raw[1 + |b.data|..])
        case Err(e) => Err(e)
        case Ok(rest) => Ok([b] + rest)
  }

  /** The descriptors, 18 bytes each. The loop stops while 19 bytes are left. */
  function ParseDtds(raw: seq<Item>): (r: Result<seq<Byte>, EdidError>) {
    if |raw| <= 18 + 1 || raw[0] == 0 then Ok([])
    else if !AllBytes(raw[..18]) then Err(ValueError)
    else
      match ParseDtds(raw[18..])
      case Err(e) => Err(e)
      case Ok(rest) => Ok(ToBytes(raw[..18]) + rest)
  }

  datatype Cea = Cea(blocks: seq<Block>, dtds: seq<Byte>)

  function Min(a: int, b: int): int {
    if a < b then a else b
  }

  /** `begin` is the descriptor offset stored in the extension. */
  function ParseCea(data: seq<Item>): (r: Result<Cea, EdidError>)
    ensures r.Ok? ==> AllValid(r.value.blocks)
  {
    if |data| != 256 then Err(NoBlock)
    else
      var begin := data[CEA + 2];
      if begin == 0 then Ok(Cea([], []))
      else
        var end := CEA + Min(begin, 128);
        match if begin > 4 then ParseBlocks(data[CEA + 4..end]) else Ok([])
        case Err(e) => Err(e)
        case Ok(blocks) =>
          if begin < 4 then Err(AssertionFailed)
          else
            match ParseDtds(data[end..])
            case Err(e) => Err(e)
            case Ok(dtds) => Ok(Cea(blocks, dtds))
  }

  // ----- Replacing -----

  /** The extension payload: the packed blocks, the descriptors, and zeros up to the checksum. */
  function Payload(c: Cea): (r: seq<Byte>)
    requires AllValid(c.blocks)
  {
    PackAll(c.blocks) + c.dtds
  }

  predicate Fits(c: Cea)
    requires AllValid(c.blocks)
  {
    |Payload(c)| <= ROOM
  }

  /** Byte `k` of the image after the replacement. */
  function ReplacedItem(data: seq<Item>, c: Cea, k: nat): Item
    requires |data| == 256 && AllValid(c.blocks) && Fits(c) && k < 256
  {
    if k == CEA + 2 then (if Payload(c) == [] then 0 else |PackAll(c.blocks)| + 4)
    else if CEA + 4 <= k < CEA + 127 then
      var i := k - (CEA + 4);
      if i < |Payload(c)| then Payload(c)[i] else 0
    else data[k]
  }

  function ReplaceCea(data: seq<Item>, c: Cea): (r: seq<Item>)
    requires |data| == 256 && AllValid(c.blocks) && Fits(c)
    ensures |r| == 256
    ensures forall k :: 0 <= k < 256 && k != CEA + 2 && !(CEA + 4 <= k < CEA + 127) ==> r[k] == data[k]
  {
    seq(256, k requires 0 <= k < 256 => ReplacedItem(data, c, k))
  }

  // ----- The round trip -----

  /** Whole descriptors, none of which begins with the byte that ends the list. */
  predicate WholeDtds(dtds: seq<Byte>) {
    dtds == [] || (|dtds| >= 18 && dtds[0] != 0 && WholeDtds(dtds[18..]))
  }

  lemma {:induction false} WholeLength(dtds: seq<Byte>)
    requires WholeDtds(dtds)
    ensures |dtds| % 18 == 0
  {
    if dtds != [] {
      WholeLength(dtds[18..]);
    }
  }

  lemma FirstOfPacked(b: Block, rest: seq<Byte>)
    requires ValidBlock(b)
    ensures FirstFromRaw(Pack(b) + rest) == Ok(b)
  {
    var raw := Pack(b) + rest;
    var head := b.tag * 32 + |b.data|;
    assert raw[0] == head && head / 32 == b.tag && head % 32 == |b.data|;
    assert raw[1..] == b.data + rest;
    assert Take(raw[1..], |b.data|) == b.data;
    assert ToBytes(b.data) == b.data;
  }

  lemma {:induction false} PackFirst(blocks: seq<Block>)
    requires AllValid(blocks) && blocks != []
    ensures AllValid(blocks[1..]) && PackAll(blocks) == Pack(blocks[0]) + PackAll(blocks[1..])
    decreases |blocks|
  {
    var n := |blocks| - 1;
    if n == 0 {
      assert blocks[..0] == [] && blocks[1..] == [];
    } else {
      hide Pack, ValidBlock;
      var init, tail, last := blocks[..n], blocks[1..], blocks[n];
      PackFirst(init);
      assert init[1..] == tail[..n - 1] && tail[n - 1] == last;
      assert PackAll(tail) == PackAll(init[1..]) + Pack(last);
      assert (Pack(blocks[0]) + PackAll(init[1..])) + Pack(last)
          == Pack(blocks[0]) + (PackAll(init[1..]) + Pack(last));
    }
  }

  lemma {:induction false} BlocksRoundTrip(blocks: seq<Block>)
    requires AllValid(blocks)
    ensures ParseBlocks(PackAll(blocks)) == Ok(blocks)
    decreases |blocks|
  {
    if blocks != [] {
      var b, rest := blocks[0], PackAll(blocks[1..]);
      PackFirst(blocks);
      FirstOfPacked(b, rest);
      BlocksRoundTrip(blocks[1..]);
      assert (Pack(b) + rest)[1 + |b.data|..] == rest;
      assert [b] + blocks[1..] == blocks;
    }
  }

  /** What the descriptor loop recovers in front of a tail that looks like padding. */
  lemma {:induction false} DtdsRoundTrip(dtds: seq<Byte>, tail: seq<Item>)
    requires WholeDtds(dtds) && |tail| >= 1 && (|tail| > 19 ==> tail[0] == 0)
    ensures ParseDtds(dtds + tail)
         == Ok(if |tail| == 1 && dtds != [] then dtds[..|dtds| - 18] else dtds)
    decreases |dtds|
  {
    if dtds == [] {
      assert dtds + tail == tail;
    } else {
      var raw := dtds + tail;
      WholeLength(dtds);
      assert raw[..18] == dtds[..18];
      assert raw[18..] == dtds[18..] + tail;
      DtdsRoundTrip(dtds[18..], tail);
      if |raw| > 19 {
        assert ToBytes(raw[..18]) == dtds[..18];
        if dtds[18..] != [] {
          assert dtds[..18] + dtds[18..][..|dtds| - 36] == dtds[..|dtds| - 18];
        }
        assert dtds[..18] + dtds[18..] == dtds;
      }
    }
  }

  /** The only way the printer and the parser disagree: nothing is left between the last
      descriptor and the checksum. */
  predicate ExactFit(c: Cea)
    requires AllValid(c.blocks)
  {
    |Payload(c)| == ROOM && c.dtds != []
  }

  /** What is read back after `c` has been written. */
  function ReadBack(c: Cea): Cea
    requires AllValid(c.blocks) && WholeDtds(c.dtds)
  {
    if ExactFit(c) && |c.dtds| >= 18 then c.(dtds := c.dtds[..|c.dtds| - 18]) else c
  }

  lemma ReplacedSlices(data: seq<Item>, c: Cea)
    requires |data| == 256 && AllValid(c.blocks) && Fits(c)
    ensures var r := ReplaceCea(data, c); var p := |PackAll(c.blocks)|;
      && r[CEA + 4..CEA + 4 + p] == PackAll(c.blocks)
      && r[CEA + 4 + p..] == c.dtds + r[CEA + 4 + |Payload(c)|..]
      && (|Payload(c)| < ROOM ==> r[CEA + 4 + |Payload(c)|] == 0)
  {
    var r := ReplaceCea(data, c);
    var p, n := |PackAll(c.blocks)|, |Payload(c)|;
    assert forall i :: 0 <= i < n ==> r[CEA + 4 + i] == Payload(c)[i];
    assert forall i :: 0 <= i < |c.dtds| ==> Payload(c)[p + i] == c.dtds[i];
    assert r[CEA + 4 + p..CEA + 4 + n] == c.dtds;
    assert r[CEA + 4 + p..] == r[CEA + 4 + p..CEA + 4 + n] + r[CEA + 4 + n..];
  }

  /** For any blocks and descriptors that fit, writing them and reading them back gives the same
      blocks and, but for the exact-fit case, the same descriptors. */
  lemma CeaRoundTrip(data: seq<Item>, c: Cea)
    requires |data| == 256 && AllValid(c.blocks) && WholeDtds(c.dtds) && Fits(c)
    ensures ParseCea(ReplaceCea(data, c)) == Ok(ReadBack(c))
  {
    var r := ReplaceCea(data, c);
    var p, n := |PackAll(c.blocks)|, |Payload(c)|;
    WholeLength(c.dtds);
    if n == 0 {
      assert c.dtds == [];
      NothingPacked(c.blocks);
    } else {
      hide ReplaceCea, PackAll, ParseBlocks, ParseDtds, ParseCea, WholeDtds, ExactFit;
      Offset(data, c);
      ReplacedSlices(data, c);
      BlocksRoundTrip(c.blocks);
      if p == 0 {
        NothingPacked(c.blocks);
      }
      DtdsReadBack(c, r[CEA + 4 + n..]);
      ParsedTogether(r, p, ReadBack(c));
    }
  }

  lemma DtdsReadBack(c: Cea, tail: seq<Item>)
    requires AllValid(c.blocks) && WholeDtds(c.dtds) && Fits(c)
    requires |tail| == ROOM + 1 - |Payload(c)| && (|Payload(c)| < ROOM ==> tail[0] == 0)
    ensures ParseDtds(c.dtds + tail) == Ok(ReadBack(c).dtds)
  {
    hide PackAll, ParseDtds, WholeDtds;
    WholeLength(c.dtds);
    DtdsRoundTrip(c.dtds, tail);
  }

  lemma ParsedTogether(r: seq<Item>, p: nat, c: Cea)
    requires |r| == 256 && p <= ROOM && r[CEA + 2] == p + 4
    requires if p == 0 then c.blocks == [] else ParseBlocks(r[CEA + 4..CEA + 4 + p]) == Ok(c.blocks)
    requires ParseDtds(r[CEA + 4 + p..]) == Ok(c.dtds)
    ensures ParseCea(r) == Ok(c)
  {
    hide ParseBlocks, ParseDtds;
  }

  lemma Offset(data: seq<Item>, c: Cea)
    requires |data| == 256 && AllValid(c.blocks) && Fits(c) && Payload(c) != []
    ensures ReplaceCea(data, c)[CEA + 2] == |PackAll(c.blocks)| + 4
  {
  }

  lemma NothingPacked(blocks: seq<Block>)
    requires AllValid(blocks) && PackAll(blocks) == []
    ensures blocks == []
  {
  }

  /** A block is its tag in the upper three bits and its length in the lower five of one byte, and its
      data; and blocks stand one behind the other (CTA-861, section 7.5). */
  lemma PackedLayout(b: Block, blocks: seq<Block>, more: seq<Block>)
    requires ValidBlock(b) && AllValid(blocks) && AllValid(more)
    ensures var r := Pack(b); |r| == 1 + |b.data| && r[0] / 32 == b.tag && r[0] % 32 == |b.data| && r[1..] == b.data
    ensures PackAll([b]) == Pack(b) && PackAll(blocks + more) == PackAll(blocks) + PackAll(more)
  {
    assert [b][..0] == [];
    assert PackAll([b]) == Pack(b);
    PackedSum(blocks, more);
    hide PackAll;
  }

  lemma {:induction false} PackedSum(blocks: seq<Block>, more: seq<Block>)
    requires AllValid(blocks) && AllValid(more)
    ensures PackAll(blocks + more) == PackAll(blocks) + PackAll(more)
    decreases |more|
  {
    hide Pack, ValidBlock;
    if more == [] {
      assert blocks + more == blocks;
    } else {
      var n := |more| - 1;
      PackedSum(blocks, more[..n]);
      assert (blocks + more)[..|blocks + more| - 1] == blocks + more[..n];
    }
  }

  /** The extension after the replacement: the offset of the descriptors, or zero if there is nothing at
      all; the blocks from byte 132 on, the descriptors behind them, and zeros up to the checksum. */
  lemma ReplacedLayout(data: seq<Item>, c: Cea)
    requires |data| == 256 && AllValid(c.blocks) && Fits(c)
    ensures var r := ReplaceCea(data, c); var p, n := |PackAll(c.blocks)|, |PackAll(c.blocks)| + |c.dtds|;
      && r[130] == (if n == 0 then 0 else 4 + p)
      && r[132..132 + p] == PackAll(c.blocks) && r[132 + p..132 + n] == c.dtds
      && forall k :: 132 + n <= k < 255 ==> r[k] == 0
  {
    hide PackAll;
    ReplacedSlices(data, c);
    var r := ReplaceCea(data, c);
    var p, n := |PackAll(c.blocks)|, |PackAll(c.blocks)| + |c.dtds|;
    assert r[132 + p..][..n - p] == c.dtds;
    assert r[132 + p..][..n - p] == r[132 + p..132 + n];
  }

  /** By the offset alone: short images have no extension, zero means that there is nothing, and the
      offsets inside its own header are refused. */
  lemma OffsetCases(data: seq<Item>)
    ensures |data| != 256 ==> ParseCea(data) == Err(NoBlock)
    ensures |data| == 256 && data[130] == 0 ==> ParseCea(data) == Ok(Cea([], []))
    ensures |data| == 256 && 1 <= data[130] <= 3 ==> ParseCea(data) == Err(AssertionFailed)
    ensures |data| == 256 && data[130] == 4 && ParseCea(data).Ok? ==> ParseCea(data).value.blocks == []
  {
  }

  /** The round trip is exact if and only if the fit is not. */
  lemma RoundTripIff(data: seq<Item>, c: Cea)
    requires |data| == 256 && AllValid(c.blocks) && WholeDtds(c.dtds) && Fits(c)
    ensures ParseCea(ReplaceCea(data, c)) == Ok(c) <==> !ExactFit(c)
  {
    CeaRoundTrip(data, c);
    WholeLength(c.dtds);
  }

  /** Whatever the parser accepts can be printed again. */
  lemma {:induction false} ParsedDtdsAreWhole(raw: seq<Item>)
    requires ParseDtds(raw).Ok?
    ensures WholeDtds(ParseDtds(raw).value)
  {
    if |raw| > 18 + 1 && raw[0] != 0 {
      ParsedDtdsAreWhole(raw[18..]);
      var rest := ParseDtds(raw[18..]).value;
      assert (ToBytes(raw[..18]) + rest)[18..] == rest;
    }
  }

  lemma ParsedIsPrintable(data: seq<Item>)
    requires ParseCea(data).Ok?
    ensures WholeDtds(ParseCea(data).value.dtds)
  {
    if data[CEA + 2] != 0 {
      ParsedDtdsAreWhole(data[CEA + Min(data[CEA + 2], 128)..]);
    }
  }
}
