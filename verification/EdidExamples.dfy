/** Images on which the editor fails: a file it cannot read back, a descriptor lost by switching the
    audio on, and an audio state lost by saving. */
module EdidExamples {
  import opened Bits
  import opened Wrappers
  import opened EdidCea
  import opened EdidFields
  import opened EdidFile
  import opened EdidSaving

  function Zeros(n: nat): (r: seq<Byte>)
    ensures |r| == n
  {
    seq(n, _ => 0)
  }

  lemma {:induction false} SumOfZeros(n: nat)
    ensures Sum(Zeros(n)) == 0
  {
    if n > 0 {
      SumOfZeros(n - 1);
      assert Zeros(n) == Zeros(n - 1) + [0];
      SumSnoc(Zeros(n - 1), 0);
    }
  }

  lemma SumOfOne(x: Item)
    ensures Sum([x]) == x
  {
    SumSnoc([], x);
    assert [] + [x] == [x];
  }

  // ----- A file that is not read back -----

  /** The standard header, whose bytes sum to 1530, and one 6: 1536 is six times 256. */
  const UNREADABLE: seq<Byte> := HEADER + [6] + Zeros(119)

  lemma SumOfHeader()
    ensures Sum(HEADER) == 1530
  {
    var a: seq<Item> := [0x00];
    var b: seq<Item> := a + [0xFF];
    var c: seq<Item> := b + [0xFF];
    var d: seq<Item> := c + [0xFF];
    var e: seq<Item> := d + [0xFF];
    var f: seq<Item> := e + [0xFF];
    var g: seq<Item> := f + [0xFF];
    assert HEADER == g + [0x00];
    SumOfOne(0x00);
    SumSnoc(a, 0xFF);
    SumSnoc(b, 0xFF);
    SumSnoc(c, 0xFF);
    SumSnoc(d, 0xFF);
    SumSnoc(e, 0xFF);
    SumSnoc(f, 0xFF);
    SumSnoc(g, 0x00);
  }

  /** A valid binary file, loaded and saved as text without any edit, is rejected when it is loaded
      again, and it cannot be saved in binary form at all. */
  lemma SavedImageIsRejected()
    ensures FromFile(UNREADABLE) == Ok(UNREADABLE)
    ensures FromFile(HexFile(UNREADABLE)) == Err(AssertionFailed)
    ensures BinFile(UNREADABLE) == Err(ValueError)
  {
    var payload := HEADER + [6] + Zeros(118);
    assert UNREADABLE[..127] == payload;
    assert HEADER <= UNREADABLE;
    assert Overflows(UNREADABLE[..127]) by {
      hide Sum;
      SumOfHeader();
      SumOfOne(6);
      SumOfZeros(118);
      SumAppend(HEADER, [6]);
      SumAppend(HEADER + [6], Zeros(118));
    }
    hide Checksummed, HexFile, Lines, Sum, ParsePairs;
    HexRoundTrip(UNREADABLE);
    BinRoundTrip(UNREADABLE);
  }

  // ----- A descriptor lost -----

  /** An extension whose blocks and descriptors the given contents replace. */
  function Extended(c: Cea): (d: Image)
    requires AllValid(c.blocks) && Fits(c)
  {
    ReplaceCea(Zeros(126) + [1, 0, 2, 3] + Zeros(126), c)
  }

  function Ones(n: nat): (r: seq<Byte>)
    ensures |r| == n
  {
    seq(n, _ => 1)
  }

  lemma {:induction false} OnesAreWhole(n: nat)
    ensures WholeDtds(Ones(n * 18))
  {
    if n > 0 {
      OnesAreWhole(n - 1);
      assert Ones(n * 18)[18..] == Ones((n - 1) * 18);
    }
  }

  /** A block of seven bytes and six descriptors leave eight bytes, which the two audio blocks fill. */
  const FULL: Cea := Cea([Block(2, Zeros(6))], Ones(108))

  lemma FullFits()
    ensures AllValid(FULL.blocks) && |PackAll(FULL.blocks)| == 7 && Fits(FULL)
    ensures WholeDtds(FULL.dtds) && !ExactFit(FULL)
  {
    PackFirst(FULL.blocks);
    assert FULL.blocks[1..] == [];
    OnesAreWhole(6);
  }

  lemma AudioFits()
    requires AllValid(FULL.blocks) && |PackAll(FULL.blocks)| == 7
    ensures Fits(WithAudio(FULL, true)) && ExactFit(WithAudio(FULL, true))
  {
    var c := WithAudio(FULL, true);
    WithoutNothing();
    var b := FULL.blocks;
    var mid := b + [AUDIO_BLOCKS[0]];
    assert c.blocks == mid + [AUDIO_BLOCKS[1]];
    assert c.blocks[..2] == mid && mid[..1] == b;
    assert |PackAll(mid)| == |PackAll(b)| + 4;
    assert |PackAll(c.blocks)| == |PackAll(mid)| + 4;
  }

  lemma WithoutNothing()
    ensures WithoutAudio(FULL.blocks) == FULL.blocks
  {
    assert FULL.blocks[..0] == [];
  }

  /** Switching the audio on succeeds and drops the last of six descriptors. */
  lemma AudioLosesDescriptor()
    ensures AllValid(FULL.blocks) && Fits(FULL) && WellFormed(Extended(FULL))
    ensures var d := Extended(FULL); var r := SetAudio(d, true);
      && ParseCea(d) == Ok(FULL) && r.Ok?
      && ParseCea(r.value).Ok? && ParseCea(r.value).value.dtds == FULL.dtds[..90]
  {
    hide ParseCea, PackAll, WithoutAudio, WholeDtds;
    FullFits();
    var base := Zeros(126) + [1, 0, 2, 3] + Zeros(126);
    var d := Extended(FULL);
    assert d[126] == base[126] && d[128] == base[128] && d[129] == base[129];
    CeaRoundTrip(base, FULL);
    AudioFits();
    AudioSet(d, true);
  }

  // ----- An audio state lost -----

  /** Four blocks that fill the extension, the item of the checksum included. */
  const CROWDED: seq<Block> :=
    [Block(CEA_AUDIO, Zeros(31)), Block(CEA_SPEAKERS, Zeros(31)), Block(2, Zeros(31)), Block(2, Zeros(27))]

  /** The packed blocks without their last item. */
  const PACKED: seq<Byte> := Packed(63, 31) + (Packed(159, 31) + (Packed(95, 31) + Packed(91, 26)))

  const CROWDED_IMAGE: Image := Zeros(126) + [1, 0] + ([2, 3, 128, 227] + PACKED) + [0]

  function Packed(head: Byte, size: nat): (r: seq<Byte>)
    ensures |r| == 1 + size
  {
    [head] + Zeros(size)
  }

  lemma PackedIsPacked()
    ensures AllValid(CROWDED) && PackAll(CROWDED) == PACKED + [0]
  {
    PackFirst(CROWDED);
    PackFirst(CROWDED[1..]);
    PackFirst(CROWDED[1..][1..]);
    PackFirst(CROWDED[1..][1..][1..]);
    assert CROWDED[1..][1..][1..][1..] == [];
    assert Pack(CROWDED[3]) == Packed(91, 26) + [0];
  }

  lemma SumOfPacked(head: Byte, size: nat)
    ensures Sum(Packed(head, size)) == head
  {
    SumOfOne(head);
    SumOfZeros(size);
    SumAppend([head], Zeros(size));
  }

  lemma SumOfCrowded()
    ensures Sum([2, 3, 128, 227] + PACKED) == 768
  {
    hide Sum;
    SumOfOne(2);
    SumAppend([2], [3]);
    SumOfOne(3);
    SumAppend([2] + [3], [128]);
    SumOfOne(128);
    SumAppend([2] + [3] + [128], [227]);
    SumOfOne(227);
    assert [2] + [3] + [128] + [227] == [2, 3, 128, 227];
    SumOfPacked(63, 31);
    SumOfPacked(159, 31);
    SumOfPacked(95, 31);
    SumOfPacked(91, 26);
    SumAppend(Packed(95, 31), Packed(91, 26));
    SumAppend(Packed(159, 31), Packed(95, 31) + Packed(91, 26));
    SumAppend(Packed(63, 31), Packed(159, 31) + (Packed(95, 31) + Packed(91, 26)));
    SumAppend([2, 3, 128, 227], PACKED);
  }

  lemma ReachesStep(head: Byte, rest: seq<Byte>)
    requires head >= 32 && head % 32 == 31 && rest != [] && Reaches(rest)
    ensures Reaches(Packed(head, 31) + rest)
  {
    assert (Packed(head, 31) + rest)[32..] == rest;
  }

  lemma CrowdedReaches()
    ensures Reaches(PACKED)
  {
    assert Reaches(Packed(91, 26));
    ReachesStep(95, Packed(91, 26));
    ReachesStep(159, Packed(95, 31) + Packed(91, 26));
    ReachesStep(63, Packed(159, 31) + (Packed(95, 31) + Packed(91, 26)));
  }

  /** A well-formed image with the audio on, whose audio state cannot be read once it is saved. */
  lemma SavingLosesAudio()
    ensures WellFormed(CROWDED_IMAGE) && AllBytes(CROWDED_IMAGE)
    ensures GetAudio(CROWDED_IMAGE) == Ok(true)
    ensures GetAudio(Checksummed(CROWDED_IMAGE)) == Err(ValueError)
  {
    hide Sum, Reaches, PackAll, ParseBlocks, ParseDtds, HasTag, GetAudio, ParseCea;
    var d := CROWDED_IMAGE;
    var r := Checksummed(d);
    PackedIsPacked();
    BlocksRoundTrip(CROWDED);
    assert d[128..255] == [2, 3, 128, 227] + PACKED && d[CEA + 4..255] == PACKED;
    SumOfCrowded();
    assert r[255] == 256;
    CrowdedReaches();
    AudioByTags(d, PACKED);
    AudioByTags(r, PACKED);
    LastItem(PACKED, 256);
    TagsAreThere(CROWDED, CEA_AUDIO);
    TagsAreThere(CROWDED, CEA_SPEAKERS);
    CrowdedHasAudio();
  }

  lemma CrowdedHasAudio()
    ensures HasTag(CROWDED, CEA_AUDIO) && HasTag(CROWDED, CEA_SPEAKERS)
  {
    assert CROWDED[0].tag == CEA_AUDIO && CROWDED[1].tag == CEA_SPEAKERS;
  }
}
