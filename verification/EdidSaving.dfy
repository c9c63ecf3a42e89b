/** What saving an image does to its fields, and whole sessions: load, edit, save, load again. */
module EdidSaving {
  import opened Bits
  import opened Wrappers
  import opened EdidCea
  import opened EdidFields
  import opened EdidFile

  // ----- What the parser sees of the last item -----

  /** Walking the blocks of `raw` by their sizes, the item right behind `raw` is read as data of the
      last block. Whatever is left of a block counts as its data, and a block may not be empty. */
  predicate Reaches(raw: seq<Byte>) {
    && raw != [] && raw[0] > 0
    && var size := raw[0] % 32;
       size >= |raw| || (raw[0] >= 32 && size > 0 && Reaches(raw[1 + size..]))
  }

  /** The tags are all that the getters want to know of the blocks. */
  function Tags(blocks: seq<Block>): seq<nat> {
    if blocks == [] then [] else [blocks[0].tag] + Tags(blocks[1..])
  }

  function TagsOf(r: Result<seq<Block>, EdidError>): Result<seq<nat>, EdidError> {
    match r
    case Err(e) => Err(e)
    case Ok(blocks) => Ok(Tags(blocks))
  }

  function TagsWithLast(raw: seq<Byte>, last: Item): Result<seq<nat>, EdidError> {
    TagsOf(ParseBlocks(raw + [last]))
  }

  /** A last item that is not data makes no difference. One that is data makes none as long as it is
      a byte, and a `ValueError` otherwise, which nothing else can cause. */
  lemma {:induction false} LastItem(raw: seq<Byte>, last: Item)
    ensures !Reaches(raw) || last < 256 ==> TagsWithLast(raw, last) == TagsWithLast(raw, 0)
    ensures TagsWithLast(raw, last) == Err(ValueError) <==> Reaches(raw) && last == 256
  {
    hide TagsWithLast;
    if raw == [] {
      LoneHeader(last);
      LoneHeader(0);
    } else if raw[0] == 0 {
      ZeroHeader(raw, last);
      ZeroHeader(raw, 0);
    } else {
      var size := raw[0] % 32;
      if size >= |raw| {
        TailIsData(raw, last);
        TailIsData(raw, 0);
      } else if raw[0] < 32 || size == 0 {
        BadHeader(raw, last);
        BadHeader(raw, 0);
      } else {
        LastItem(raw[1 + size..], last);
        OneBlock(raw, last);
        OneBlock(raw, 0);
      }
    }
  }

  lemma LoneHeader(head: Item)
    ensures TagsWithLast([], head) == Err(AssertionFailed)
  {
    assert [] + [head] == [head];
    var data := Take([head][1..], head % 32);
    assert data == [];
  }

  lemma ZeroHeader(raw: seq<Byte>, last: Item)
    requires raw != [] && raw[0] == 0
    ensures TagsWithLast(raw, last) == Err(AssertionFailed)
  {
    assert (raw + [last])[0] == 0;
  }

  lemma TailIsData(raw: seq<Byte>, last: Item)
    requires raw != [] && raw[0] > 0 && raw[0] % 32 >= |raw|
    ensures TagsWithLast(raw, last)
         == if last == 256 then Err(ValueError)
            else if raw[0] < 32 then Err(AssertionFailed)
            else Ok([raw[0] / 32])
  {
    var all := raw + [last];
    var data := Take(all[1..], raw[0] % 32);
    assert data == all[1..] && data[|data| - 1] == last;
    if last < 256 && raw[0] >= 32 {
      var b := Block(raw[0] / 32, ToBytes(data));
      assert FirstFromRaw(all) == Ok(b);
      var rest := all[1 + |b.data|..];
      assert rest == [];
      assert [b] + ParseBlocks(rest).value == [b];
      assert ParseBlocks(all) == Ok([b]);
      var tags: seq<nat> := [b.tag];
      assert [b][1..] == [] && [b.tag] + Tags([]) == tags;
    }
  }

  lemma BadHeader(raw: seq<Byte>, last: Item)
    requires raw != [] && raw[0] > 0 && raw[0] % 32 < |raw| && (raw[0] < 32 || raw[0] % 32 == 0)
    ensures TagsWithLast(raw, last) == Err(AssertionFailed)
  {
    var all := raw + [last];
    assert Take(all[1..], raw[0] % 32) == raw[1..][..raw[0] % 32];
  }

  lemma OneBlock(raw: seq<Byte>, last: Item)
    requires raw != [] && raw[0] >= 32 && 0 < raw[0] % 32 < |raw|
    ensures TagsWithLast(raw, last)
         == match TagsWithLast(raw[1 + raw[0] % 32..], last)
            case Err(e) => Err(e)
            case Ok(tags) => Ok([raw[0] / 32] + tags)
  {
    var size := raw[0] % 32;
    var all := raw + [last];
    assert Take(all[1..], size) == raw[1..][..size];
    assert all[1 + size..] == raw[1 + size..] + [last];
    var b := Block(raw[0] / 32, ToBytes(raw[1..][..size]));
    assert FirstFromRaw(all) == Ok(b);
    match ParseBlocks(all[1 + size..])
    case Err(e) =>
    case Ok(rest) => assert ([b] + rest)[1..] == rest;
  }

  // ----- Saving -----

  /** Saving makes a checksum overflow, or an overflowed one fit again, that is read as data. */
  predicate ChecksumTurnsData(d: Image) {
    && |d| == 256 && d[CEA + 2] >= 128
    && Reaches(ToBytes(d[CEA + 4..255]))
    && (d[255] == 256) != Overflows(d[CEA..255])
  }

  /** Saving changes no field if and only if it does not turn data into something else. */
  lemma SavingKeepsFieldsIff(d: Image, c: Codec)
    requires ValidCodec(c)
    ensures View(Checksummed(d), c) == View(d, c) <==> !ChecksumTurnsData(d)
  {
    hide GetMfcId, GetProductId, GetSerial, GetText, GetAudio, Checksum, Sum, Reaches;
    var r := Checksummed(d);
    BaseFields(d, r, c);
    SavingKeepsAudioIff(d);
  }

  lemma SavingKeepsAudioIff(d: Image)
    ensures GetAudio(Checksummed(d)) == GetAudio(d) <==> !ChecksumTurnsData(d)
  {
    hide Sum, Reaches, ParseBlocks, ParseDtds, Tags, HasTag;
    var r := Checksummed(d);
    if |d| == 256 {
      if d[CEA + 2] <= 127 {
        ChecksumUnparsed(d, r);
      } else {
        var raw := ToBytes(d[CEA + 4..255]);
        AudioByTags(d, raw);
        AudioByTags(r, raw);
        LastItem(raw, d[255]);
        LastItem(raw, r[255]);
      }
    }
  }

  /** With an offset behind the extension, the getter sees the tags of all its items. */
  lemma AudioByTags(d: Image, raw: seq<Byte>)
    requires |d| == 256 && d[CEA + 2] >= 128 && raw == d[CEA + 4..255]
    ensures GetAudio(d)
         == match TagsWithLast(raw, d[255])
            case Err(e) => Err(e)
            case Ok(tags) => Ok(CEA_AUDIO in tags && CEA_SPEAKERS in tags && BasicAudio(d))
  {
    hide Tags, ParseBlocks;
    assert raw + [d[255]] == d[CEA + 4..CEA + 128];
    assert ParseDtds(d[256..]) == Ok([]);
    match ParseBlocks(raw + [d[255]])
    case Err(e) =>
    case Ok(blocks) =>
      TagsAreThere(blocks, CEA_AUDIO);
      TagsAreThere(blocks, CEA_SPEAKERS);
  }

  lemma {:induction false} TagsAreThere(blocks: seq<Block>, tag: nat)
    ensures HasTag(blocks, tag) <==> tag in Tags(blocks)
  {
    if blocks != [] {
      TagsAreThere(blocks[1..], tag);
      assert HasTag(blocks[1..], tag) ==> HasTag(blocks, tag) by {
        if HasTag(blocks[1..], tag) {
          var k :| 0 <= k < |blocks[1..]| && blocks[1..][k].tag == tag;
          assert blocks[k + 1].tag == tag;
        }
      }
      assert HasTag(blocks, tag) && blocks[0].tag != tag ==> HasTag(blocks[1..], tag) by {
        if HasTag(blocks, tag) && blocks[0].tag != tag {
          var k :| 0 <= k < |blocks| && blocks[k].tag == tag;
          assert blocks[1..][k - 1].tag == tag;
        }
      }
    }
  }

  lemma ChecksumUnparsed(d: Image, r: Image)
    requires |d| == 256 && |r| == 256 && d[CEA + 2] <= 127
    requires forall k :: 128 <= k < 255 ==> r[k] == d[k]
    ensures ParseCea(r) == ParseCea(d)
  {
    var end: nat := CEA + d[CEA + 2];
    if end > CEA + 4 {
      assert r[CEA + 4..end] == d[CEA + 4..end];
    }
    if d[CEA + 2] >= 4 {
      DtdsIgnoreLast(d[end..], r[end..]);
    }
  }

  lemma {:induction false} DtdsIgnoreLast(a: seq<Item>, b: seq<Item>)
    requires |a| == |b| && forall k :: 0 <= k < |a| - 1 ==> a[k] == b[k]
    ensures ParseDtds(a) == ParseDtds(b)
    decreases |a|
  {
    if |a| > 19 {
      assert a[..18] == b[..18];
      DtdsIgnoreLast(a[18..], b[18..]);
    }
  }

  // ----- Load, edit, save, load -----

  lemma EditKeepsBytes(d: Image, e: Edit, c: Codec)
    requires ValidCodec(c) && WellFormed(d) && AllBytes(d) && Apply(d, e, c).Ok?
    ensures WellFormed(Apply(d, e, c).value) && AllBytes(Apply(d, e, c).value)
  {
    hide SetMfcId, SetProductId, SetSerial, SetText, SetAudio, ParseCea, ReadBack, WholeDtds;
    EditsStayWellFormed(d, e, c);
    match e
    case MfcId(id) => MfcIdFrame(d, id, c);
    case ProductId(n) => ProductSet(d, n);
    case Serial(n) => SerialSet(d, n);
    case Name(t) => TextFrame(d, NAME, t, c);
    case MonitorSerial(t) => TextFrame(d, MONITOR_SERIAL, t, c);
    case Audio(on) => AudioFrame(d, on); AudioSet(d, on);
  }

  lemma {:induction false} RunKeepsBytes(d: Image, edits: seq<Edit>, c: Codec)
    requires ValidCodec(c) && WellFormed(d) && AllBytes(d)
    ensures WellFormed(Run(d, edits, c)) && AllBytes(Run(d, edits, c))
    decreases |edits|
  {
    hide WellFormed, AllBytes, Apply;
    if edits != [] {
      match Apply(d, edits[0], c)
      case Ok(r) => EditKeepsBytes(d, edits[0], c); RunKeepsBytes(r, edits[1..], c);
      case Err(_) => RunKeepsBytes(d, edits[1..], c);
    }
  }

  lemma LoadedIsBytes(content: seq<Byte>)
    requires FromFile(content).Ok?
    ensures WellFormed(FromFile(content).value) && AllBytes(FromFile(content).value)
  {
  }

  /** A whole session: any file that loads, any edits, successful or not, then saving as text and
      loading again. The file is readable if and only if no checksum overflows, and then the fields
      are those of the first file with the accepted edits applied. */
  lemma SessionSurvivesSaving(content: seq<Byte>, edits: seq<Edit>, c: Codec)
    requires ValidCodec(c) && FromFile(content).Ok?
    ensures var start := FromFile(content).value; var d := Run(start, edits, c);
            var again := FromFile(HexFile(d));
      && (again.Ok? <==> !SomeOverflow(d))
      && (again.Ok? ==>
           View(again.value, c) == UpdateAll(View(start, c), Accepted(start, edits, c), c))
  {
    hide FromFile, HexFile, Checksummed, View, Run, Update, UpdateAll, Accepted, WellFormed;
    LoadedIsBytes(content);
    var start := FromFile(content).value;
    RunKeepsBytes(start, edits, c);
    var d := Run(start, edits, c);
    HexRoundTrip(d);
    ImageRefinesRecord(start, edits, c);
    SavingKeepsFieldsIff(d, c);
  }
}
