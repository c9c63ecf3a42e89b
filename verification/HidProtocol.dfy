/** The request side of the Pico HID firmware: the frame handler and the responder of `main.c`.
    A request is 8 bytes: magic, command, four argument bytes and a big-endian CRC-16. */
module HidProtocol {
  import opened Bits
  import opened Crc16

  type Frame = f: seq<Byte> | |f| == 8 witness [0, 0, 0, 0, 0, 0, 0, 0]

  const MAGIC: Byte := 0x33
  const MAGIC_RESP: Byte := 0x34

  const RESP_NONE: Byte := 0x24
  const RESP_CRC_ERROR: Byte := 0x40
  const RESP_INVALID_ERROR: Byte := 0x45
  const RESP_TIMEOUT_ERROR: Byte := 0x48

  const PONG_OK: Byte := 0x80
  const PONG_CAPS: Byte := 0x01
  const PONG_SCROLL: Byte := 0x02
  const PONG_NUM: Byte := 0x04
  const PONG_KBD_OFFLINE: Byte := 0x08
  const PONG_MOUSE_OFFLINE: Byte := 0x10
  const PONG_RESET_REQUIRED: Byte := 0x40

  const OUT1_DYNAMIC: Byte := 0x80

  const CMD_PING: Byte := 0x01
  const CMD_REPEAT: Byte := 0x02
  const CMD_SET_KBD: Byte := 0x03
  const CMD_SET_MOUSE: Byte := 0x04
  const CMD_SET_CONNECTED: Byte := 0x05
  const CMD_CLEAR_HID: Byte := 0x10
  const CMD_KBD_KEY: Byte := 0x11
  const CMD_MOUSE_ABS: Byte := 0x12
  const CMD_MOUSE_BUTTON: Byte := 0x13
  const CMD_MOUSE_WHEEL: Byte := 0x14
  const CMD_MOUSE_REL: Byte := 0x15

  /** The commands that change an output or a HID device; the handlers themselves are opaque. */
  const ACTING: set<Byte> :=
    {CMD_SET_KBD, CMD_SET_MOUSE, CMD_CLEAR_HID, CMD_KBD_KEY, CMD_MOUSE_ABS, CMD_MOUSE_BUTTON,
     CMD_MOUSE_WHEEL, CMD_MOUSE_REL}

  datatype Effect = Effect(cmd: Byte, args: seq<Byte>)

  /** What the rest of the firmware reports while a response is being composed. */
  datatype Status = Status(kbdOnline: bool, mouseOnline: bool, caps: bool, scroll: bool, num: bool,
                           outputsActive: Byte, outputsAvail: Byte)

  function Merge8(a: Byte, b: Byte): (r: Word) {
    a * 256 + b
  }

  function SplitHigh(w: Word): Byte {
    w / 256
  }

  function SplitLow(w: Word): Byte {
    w % 256
  }

  lemma SplitMerge(w: Word, a: Byte, b: Byte)
    ensures Merge8(SplitHigh(w), SplitLow(w)) == w
    ensures SplitHigh(Merge8(a, b)) == a && SplitLow(Merge8(a, b)) == b
  {
  }

  /** The last two bytes are the checksum of the first six. */
  predicate Sealed(f: Frame) {
    Crc(f[..6]) == Merge8(f[6], f[7])
  }

  predicate Intact(f: Frame) {
    f[0] == MAGIC && Sealed(f)
  }

  // ----- What a frame means, independently of how it is dispatched -----

  function EffectsOf(f: Frame): seq<Effect> {
    if Intact(f) && f[1] in ACTING then [Effect(f[1], f[2..])] else []
  }

  predicate DemandsReset(f: Frame) {
    Intact(f) && (f[1] == CMD_SET_KBD || f[1] == CMD_SET_MOUSE)
  }

  /** The answer code of a frame; `None` of its own for a request to repeat. */
  function CodeOf(f: Frame): (code: Byte)
    ensures code == 0 <==> Intact(f) && f[1] == CMD_REPEAT
  {
    if !Intact(f) then RESP_CRC_ERROR
    else if f[1] == CMD_REPEAT then 0
    else if f[1] in ACTING + {CMD_PING, CMD_SET_CONNECTED} then PONG_OK
    else RESP_INVALID_ERROR
  }

  /** The commands by their codes: settings and input events act, a ping and the connection command are
      only acknowledged, and anything else is refused. */
  lemma CommandMeans(f: Frame)
    ensures !Intact(f) ==> CodeOf(f) == 0x40 && EffectsOf(f) == [] && !DemandsReset(f)
    ensures Intact(f) ==>
      && (f[1] == 0x03 || f[1] == 0x04 || 0x10 <= f[1] <= 0x15 ==>
            CodeOf(f) == 0x80 && EffectsOf(f) == [Effect(f[1], f[2..])])
      && (f[1] == 0x01 || f[1] == 0x05 ==> CodeOf(f) == 0x80 && EffectsOf(f) == [])
      && (f[1] == 0x02 ==> CodeOf(f) == 0 && EffectsOf(f) == [])
      && (f[1] == 0x00 || 0x06 <= f[1] <= 0x0F || 0x16 <= f[1] ==> CodeOf(f) == 0x45 && EffectsOf(f) == [])
      && (DemandsReset(f) <==> f[1] == 0x03 || f[1] == 0x04)
  {
    hide Intact;
  }

  datatype Input = Request(frame: Frame) | Timeout

  function InputCode(i: Input): Byte {
    match i
    case Request(f) => CodeOf(f)
    case Timeout => RESP_TIMEOUT_ERROR
  }

  function InputEffects(i: Input): seq<Effect> {
    match i
    case Request(f) => EffectsOf(f)
    case Timeout => []
  }

  function AllEffects(inputs: seq<Input>): seq<Effect> {
    if inputs == [] then []
    else AllEffects(inputs[..|inputs| - 1]) + InputEffects(inputs[|inputs| - 1])
  }

  predicate ResetDemanded(inputs: seq<Input>) {
    exists i :: 0 <= i < |inputs| && inputs[i].Request? && DemandsReset(inputs[i].frame)
  }

  /** The last answer code other than "repeat", or the power-on code. */
  function LastCode(inputs: seq<Input>): (code: Byte)
    ensures code != 0
  {
    if inputs == [] then RESP_NONE
    else
      var code := InputCode(inputs[|inputs| - 1]);
      if code != 0 then code else LastCode(inputs[..|inputs| - 1])
  }

  /** After power-on there is nothing to repeat, and a request given up is a timeout. */
  lemma CodesWithoutRequest()
    ensures LastCode([]) == 0x24 && InputCode(Timeout) == 0x48 && InputEffects(Timeout) == []
  {
  }

  // ----- The response -----

  function Flag(on: bool, mask: Byte): Byte {
    if on then mask else 0
  }

  function WithHighBit(x: Byte): Byte {
    if x >= 0x80 then x else x + 0x80
  }

  /** The first six bytes of a response. */
  function Body(code: Byte, reset: bool, s: Status): (r: seq<Byte>)
    ensures |r| == 6
  {
    if code >= PONG_OK then
      [MAGIC_RESP,
       PONG_OK + Flag(reset, PONG_RESET_REQUIRED)
       + Flag(!s.kbdOnline, PONG_KBD_OFFLINE) + Flag(!s.mouseOnline, PONG_MOUSE_OFFLINE)
       + Flag(s.caps, PONG_CAPS) + Flag(s.scroll, PONG_SCROLL) + Flag(s.num, PONG_NUM),
       WithHighBit(s.outputsActive), s.outputsAvail, 0, 0]
    else
      [MAGIC_RESP, code, 0, 0, 0, 0]
  }

  function Seal(body: seq<Byte>): (r: Frame)
    requires |body| == 6
    ensures Sealed(r) && r[..6] == body
  {
    CrcIsWord(body);
    var r := body + [SplitHigh(Crc(body)), SplitLow(Crc(body))];
    assert r[..6] == body;
    r
  }

  /** Every response the firmware can send is sealed and begins with the response magic. */
  function Response(code: Byte, reset: bool, s: Status): (r: Reply) {
    var body := Body(code, reset, s);
    var r := Seal(body);
    assert r[0] == r[..6][0];
    r
  }

  type Reply = f: Frame | IsReply(f) ghost witness SampleReply()

  predicate IsReply(f: Frame) {
    Sealed(f) && f[0] == MAGIC_RESP
  }

  ghost function SampleReply(): (r: Frame)
    ensures IsReply(r)
  {
    var code: Byte :| 0 <= code < 256;
    var r := Seal([MAGIC_RESP, code, 0, 0, 0, 0]);
    assert r[0] == r[..6][0];
    r
  }

  /** The host can read every flag back from the response to a successful request, and an error
      response carries its code unchanged; a response never begins with an idle byte. */
  lemma ResponseReadable(code: Byte, reset: bool, s: Status)
    ensures var r := Response(code, reset, s);
      && r[0] != 0 && Sealed(r)
      && (code < PONG_OK ==> r[1] == code)
      && (code >= PONG_OK ==>
            && r[1] / 0x80 == 1
            && (r[1] / 0x40 % 2 == 1 <==> reset)
            && (r[1] / 0x10 % 2 == 1 <==> !s.mouseOnline)
            && (r[1] / 0x08 % 2 == 1 <==> !s.kbdOnline)
            && (r[1] / 0x04 % 2 == 1 <==> s.num)
            && (r[1] / 0x02 % 2 == 1 <==> s.scroll)
            && (r[1] % 2 == 1 <==> s.caps)
            && r[2] / 0x80 == 1 && r[2] % 0x80 == s.outputsActive % 0x80 && r[3] == s.outputsAvail)
      && (code < PONG_OK ==> r[2] == 0 && r[3] == 0)
      && r[0] == 0x34 && r[4] == 0 && r[5] == 0
  {
    ResponseStarts(code, reset, s);
    hide Response, Crc;
    if code >= PONG_OK {
      FlagBits(if reset then 1 else 0, if s.mouseOnline then 0 else 1, if s.kbdOnline then 0 else 1,
               if s.num then 1 else 0, if s.scroll then 1 else 0, if s.caps then 1 else 0);
    }
  }

  lemma ResponseStarts(code: Byte, reset: bool, s: Status)
    ensures var r, body := Response(code, reset, s), Body(code, reset, s);
      forall k :: 0 <= k < 6 ==> r[k] == body[k]
  {
    hide Crc, Body;
    var r, body := Response(code, reset, s), Body(code, reset, s);
    assert r[..6] == body;
    assert forall k :: 0 <= k < 6 ==> r[..6][k] == r[k];
  }

  lemma FlagBits(r: nat, m: nat, k: nat, n: nat, s: nat, c: nat)
    requires r < 2 && m < 2 && k < 2 && n < 2 && s < 2 && c < 2
    ensures var x := 0x80 + r * 0x40 + k * 0x08 + m * 0x10 + c + s * 0x02 + n * 0x04;
      && x < 256 && x / 0x80 == 1 && x / 0x40 % 2 == r && x / 0x10 % 2 == m && x / 0x08 % 2 == k
      && x / 0x04 % 2 == n && x / 0x02 % 2 == s && x % 2 == c
  {
  }

  // ----- The handler object -----

  class Handler {
    var resetRequired: bool
    var prevCode: Byte
    ghost var seen: seq<Input>
    ghost var performed: seq<Effect>

    /** Everything the handler remembers is determined by the inputs it has seen. */
    ghost predicate Valid()
      reads this
    {
      && performed == AllEffects(seen)
      && (resetRequired <==> ResetDemanded(seen))
      && prevCode == LastCode(seen)
    }

    constructor ()
      ensures Valid() && seen == []
    {
      resetRequired := false;
      prevCode := RESP_NONE;
      seen := [];
      performed := [];
    }

    method Perform(cmd: Byte, args: seq<Byte>)
      modifies this`performed
      ensures performed == old(performed) + [Effect(cmd, args)]
    {
      performed := performed + [Effect(cmd, args)];
    }

    method HandleRequest(data: Frame) returns (code: Byte)
      modifies this`performed, this`resetRequired
      ensures code == CodeOf(data)
      ensures performed == old(performed) + EffectsOf(data)
      ensures resetRequired == (old(resetRequired) || DemandsReset(data))
    {
      var crc := PhCrc16(data, 6);
      if data[0] == MAGIC && crc == Merge8(data[6], data[7]) {
        var cmd := data[1];
        if cmd == CMD_PING {
          return PONG_OK;
        } else if cmd == CMD_SET_KBD || cmd == CMD_SET_MOUSE {
          Perform(cmd, data[2..]);
          resetRequired := true;
          return PONG_OK;
        } else if cmd == CMD_SET_CONNECTED {
          return PONG_OK;
        } else if cmd == CMD_CLEAR_HID || cmd == CMD_KBD_KEY || cmd == CMD_MOUSE_BUTTON
                  || cmd == CMD_MOUSE_ABS || cmd == CMD_MOUSE_REL || cmd == CMD_MOUSE_WHEEL {
          Perform(cmd, data[2..]);
          return PONG_OK;
        } else if cmd == CMD_REPEAT {
          return 0;
        }
        return RESP_INVALID_ERROR;
      }
      return RESP_CRC_ERROR;
    }

    method SendResponse(code: Byte, s: Status) returns (resp: Reply)
      modifies this`prevCode
      ensures prevCode == if code == 0 then old(prevCode) else code
      ensures resp == Response(prevCode, resetRequired, s)
    {
      var c := code;
      if c == 0 {
        c := prevCode;
      } else {
        prevCode := c;
      }
      var r := new Byte[8](_ => 0);
      FillBody(r, c, s);
      ghost var body := r[..6];
      var crc := PhCrc16(r[..], 6);
      assert r[..][..6] == body;
      r[6], r[7] := SplitHigh(crc), SplitLow(crc);
      assert r[..6] == body;
      assert r[..] == body + [SplitHigh(crc), SplitLow(crc)];
      assert r[..] == Response(c, resetRequired, s);
      resp := r[..];
    }

    method FillBody(r: array<Byte>, code: Byte, s: Status)
      requires r.Length == 8 && r[..] == [0, 0, 0, 0, 0, 0, 0, 0]
      modifies r
      ensures r[..6] == Body(code, resetRequired, s)
    {
      r[0] := MAGIC_RESP;
      if code >= PONG_OK {
        FillState(r, s);
        r[3] := s.outputsAvail;
      } else {
        r[1] := code;
      }
      assert r[4] == 0 && r[5] == 0;
    }

    method FillState(r: array<Byte>, s: Status)
      requires r.Length == 8
      modifies r
      ensures r[1] == PONG_OK + Flag(resetRequired, PONG_RESET_REQUIRED)
        + Flag(!s.kbdOnline, PONG_KBD_OFFLINE) + Flag(!s.mouseOnline, PONG_MOUSE_OFFLINE)
        + Flag(s.caps, PONG_CAPS) + Flag(s.scroll, PONG_SCROLL) + Flag(s.num, PONG_NUM)
      ensures r[2] == WithHighBit(s.outputsActive)
      ensures forall k :: 0 <= k < 8 && k != 1 && k != 2 ==> r[k] == old(r[k])
    {
      r[1] := PONG_OK;
      if resetRequired {
        r[1] := r[1] + PONG_RESET_REQUIRED;
      }
      r[2] := OUT1_DYNAMIC;
      r[1] := r[1] + Flag(!s.kbdOnline, PONG_KBD_OFFLINE) + Flag(!s.mouseOnline, PONG_MOUSE_OFFLINE);
      r[1] := r[1] + Flag(s.caps, PONG_CAPS) + Flag(s.scroll, PONG_SCROLL) + Flag(s.num, PONG_NUM);
      r[2] := WithHighBit(s.outputsActive);
    }

    /** A complete frame has arrived. */
    method DataHandler(data: Frame, s: Status) returns (resp: Reply)
      requires Valid()
      modifies this
      ensures Valid() && seen == old(seen) + [Request(data)]
      ensures resp == Response(LastCode(seen), ResetDemanded(seen), s)
    {
      seen := seen + [Request(data)];
      assert seen[..|seen| - 1] == old(seen);
      ResetSnoc(old(seen), Request(data));
      var code := HandleRequest(data);
      resp := SendResponse(code, s);
    }

    /** The bytes of an incomplete frame have been given up. */
    method TimeoutHandler(s: Status) returns (resp: Reply)
      requires Valid()
      modifies this
      ensures Valid() && seen == old(seen) + [Timeout]
      ensures resp == Response(LastCode(seen), ResetDemanded(seen), s)
    {
      seen := seen + [Timeout];
      assert seen[..|seen| - 1] == old(seen);
      ResetSnoc(old(seen), Timeout);
      resp := SendResponse(RESP_TIMEOUT_ERROR, s);
    }
  }

  lemma ResetSnoc(inputs: seq<Input>, i: Input)
    ensures ResetDemanded(inputs + [i])
       <==> ResetDemanded(inputs) || (i.Request? && DemandsReset(i.frame))
  {
    var all := inputs + [i];
    if ResetDemanded(inputs) {
      var k :| 0 <= k < |inputs| && inputs[k].Request? && DemandsReset(inputs[k].frame);
      assert all[k] == inputs[k];
    }
    if i.Request? && DemandsReset(i.frame) {
      assert all[|inputs|] == i;
    }
  }

  // ----- Consequences over whole histories -----

  lemma RepeatIsInert(inputs: seq<Input>, i: Input)
    requires i.Request? && CodeOf(i.frame) == 0
    ensures AllEffects(inputs + [i]) == AllEffects(inputs) && LastCode(inputs + [i]) == LastCode(inputs)
    ensures !DemandsReset(i.frame)
  {
    assert (inputs + [i])[..|inputs|] == inputs;
  }

  /** Retransmission is safe: however many requests to repeat follow an input, no further effect
      happens and the answer code stays that of the input. */
  lemma {:induction false} RepeatIsSafe(history: seq<Input>, repeats: seq<Input>)
    requires forall i :: 0 <= i < |repeats| ==> repeats[i].Request? && CodeOf(repeats[i].frame) == 0
    ensures AllEffects(history + repeats) == AllEffects(history)
    ensures LastCode(history + repeats) == LastCode(history)
    ensures ResetDemanded(history + repeats) <==> ResetDemanded(history)
    decreases |repeats|
  {
    hide AllEffects, LastCode, ResetDemanded;
    if repeats == [] {
      assert history + repeats == history;
    } else {
      var n := |repeats| - 1;
      var shorter := history + repeats[..n];
      assert history + repeats == shorter + [repeats[n]];
      RepeatIsSafe(history, repeats[..n]);
      ResetSnoc(shorter, repeats[n]);
      RepeatIsInert(shorter, repeats[n]);
    }
  }
}
