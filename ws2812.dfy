/** The WS2812 strip driver: a composite RMT encoder (pixel bytes, then a
    reset pulse) and the static G,R,B frame buffer behind the public API. */
module Ws2812 {
  import opened EspTypes

  // ---------------------------------------------------------------------
  // Timing and encoder configuration

  /** RMT tick rate: 10 MHz, one tick is 100 ns. */
  const RMT_RESOLUTION_HZ: nat := 10_000_000

  /** Pulse widths in ticks: a 0 bit is high 4, low 9; a 1 bit high 8, low 5. */
  const T0H: nat := 4
  const T0L: nat := 9
  const T1H: nat := 8
  const T1L: nat := 5

  /** The latch (reset) low time in microseconds, and the same in ticks. */
  const RESET_US: nat := 80
  const RESET_TICKS: nat := RMT_RESOLUTION_HZ / 1_000_000 * RESET_US

  /** Settings of the TX channel created by init. */
  const MEM_BLOCK_SYMBOLS: nat := 64
  const TRANS_QUEUE_DEPTH: nat := 4

  /** The RMT clock sources init can name; it names the default one. */
  datatype ClockSource = ClkSrcDefault

  /** rmt_tx_channel_config_t, as far as init fills it in. */
  datatype TxChannelConfig = TxChannelConfig(
    gpio: int, clkSrc: ClockSource, resolutionHz: nat,
    memBlockSymbols: nat, transQueueDepth: nat, withDma: bool)

  /** The configuration init hands to rmt_new_tx_channel for a pin. */
  function TxConfig(gpio: int): TxChannelConfig
  {
    TxChannelConfig(gpio, ClkSrcDefault, RMT_RESOLUTION_HZ, MEM_BLOCK_SYMBOLS, TRANS_QUEUE_DEPTH, true)
  }

  /** rmt_symbol_word_t: two (level, duration) halves. */
  datatype SymbolWord = SymbolWord(level0: nat, duration0: nat, level1: nat, duration1: nat)

  /** rmt_bytes_encoder_config_t: the symbol for each bit value and the bit order. */
  datatype BytesEncoderConfig = BytesEncoderConfig(bit0: SymbolWord, bit1: SymbolWord, msbFirst: bool)

  /** The bytes sub-encoder's settings chosen by ws2812_new_encoder. */
  const WS2812_BYTES_CONFIG: BytesEncoderConfig :=
    BytesEncoderConfig(SymbolWord(1, T0H, 0, T0L), SymbolWord(1, T1H, 0, T1L), true)

  /** The symbol the copy sub-encoder emits after the pixel data. */
  const RESET_SYMBOL: SymbolWord := SymbolWord(0, RESET_TICKS, 0, 0)

  /** Length in nanoseconds of a number of RMT ticks. */
  function TicksToNs(ticks: nat): (ns: nat)
    ensures ns * RMT_RESOLUTION_HZ == ticks * 1_000_000_000
  {
    ticks * 100
  }

  /** The configured pulses are 0.4 µs high then 0.9 µs low for a 0 bit and
      0.8 µs high then 0.5 µs low for a 1 bit, sent most significant bit
      first, and the latch is 80 microseconds of low level. */
  lemma WireTiming()
    ensures RESET_TICKS == 800
    ensures TicksToNs(WS2812_BYTES_CONFIG.bit0.duration0) == 400
    ensures TicksToNs(WS2812_BYTES_CONFIG.bit0.duration1) == 900
    ensures TicksToNs(WS2812_BYTES_CONFIG.bit1.duration0) == 800
    ensures TicksToNs(WS2812_BYTES_CONFIG.bit1.duration1) == 500
    ensures WS2812_BYTES_CONFIG.bit0.level0 == 1 && WS2812_BYTES_CONFIG.bit0.level1 == 0
    ensures WS2812_BYTES_CONFIG.bit1.level0 == 1 && WS2812_BYTES_CONFIG.bit1.level1 == 0
    ensures WS2812_BYTES_CONFIG.msbFirst
    ensures RESET_SYMBOL.level0 == 0 && RESET_SYMBOL.level1 == 0 && RESET_SYMBOL.duration1 == 0
    ensures TicksToNs(RESET_SYMBOL.duration0) == RESET_US * 1000
  {
  }

  // ---------------------------------------------------------------------
  // The composite encoder

  /** The composite encoder's state field. */
  datatype Phase = SendData | SendReset

  /** rmt_encode_state_t: a set of the COMPLETE and MEM_FULL flags. */
  datatype EncodeState = EncodeState(complete: bool, memFull: bool)

  const NO_FLAGS: EncodeState := EncodeState(false, false)
  const COMPLETE: EncodeState := EncodeState(true, false)
  const MEM_FULL: EncodeState := EncodeState(false, true)

  /** What one call of a sub-encoder's encode reports: the symbols it wrote
      and its state flags. */
  datatype SubStep = SubStep(count: nat, state: EncodeState)

  /** One call into a sub-encoder, as the composite encoder makes it. */
  datatype SubCall =
    | BytesEncode(data: seq<U8>, step: SubStep)
    | CopyEncode(symbol: SymbolWord, step: SubStep)
    | BytesReset
    | CopyReset

  /** The phase the composite encoder is in after a history of sub-encoder
      calls: a completed data encode arms the reset, a completed reset copy
      or an encoder reset disarms it, anything else leaves it alone. */
  function PhaseOf(log: seq<SubCall>): Phase
  {
    if log == [] then SendData else After(PhaseOf(log[..|log| - 1]), log[|log| - 1])
  }

  /** The phase after one call, from the phase before it. */
  function After(p: Phase, c: SubCall): Phase
  {
    match c
    case BytesEncode(_, s) => if s.state.complete then SendReset else p
    case CopyEncode(_, s) => if s.state.complete then SendData else p
    case _ => SendData
  }

  /** Calls that make the reset pending, and calls that end it. */
  predicate Arms(c: SubCall) { c.BytesEncode? && c.step.state.complete }
  predicate Clears(c: SubCall) { c.BytesReset? || c.CopyReset? || (c.CopyEncode? && c.step.state.complete) }

  /** Some completed data encode has not been followed by a completed
      reset copy or an encoder reset. */
  ghost predicate Armed(log: seq<SubCall>)
  {
    exists j :: 0 <= j < |log| && Arms(log[j]) && forall k :: j < k < |log| ==> !Clears(log[k])
  }

  /** A reset is pending exactly when the history is armed. */
  lemma {:induction false} PhaseOfHistory(log: seq<SubCall>)
    ensures PhaseOf(log) == SendReset <==> Armed(log)
  {
    if log != [] {
      var prefix, last := log[..|log| - 1], log[|log| - 1];
      assert log == prefix + [last];
      PhaseOfHistory(prefix);
      if Arms(last) {
        ArmedByLast(prefix, last);
      } else if Clears(last) {
        ClearedByLast(prefix, last);
      } else {
        KeptByLast(prefix, last);
      }
    }
  }

  lemma ArmedByLast(prefix: seq<SubCall>, last: SubCall)
    requires Arms(last)
    ensures Armed(prefix + [last])
  {
    var log := prefix + [last];
    assert Arms(log[|prefix|]);
  }

  lemma ClearedByLast(prefix: seq<SubCall>, last: SubCall)
    requires Clears(last)
    ensures !Armed(prefix + [last])
  {
    var log := prefix + [last];
    forall j | 0 <= j < |log| && Arms(log[j])
      ensures exists k :: j < k < |log| && Clears(log[k])
    {
      assert Clears(log[|prefix|]);
    }
  }

  lemma KeptByLast(prefix: seq<SubCall>, last: SubCall)
    requires !Arms(last) && !Clears(last)
    ensures Armed(prefix + [last]) <==> Armed(prefix)
  {
    var log := prefix + [last];
    if Armed(prefix) {
      var j :| 0 <= j < |prefix| && Arms(prefix[j]) && forall k :: j < k < |prefix| ==> !Clears(prefix[k]);
      assert Arms(log[j]);
      forall k | j < k < |log|
        ensures !Clears(log[k])
      {
        if k < |prefix| {
          assert log[k] == prefix[k];
        }
      }
    }
    if Armed(log) {
      var j :| 0 <= j < |log| && Arms(log[j]) && forall k :: j < k < |log| ==> !Clears(log[k]);
      assert j < |prefix| && prefix[j] == log[j];
      forall k | j < k < |prefix|
        ensures !Clears(prefix[k])
      {
        assert log[k] == prefix[k];
      }
    }
  }

  /** The encoder only calls the bytes sub-encoder with no reset pending and
      the copy sub-encoder, always with the reset symbol, with one pending. */
  ghost predicate Legal(log: seq<SubCall>)
  {
    log == [] || (Legal(log[..|log| - 1]) && Allowed(PhaseOf(log[..|log| - 1]), log[|log| - 1]))
  }

  predicate Allowed(p: Phase, c: SubCall)
  {
    match c
    case BytesEncode(_, _) => p == SendData
    case CopyEncode(sym, _) => p == SendReset && sym == RESET_SYMBOL
    case _ => true
  }

  /** Appending a call to the history moves the phase by one step. */
  lemma AppendCall(log: seq<SubCall>, c: SubCall)
    ensures PhaseOf(log + [c]) == After(PhaseOf(log), c)
    ensures Legal(log + [c]) <==> Legal(log) && Allowed(PhaseOf(log), c)
    ensures Encoded(log + [c]) == Encoded(log) + Symbols(c)
  {
    assert (log + [c])[..|log|] == log;
  }

  /** Every call in a legal history was allowed in the phase before it. */
  lemma {:induction false} LegalAt(log: seq<SubCall>, i: nat)
    requires Legal(log) && i < |log|
    ensures Allowed(PhaseOf(log[..i]), log[i])
    decreases |log|
  {
    var prefix := log[..|log| - 1];
    if i < |log| - 1 {
      LegalAt(prefix, i);
      assert prefix[..i] == log[..i] && prefix[i] == log[i];
    }
  }

  /** The reset symbol is only ever sent after the pixel data has been
      completely encoded and before anything disarmed the reset again. */
  lemma ResetFollowsData(log: seq<SubCall>, i: nat)
    requires Legal(log) && i < |log| && log[i].CopyEncode?
    ensures log[i].symbol == RESET_SYMBOL
    ensures Armed(log[..i])
  {
    LegalAt(log, i);
    PhaseOfHistory(log[..i]);
  }

  /** The symbols reported by the encode calls in a history. */
  function Encoded(log: seq<SubCall>): nat
  {
    if log == [] then 0 else Encoded(log[..|log| - 1]) + Symbols(log[|log| - 1])
  }

  /** The symbols one call reports: its count for an encode, none for a reset. */
  function Symbols(c: SubCall): nat
  {
    match c
    case BytesEncode(_, s) => s.count
    case CopyEncode(_, s) => s.count
    case _ => 0
  }

  /** ws2812_encoder_t: the two sub-encoders are represented by the record
      of the calls made into them. */
  class Encoder {
    var phase: Phase
    var calls: seq<SubCall>
    const bytesConfig: BytesEncoderConfig

    ghost predicate Valid()
      reads this
    {
      phase == PhaseOf(calls) && Legal(calls) && bytesConfig == WS2812_BYTES_CONFIG
    }

    /** A freshly created encoder: SEND_DATA, nothing encoded yet. */
    constructor ()
      ensures phase == SendData && calls == [] && bytesConfig == WS2812_BYTES_CONFIG
      ensures Valid()
    {
      phase := SendData;
      calls := [];
      bytesConfig := WS2812_BYTES_CONFIG;
    }

    /** ws2812_encode. `dataStep` and `resetStep` are what the bytes and the
        copy sub-encoder report if they are called; `prior` is the caller's
        value of *ret_state, which one path leaves unwritten. */
    method Encode(data: seq<U8>, dataStep: SubStep, resetStep: SubStep, prior: EncodeState)
      returns (encoded: nat, retState: EncodeState)
      requires Valid()
      modifies this
      ensures Valid()
      ensures Encoded(calls) == Encoded(old(calls)) + encoded
      // the data is encoded first when no reset is pending
      ensures old(phase) == SendData ==>
        |calls| > |old(calls)| && calls[|old(calls)|] == BytesEncode(data, dataStep)
      // data reports memory full: return its flags at once, no reset symbol
      ensures old(phase) == SendData && dataStep.state.memFull ==>
        && calls == old(calls) + [BytesEncode(data, dataStep)]
        && retState == dataStep.state
        && phase == (if dataStep.state.complete then SendReset else SendData)
      // data reports neither flag: state stays SEND_DATA but COMPLETE is reported
      ensures old(phase) == SendData && !dataStep.state.complete && !dataStep.state.memFull ==>
        && calls == old(calls) + [BytesEncode(data, dataStep)]
        && retState == COMPLETE
        && phase == SendData
      // a pending reset, or data that completed without memory full, emits the reset symbol
      ensures old(phase) == SendReset || (dataStep.state.complete && !dataStep.state.memFull) ==>
        && calls == old(calls)
                    + (if old(phase) == SendData then [BytesEncode(data, dataStep)] else [])
                    + [CopyEncode(RESET_SYMBOL, resetStep)]
        && (resetStep.state.complete ==> phase == SendData && retState == COMPLETE)
        && (!resetStep.state.complete ==> phase == SendReset)
        && (!resetStep.state.complete && resetStep.state.memFull ==> retState == MEM_FULL)
        && (!resetStep.state.complete && !resetStep.state.memFull ==> retState == prior)
    {
      encoded := 0;
      if phase == SendData {
        AppendCall(calls, BytesEncode(data, dataStep));
        calls := calls + [BytesEncode(data, dataStep)];
        encoded := encoded + dataStep.count;
        var state := dataStep.state;
        if state.complete {
          phase := SendReset;
        }
        if state.memFull {
          return encoded, state;
        }
      }
      if phase == SendReset {
        var n;
        n, retState := SendResetSymbol(resetStep, prior);
        encoded := encoded + n;
        return encoded, retState;
      }
      return encoded, COMPLETE;
    }

    /** The SEND_RESET half of ws2812_encode: copy the reset symbol and
        report how far that got. */
    method SendResetSymbol(resetStep: SubStep, prior: EncodeState) returns (n: nat, retState: EncodeState)
      requires Valid() && phase == SendReset
      modifies this
      ensures Valid()
      ensures calls == old(calls) + [CopyEncode(RESET_SYMBOL, resetStep)]
      ensures n == resetStep.count && Encoded(calls) == Encoded(old(calls)) + n
      ensures resetStep.state.complete ==> phase == SendData && retState == COMPLETE
      ensures !resetStep.state.complete ==> phase == SendReset
      ensures !resetStep.state.complete && resetStep.state.memFull ==> retState == MEM_FULL
      ensures !resetStep.state.complete && !resetStep.state.memFull ==> retState == prior
    {
      var state := NO_FLAGS;
      AppendCall(calls, CopyEncode(RESET_SYMBOL, resetStep));
      calls := calls + [CopyEncode(RESET_SYMBOL, resetStep)];
      n := resetStep.count;
      state := resetStep.state;
      retState := prior;
      if state.complete {
        phase := SendData;
        retState := COMPLETE;
      } else if state.memFull {
        retState := MEM_FULL;
      }
    }

    /** ws2812_reset: back to SEND_DATA and both sub-encoders reset. */
    method Reset() returns (st: Status)
      requires Valid()
      modifies this
      ensures Valid()
      ensures phase == SendData
      ensures calls == old(calls) + [BytesReset, CopyReset]
      ensures st == Ok
    {
      phase := SendData;
      AppendCall(calls, BytesReset);
      calls := calls + [BytesReset];
      AppendCall(calls, CopyReset);
      calls := calls + [CopyReset];
      return Ok;
    }
  }

  /** ws2812_new_encoder. `allocOk` says whether calloc succeeds, the two
      statuses are what creating the bytes and the copy sub-encoder return. */
  method NewEncoder(allocOk: bool, bytesStatus: Status, copyStatus: Status)
    returns (st: Status, enc: Encoder?)
    ensures st == (if !allocOk then ErrNoMem else if bytesStatus != Ok then bytesStatus else copyStatus)
    ensures enc != null <==> st == Ok
    ensures enc != null ==>
      && fresh(enc) && enc.Valid()
      && enc.phase == SendData && enc.calls == [] && enc.bytesConfig == WS2812_BYTES_CONFIG
  {
    if !allocOk {
      return ErrNoMem, null;
    }
    var e := new Encoder();
    if bytesStatus != Ok {
      return bytesStatus, null;
    }
    if copyStatus != Ok {
      return copyStatus, null;
    }
    return Ok, e;
  }

  // ---------------------------------------------------------------------
  // The frame buffer

  /** An RGB colour as the API takes it. */
  datatype Color = Color(r: U8, g: U8, b: U8)

  /** Pixel i of a wire-order buffer: bytes 3i, 3i+1, 3i+2 hold G, R, B. */
  function PixelAt(bytes: seq<U8>, i: nat): Color
    requires 3 * i + 3 <= |bytes|
  {
    Color(bytes[3 * i + 1], bytes[3 * i], bytes[3 * i + 2])
  }

  /** A buffer with pixel i set to c. */
  function WithPixel(bytes: seq<U8>, i: nat, c: Color): (out: seq<U8>)
    requires 3 * i + 3 <= |bytes|
    ensures |out| == |bytes|
    ensures PixelAt(out, i) == c
    ensures forall j :: 0 <= j < |bytes| && (j < 3 * i || 3 * i + 3 <= j) ==> out[j] == bytes[j]
  {
    bytes[3 * i := c.g][3 * i + 1 := c.r][3 * i + 2 := c.b]
  }

  /** The buffer of `count` pixels all showing c. */
  function Solid(count: nat, c: Color): (out: seq<U8>)
    ensures |out| == 3 * count
  {
    if count == 0 then [] else Solid(count - 1, c) + [c.g, c.r, c.b]
  }

  /** Every pixel of a solid buffer shows its colour. */
  lemma {:induction false} SolidPixels(count: nat, c: Color, k: nat)
    requires k < count
    ensures PixelAt(Solid(count, c), k) == c
  {
    var prev := Solid(count - 1, c);
    assert Solid(count, c) == prev + [c.g, c.r, c.b];
    if k < count - 1 {
      SolidPixels(count - 1, c, k);
      assert PixelAt(Solid(count, c), k) == PixelAt(prev, k);
    }
  }

  const BLACK: Color := Color(0, 0, 0)

  /** Buffer size ws2812_init asks for, computed in 32-bit size_t. */
  function BufSizeAsWritten(count: U32): U32
  {
    (count * 3) % U32_LIMIT
  }

  /** For more than 0x5555_5555 LEDs the 32-bit product wraps: init asks
      for a 2-byte buffer for 0x5555_5556 LEDs, and set_pixel(0) then writes
      byte 2, past its end. */
  lemma BufferWrapsAsWritten()
    ensures var count: U32 := 0x5555_5556;
      && BufSizeAsWritten(count) == 2
      && 0 < count
      && !(0 * 3 + 2 < BufSizeAsWritten(count))
  {
    assert 0x5555_5556 * 3 == U32_LIMIT + 2;
  }

  /** The module's static state: s_rmt_chan, s_ws_encoder, s_led_buf,
      s_led_count and s_gpio, plus the frames handed to rmt_transmit. */
  class Driver {
    /** s_rmt_chan != NULL */
    var channel: bool
    var encoder: Encoder?
    var buf: array?<U8>
    var ledCount: U32
    var gpio: int
    /** Every buffer passed to rmt_transmit by show, oldest first. */
    var transmitted: seq<seq<U8>>
    /** The configuration last handed to rmt_new_tx_channel, if any. */
    var channelConfig: Option<TxChannelConfig>

    /** The buffer, when allocated, holds exactly led_count pixels. */
    ghost predicate BufferSized()
      reads this
    {
      buf != null ==> buf.Length == 3 * ledCount
    }

    ghost predicate Valid()
      reads this, encoder
    {
      && BufferSized()
      && (channel ==> buf != null)
      && (encoder != null ==> channel && encoder.Valid())
    }

    /** The state at boot: nothing allocated, gpio -1. */
    constructor ()
      ensures !channel && encoder == null && buf == null && ledCount == 0 && gpio == -1
      ensures transmitted == [] && channelConfig == None
      ensures Valid()
    {
      channelConfig := None;
      channel := false;
      encoder := null;
      buf := null;
      ledCount := 0;
      gpio := -1;
      transmitted := [];
    }

    /** ws2812_init. The booleans say whether heap_caps_malloc and calloc
        succeed; the statuses are what rmt_new_tx_channel, the two
        sub-encoder constructors and rmt_enable return. */
    method Init(gpioNum: int, count: U32, bufAllocOk: bool, channelStatus: Status,
                encAllocOk: bool, bytesStatus: Status, copyStatus: Status, enableStatus: Status)
      returns (st: Status)
      requires Valid()
      modifies this
      ensures Valid()
      ensures transmitted == old(transmitted)
      // an existing channel: nothing happens
      ensures old(channel) ==>
        && st == Ok && channel && encoder == old(encoder) && buf == old(buf)
        && ledCount == old(ledCount) && gpio == old(gpio) && channelConfig == old(channelConfig)
      // otherwise count and pin are recorded before anything can fail
      ensures !old(channel) ==> ledCount == count && gpio == gpioNum
      ensures !old(channel) && !bufAllocOk ==>
        st == ErrNoMem && buf == null && !channel && encoder == old(encoder)
        && channelConfig == old(channelConfig)
      ensures !old(channel) && bufAllocOk ==>
        && buf != null && fresh(buf) && buf.Length == 3 * count
        && (forall j :: 0 <= j < buf.Length ==> buf[j] == 0)
        && channelConfig == Some(TxConfig(gpioNum))
        && channel == (channelStatus == Ok)
        && (encoder != null <==> channelStatus == Ok && encAllocOk && bytesStatus == Ok && copyStatus == Ok)
        && (encoder != null ==> fresh(encoder) && encoder.phase == SendData && encoder.calls == [])
        && st == (if channelStatus != Ok then channelStatus
                  else if !encAllocOk then ErrNoMem
                  else if bytesStatus != Ok then bytesStatus
                  else if copyStatus != Ok then copyStatus
                  else enableStatus)
    {
      if channel {
        return Ok;
      }
      ledCount := count;
      gpio := gpioNum;
      if !bufAllocOk {
        buf := null;
        return ErrNoMem;
      }
      buf := new U8[3 * count](_ => 0);
      channelConfig := Some(TxConfig(gpioNum));
      if channelStatus != Ok {
        return channelStatus;
      }
      channel := true;
      var encSt, enc := NewEncoder(encAllocOk, bytesStatus, copyStatus);
      if encSt != Ok {
        return encSt;
      }
      encoder := enc;
      return enableStatus;
    }

    /** ws2812_show: refuses without a channel and an encoder, otherwise
        hands the led_count * 3 buffer bytes to rmt_transmit and, if that
        succeeds, returns what waiting for the transfer returns. */
    method Show(transmitStatus: Status, waitStatus: Status) returns (st: Status)
      requires Valid()
      modifies this
      ensures Valid()
      ensures channel == old(channel) && encoder == old(encoder) && buf == old(buf)
      ensures ledCount == old(ledCount) && gpio == old(gpio) && channelConfig == old(channelConfig)
      ensures !channel || encoder == null ==> st == ErrInvalidState && transmitted == old(transmitted)
      ensures channel && encoder != null ==>
        && buf != null
        && transmitted == old(transmitted) + [buf[..]]
        && |buf[..]| == 3 * ledCount
        && st == (if transmitStatus != Ok then transmitStatus else waitStatus)
    {
      if !channel || encoder == null {
        return ErrInvalidState;
      }
      transmitted := transmitted + [buf[..]];
      if transmitStatus != Ok {
        return transmitStatus;
      }
      return waitStatus;
    }

    /** ws2812_set_pixel: bytes 3i, 3i+1, 3i+2 become g, r, b; nothing
        happens without a buffer or for an index past the last LED. */
    method SetPixel(i: U32, r: U8, g: U8, b: U8)
      requires BufferSized()
      modifies buf
      ensures buf == null || i >= ledCount ==> buf == null || buf[..] == old(buf[..])
      ensures buf != null && i < ledCount ==> buf[..] == WithPixel(old(buf[..]), i, Color(r, g, b))
    {
      if buf == null || i >= ledCount {
        return;
      }
      var o := i * 3;
      buf[o] := g;
      buf[o + 1] := r;
      buf[o + 2] := b;
    }

    /** ws2812_fill: every pixel becomes (r, g, b). */
    method Fill(r: U8, g: U8, b: U8)
      requires BufferSized()
      modifies buf
      ensures buf != null ==> buf[..] == Solid(ledCount, Color(r, g, b))
    {
      var c := Color(r, g, b);
      var i: U32 := 0;
      while i < ledCount
        invariant 0 <= i <= ledCount
        invariant buf != null ==> forall k :: 0 <= k < i ==> PixelAt(buf[..], k) == c
      {
        ghost var pre := if buf == null then [] else buf[..];
        SetPixel(i, r, g, b);
        if buf != null {
          forall k | 0 <= k < i + 1
            ensures PixelAt(buf[..], k) == c
          {
            SetPixelIsLocal(pre, i, k, c);
          }
        }
        i := i + 1;
      }
      if buf != null {
        SolidFromPixels(buf[..], ledCount, c);
      }
    }

    /** ws2812_clear: all led_count * 3 bytes become zero. */
    method Clear()
      requires BufferSized()
      modifies buf
      ensures buf != null ==> buf[..] == Solid(ledCount, BLACK)
    {
      if buf != null {
        forall j | 0 <= j < buf.Length {
          buf[j] := 0;
        }
        ZeroBufferIsBlack(buf[..], ledCount);
      }
    }

    /** ws2812_get_count: 0 before any init; otherwise the count given to the
        last init that ran while no channel existed (init does nothing once a
        channel exists). A buffer, when there is one, holds that many pixels. */
    function GetCount(): (n: U32)
      reads this, encoder
      requires Valid()
      ensures buf != null ==> buf.Length == 3 * n
      ensures n == ledCount
    {
      ledCount
    }
  }

  /** A buffer of `count` pixels that all show c is the solid buffer. */
  lemma {:induction false} SolidFromPixels(bytes: seq<U8>, count: nat, c: Color)
    requires |bytes| == 3 * count
    requires forall k :: 0 <= k < count ==> PixelAt(bytes, k) == c
    ensures bytes == Solid(count, c)
  {
    if count > 0 {
      var front := bytes[..3 * (count - 1)];
      forall k | 0 <= k < count - 1
        ensures PixelAt(front, k) == c
      {
        assert PixelAt(front, k) == PixelAt(bytes, k);
      }
      SolidFromPixels(front, count - 1, c);
      assert PixelAt(bytes, count - 1) == c;
      assert bytes == front + [c.g, c.r, c.b];
    } else {
      assert bytes == [];
    }
  }

  lemma {:induction false} ZeroBufferIsBlack(bytes: seq<U8>, count: nat)
    requires |bytes| == 3 * count
    requires forall j :: 0 <= j < |bytes| ==> bytes[j] == 0
    ensures bytes == Solid(count, BLACK)
  {
    if count > 0 {
      var front := bytes[..3 * (count - 1)];
      ZeroBufferIsBlack(front, count - 1);
      assert bytes == front + [0, 0, 0];
    } else {
      assert bytes == [];
    }
  }

  /** Setting one pixel changes that pixel only. */
  lemma SetPixelIsLocal(bytes: seq<U8>, i: nat, k: nat, c: Color)
    requires 3 * i + 3 <= |bytes| && 3 * k + 3 <= |bytes|
    ensures PixelAt(WithPixel(bytes, i, c), k) == (if k == i then c else PixelAt(bytes, k))
  {
  }

  /** Filling then reading any pixel gives the fill colour, in wire order G, R, B. */
  lemma FillWireOrder(count: nat, c: Color, k: nat)
    requires k < count
    ensures Solid(count, c)[3 * k] == c.g
    ensures Solid(count, c)[3 * k + 1] == c.r
    ensures Solid(count, c)[3 * k + 2] == c.b
  {
    SolidPixels(count, c, k);
  }
}
