# ESP32 LED controller core, modelled in Dafny

This is a model of the four components that turn stored animations into
light on a WS2812 ("NeoPixel") chain driven by an ESP32.

- **ws2812** drives the chain through an RMT transmit channel. The channel
  runs at 10 MHz. A custom RMT encoder first hands the pixel bytes to a
  *bytes* sub-encoder, which uses the WS2812 bit timings. It then hands one
  80 µs low reset symbol to a *copy* sub-encoder. A small two-state machine
  (SEND_DATA / SEND_RESET) lets the encoding resume after the RMT memory
  fills up. The driver keeps a frame buffer of `3 * count` bytes in wire
  order G, R, B. It offers init, show, set_pixel, fill, clear and get_count.
- **effects_storage** reads effect files from `/fx/<name>`. A file is a
  12-byte little-endian header followed by the frames:
  - the header holds the magic number `0x4D525847` (stored as the bytes "GXRM"),
    version 1, a 16-bit frame count, a 16-bit LEDs-per-frame and a 16-bit
    frame delay;
  - each frame is `leds * 3` bytes.

  effects_open checks the header, reads the whole payload and returns a
  handle. get_info and get_frame read from the handle. close releases it.
- **led_topology** maps a logical LED index onto a physical one. The chain
  is a sequence of strips, some of them mounted reversed. It offers init,
  total_leds and map.
- **led_effects** is the effect scheduler. It binds a topology and a
  current effect. Every tick calls the effect's render function once, with
  the current time, the milliseconds since the previous tick and full
  brightness.

Modules:

- `EspTypes` (`esp_types.dfy`) holds the 8/16/32-bit integer types, the
  `esp_err_t` codes as `Status`, and `Option` and `Result`.
- `Ws2812` (`ws2812.dfy`) has these parts:
  - The RMT encoder is a class `Encoder`. Its state is the phase and the
    log of calls made to its two sub-encoders.
  - What a sub-encoder does in one call (how many symbols it produced, and
    whether it completed or filled the memory) is a parameter. The model
    does not compute it.
  - The specification functions `PhaseOf`, `Legal` and `Encoded` summarise
    the log. They are proved to mean what the state machine promises: the
    encoder is in SEND_RESET exactly when data has completed since the last
    reset.
  - The driver's static variables are a class `Driver`. Its frame buffer
    is an `array`. Each transfer handed to `rmt_transmit` is recorded.
- `EffectsStorage` (`effects_storage.dfy`) has these parts:
  - The file format: a decoder and an encoder for the header, with both
    round trips.
  - A pure reader `ParseContainer`.
  - A writer `Serialize`, used to state that writing an effect and
    reading it back gives the same frames.
  - `Open`, which performs the reads step by step against a file system
    given as a map from paths to contents, and is proved to agree with
    `ParseContainer`.
- `LedTopology` (`led_topology.dfy`) has two parts:
  - The strip walk is a recursive function, `MapFrom` / `PhysicalIndex`.
    On a topology whose LED count fits in 16 bits it is proved to be an
    involution, and therefore a permutation.
  - The component's static state is a class `Mapper`, whose `Map` loop is
    proved against that function.
- `LedEffects` (`led_effects.dfy`) models the scheduler as a class `Engine`
  with a record of the render calls made. A lemma proves that the reported
  deltas add up, modulo 2^32, to the elapsed time, across the clock's
  wrap-around, while the clock is running and no tick falls at time 0 (a
  tick at 0 restores the "not started" sentinel). Fixed call sequences show the behaviours at the edges.

Integer widths follow the code where the model lets them wrap:

- the topology arithmetic is `uint16_t`: the LED total, the logical and
  physical indices, and the clamp `total - 1`;
- times and deltas are `uint32_t`;
- the ws2812 pixel index and count are `uint32_t`, but nothing wraps there.

The `size_t` products (`count * 3` and `leds * 3 * frames`) and the encoded
symbol count are exact in the model. The ESP32's `size_t` is 32 bits wide.
The two places where that width matters appear only in
`Ws2812.BufSizeAsWritten` and `EffectsStorage.PayloadSizeAsWritten`, under
Findings.

### Where the code and its written design differ (the model follows the code)

- `led_topology_map` with no LEDs returns `s_total_leds - 1` in `uint16_t`,
  which is `0xFFFF`. On an index past the last LED it returns the last LED.
  `PhysicalIndex` and `MapClamps` state both cases.
- `led_effects_set` is accepted before `led_effects_init`. A tick in that
  state does nothing.
- `ws2812_init` sets the count and the GPIO pin before the buffer is
  allocated, so they stay set when the allocation fails.
  - If the channel was created but the encoder could not be, the next
    `ws2812_init` returns `ESP_OK` without doing anything, and `ws2812_show`
    then returns `ESP_ERR_INVALID_STATE`.
- In SEND_RESET, when the copy sub-encoder reports neither completion nor
  full memory, the encoder leaves the caller's `ret_state` untouched.
- When the bytes sub-encoder reports neither completion nor full memory,
  the encoder stays in SEND_DATA and still reports COMPLETE.

## Model

| member | source | states |
|---|---|---|
| Ws2812.TicksToNs | components/ws2812/ws2812.c:16-17 | a tick count at the 10 MHz RMT resolution is converted exactly to nanoseconds |
| Ws2812.WireTiming | components/ws2812/ws2812.c:19-27 | bit 0 is 0.4 µs high then 0.9 µs low, bit 1 is 0.8 µs high then 0.5 µs low, bytes go MSB first, and the reset symbol is 800 ticks = 80 µs low |
| Ws2812.After | components/ws2812/ws2812.c:73-76 | the phase after one sub-encoder call: a completed data encode moves to SEND_RESET (73-76), a completed reset symbol back to SEND_DATA (102-104), an encoder reset to SEND_DATA (119), anything else keeps the phase |
| Ws2812.PhaseOfHistory | components/ws2812/ws2812.c:63-110 | the encoder is in SEND_RESET exactly when a data encode has completed since the last reset or completed reset symbol |
| Ws2812.ArmedByLast | components/ws2812/ws2812.c:73-76 | a completed data encode puts the encoder in SEND_RESET |
| Ws2812.ClearedByLast | components/ws2812/ws2812.c:102-104 | a completed reset symbol, or an encoder reset, returns to SEND_DATA |
| Ws2812.KeptByLast | components/ws2812/ws2812.c:63-110 | any other sub-encoder call leaves the phase unchanged |
| Ws2812.AppendCall | components/ws2812/ws2812.c:52-125 | one more sub-encoder call moves the phase by one transition, keeps the history legal exactly when the call is allowed in the current phase, and adds its symbols to the total |
| Ws2812.LegalAt | components/ws2812/ws2812.c:63-110 | every call in a legal history was allowed by the phase the encoder was in at that moment |
| Ws2812.ResetFollowsData | components/ws2812/ws2812.c:84-110 | the copy sub-encoder only ever receives the 80 µs reset symbol, and only after the data has completed |
| Ws2812.Encoder.constructor | components/ws2812/ws2812.c:144-159 | a new encoder starts in SEND_DATA with the WS2812 bytes configuration and no history |
| Ws2812.Encoder.Encode | components/ws2812/ws2812.c:52-114 | data is encoded first in SEND_DATA; on full memory it returns early with the data flags; otherwise the reset symbol is sent in SEND_RESET with COMPLETE / MEM_FULL / unchanged ret_state; it reports COMPLETE when neither runs; the returned count is the symbols added by this call |
| Ws2812.Encoder.SendResetSymbol | components/ws2812/ws2812.c:84-110 | one copy-encoder call with the reset symbol; COMPLETE returns to SEND_DATA, otherwise MEM_FULL or the caller's state is reported |
| Ws2812.Encoder.Reset | components/ws2812/ws2812.c:116-125 | back to SEND_DATA, both sub-encoders reset, ESP_OK |
| Ws2812.NewEncoder | components/ws2812/ws2812.c:142-175 | NO_MEM when calloc fails, otherwise the first failing sub-encoder status; on success a fresh encoder in SEND_DATA with the WS2812 configuration |
| Ws2812.WithPixel | components/ws2812/ws2812.c:242-245 | writing pixel i sets its colour in G,R,B order and leaves every other byte unchanged |
| Ws2812.Solid | components/ws2812/ws2812.c:248-252 | a buffer of count pixels is 3 * count bytes |
| Ws2812.SolidPixels | components/ws2812/ws2812.c:248-252 | every pixel of a solid buffer has the fill colour |
| Ws2812.SolidFromPixels | components/ws2812/ws2812.c:248-252 | a 3 * count buffer whose every pixel has colour c is the solid buffer of c |
| Ws2812.ZeroBufferIsBlack | components/ws2812/ws2812.c:254-258 | an all-zero buffer is the solid black buffer |
| Ws2812.SetPixelIsLocal | components/ws2812/ws2812.c:238-246 | set_pixel changes pixel i and no other pixel |
| Ws2812.FillWireOrder | components/ws2812/ws2812.c:243-245 | after fill every pixel's bytes are green, red, blue in that order |
| Ws2812.BufSizeAsWritten | components/ws2812/ws2812.c:187 | the buffer size init computes: `count * 3` in a 32-bit `size_t`, reduced modulo 2^32 |
| Ws2812.BufferWrapsAsWritten | components/ws2812/ws2812.c:187 | as written, count 0x55555556 gives a 2-byte buffer for 0x55555556 LEDs |
| Ws2812.Driver.constructor | components/ws2812/ws2812.c:29-34 | no channel, no encoder, no buffer, count 0, GPIO -1 |
| Ws2812.TxConfig | components/ws2812/ws2812.c:193-200 | the channel settings init passes to rmt_new_tx_channel: the given pin, the default clock source, 10 MHz, 64 memory-block symbols, queue depth 4, DMA on |
| Ws2812.Driver.Init | components/ws2812/ws2812.c:179-219 | a second init is a no-op returning OK; otherwise count and pin are recorded, then buffer allocation (a zeroed buffer of exactly 3 * count bytes), channel creation with the recorded TX configuration (default clock, 10 MHz, 64 symbols, queue depth 4, DMA), encoder creation and enable happen in order, and the first failure is returned |
| Ws2812.Driver.Show | components/ws2812/ws2812.c:221-236 | INVALID_STATE without a channel and an encoder; otherwise the whole 3 * count byte buffer is transmitted and the transmit error or the wait status is returned |
| Ws2812.Driver.SetPixel | components/ws2812/ws2812.c:238-246 | an index past the count, or a missing buffer, changes nothing; otherwise exactly pixel i becomes (r, g, b) |
| Ws2812.Driver.Fill | components/ws2812/ws2812.c:248-252 | the buffer becomes count pixels of the given colour |
| Ws2812.Driver.Clear | components/ws2812/ws2812.c:254-258 | the buffer becomes count black pixels |
| Ws2812.Driver.GetCount | components/ws2812/ws2812.c:260-263 | 0 before any init; otherwise the count given to the last init that ran while no channel existed (init is a no-op once a channel exists); it is the buffer's pixel count |
| EffectsStorage.HeaderRoundTrip | components/effects_storage/effects_storage.c:19-26 | decoding an encoded header gives the header back |
| EffectsStorage.HeaderBytesRoundTrip | components/effects_storage/effects_storage.c:19-26 | encoding a decoded header gives the first 12 bytes back |
| EffectsStorage.LE16OfBytes | components/effects_storage/effects_storage.c:19-26 | the little-endian reading of a 16-bit field's bytes is the field |
| EffectsStorage.LE32OfBytes | components/effects_storage/effects_storage.c:19-26 | the little-endian reading of a 32-bit field's bytes is the field |
| EffectsStorage.BytesOfLE16 | components/effects_storage/effects_storage.c:19-26 | the bytes of a little-endian 16-bit value are the bytes it was read from |
| EffectsStorage.BytesOfLE32 | components/effects_storage/effects_storage.c:19-26 | the bytes of a little-endian 32-bit value are the bytes it was read from |
| EffectsStorage.MagicBytes | components/effects_storage/effects_storage.c:10-11 | the magic number is the bytes "GXRM" in file order |
| EffectsStorage.ParseWrittenHeader | components/effects_storage/effects_storage.c:87-98 | a written header with the right magic and version passes the header checks |
| EffectsStorage.ParseAfterWrittenHeader | components/effects_storage/effects_storage.c:87-115 | after a valid written header the reader keeps exactly the declared number of payload bytes, or fails with ESP_FAIL when fewer follow |
| EffectsStorage.DecodeHeader | components/effects_storage/effects_storage.c:19-26 | the packed header read from the first 12 bytes: a little-endian u32 magic and four little-endian u16 fields, in declaration order |
| EffectsStorage.ParseHeader | components/effects_storage/effects_storage.c:87-98 | the header step of effects_open: fewer than 12 bytes is ESP_FAIL, a wrong magic or version is ESP_ERR_INVALID_VERSION, otherwise the decoded header |
| EffectsStorage.ParseContainer | components/effects_storage/effects_storage.c:87-131 | the pure reader `Open` is proved against: the header step, then ESP_FAIL unless leds * 3 * frames payload bytes follow, otherwise the info and exactly those bytes |
| EffectsStorage.OpenStatus | components/effects_storage/effects_storage.c:78-137 | the status effects_open returns, in the order of its checks: NOT_FOUND, the header errors, NO_MEM for the payload, FAIL for a short payload, NO_MEM for the handle, then OK |
| EffectsStorage.FrameSize | components/effects_storage/effects_storage.c:100 | the bytes of one frame: leds_per_frame * 3, in exact arithmetic (also the stride of get_frame at line 157) |
| EffectsStorage.PayloadSize | components/effects_storage/effects_storage.c:101 | the payload length a header declares: frame_size * frame_count, in exact arithmetic |
| EffectsStorage.PayloadSizeAsWritten | components/effects_storage/effects_storage.c:100-101 | the payload size as the code computes it: `leds * 3 * frames` reduced modulo 2^32 |
| EffectsStorage.ParseContainerAsWritten | components/effects_storage/effects_storage.c:87-115 | the reader with the wrapped payload size: it accepts a file once the wrapped number of bytes follows the header |
| EffectsStorage.FrameAt | components/effects_storage/effects_storage.c:157-158 | frame k is the FrameSize bytes starting at k * FrameSize |
| EffectsStorage.ParseAcceptsIff | components/effects_storage/effects_storage.c:87-115 | a file is accepted exactly when it has a full header, the right magic and version, and at least frames * leds * 3 payload bytes; the accepted payload is exactly those bytes |
| EffectsStorage.ShortHeaderRejected | components/effects_storage/effects_storage.c:87-92 | a file shorter than the header fails with ESP_FAIL |
| EffectsStorage.WrongTagRejected | components/effects_storage/effects_storage.c:94-98 | a wrong magic fails with ESP_ERR_INVALID_VERSION |
| EffectsStorage.FlattenLength | components/effects_storage/effects_storage.c:100-101 | frames of n bytes concatenate to count * n bytes |
| EffectsStorage.FlattenSlice | components/effects_storage/effects_storage.c:157-158 | frame k sits at bytes k * n to k * n + n of the concatenation |
| EffectsStorage.FlattenFrames | components/effects_storage/effects_storage.c:152-159 | get_frame's slice of a written payload is the frame that was written |
| EffectsStorage.RoundTrip | components/effects_storage/effects_storage.c:78-137 | a serialized effect, with any trailing bytes, is read back with its info and exactly its frames |
| EffectsStorage.TruncatedRejected | components/effects_storage/effects_storage.c:110-115 | cutting any bytes off the payload makes the read fail with ESP_FAIL |
| EffectsStorage.ThreeFrameExample | components/effects_storage/effects_storage.c:78-159 | a concrete 3-frame 2-LED file is read back with frame 1 intact |
| EffectsStorage.WrappedPayloadAccepted | components/effects_storage/effects_storage.c:100-115 | as written, a header claiming 62571 frames of 45761 LEDs followed by a single byte is accepted with a 1-byte payload |
| EffectsStorage.EffectPath | components/effects_storage/effects_storage.c:80-81 | the path is "/fx/" + name, truncated to fit the 128-byte buffer with its terminator |
| EffectsStorage.LongNamesShareAPath | components/effects_storage/effects_storage.c:80-81 | two long names that agree on their first 123 characters open the same file |
| EffectsStorage.FRead | components/effects_storage/effects_storage.c:87-115 | fread never returns more than the bytes asked for |
| EffectsStorage.EffectHandle.constructor | components/effects_storage/effects_storage.c:119-131 | the handle holds the header's info and the payload of frames * leds * 3 bytes |
| EffectsStorage.Open | components/effects_storage/effects_storage.c:78-137 | NOT_FOUND for a missing file, FAIL for a short header or payload, INVALID_VERSION for a bad magic or version, NO_MEM when an allocation fails, in the code's order; on OK a fresh open handle that holds exactly what the file parses to |
| EffectsStorage.Close | components/effects_storage/effects_storage.c:139-145 | a null handle is ignored, otherwise the handle is released |
| EffectsStorage.GetInfo | components/effects_storage/effects_storage.c:147-150 | null for a null handle, otherwise the stored info |
| EffectsStorage.GetFrame | components/effects_storage/effects_storage.c:152-159 | null for a null handle or an index past the frame count, otherwise the FrameSize bytes of that frame |
| EffectsStorage.OpenedFramesAreWritten | components/effects_storage/effects_storage.c:78-159 | on a handle opened from a written effect, get_frame(k) is the k-th frame written |
| LedTopology.TotalLeds | components/led_topology/led_topology.c:12-17 | what s_total_leds holds: the strips' LED counts accumulated in uint16_t, i.e. their sum modulo 2^16 |
| LedTopology.Place | components/led_topology/led_topology.c:40-47 | the physical position of local LED `local` of a strip starting at `base`: base + local, or base + (count - 1 - local) when the strip is reversed |
| LedTopology.MapFrom | components/led_topology/led_topology.c:32-51 | the strip walk in exact arithmetic: the first strip whose range holds the index places it (offset + local, or mirrored when reversed); None when no strip does |
| LedTopology.PhysicalIndex | components/led_topology/led_topology.c:28-55 | led_topology_map: the walk's placement truncated to uint16_t, or the clamp `s_total_leds - 1` in uint16_t when no strip holds the index |
| LedTopology.MapFromNoneIff | components/led_topology/led_topology.c:32-51 | the walk finds no strip exactly when the index is past the last LED |
| LedTopology.MapFromInRange | components/led_topology/led_topology.c:32-51 | an index inside the LEDs is placed inside the LEDs |
| LedTopology.MapFromInvolution | components/led_topology/led_topology.c:32-51 | placing a placed index gives the original index back |
| LedTopology.MapFromAtStrip | components/led_topology/led_topology.c:36-47 | an index in strip k is placed in strip k: offset + local, or offset + count - 1 - local when reversed |
| LedTopology.MapFromIgnoresEmpty | components/led_topology/led_topology.c:32-51 | strips of zero LEDs change neither the sum nor the walk |
| LedTopology.MapWithinStrip | components/led_topology/led_topology.c:36-47 | map keeps an index inside its own strip, mirrored when the strip is reversed |
| LedTopology.MapClamps | components/led_topology/led_topology.c:53-54 | an index past the last LED maps to total - 1 in uint16_t: the last LED, or 0xFFFF when there are none |
| LedTopology.MapIsPermutation | components/led_topology/led_topology.c:28-55 | on a chain whose LED count fits in 16 bits, map sends the LEDs onto themselves, injectively and onto |
| LedTopology.MapIsInvolution | components/led_topology/led_topology.c:28-55 | map applied twice to an LED index gives it back |
| LedTopology.EmptyStripsNeverMatch | components/led_topology/led_topology.c:36 | zero-length strips never match an index |
| LedTopology.ReversedStripExample | components/led_topology/led_topology.c:28-55 | on strips of 10 (forward) and 5 (reversed) LEDs, 10 maps to 14, 14 to 10, 12 to 12, and the past-the-end 15 is clamped to 14 |
| LedTopology.MapFromStep | components/led_topology/led_topology.c:32-51 | one pass of the loop either returns the placement in strip i or moves base past strip i |
| LedTopology.Mapper.constructor | components/led_topology/led_topology.c:6-7 | no topology, total 0 |
| LedTopology.Mapper.Init | components/led_topology/led_topology.c:9-21 | the topology is bound and the total is the LED sum modulo 2^16 |
| LedTopology.Mapper.Total | components/led_topology/led_topology.c:23-26 | 0 before init, otherwise the LED sum modulo 2^16, which is the exact sum when that fits |
| LedTopology.Mapper.Map | components/led_topology/led_topology.c:28-55 | the running-base loop returns the strip walk's placement, or the clamp |
| LedEffects.Delta | components/led_effects/led_effects.c:32 | 0 the first time; otherwise the uint32_t difference, which added to the previous time gives now modulo 2^32 and is the plain difference when the clock did not wrap |
| LedEffects.Engine.constructor | components/led_effects/led_effects.c:3-6 | no topology, no effect, last time 0 |
| LedEffects.Engine.Init | components/led_effects/led_effects.c:8-15 | a NULL topology is INVALID_ARG and changes nothing; otherwise the topology is bound and the clock restarts; the effect is kept |
| LedEffects.Engine.Set | components/led_effects/led_effects.c:17-23 | a NULL effect or one without a render function is INVALID_ARG and changes nothing; otherwise it becomes current; the clock is kept |
| LedEffects.Engine.Tick | components/led_effects/led_effects.c:25-38 | does nothing without a topology and an effect; otherwise it renders once with the topology, the time, the delta, full brightness and the effect's context, and remembers the time |
| LedEffects.TickRun | components/led_effects/led_effects.c:25-38 | a run of ticks reports one delta per tick |
| LedEffects.TickRunAt | components/led_effects/led_effects.c:32-35 | the k-th delta of a run is the delta from the previous tick (or from the starting time) to the k-th tick |
| LedEffects.DeltasAddUp | components/led_effects/led_effects.c:30-35 | once the clock runs, and while no tick falls at time 0, the deltas of a run of ticks add up modulo 2^32 to the elapsed time |
| LedEffects.TickAll | components/led_effects/led_effects.c:25-38 | ticking an active engine through a run of times renders once per tick; the reported deltas are exactly the run's deltas from the engine's last time; once the clock runs, and while no tick falls at time 0, they add up modulo 2^32 to the elapsed time |
| LedEffects.TwoTicks | components/led_effects/led_effects.c:8-38 | ticks at 1000 and 1050 after init report deltas 0 and 50, with the bound topology and the effect's context |
| LedEffects.TickAtZero | components/led_effects/led_effects.c:32 | a tick at time 0 leaves the sentinel, so the next delta is 0 again |
| LedEffects.TickAcrossWrap | components/led_effects/led_effects.c:32 | a tick 0x20 ms after 0xFFFFFFF0 reports 0x20 |
| LedEffects.ClockResets | components/led_effects/led_effects.c:8-38 | only init restarts the clock; changing the effect does not; rejected calls change nothing |

## Left out

- The RMT driver, the ESP-IDF allocator and the LittleFS file system are not part of this model. The following are inputs to the modelled methods:
  - the results of `rmt_new_tx_channel`, `rmt_new_bytes_encoder`, `rmt_new_copy_encoder`, `rmt_enable`, `rmt_transmit` and `rmt_tx_wait_all_done`;
  - whether `malloc`, `calloc` and `heap_caps_malloc` succeed;
  - the contents of the files.
- The bit-to-symbol conversion inside the bytes and copy sub-encoders is not modelled. Each of their calls is a given symbol count and state flags.
- The RMT channel configuration is recorded, not interpreted. `Driver.Init` records `TxConfig(gpio)`: the default clock source, 10 MHz, 64 memory-block symbols, queue depth 4 and DMA on. How the driver uses these settings, and the GPIO number, is not modelled.
- `ws2812_del` is not modelled. It frees the sub-encoders and the encoder, nothing in the core calls it, and releasing memory is not modelled.
- `ws2812_deinit` has no implementation; it is only declared in `components/ws2812/include/ws2812.h`.
- Memory leaks are not modelled. One is the encoder `ws2812_new_encoder` leaks when a sub-encoder cannot be created. Another is the earlier buffer `ws2812_init` drops when it is called again after a failure.
- `effects_init`, `effects_list` and `effects_list_free` mount and list a directory. They are not modelled; the file system is a map from paths to contents.
- EffectsStorage.Close: the two `free` calls of `effects_close` are modelled as the ghost `closed` flag. The FILE handle of `effects_open` and its `fclose` calls are not modelled. A use after close is not modelled as undefined behaviour. Instead, `GetInfo` and `GetFrame` require a handle that is not closed.
- EffectsStorage.GetFrame: returns a copy of the frame's bytes, where the code returns a pointer into the handle's buffer. Aliasing of that pointer is not modelled.
- EffectsStorage.GetInfo: returns the info by value, where the code returns a pointer to it.
- EffectsStorage.Open: computes the payload size without the 32-bit wrap. The code as written is `EffectsStorage.ParseContainerAsWritten`, described under Findings.
- Ws2812.Driver.Init: allocates exactly `3 * count` bytes. The 32-bit `size_t` product of the code is `Ws2812.BufSizeAsWritten` (see Findings). The same product in `set_pixel`, `clear` and the `show` length is exact in the model.
- Ws2812.Encoder.Encode: the `size_t` sum of encoded symbols is unbounded in the model.
- LedTopology.Mapper.Map: requires that init has run. The code dereferences a NULL topology there.
- LedTopology.Mapper.Init: takes the topology as a value. The later changes a caller could make through the stored pointer are not modelled, and neither is a NULL argument, which the code dereferences.
- LedEffects.Engine.Set: copies the effect descriptor by value. The code keeps the caller's pointer, and `led_effects_tick` reads `render` and `user_ctx` through it on every tick, so later changes the caller makes to its `led_effect_t` (another context, a NULL render) are not modelled. The invariant that the current effect has a render function holds for the stored copy only.
- LedEffects.Engine.Tick: records each render call with its arguments and does not run it. What a render function does to the LEDs is not modelled. The topology pointer is stored as a value.
- EffectsStorage.EffectPath: a name is a sequence of characters and is truncated after 123 of them. `snprintf` counts bytes and stops at a NUL byte. The model therefore matches the code only for ASCII names without NUL. A name with multi-byte UTF-8 characters is cut at a different place in the code, possibly inside a character.
- EffectsStorage.LongNamesShareAPath: "the first 123 characters" means "the first 123 bytes" in the code. The lemma holds as stated only for ASCII names without NUL, as for `EffectsStorage.EffectPath`.
- The effect implementations (`effect_breathe.c`), the configuration system, the file-system helper, `main.c` and the build logger script are outside this core.
- Logging and concurrency are not modelled. All calls are assumed to come from one task.

## Findings

| source | as written | input that shows it | evidently intended | confidence | as-written member | corrected member |
|---|---|---|---|---|---|---|
| components/ws2812/ws2812.c:187 | `count * 3` is computed in 32-bit `size_t` | `ws2812_init(gpio, 0x55555556)`: the product wraps to 2, a 2-byte buffer is allocated, and `set_pixel` for any index up to 0x55555555 writes past it. | a buffer of exactly 3 bytes per LED, or a refusal | not executed | Ws2812.BufferWrapsAsWritten | Ws2812.Driver.Init |
| components/effects_storage/effects_storage.c:100-115 | `frame_size * frame_count` is computed in 32-bit `size_t` | a header of 62571 frames of 45761 LEDs followed by one byte: 137283 * 62571 wraps to 1, so the file opens with a 1-byte payload. `effects_get_frame(h, 0)` then returns a pointer to it, and a caller that reads the frame's 137283 bytes reads past the buffer | the file is rejected unless it holds every frame the header announces | not executed | EffectsStorage.WrappedPayloadAccepted | EffectsStorage.ParseAcceptsIff |
