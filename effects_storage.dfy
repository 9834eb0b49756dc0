/** The binary effect container and its reader (components/effects_storage).

    A container is a 12-byte little-endian header
      offset 0  magic            u32  0x4D525847 (bytes 'G' 'X' 'R' 'M')
      offset 4  version          u16  1
      offset 6  frame_count      u16
      offset 8  leds_per_frame   u16
      offset 10 frame_delay_ms   u16
    followed by frame_count * leds_per_frame * 3 bytes of RGB samples,
    frame-major. */
module EffectsStorage {
  import opened EspTypes

  const EFFECT_MAGIC: U32 := 0x4D52_5847
  const EFFECT_VERSION: U16 := 1
  const HEADER_SIZE: nat := 12
  const EFFECTS_BASE_PATH: string := "/fx"
  /** Size of the path buffer effects_open formats into. */
  const PATH_CAPACITY: nat := 128

  /** effect_header_t, field by field. */
  datatype Header = Header(magic: U32, version: U16, frameCount: U16, ledsPerFrame: U16, frameDelayMs: U16)

  /** effect_info_t: what a handle tells its users. */
  datatype EffectInfo = EffectInfo(frameCount: U16, ledsPerFrame: U16, frameDelayMs: U16)

  /** What a successful open keeps: the info and exactly the declared payload. */
  datatype Container = Container(info: EffectInfo, frames: seq<U8>)

  // ---------------------------------------------------------------------
  // Little-endian fields

  function LE16(b: seq<U8>, at: nat): U16
    requires at + 2 <= |b|
  {
    b[at] as int + 0x100 * b[at + 1] as int
  }

  function LE32(b: seq<U8>, at: nat): U32
    requires at + 4 <= |b|
  {
    b[at] as int + 0x100 * b[at + 1] as int + 0x1_0000 * b[at + 2] as int + 0x100_0000 * b[at + 3] as int
  }

  function U16Bytes(x: U16): (r: seq<U8>)
    ensures |r| == 2
  {
    [x % 0x100, x / 0x100]
  }

  function U32Bytes(x: U32): (r: seq<U8>)
    ensures |r| == 4
  {
    [x % 0x100, x / 0x100 % 0x100, x / 0x100 / 0x100 % 0x100, x / 0x100 / 0x100 / 0x100]
  }

  /** The packed header read from its first 12 bytes. */
  function DecodeHeader(b: seq<U8>): Header
    requires |b| >= HEADER_SIZE
  {
    Header(LE32(b, 0), LE16(b, 4), LE16(b, 6), LE16(b, 8), LE16(b, 10))
  }

  /** The 12 bytes a writer puts in front of the frames. */
  function EncodeHeader(h: Header): (r: seq<U8>)
    ensures |r| == HEADER_SIZE
  {
    U32Bytes(h.magic) + U16Bytes(h.version) + U16Bytes(h.frameCount)
      + U16Bytes(h.ledsPerFrame) + U16Bytes(h.frameDelayMs)
  }

  /** Decoding undoes encoding, field by field. */
  lemma HeaderRoundTrip(h: Header)
    ensures DecodeHeader(EncodeHeader(h)) == h
  {
    var b := EncodeHeader(h);
    var m, v, n, l, d := U32Bytes(h.magic), U16Bytes(h.version), U16Bytes(h.frameCount),
                         U16Bytes(h.ledsPerFrame), U16Bytes(h.frameDelayMs);
    assert b == m + v + n + l + d;
    assert b[0] == m[0] && b[1] == m[1] && b[2] == m[2] && b[3] == m[3];
    assert b[4] == v[0] && b[5] == v[1] && b[6] == n[0] && b[7] == n[1];
    assert b[8] == l[0] && b[9] == l[1] && b[10] == d[0] && b[11] == d[1];
    LE32OfBytes(h.magic);
    LE16OfBytes(h.version);
    LE16OfBytes(h.frameCount);
    LE16OfBytes(h.ledsPerFrame);
    LE16OfBytes(h.frameDelayMs);
  }

  lemma LE16OfBytes(x: U16)
    ensures LE16(U16Bytes(x), 0) == x
  {
  }

  lemma LE32OfBytes(x: U32)
    ensures LE32(U32Bytes(x), 0) == x
  {
    var q1 := x / 0x100;
    var q2 := q1 / 0x100;
    var q3 := q2 / 0x100;
    assert x == x % 0x100 + 0x100 * q1;
    assert q1 == q1 % 0x100 + 0x100 * q2;
    assert q2 == q2 % 0x100 + 0x100 * q3;
  }

  /** Splitting off the low byte of lo + 0x100 * hi. */
  lemma LowByte(lo: U8, hi: nat)
    ensures (lo + 0x100 * hi) % 0x100 == lo
    ensures (lo + 0x100 * hi) / 0x100 == hi
  {
  }

  lemma BytesOfLE16(lo: U8, hi: U8)
    ensures U16Bytes(lo + 0x100 * hi) == [lo, hi]
  {
    LowByte(lo, hi);
  }

  lemma BytesOfLE32(b0: U8, b1: U8, b2: U8, b3: U8)
    ensures U32Bytes(b0 + 0x100 * b1 + 0x1_0000 * b2 + 0x100_0000 * b3) == [b0, b1, b2, b3]
  {
    var x := b0 + 0x100 * b1 + 0x1_0000 * b2 + 0x100_0000 * b3;
    assert x == b0 + 0x100 * (b1 + 0x100 * (b2 + 0x100 * b3));
    LowByte(b0, b1 + 0x100 * (b2 + 0x100 * b3));
    LowByte(b1, b2 + 0x100 * b3);
    LowByte(b2, b3);
    LowByte(b3, 0);
  }

  /** Encoding undoes decoding: the 12 bytes are determined by the fields. */
  lemma HeaderBytesRoundTrip(b: seq<U8>)
    requires |b| >= HEADER_SIZE
    ensures EncodeHeader(DecodeHeader(b)) == b[..HEADER_SIZE]
  {
    BytesOfLE32(b[0], b[1], b[2], b[3]);
    BytesOfLE16(b[4], b[5]);
    BytesOfLE16(b[6], b[7]);
    BytesOfLE16(b[8], b[9]);
    BytesOfLE16(b[10], b[11]);
  }

  /** A file that starts with a written header carrying the magic and
      version passes the header step with exactly that header. */
  lemma ParseWrittenHeader(h: Header, rest: seq<U8>)
    requires h.magic == EFFECT_MAGIC && h.version == EFFECT_VERSION
    ensures ParseHeader(EncodeHeader(h) + rest) == Success(h)
  {
    assert (EncodeHeader(h) + rest)[..HEADER_SIZE] == EncodeHeader(h);
    HeaderRoundTrip(h);
  }

  /** After a written header, the reader keeps exactly the declared number
      of following bytes, or fails when fewer follow. */
  lemma ParseAfterWrittenHeader(h: Header, rest: seq<U8>)
    requires h.magic == EFFECT_MAGIC && h.version == EFFECT_VERSION
    ensures ParseContainer(EncodeHeader(h) + rest)
         == if |rest| < PayloadSize(h) then Failure(ErrFail)
            else Success(Container(InfoOf(h), rest[..PayloadSize(h)]))
  {
    ParseWrittenHeader(h, rest);
    var file := EncodeHeader(h) + rest;
    if |rest| >= PayloadSize(h) {
      assert file[HEADER_SIZE..HEADER_SIZE + PayloadSize(h)] == rest[..PayloadSize(h)];
    }
  }

  /** The magic number is stored as the bytes 'G' 'X' 'R' 'M'. */
  lemma MagicBytes()
    ensures U32Bytes(EFFECT_MAGIC) == ['G' as int, 'X' as int, 'R' as int, 'M' as int]
  {
  }

  // ---------------------------------------------------------------------
  // The reader, as a function of the file's bytes

  function FrameSize(ledsPerFrame: U16): nat
  {
    ledsPerFrame * 3
  }

  /** Number of payload bytes the header declares (exact arithmetic). */
  function PayloadSize(h: Header): nat
  {
    FrameSize(h.ledsPerFrame) * h.frameCount
  }

  function InfoOf(h: Header): EffectInfo
  {
    EffectInfo(h.frameCount, h.ledsPerFrame, h.frameDelayMs)
  }

  /** Header step of effects_open: a short file is an I/O failure, a wrong
      magic or version a version error. */
  function ParseHeader(file: seq<U8>): Result<Header>
  {
    if |file| < HEADER_SIZE then Failure(ErrFail)
    else
      var h := DecodeHeader(file[..HEADER_SIZE]);
      if h.magic != EFFECT_MAGIC || h.version != EFFECT_VERSION then Failure(ErrInvalidVersion)
      else Success(h)
  }

  /** The container a file holds, or the first error effects_open reports
      for it (leaving allocation failures aside). */
  function ParseContainer(file: seq<U8>): Result<Container>
  {
    match ParseHeader(file)
    case Failure(e) => Failure(e)
    case Success(h) =>
      if |file| - HEADER_SIZE < PayloadSize(h) then Failure(ErrFail)
      else Success(Container(InfoOf(h), file[HEADER_SIZE..HEADER_SIZE + PayloadSize(h)]))
  }

  /** The `k`-th frame of a payload. */
  function FrameAt(frames: seq<U8>, ledsPerFrame: U16, frameCount: nat, k: nat): (r: seq<U8>)
    requires k < frameCount && |frames| == frameCount * FrameSize(ledsPerFrame)
    ensures |r| == FrameSize(ledsPerFrame) && k * FrameSize(ledsPerFrame) + |r| <= |frames|
    ensures forall j :: 0 <= j < |r| ==> r[j] == frames[k * FrameSize(ledsPerFrame) + j]
  {
    FrameEndInPayload(k, frameCount, FrameSize(ledsPerFrame));
    frames[k * FrameSize(ledsPerFrame)..(k + 1) * FrameSize(ledsPerFrame)]
  }

  /** Frame k of `count` frames of `n` bytes ends inside the payload. */
  lemma FrameEndInPayload(k: nat, count: nat, n: nat)
    requires k < count
    ensures k * n <= (k + 1) * n <= count * n
  {
    assert count * n == (k + 1) * n + (count - k - 1) * n;
  }

  /** A file is accepted exactly when it has a whole header carrying the
      magic and version and at least the declared payload after it. */
  lemma ParseAcceptsIff(file: seq<U8>)
    ensures ParseContainer(file).Success? <==>
      && |file| >= HEADER_SIZE
      && DecodeHeader(file[..HEADER_SIZE]).magic == EFFECT_MAGIC
      && DecodeHeader(file[..HEADER_SIZE]).version == EFFECT_VERSION
      && |file| >= HEADER_SIZE + PayloadSize(DecodeHeader(file[..HEADER_SIZE]))
    ensures ParseContainer(file).Success? ==>
      var c := ParseContainer(file).value;
      && c.info == InfoOf(DecodeHeader(file[..HEADER_SIZE]))
      && |c.frames| == c.info.frameCount * FrameSize(c.info.ledsPerFrame)
      && c.frames == file[HEADER_SIZE..HEADER_SIZE + |c.frames|]
  {
  }

  /** A file shorter than the header is an I/O failure. */
  lemma ShortHeaderRejected(file: seq<U8>)
    requires |file| < HEADER_SIZE
    ensures ParseContainer(file) == Failure(ErrFail)
  {
  }

  /** A wrong magic or version is a version error, whatever follows. */
  lemma WrongTagRejected(file: seq<U8>)
    requires |file| >= HEADER_SIZE
    requires DecodeHeader(file[..HEADER_SIZE]).magic != EFFECT_MAGIC
          || DecodeHeader(file[..HEADER_SIZE]).version != EFFECT_VERSION
    ensures ParseContainer(file) == Failure(ErrInvalidVersion)
  {
  }

  // ---------------------------------------------------------------------
  // Writing a container, and reading it back

  /** Frames laid end to end, frame-major. */
  function Flatten(frames: seq<seq<U8>>): seq<U8>
  {
    if frames == [] then [] else frames[0] + Flatten(frames[1..])
  }

  /** All frames hold one RGB triplet per logical LED. */
  ghost predicate WellSized(frames: seq<seq<U8>>, ledsPerFrame: U16)
  {
    forall i :: 0 <= i < |frames| ==> |frames[i]| == FrameSize(ledsPerFrame)
  }

  /** The bytes a writer of `info` and `frames` produces. */
  function Serialize(info: EffectInfo, frames: seq<seq<U8>>): seq<U8>
  {
    EncodeHeader(Header(EFFECT_MAGIC, EFFECT_VERSION, info.frameCount, info.ledsPerFrame, info.frameDelayMs))
      + Flatten(frames)
  }

  lemma {:induction false} FlattenLength(frames: seq<seq<U8>>, n: nat)
    requires forall i :: 0 <= i < |frames| ==> |frames[i]| == n
    ensures |Flatten(frames)| == |frames| * n
  {
    if frames != [] {
      FlattenLength(frames[1..], n);
      assert |frames| * n == n + (|frames| - 1) * n;
    }
  }

  lemma {:induction false} FlattenSlice(frames: seq<seq<U8>>, n: nat, k: nat)
    requires forall i :: 0 <= i < |frames| ==> |frames[i]| == n
    requires k < |frames|
    ensures k * n + n <= |Flatten(frames)|
    ensures Flatten(frames)[k * n..k * n + n] == frames[k]
  {
    FlattenLength(frames, n);
    FrameEndInPayload(k, |frames|, n);
    var rest := Flatten(frames[1..]);
    assert Flatten(frames) == frames[0] + rest;
    if k == 0 {
      assert Flatten(frames)[..n] == frames[0];
    } else {
      FlattenSlice(frames[1..], n, k - 1);
      assert k * n == n + (k - 1) * n;
      assert Flatten(frames)[k * n..k * n + n] == rest[(k - 1) * n..(k - 1) * n + n];
    }
  }

  /** Frame k of the flattened payload is the k-th frame written. */
  lemma FlattenFrames(frames: seq<seq<U8>>, ledsPerFrame: U16)
    requires WellSized(frames, ledsPerFrame)
    ensures |Flatten(frames)| == |frames| * FrameSize(ledsPerFrame)
    ensures forall k :: 0 <= k < |frames| ==> FrameAt(Flatten(frames), ledsPerFrame, |frames|, k) == frames[k]
  {
    var n := FrameSize(ledsPerFrame);
    FlattenLength(frames, n);
    forall k | 0 <= k < |frames|
      ensures FrameAt(Flatten(frames), ledsPerFrame, |frames|, k) == frames[k]
    {
      FlattenSlice(frames, n, k);
      assert (k + 1) * n == k * n + n;
    }
  }

  /** Writing then reading gives back the info and every frame; bytes past
      the declared payload are ignored. */
  lemma RoundTrip(info: EffectInfo, frames: seq<seq<U8>>, trailing: seq<U8>)
    requires |frames| == info.frameCount
    requires WellSized(frames, info.ledsPerFrame)
    ensures ParseContainer(Serialize(info, frames) + trailing) == Success(Container(info, Flatten(frames)))
  {
    var h := Header(EFFECT_MAGIC, EFFECT_VERSION, info.frameCount, info.ledsPerFrame, info.frameDelayMs);
    var payload := Flatten(frames);
    assert PayloadSize(h) == |payload| by {
      FlattenFrames(frames, info.ledsPerFrame);
    }
    assert Serialize(info, frames) + trailing == EncodeHeader(h) + (payload + trailing);
    ParseAfterWrittenHeader(h, payload + trailing);
    assert (payload + trailing)[..|payload|] == payload;
  }

  /** Cutting any of the declared payload off a written container makes it
      fail to open: there is no partial-frame tolerance. */
  lemma TruncatedRejected(info: EffectInfo, frames: seq<seq<U8>>, cut: nat)
    requires |frames| == info.frameCount
    requires WellSized(frames, info.ledsPerFrame)
    requires 0 < cut <= |Flatten(frames)|
    ensures ParseContainer(Serialize(info, frames)[..|Serialize(info, frames)| - cut]) == Failure(ErrFail)
  {
    var h := Header(EFFECT_MAGIC, EFFECT_VERSION, info.frameCount, info.ledsPerFrame, info.frameDelayMs);
    var payload := Flatten(frames);
    FlattenFrames(frames, info.ledsPerFrame);
    var full := Serialize(info, frames);
    assert full[..|full| - cut] == EncodeHeader(h) + payload[..|payload| - cut];
    assert PayloadSize(h) == |payload| by {
      assert |payload| == |frames| * FrameSize(info.ledsPerFrame);
    }
    ParseAfterWrittenHeader(h, payload[..|payload| - cut]);
  }

  /** Three frames of two LEDs written with a known pattern come back frame by frame. */
  lemma ThreeFrameExample()
    ensures var info := EffectInfo(3, 2, 40);
      var frames := [[1, 2, 3, 4, 5, 6], [7, 8, 9, 10, 11, 12], [13, 14, 15, 16, 17, 18]];
      && ParseContainer(Serialize(info, frames)) == Success(Container(info, Flatten(frames)))
      && |Flatten(frames)| == 18
      && FrameAt(Flatten(frames), 2, 3, 0) == frames[0]
      && FrameAt(Flatten(frames), 2, 3, 1) == frames[1]
      && FrameAt(Flatten(frames), 2, 3, 2) == frames[2]
  {
    var info := EffectInfo(3, 2, 40);
    var frames: seq<seq<U8>> := [[1, 2, 3, 4, 5, 6], [7, 8, 9, 10, 11, 12], [13, 14, 15, 16, 17, 18]];
    assert Serialize(info, frames) + [] == Serialize(info, frames);
    RoundTrip(info, frames, []);
    FlattenFrames(frames, 2);
  }

  // ---------------------------------------------------------------------
  // The size_t product of effects_open, as written

  /** `frame_size * hdr.frame_count` computed in a 32-bit size_t. */
  function PayloadSizeAsWritten(h: Header): U32
  {
    PayloadSize(h) % U32_LIMIT
  }

  /** effects_open's checks with the wrapped payload size. */
  function ParseContainerAsWritten(file: seq<U8>): Result<Container>
  {
    match ParseHeader(file)
    case Failure(e) => Failure(e)
    case Success(h) =>
      if |file| - HEADER_SIZE < PayloadSizeAsWritten(h) then Failure(ErrFail)
      else Success(Container(InfoOf(h), file[HEADER_SIZE..HEADER_SIZE + PayloadSizeAsWritten(h)]))
  }

  /** A 13-byte file declaring 62571 frames of 45761 LEDs opens as written
      (3 * 45761 * 62571 = 2 * 2^32 + 1, so one payload byte is read), with a
      payload far shorter than frame 0; the exact reader rejects it. */
  lemma WrappedPayloadAccepted()
    ensures var file := EncodeHeader(Header(EFFECT_MAGIC, EFFECT_VERSION, 62571, 45761, 0)) + [0];
      && ParseContainerAsWritten(file).Success?
      && |ParseContainerAsWritten(file).value.frames| == 1
      && ParseContainerAsWritten(file).value.info.frameCount == 62571
      && FrameSize(45761) > 1
      && ParseContainer(file) == Failure(ErrFail)
  {
    var h := Header(EFFECT_MAGIC, EFFECT_VERSION, 62571, 45761, 0);
    ParseWrittenHeader(h, [0]);
    assert PayloadSize(h) == 2 * U32_LIMIT + 1;
  }

  // ---------------------------------------------------------------------
  // Files, handles and the public API

  /** The path effects_open formats with snprintf into a 128-byte buffer:
      anything past 127 characters is cut off. */
  function EffectPath(name: string): (p: string)
    ensures |p| < PATH_CAPACITY && |p| <= |EFFECTS_BASE_PATH + "/" + name|
    ensures p == (EFFECTS_BASE_PATH + "/" + name)[..|p|]
    ensures |name| < PATH_CAPACITY - 4 ==> p == "/fx/" + name
  {
    var full := EFFECTS_BASE_PATH + "/" + name;
    if |full| < PATH_CAPACITY then full else full[..PATH_CAPACITY - 1]
  }

  /** Names that agree on their first 123 characters open the same file once
      both are that long. */
  lemma LongNamesShareAPath(a: string, b: string)
    requires |a| >= PATH_CAPACITY - 5 && |b| >= PATH_CAPACITY - 5
    requires a[..PATH_CAPACITY - 5] == b[..PATH_CAPACITY - 5]
    ensures EffectPath(a) == EffectPath(b)
  {
    var fa, fb := EFFECTS_BASE_PATH + "/" + a, EFFECTS_BASE_PATH + "/" + b;
    assert fa[..PATH_CAPACITY - 1] == "/fx/" + a[..PATH_CAPACITY - 5];
    assert fb[..PATH_CAPACITY - 1] == "/fx/" + b[..PATH_CAPACITY - 5];
  }

  /** fread of up to `n` bytes at position `pos`. */
  function FRead(file: seq<U8>, pos: nat, n: nat): (r: seq<U8>)
    ensures |r| <= n
  {
    if pos >= |file| then []
    else if pos + n <= |file| then file[pos..pos + n]
    else file[pos..]
  }

  /** struct effect_handle. The frames are never written after open. */
  class EffectHandle {
    const info: EffectInfo
    const frames: seq<U8>
    /** Set by effects_close; a closed handle must not be used again. */
    ghost var closed: bool

    ghost predicate Valid()
      reads this
    {
      |frames| == info.frameCount * FrameSize(info.ledsPerFrame)
    }

    constructor (info: EffectInfo, frames: seq<U8>)
      requires |frames| == info.frameCount * FrameSize(info.ledsPerFrame)
      ensures this.info == info && this.frames == frames
      ensures !closed && Valid()
    {
      this.info := info;
      this.frames := frames;
      closed := false;
    }
  }

  /** The status effects_open returns, in the order of its checks. */
  function OpenStatus(fs: map<string, seq<U8>>, name: string, framesAllocOk: bool, handleAllocOk: bool): Status
  {
    var path := EffectPath(name);
    if path !in fs then ErrNotFound
    else if ParseHeader(fs[path]).Failure? then ParseHeader(fs[path]).error
    else if !framesAllocOk then ErrNoMem
    else if ParseContainer(fs[path]).Failure? then ParseContainer(fs[path]).error
    else if !handleAllocOk then ErrNoMem
    else Ok
  }

  /** effects_open: open the named file under /fx, read and check the
      header, allocate and read the payload, build the handle. `fs` maps
      paths to file contents; the two flags say whether malloc of the
      payload and calloc of the handle succeed. */
  method Open(fs: map<string, seq<U8>>, name: string, framesAllocOk: bool, handleAllocOk: bool)
    returns (st: Status, h: EffectHandle?)
    ensures st == OpenStatus(fs, name, framesAllocOk, handleAllocOk)
    ensures h != null <==> st == Ok
    ensures h != null ==>
      && fresh(h) && h.Valid() && !h.closed
      && ParseContainer(fs[EffectPath(name)]) == Success(Container(h.info, h.frames))
  {
    var path := EffectPath(name);
    if path !in fs {
      return ErrNotFound, null;
    }
    var file := fs[path];
    var pos := 0;

    var hdrBytes := FRead(file, pos, HEADER_SIZE);
    if |hdrBytes| != HEADER_SIZE {
      return ErrFail, null;
    }
    pos := pos + HEADER_SIZE;
    assert hdrBytes == file[..HEADER_SIZE];
    var hdr := DecodeHeader(hdrBytes);
    if hdr.magic != EFFECT_MAGIC || hdr.version != EFFECT_VERSION {
      return ErrInvalidVersion, null;
    }

    var frameSize := hdr.ledsPerFrame * 3;
    var totalSize := frameSize * hdr.frameCount;
    if !framesAllocOk {
      return ErrNoMem, null;
    }
    var frames := FRead(file, pos, totalSize);
    if |frames| != totalSize {
      return ErrFail, null;
    }
    if !handleAllocOk {
      return ErrNoMem, null;
    }
    h := new EffectHandle(EffectInfo(hdr.frameCount, hdr.ledsPerFrame, hdr.frameDelayMs), frames);
    return Ok, h;
  }

  /** effects_close: nothing for a null handle, otherwise the handle is released. */
  method Close(h: EffectHandle?)
    requires h != null ==> !h.closed
    modifies if h == null then {} else {h}
    ensures h != null ==> h.closed
  {
    if h == null {
      return;
    }
    h.closed := true;
  }

  /** effects_get_info: null for a null handle, otherwise the stored info. */
  function GetInfo(h: EffectHandle?): (r: Option<EffectInfo>)
    reads h
    requires h != null ==> !h.closed
    ensures r.None? <==> h == null
    ensures h != null ==> r.value == h.info
  {
    if h == null then None else Some(h.info)
  }

  /** effects_get_frame: null for a null handle or an index past the last
      frame, otherwise the leds_per_frame * 3 bytes at index * frame_size. */
  function GetFrame(h: EffectHandle?, index: U16): (r: Option<seq<U8>>)
    reads h
    requires h != null ==> h.Valid() && !h.closed
    ensures r.Some? <==> h != null && index < h.info.frameCount
    ensures r.Some? ==> |r.value| == FrameSize(h.info.ledsPerFrame)
    ensures r.Some? ==> index * FrameSize(h.info.ledsPerFrame) + |r.value| <= |h.frames|
    ensures r.Some? ==>
      forall j :: 0 <= j < |r.value| ==> r.value[j] == h.frames[index * FrameSize(h.info.ledsPerFrame) + j]
  {
    if h == null || index >= h.info.frameCount then None
    else
      var frame := FrameAt(h.frames, h.info.ledsPerFrame, h.info.frameCount, index);
      Some(frame)
  }

  /** A handle opened on a written container returns each written frame. */
  lemma OpenedFramesAreWritten(h: EffectHandle, frames: seq<seq<U8>>, k: U16)
    requires h.Valid() && !h.closed
    requires |frames| == h.info.frameCount && WellSized(frames, h.info.ledsPerFrame)
    requires ParseContainer(Serialize(h.info, frames)) == Success(Container(h.info, h.frames))
    requires k < |frames|
    ensures GetFrame(h, k) == Some(frames[k])
  {
    RoundTrip(h.info, frames, []);
    assert Serialize(h.info, frames) + [] == Serialize(h.info, frames);
    FlattenFrames(frames, h.info.ledsPerFrame);
  }
}
