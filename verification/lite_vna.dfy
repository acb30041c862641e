/** The LiteVNA serial protocol: command encodings, the 32-byte FIFO frame
    and its rolling checksum, the `scan` command sequence and the
    `initialize` handshake.

    The serial port is an oracle. Each write takes the next scripted write
    result (success once the script is exhausted) and appends the command to
    the port's log of commands handed to it. Each read takes the next
    scripted read event: its result, the bytes it delivers and the
    milliseconds elapsed since the current frame started. A chunk longer
    than the read asks for is delivered over successive reads. Once the
    script is exhausted the device is silent past every deadline. */
module LiteVna {
  import opened Ints
  import opened StringUtils
  import opened Results
  import StringEscape

  // ---------------------------------------------------------------------
  // Commands and registers

  const CMD_INDICATE: bv8 := 0x0D
  const CMD_READ1: bv8 := 0x10
  const CMD_READ_FIFO: bv8 := 0x18
  const CMD_WRITE1: bv8 := 0x20
  const CMD_WRITE2: bv8 := 0x21
  const CMD_WRITE8: bv8 := 0x23

  const REG_SWEEP_START: bv8 := 0x00
  const REG_SWEEP_STEP: bv8 := 0x10
  const REG_SWEEP_POINTS: bv8 := 0x20
  const REG_VALUES_PER_FREQUENCY: bv8 := 0x22
  const REG_SAMPLES_MODE: bv8 := 0x26
  const REG_READ_FIFO: bv8 := 0x30
  const REG_DEVICE_VARIANT: bv8 := 0xF0
  const REG_PROTOCOL_VERSION: bv8 := 0xF1

  const SEND_ALL_POINTS: bv8 := 0x00
  const SAMPLES_MODE_LEAVE: bv8 := 0x02
  const SAMPLES_MODE_DEVICE_CALIBRATION: bv8 := 0x03

  /** The replies the handshake expects. */
  const INDICATE_REPLY: bv8 := 0x32
  const DEVICE_VARIANT: bv8 := 0x02
  const PROTOCOL_VERSION: bv8 := 0x01

  /** How long one frame may take to arrive, in milliseconds. */
  const TIMEOUT_MS: nat := 10000

  const FRAME_SIZE: nat := 32

  /** 256 to the power of a byte count is the range of that many bytes. */
  lemma ByteRanges()
    ensures Pow(256, 2) == TWO_16 && Pow(256, 4) == TWO_32 && Pow(256, 8) == TWO_64
  {
    assert Pow(256, 2) == TWO_16;
    assert Pow(256, 4) == TWO_32;
    PowAdd(256, 4, 4);
  }

  /** `clearFifo`: eight zero bytes. */
  function ClearFifoCmd(): (r: seq<bv8>)
    ensures |r| == 8 && forall i | 0 <= i < 8 :: r[i] == 0
  {
    [0, 0, 0, 0, 0, 0, 0, 0]
  }

  /** `enterDataMode`: write 1 byte, samples-mode register, device
      calibration. */
  function EnterDataModeCmd(): seq<bv8> {
    [CMD_WRITE1, REG_SAMPLES_MODE, SAMPLES_MODE_DEVICE_CALIBRATION]
  }

  /** `leaveDataMode`: write 1 byte, samples-mode register, leave. */
  function LeaveDataModeCmd(): seq<bv8> {
    [CMD_WRITE1, REG_SAMPLES_MODE, SAMPLES_MODE_LEAVE]
  }

  /** `readFifo`: ask for every point of the sweep. */
  function ReadFifoCmd(): seq<bv8> {
    [CMD_READ_FIFO, REG_READ_FIFO, SEND_ALL_POINTS]
  }

  /** `sendCmdWrite2(reg, value)`: the opcode, the register, then the 16-bit
      value as a little-endian machine stores it. */
  function Write2Cmd(reg: bv8, value: nat): (r: seq<bv8>)
    requires value < TWO_16
    ensures |r| == 4 && r[0] == CMD_WRITE2 && r[1] == reg
    ensures LeValue(r[2..]) == value
  {
    var r := [CMD_WRITE2, reg] + LeBytes(value, 2);
    assert r[2..] == LeBytes(value, 2);
    Le16RoundTrip(value);
    r
  }

  /** `sendCmdWrite8(reg, value)`: the opcode, the register, then the 64-bit
      value little-endian. */
  function Write8Cmd(reg: bv8, value: nat): (r: seq<bv8>)
    requires value < TWO_64
    ensures |r| == 10 && r[0] == CMD_WRITE8 && r[1] == reg
    ensures LeValue(r[2..]) == value
  {
    var r := [CMD_WRITE8, reg] + LeBytes(value, 8);
    assert r[2..] == LeBytes(value, 8);
    LeRoundTrip(value, 8);
    ByteRanges();
    DivModUnique(value, TWO_64, 0, value);
    r
  }

  // ---------------------------------------------------------------------
  // The FIFO frame

  /** `LiteVNAFifoData`, packed: six little-endian int32 measurements at
      offsets 0..23, the uint16 frequency index at 24..25, five reserved
      bytes at 26..30 and the checksum at 31. */
  datatype Frame = Frame(
    channel0OutRe: int, channel0OutIm: int,
    channel0InRe: int, channel0InIm: int,
    channel1InRe: int, channel1InIm: int,
    freqIndex: nat, reserved: seq<bv8>, checksum: bv8)
  {
    /** Every field fits its C++ type. */
    predicate Valid() {
      && IsInt32(channel0OutRe) && IsInt32(channel0OutIm)
      && IsInt32(channel0InRe) && IsInt32(channel0InIm)
      && IsInt32(channel1InRe) && IsInt32(channel1InIm)
      && freqIndex < TWO_16 && |reserved| == 5
    }
  }

  predicate IsInt32(v: int) {
    -0x8000_0000 <= v < 0x8000_0000
  }

  /** The int32 stored little-endian in the four bytes at off. */
  function Int32At(bs: seq<bv8>, off: nat): (v: int)
    requires off + 4 <= |bs|
    ensures IsInt32(v)
  {
    var u := LeValue(bs[off..off + 4]);
    ByteRanges();
    ToInt32(u)
  }

  /** The four little-endian bytes of an int32 in two's complement. */
  function Int32Bytes(v: int): (r: seq<bv8>)
    requires IsInt32(v)
    ensures |r| == 4
  {
    LeBytes((v + TWO_32) % TWO_32, 4)
  }

  /** Storing an int32 and reading it back gives the value. */
  lemma Int32RoundTrip(v: int)
    requires IsInt32(v)
    ensures Int32At(Int32Bytes(v), 0) == v
  {
    var u := (v + TWO_32) % TWO_32;
    var bs := Int32Bytes(v);
    assert bs[0..4] == bs;
    LeRoundTrip(u, 4);
    ByteRanges();
    DivModUnique(u, TWO_32, 0, u);
    if v < 0 {
      DivModUnique(v + TWO_32, TWO_32, 0, v + TWO_32);
    } else {
      DivModUnique(v + TWO_32, TWO_32, 1, v);
    }
  }

  /** Reading four bytes as an int32 and storing it again gives the bytes. */
  lemma Int32BytesOf(bs: seq<bv8>)
    requires |bs| == 4
    ensures Int32Bytes(Int32At(bs, 0)) == bs
  {
    assert bs[0..4] == bs;
    var u := LeValue(bs);
    ByteRanges();
    var v := ToInt32(u);
    if u >= 0x8000_0000 {
      DivModUnique(v + TWO_32, TWO_32, 0, u);
    } else {
      DivModUnique(v + TWO_32, TWO_32, 1, u);
    }
    LeBytesOfValue(bs);
  }

  /** The six measurements in the order the frame stores them. */
  function Measurements(f: Frame): seq<int> {
    [f.channel0OutRe, f.channel0OutIm, f.channel0InRe,
      f.channel0InIm, f.channel1InRe, f.channel1InIm]
  }

  /** Consecutive int32 values, four little-endian bytes each. */
  function Int32sBytes(vs: seq<int>): (r: seq<bv8>)
    requires forall k | 0 <= k < |vs| :: IsInt32(vs[k])
    ensures |r| == 4 * |vs|
  {
    if |vs| == 0 then [] else Int32Bytes(vs[0]) + Int32sBytes(vs[1..])
  }

  /** The int32 values stored in consecutive groups of four bytes. */
  function Int32s(bs: seq<bv8>): (vs: seq<int>)
    ensures |vs| == |bs| / 4
    ensures forall k | 0 <= k < |vs| :: 4 * k + 4 <= |bs| && vs[k] == Int32At(bs, 4 * k)
  {
    if |bs| < 4 then []
    else
      var rest := Int32s(bs[4..]);
      Int32sShift(bs);
      [Int32At(bs, 0)] + rest
  }

  /** Dropping the first four bytes moves every later group forward. */
  lemma Int32sShift(bs: seq<bv8>)
    requires |bs| >= 4
    ensures forall k | 0 <= k && 4 * k + 8 <= |bs| :: Int32At(bs[4..], 4 * k) == Int32At(bs, 4 * (k + 1))
  {
    forall k | 0 <= k && 4 * k + 8 <= |bs|
      ensures Int32At(bs[4..], 4 * k) == Int32At(bs, 4 * (k + 1))
    {
      assert bs[4..][4 * k..4 * k + 4] == bs[4 * (k + 1)..4 * (k + 1) + 4];
    }
  }

  lemma {:induction false} Int32sRoundTrip(vs: seq<int>)
    requires forall k | 0 <= k < |vs| :: IsInt32(vs[k])
    ensures Int32s(Int32sBytes(vs)) == vs
  {
    if |vs| > 0 {
      var bs := Int32sBytes(vs);
      assert bs[4..] == Int32sBytes(vs[1..]);
      Int32sRoundTrip(vs[1..]);
      assert bs[0..4] == Int32Bytes(vs[0]);
      Int32AtSlice(bs, 0);
      Int32RoundTrip(vs[0]);
    }
  }

  lemma {:induction false} Int32sBytesOf(bs: seq<bv8>)
    requires |bs| % 4 == 0
    ensures Int32sBytes(Int32s(bs)) == bs
  {
    if |bs| >= 4 {
      var vs := Int32s(bs);
      assert vs[1..] == Int32s(bs[4..]);
      Int32sBytesOf(bs[4..]);
      Int32AtSlice(bs, 0);
      Int32BytesOf(bs[0..4]);
      assert bs == bs[0..4] + bs[4..];
    }
  }

  /** A frame's 32 bytes. */
  function SerializeFrame(f: Frame): (r: seq<bv8>)
    requires f.Valid()
    ensures |r| == FRAME_SIZE
  {
    Int32sBytes(Measurements(f)) + LeBytes(f.freqIndex, 2) + f.reserved + [f.checksum]
  }

  /** The cast `(LiteVNAFifoData*)buffer`: the fields of 32 bytes. The
      measurements are the int32 values at offsets 0, 4, ..., 20. */
  function ParseFrame(bs: seq<bv8>): (f: Frame)
    requires |bs| == FRAME_SIZE
    ensures f.Valid()
    ensures Measurements(f) == Int32s(bs[..24])
  {
    var vs := Int32s(bs[..24]);
    ByteRanges();
    Frame(vs[0], vs[1], vs[2], vs[3], vs[4], vs[5], LeValue(bs[24..26]), bs[26..31], bs[31])
  }

  /** The four bytes at off, read as an int32 where they stand. */
  lemma Int32AtSlice(bs: seq<bv8>, off: nat)
    requires off + 4 <= |bs|
    ensures Int32At(bs, off) == Int32At(bs[off..off + 4], 0)
  {
    assert bs[off..off + 4][0..4] == bs[off..off + 4];
  }

  /** Parsing the bytes of a frame gives the frame back. */
  lemma ParseSerialize(f: Frame)
    requires f.Valid()
    ensures ParseFrame(SerializeFrame(f)) == f
  {
    var bs := SerializeFrame(f);
    var m := Int32sBytes(Measurements(f));
    var idx := LeBytes(f.freqIndex, 2);
    FrameSlices(m, idx, f.reserved, f.checksum, bs);
    Int32sRoundTrip(Measurements(f));
    Le16RoundTrip(f.freqIndex);
  }

  /** Where the parts of a serialized frame lie. */
  lemma FrameSlices(m: seq<bv8>, idx: seq<bv8>, reserved: seq<bv8>, checksum: bv8, bs: seq<bv8>)
    requires |m| == 24 && |idx| == 2 && |reserved| == 5
    requires bs == m + idx + reserved + [checksum]
    ensures bs[..24] == m && bs[24..26] == idx && bs[26..31] == reserved && bs[31] == checksum
  {
    assert bs == m + (idx + (reserved + [checksum]));
    assert bs[24..] == idx + (reserved + [checksum]);
    assert bs[24..26] == bs[24..][..2];
    assert bs[26..31] == bs[24..][2..7];
  }

  /** Two little-endian bytes give back a 16-bit value. */
  lemma Le16RoundTrip(value: nat)
    requires value < TWO_16
    ensures LeValue(LeBytes(value, 2)) == value
  {
    LeRoundTrip(value, 2);
    ByteRanges();
    DivModUnique(value, TWO_16, 0, value);
  }

  /** Serializing the fields read from 32 bytes gives the bytes back. */
  lemma SerializeParse(bs: seq<bv8>)
    requires |bs| == FRAME_SIZE
    ensures SerializeFrame(ParseFrame(bs)) == bs
  {
    var f := ParseFrame(bs);
    Int32sBytesOf(bs[..24]);
    LeBytesOfValue(bs[24..26]);
    assert bs == bs[..24] + bs[24..26] + bs[26..31] + [bs[31]];
  }

  // ---------------------------------------------------------------------
  // The checksum

  const CHECKSUM_SEED: bv8 := 0x46

  /** One round of the rolling checksum before the data byte is mixed in. */
  function Mix(c: bv8): bv8 {
    c ^ ((c << 1) | 1)
  }

  /** The inverse of `Mix`: `Mix` is c times (1 + x) plus 1 over GF(2)
      polynomials modulo x^8, and 1 + x + ... + x^7 inverts 1 + x. */
  function Unmix(d: bv8): bv8 {
    var e := d ^ 1;
    e ^ (e << 1) ^ (e << 2) ^ (e << 3) ^ (e << 4) ^ (e << 5) ^ (e << 6) ^ (e << 7)
  }

  /** `Mix` is a bijection on bytes. */
  lemma MixBijective(c: bv8, d: bv8)
    ensures Unmix(Mix(c)) == c
    ensures Mix(Unmix(d)) == d
  {
  }

  /** One round of the checksum: mix, then fold the data byte in. */
  function Round(c: bv8, b: bv8): bv8 {
    Mix(c) ^ b
  }

  /** The checksum of bs starting from seed, folding the bytes in order. */
  function ChecksumOf(seed: bv8, bs: seq<bv8>): bv8 {
    if |bs| == 0 then seed else Round(ChecksumOf(seed, bs[..|bs| - 1]), bs[|bs| - 1])
  }

  /** The checksum a frame's first 31 bytes call for. */
  function FrameChecksum(bs: seq<bv8>): bv8
    requires |bs| == FRAME_SIZE
  {
    ChecksumOf(CHECKSUM_SEED, bs[..FRAME_SIZE - 1])
  }

  /** The frame's own checksum byte agrees with its contents. */
  predicate ChecksumOk(bs: seq<bv8>)
    requires |bs| == FRAME_SIZE
  {
    FrameChecksum(bs) == bs[FRAME_SIZE - 1]
  }

  /** The checksum loop over the first 31 bytes of a frame. */
  method ComputeChecksum(bs: seq<bv8>) returns (c: bv8)
    requires |bs| == FRAME_SIZE
    ensures c == FrameChecksum(bs)
  {
    c := CHECKSUM_SEED;
    var i := 0;
    while i < FRAME_SIZE - 1
      invariant 0 <= i <= FRAME_SIZE - 1
      invariant c == ChecksumOf(CHECKSUM_SEED, bs[..i])
    {
      assert bs[..i + 1][..i] == bs[..i];
      c := Round(c, bs[i]);
      i := i + 1;
    }
    assert bs[..i] == bs[..FRAME_SIZE - 1];
  }

  /** Folding a concatenation folds the second part from the first part's
      checksum. */
  lemma {:induction false} ChecksumAppend(seed: bv8, a: seq<bv8>, b: seq<bv8>)
    ensures ChecksumOf(seed, a + b) == ChecksumOf(ChecksumOf(seed, a), b)
    decreases |b|
  {
    if |b| == 0 {
      assert a + b == a;
    } else {
      assert (a + b)[..|a + b| - 1] == a + b[..|b| - 1];
      ChecksumAppend(seed, a, b[..|b| - 1]);
    }
  }

  /** Different seeds give different checksums of the same bytes. */
  lemma {:induction false} ChecksumSeedInjective(c1: bv8, c2: bv8, b: seq<bv8>)
    requires c1 != c2
    ensures ChecksumOf(c1, b) != ChecksumOf(c2, b)
    decreases |b|
  {
    if |b| > 0 {
      var b' := b[..|b| - 1];
      ChecksumSeedInjective(c1, c2, b');
      MixBijective(ChecksumOf(c1, b'), 0);
      MixBijective(ChecksumOf(c2, b'), 0);
    }
  }

  /** The checksum of p, then y, then q: q folded from the round that takes
      y in. */
  lemma ChecksumAround(seed: bv8, p: seq<bv8>, y: bv8, q: seq<bv8>)
    ensures ChecksumOf(seed, p + [y] + q) == ChecksumOf(Round(ChecksumOf(seed, p), y), q)
  {
    ChecksumAppend(seed, p + [y], q);
    assert (p + [y])[..|p|] == p;
  }

  /** The checksum a frame calls for once byte i holds y: the bytes after
      i folded from the round that takes y in. */
  lemma CoveredChecksum(bs: seq<bv8>, i: nat, y: bv8)
    requires |bs| == FRAME_SIZE && i < FRAME_SIZE - 1
    ensures FrameChecksum(bs[i := y]) ==
      ChecksumOf(Round(ChecksumOf(CHECKSUM_SEED, bs[..i]), y), bs[i + 1..FRAME_SIZE - 1])
  {
    var p, q := bs[..i], bs[i + 1..FRAME_SIZE - 1];
    assert bs[i := y][..FRAME_SIZE - 1] == p + [y] + q;
    ChecksumAround(CHECKSUM_SEED, p, y, q);
  }

  lemma CoveredChecksumSame(bs: seq<bv8>, i: nat)
    requires |bs| == FRAME_SIZE && i < FRAME_SIZE - 1
    ensures FrameChecksum(bs) ==
      ChecksumOf(Round(ChecksumOf(CHECKSUM_SEED, bs[..i]), bs[i]), bs[i + 1..FRAME_SIZE - 1])
  {
    CoveredChecksum(bs, i, bs[i]);
    assert bs[i := bs[i]] == bs;
  }

  /** Changing one byte of a frame among its first 31 changes the
      checksum those bytes call for, so a frame that passed the check fails
      it once any single covered byte is altered. */
  lemma SingleByteChange(bs: seq<bv8>, i: nat, x: bv8)
    requires |bs| == FRAME_SIZE && i < FRAME_SIZE - 1 && x != bs[i]
    requires ChecksumOk(bs)
    ensures !ChecksumOk(bs[i := x])
  {
    ChecksumChanges(bs, i, x);
    assert bs[i := x][FRAME_SIZE - 1] == bs[FRAME_SIZE - 1];
  }

  /** A different byte at a covered position gives a different checksum. */
  lemma ChecksumChanges(bs: seq<bv8>, i: nat, x: bv8)
    requires |bs| == FRAME_SIZE && i < FRAME_SIZE - 1 && x != bs[i]
    ensures FrameChecksum(bs[i := x]) != FrameChecksum(bs)
  {
    var c := ChecksumOf(CHECKSUM_SEED, bs[..i]);
    CoveredChecksumSame(bs, i);
    CoveredChecksum(bs, i, x);
    DistinctByte(c, bs[i], x, bs[i + 1..FRAME_SIZE - 1]);
  }

  /** Taking two different bytes in leads to two different checksums. */
  lemma DistinctByte(c: bv8, y: bv8, z: bv8, q: seq<bv8>)
    requires y != z
    ensures ChecksumOf(Round(c, y), q) != ChecksumOf(Round(c, z), q)
  {
    ChecksumSeedInjective(Round(c, y), Round(c, z), q);
  }

  // ---------------------------------------------------------------------
  // The serial port oracle

  /** One `read` call as the device answers it: the port's result, the
      bytes available, and the milliseconds since the current frame
      started when the call returns. */
  datatype ReadEvent = ReadEvent(result: Result, bytes: seq<bv8>, elapsed: nat)

  /** The serial port: scripted write results, scripted read events, and
      the log of commands handed to it, oldest first. */
  datatype Port = Port(writeResults: seq<Result>, incoming: seq<ReadEvent>, sent: seq<seq<bv8>>)

  /** The result of the i-th write from now on: success past the script. */
  function WriteAt(rs: seq<Result>, i: nat): Result {
    if i < |rs| then rs[i] else Ok()
  }

  /** The write results left after k writes. */
  function DropWrites(rs: seq<Result>, k: nat): seq<Result> {
    if k >= |rs| then [] else rs[k..]
  }

  /** Every byte the read script delivers, in order. */
  function Stream(es: seq<ReadEvent>): seq<bv8> {
    if |es| == 0 then [] else es[0].bytes + Stream(es[1..])
  }

  /** `serial->write(buffer, size)`: the command is handed to the port and
      the next scripted result comes back. */
  function Write(p: Port, cmd: seq<bv8>): (r: Stage)
    ensures r.port.sent == p.sent + [cmd] && r.port.incoming == p.incoming
    ensures r.result == WriteAt(p.writeResults, 0)
    ensures r.port.writeResults == DropWrites(p.writeResults, 1)
  {
    if |p.writeResults| == 0 then Stage(Ok(), p.(sent := p.sent + [cmd]))
    else Stage(p.writeResults[0], p.(writeResults := p.writeResults[1..], sent := p.sent + [cmd]))
  }

  /** A step's result and the port after it. */
  datatype Stage = Stage(result: Result, port: Port)

  /** What one `read` returns. */
  datatype Received = Received(result: Result, data: seq<bv8>, elapsed: nat, port: Port)

  /** `serial->read(buffer, max, &totalRead)`: at most max bytes of the next
      event; the rest of a longer chunk stays for the next call. A silent
      device returns nothing, past every deadline. */
  function Read(p: Port, max: nat): (r: Received)
    requires max >= 1
    ensures |r.data| <= max
    ensures r.port.sent == p.sent && r.port.writeResults == p.writeResults
    ensures !IsError(r.result) ==> r.data + Stream(r.port.incoming) == Stream(p.incoming)
    ensures |p.incoming| == 0 ==> !IsError(r.result) && r.data == [] && r.elapsed > TIMEOUT_MS
    ensures |p.incoming| > 0 && |r.data| < max ==> |r.port.incoming| < |p.incoming|
  {
    if |p.incoming| == 0 then Received(Ok(), [], TIMEOUT_MS + 1, p)
    else
      var ev, rest := p.incoming[0], p.incoming[1..];
      if IsError(ev.result) then Received(ev.result, [], ev.elapsed, p.(incoming := rest))
      else if |ev.bytes| <= max then Received(Ok(), ev.bytes, ev.elapsed, p.(incoming := rest))
      else
        var left := ReadEvent(ev.result, ev.bytes[max..], ev.elapsed);
        assert Stream([left] + rest) == ev.bytes[max..] + Stream(rest) by {
          assert ([left] + rest)[1..] == rest;
        }
        Received(Ok(), ev.bytes[..max], ev.elapsed, p.(incoming := [left] + rest))
  }

  /** The outcome of the writes of a command sequence. */
  datatype WriteRun = WriteRun(result: Result, port: Port, attempted: nat)

  /** Commands written one after another, stopping at the first failed
      write: the failed command was handed to the port, later ones were
      not. */
  function RunWrites(p: Port, cmds: seq<seq<bv8>>): (r: WriteRun)
    ensures WritesRan(p, cmds, r)
    decreases |cmds|
  {
    if |cmds| == 0 then WriteRun(Ok(), p, 0)
    else
      var w := Write(p, cmds[0]);
      if IsError(w.result) then WriteRun(w.result, w.port, 1)
      else
        var r := RunWrites(w.port, cmds[1..]);
        WritesRanCons(p, cmds, w, r);
        WriteRun(r.result, r.port, r.attempted + 1)
  }

  /** What a run of writes leaves behind: the commands up to the first
      failure were sent, that many write results were used up, the run
      failed exactly when one of them was an error, and that error is the
      last one attempted. */
  predicate WritesRan(p: Port, cmds: seq<seq<bv8>>, r: WriteRun) {
    && r.attempted <= |cmds|
    && r.port.sent == p.sent + cmds[..r.attempted]
    && r.port.incoming == p.incoming
    && r.port.writeResults == DropWrites(p.writeResults, r.attempted)
    && (!IsError(r.result) ==> r.attempted == |cmds|)
    && (IsError(r.result) ==> r.attempted >= 1 && r.result == WriteAt(p.writeResults, r.attempted - 1))
    && forall i | 0 <= i < r.attempted ::
      IsError(WriteAt(p.writeResults, i)) <==> IsError(r.result) && i == r.attempted - 1
  }

  /** A successful first write followed by a run of the rest is a run of
      all the commands. */
  lemma WritesRanCons(p: Port, cmds: seq<seq<bv8>>, w: Stage, r: WriteRun)
    requires |cmds| > 0 && w == Write(p, cmds[0]) && !IsError(w.result)
    requires WritesRan(w.port, cmds[1..], r)
    ensures WritesRan(p, cmds, WriteRun(r.result, r.port, r.attempted + 1))
  {
    assert [cmds[0]] + cmds[1..][..r.attempted] == cmds[..r.attempted + 1];
    WritesShift(p.writeResults, r.attempted);
    assert forall i | 1 <= i < r.attempted + 1 ::
      WriteAt(p.writeResults, i) == WriteAt(w.port.writeResults, i - 1);
  }

  /** The write script seen one write later. */
  lemma WritesShift(rs: seq<Result>, k: nat)
    ensures forall i | 0 <= i < k :: WriteAt(DropWrites(rs, 1), i) == WriteAt(rs, i + 1)
    ensures DropWrites(DropWrites(rs, 1), k) == DropWrites(rs, k + 1)
  {
  }

  // ---------------------------------------------------------------------
  // Reading frames

  const VNA_ERROR := "lite_vna_error"

  /** The error when a frame takes longer than the deadline. */
  function TimeoutError(): (r: Result)
    ensures IsError(r) && r.description == "Timeout reading LiteVNA Fifo data"
  {
    Error(VNA_ERROR, "Timeout reading LiteVNA Fifo data", [])
  }

  /** The error for a frame whose checksum byte disagrees with its
      contents; the computed checksum is printed as the raw character a
      `uint8_t` streams as. */
  function ChecksumError(c: bv8): (r: Result)
    ensures IsError(r) && r.code == VNA_ERROR
    ensures r.description == "Invalid Checksum `" + [StringEscape.ByteChar(c as nat)] + "`"
  {
    NoCloseNoHole("Invalid Checksum `");
    NoCloseNoHole("`");
    ErrorWithOne(VNA_ERROR, "Invalid Checksum `", [StringEscape.ByteChar(c as nat)], "`");
    Error(VNA_ERROR, "Invalid Checksum `" + "{}" + "`", [[StringEscape.ByteChar(c as nat)]])
  }

  /** The error for a frame whose index lies outside the sweep; the index is
      printed in decimal. */
  function IndexError(index: nat): (r: Result)
    ensures IsError(r) && r.code == VNA_ERROR
    ensures r.description == "Invalid Frequency Index `" + Dec(index) + "`"
  {
    NoCloseNoHole("Invalid Frequency Index `");
    NoCloseNoHole("`");
    ErrorWithOne(VNA_ERROR, "Invalid Frequency Index `", Dec(index), "`");
    Error(VNA_ERROR, "Invalid Frequency Index `" + "{}" + "`", [Dec(index)])
  }

  datatype FrameRead = FrameRead(result: Result, bytes: seq<bv8>, port: Port)

  /** The inner loop of `scan`: reads until the 32 bytes of a frame are in
      (acc holds the bytes already in), failing on a read error or once a
      read returns past the deadline, even the read that completes the
      frame. */
  function ReadFrame(p: Port, acc: seq<bv8>): (r: FrameRead)
    requires |acc| < FRAME_SIZE
    ensures r.port.sent == p.sent && r.port.writeResults == p.writeResults
    ensures !IsError(r.result) ==> |r.bytes| == FRAME_SIZE
    ensures !IsError(r.result) ==> r.bytes + Stream(r.port.incoming) == acc + Stream(p.incoming)
    ensures |p.incoming| == 0 ==> r.result == TimeoutError()
    decreases |p.incoming|
  {
    var rd := Read(p, FRAME_SIZE - |acc|);
    if IsError(rd.result) then FrameRead(rd.result, acc, rd.port)
    else
      var acc' := acc + rd.data;
      assert acc' + Stream(rd.port.incoming) == acc + Stream(p.incoming);
      if rd.elapsed > TIMEOUT_MS then FrameRead(TimeoutError(), acc', rd.port)
      else if |acc'| == FRAME_SIZE then FrameRead(Ok(), acc', rd.port)
      else ReadFrame(rd.port, acc')
  }

  /** A read that returns after the deadline fails the frame even when it
      completes it. */
  lemma LateReadFails(p: Port, acc: seq<bv8>)
    requires |acc| < FRAME_SIZE && |p.incoming| > 0
    requires !IsError(p.incoming[0].result) && p.incoming[0].elapsed > TIMEOUT_MS
    ensures ReadFrame(p, acc).result == TimeoutError()
  {
  }

  /** A frame split over two reads is the bytes of the first followed by
      those of the second. */
  lemma FrameFromTwoReads(a: seq<bv8>, b: seq<bv8>, w: seq<Result>, sent: seq<seq<bv8>>)
    requires |a| + |b| == FRAME_SIZE && |a| >= 1 && |b| >= 1
    ensures var p := Port(w, [ReadEvent(Ok(), a, 0), ReadEvent(Ok(), b, TIMEOUT_MS)], sent);
      var r := ReadFrame(p, []);
      !IsError(r.result) && r.bytes == a + b && r.port.incoming == []
  {
    var p := Port(w, [ReadEvent(Ok(), a, 0), ReadEvent(Ok(), b, TIMEOUT_MS)], sent);
    var rd := Read(p, FRAME_SIZE);
    assert rd.data == a && rd.port.incoming == [ReadEvent(Ok(), b, TIMEOUT_MS)];
    var rd2 := Read(rd.port, FRAME_SIZE - |a|);
    assert rd2.data == b && rd2.port.incoming == [];
    assert [] + a == a;
  }

  // ---------------------------------------------------------------------
  // Placing frames

  /** One entry of the scan's value arrays: the value-initialised zero, or
      the measurements of the frame stored there. */
  datatype Slot = Zero | Measured(frame: Frame)

  /** `vector::resize(n)`: the first n entries are kept, new ones are zero. */
  function Resize(values: seq<Slot>, n: nat): (r: seq<Slot>)
    ensures |r| == n
    ensures forall i | 0 <= i < n :: r[i] == if i < |values| then values[i] else Zero
  {
    if |values| >= n then values[..n] else values + seq(n - |values|, _ => Zero)
  }

  /** Frames stored in arrival order, each at its frequency index. */
  function Place(values: seq<Slot>, frames: seq<Frame>): (r: seq<Slot>)
    ensures |r| == |values|
    decreases |frames|
  {
    if |frames| == 0 then values
    else
      var f := frames[0];
      Place(if f.freqIndex < |values| then values[f.freqIndex := Measured(f)] else values, frames[1..])
  }

  /** An entry no frame reports keeps its value. */
  lemma {:induction false} PlaceUntouched(values: seq<Slot>, frames: seq<Frame>, j: nat)
    requires j < |values|
    requires forall k | 0 <= k < |frames| :: frames[k].freqIndex != j
    ensures Place(values, frames)[j] == values[j]
    decreases |frames|
  {
    if |frames| > 0 {
      var f := frames[0];
      var v := if f.freqIndex < |values| then values[f.freqIndex := Measured(f)] else values;
      PlaceUntouched(v, frames[1..], j);
    }
  }

  /** An entry holds the last frame reporting it: a later frame with the
      same index overwrites an earlier one. */
  lemma {:induction false} PlaceLast(values: seq<Slot>, frames: seq<Frame>, k: nat)
    requires k < |frames| && frames[k].freqIndex < |values|
    requires forall k' | k < k' < |frames| :: frames[k'].freqIndex != frames[k].freqIndex
    ensures Place(values, frames)[frames[k].freqIndex] == Measured(frames[k])
    decreases |frames|
  {
    var f := frames[0];
    var v := if f.freqIndex < |values| then values[f.freqIndex := Measured(f)] else values;
    if k == 0 {
      PlaceUntouched(v, frames[1..], f.freqIndex);
    } else {
      PlaceLast(v, frames[1..], k - 1);
    }
  }

  /** The first n frames of a byte stream, 32 bytes each. */
  function Frames(s: seq<bv8>, n: nat): (r: seq<seq<bv8>>)
    ensures |r| <= n
    ensures forall k | 0 <= k < |r| :: |r[k]| == FRAME_SIZE
  {
    if n == 0 || |s| < FRAME_SIZE then [] else [s[..FRAME_SIZE]] + Frames(s[FRAME_SIZE..], n - 1)
  }

  /** The stream after its first n frames. */
  function Rest(s: seq<bv8>, n: nat): seq<bv8> {
    if n == 0 || |s| < FRAME_SIZE then s else Rest(s[FRAME_SIZE..], n - 1)
  }

  function ParseAll(frames: seq<seq<bv8>>): (r: seq<Frame>)
    requires forall k | 0 <= k < |frames| :: |frames[k]| == FRAME_SIZE
    ensures |r| == |frames|
    ensures forall k | 0 <= k < |r| :: r[k] == ParseFrame(frames[k])
    decreases |frames|
  {
    if |frames| == 0 then [] else [ParseFrame(frames[0])] + ParseAll(frames[1..])
  }

  /** Every frame passes the checksum and reports an index of the sweep. */
  predicate Accepted(frames: seq<seq<bv8>>, points: nat) {
    forall k | 0 <= k < |frames| :: FrameAccepted(frames[k], points)
  }

  /** A frame `scan` stores: the checksum agrees and the index lies in the
      sweep. */
  predicate FrameAccepted(b: seq<bv8>, points: nat) {
    |b| == FRAME_SIZE && ChecksumOk(b) && ParseFrame(b).freqIndex < points
  }

  // ---------------------------------------------------------------------
  // scan

  datatype ScanResult = ScanResult(result: Result, values: seq<Slot>, port: Port)

  /** The outer loop of `scan`, with count frames already stored: each frame
      is checked for its checksum, then for its index, then stored. */
  function ScanFrames(p: Port, points: nat, count: nat, values: seq<Slot>): (r: ScanResult)
    requires count <= points && |values| == points
    ensures |r.values| == points
    ensures r.port.sent == p.sent && r.port.writeResults == p.writeResults
    ensures !IsError(r.result) ==>
      var s := Stream(p.incoming);
      var fs := Frames(s, points - count);
      && |fs| == points - count
      && Stream(r.port.incoming) == Rest(s, points - count)
      && Accepted(fs, points)
      && r.values == Place(values, ParseAll(fs))
    decreases points - count
  {
    if count == points then ScanResult(Ok(), values, p)
    else
      var fr := ReadFrame(p, []);
      if IsError(fr.result) then ScanResult(fr.result, values, fr.port)
      else
        var f := ParseFrame(fr.bytes);
        var c := FrameChecksum(fr.bytes);
        if c != f.checksum then ScanResult(ChecksumError(c), values, fr.port)
        else if f.freqIndex >= points then ScanResult(IndexError(f.freqIndex), values, fr.port)
        else
          var r := ScanFrames(fr.port, points, count + 1, values[f.freqIndex := Measured(f)]);
          FramesStep(Stream(p.incoming), fr.bytes, Stream(fr.port.incoming), points - count);
          var fs' := Frames(Stream(fr.port.incoming), points - count - 1);
          AcceptedCons(fr.bytes, fs', points);
          PlaceCons(values, fr.bytes, fs');
          r
  }

  lemma AcceptedCons(b: seq<bv8>, fs: seq<seq<bv8>>, points: nat)
    requires FrameAccepted(b, points)
    ensures Accepted(fs, points) ==> Accepted([b] + fs, points)
  {
    if Accepted(fs, points) {
      forall k | 0 <= k < |[b] + fs|
        ensures FrameAccepted(([b] + fs)[k], points)
      {
        if k > 0 {
          assert ([b] + fs)[k] == fs[k - 1];
        } else {
          assert ([b] + fs)[k] == b;
        }
      }
    }
  }

  /** Placing a frame and then the rest. */
  lemma PlaceCons(values: seq<Slot>, b: seq<bv8>, fs: seq<seq<bv8>>)
    requires |b| == FRAME_SIZE && ParseFrame(b).freqIndex < |values|
    requires forall k | 0 <= k < |fs| :: |fs[k]| == FRAME_SIZE
    ensures Place(values, ParseAll([b] + fs))
      == Place(values[ParseFrame(b).freqIndex := Measured(ParseFrame(b))], ParseAll(fs))
  {
    ParseAllCons(b, fs);
    PlaceFirst(values, ParseFrame(b), ParseAll(fs));
  }

  lemma PlaceFirst(values: seq<Slot>, f: Frame, rest: seq<Frame>)
    requires f.freqIndex < |values|
    ensures Place(values, [f] + rest) == Place(values[f.freqIndex := Measured(f)], rest)
  {
    assert ([f] + rest)[1..] == rest;
  }

  lemma ParseAllCons(b: seq<bv8>, fs: seq<seq<bv8>>)
    requires |b| == FRAME_SIZE
    requires forall k | 0 <= k < |fs| :: |fs[k]| == FRAME_SIZE
    ensures ParseAll([b] + fs) == [ParseFrame(b)] + ParseAll(fs)
  {
    assert ([b] + fs)[1..] == fs;
  }

  /** Taking one frame off the front of a stream. */
  lemma FramesStep(s: seq<bv8>, b: seq<bv8>, s': seq<bv8>, n: nat)
    requires |b| == FRAME_SIZE && s == b + s' && n >= 1
    ensures Frames(s, n) == [b] + Frames(s', n - 1)
    ensures Rest(s, n) == Rest(s', n - 1)
  {
    assert s[..FRAME_SIZE] == b && s[FRAME_SIZE..] == s';
  }

  /** The k frames read from p one after another all arrive and are
      accepted. */
  predicate GoodFrames(p: Port, points: nat, k: nat)
    decreases k
  {
    k == 0 ||
      var fr := ReadFrame(p, []);
      !IsError(fr.result) && FrameAccepted(fr.bytes, points) && GoodFrames(fr.port, points, k - 1)
  }

  /** The frame read after k frames have been read from p. */
  function FrameAfter(p: Port, k: nat): (r: FrameRead)
    ensures !IsError(r.result) ==> |r.bytes| == FRAME_SIZE
    decreases k
  {
    if k == 0 then ReadFrame(p, []) else FrameAfter(ReadFrame(p, []).port, k - 1)
  }

  /** The verdict on one frame read: the read's own error, else the
      checksum error for a checksum that disagrees, whatever index the
      frame reports, else the index error for an index outside the sweep,
      else success. */
  function FrameVerdict(fr: FrameRead, points: nat): (v: Result)
    ensures IsError(fr.result) ==> v == fr.result
    ensures !IsError(fr.result) && |fr.bytes| == FRAME_SIZE ==>
      (!IsError(v) <==> FrameAccepted(fr.bytes, points))
  {
    if IsError(fr.result) then fr.result
    else if |fr.bytes| != FRAME_SIZE then Ok()
    else
      var f, c := ParseFrame(fr.bytes), FrameChecksum(fr.bytes);
      if c != f.checksum then ChecksumError(c)
      else if f.freqIndex >= points then IndexError(f.freqIndex)
      else Ok()
  }

  /** How the loop ends at a frame whose verdict is an error: with that
      error, and nothing read after the frame. */
  predicate EndsAt(r: ScanResult, fr: FrameRead, points: nat) {
    IsError(FrameVerdict(fr, points)) ==> r.result == FrameVerdict(fr, points) && r.port == fr.port
  }

  /** After k good frames the loop ends as `EndsAt` says at the next one,
      whatever was stored before. */
  lemma ScanFramesBadFrame(p: Port, points: nat, count: nat, values: seq<Slot>, k: nat)
    requires count + k < points && |values| == points
    requires GoodFrames(p, points, k)
    ensures EndsAt(ScanFrames(p, points, count, values), FrameAfter(p, k), points)
  {
    EndsAfter(p, points, count, values, k, ScanFrames(p, points, count, values), FrameAfter(p, k));
  }

  /** r is the loop's result from p with count frames stored, and bad is
      the frame read after k good frames that leave the loop unfinished. */
  predicate AfterGood(p: Port, points: nat, count: nat, values: seq<Slot>, k: nat, r: ScanResult, bad: FrameRead) {
    && bad == FrameAfter(p, k)
    && count + k < points && |values| == points
    && GoodFrames(p, points, k)
    && r == ScanFrames(p, points, count, values)
  }

  /** `ScanFramesBadFrame` for the loop's result r and the frame read bad
      after the k good frames. */
  lemma {:induction false} EndsAfter(p: Port, points: nat, count: nat, values: seq<Slot>, k: nat, r: ScanResult, bad: FrameRead)
    requires AfterGood(p, points, count, values, k, r, bad)
    ensures EndsAt(r, bad, points)
    decreases k
  {
    if k == 0 {
      ScanFramesFirst(p, points, count, values);
    } else {
      var p', values' := EndsAfterStep(p, points, count, values, k, r, bad);
      EndsAfter(p', points, count + 1, values', k - 1, r, bad);
    }
  }

  /** One good frame read: the loop and the frame after the remaining
      k - 1 good frames are those seen from the port after it, with the
      frame stored. */
  lemma EndsAfterStep(p: Port, points: nat, count: nat, values: seq<Slot>, k: nat, r: ScanResult, bad: FrameRead)
    returns (p': Port, values': seq<Slot>)
    requires 0 < k && AfterGood(p, points, count, values, k, r, bad)
    ensures AfterGood(p', points, count + 1, values', k - 1, r, bad)
  {
    var fr := ReadFrame(p, []);
    var f := ParseFrame(fr.bytes);
    assert !IsError(fr.result) && FrameAccepted(fr.bytes, points) && GoodFrames(fr.port, points, k - 1);
    p', values' := fr.port, values[f.freqIndex := Measured(f)];
    ScanFramesGood(p, points, count, values);
  }

  /** The loop's next frame decides how it goes on. */
  lemma ScanFramesFirst(p: Port, points: nat, count: nat, values: seq<Slot>)
    requires count < points && |values| == points
    ensures EndsAt(ScanFrames(p, points, count, values), ReadFrame(p, []), points)
  {
  }

  /** A good frame is stored and the loop goes on from the port after it. */
  lemma ScanFramesGood(p: Port, points: nat, count: nat, values: seq<Slot>)
    requires count < points && |values| == points
    requires !IsError(ReadFrame(p, []).result) && FrameAccepted(ReadFrame(p, []).bytes, points)
    ensures var fr := ReadFrame(p, []);
      var f := ParseFrame(fr.bytes);
      ScanFrames(p, points, count, values) == ScanFrames(fr.port, points, count + 1, values[f.freqIndex := Measured(f)])
  {
    var fr := ReadFrame(p, []);
    assert ParseFrame(fr.bytes).checksum == fr.bytes[FRAME_SIZE - 1];
  }

  /** A frame after k good ones whose checksum byte disagrees with its
      contents ends the loop with the checksum error naming the computed
      checksum, whatever index the frame reports. */
  lemma ScanFramesChecksumError(p: Port, points: nat, count: nat, values: seq<Slot>, k: nat)
    requires count + k < points && |values| == points
    requires GoodFrames(p, points, k)
    requires !IsError(FrameAfter(p, k).result)
    requires FrameChecksum(FrameAfter(p, k).bytes) != FrameAfter(p, k).bytes[FRAME_SIZE - 1]
    ensures ScanFrames(p, points, count, values).result == ChecksumError(FrameChecksum(FrameAfter(p, k).bytes))
    ensures ScanFrames(p, points, count, values).port == FrameAfter(p, k).port
  {
    ScanFramesBadFrame(p, points, count, values, k);
    VerdictChecksum(FrameAfter(p, k), points);
  }

  /** A frame after k good ones whose checksum agrees but whose index lies
      outside the sweep ends the loop with the index error naming that
      index. */
  lemma ScanFramesIndexError(p: Port, points: nat, count: nat, values: seq<Slot>, k: nat)
    requires count + k < points && |values| == points
    requires GoodFrames(p, points, k)
    requires !IsError(FrameAfter(p, k).result)
    requires ChecksumOk(FrameAfter(p, k).bytes) && ParseFrame(FrameAfter(p, k).bytes).freqIndex >= points
    ensures ScanFrames(p, points, count, values).result == IndexError(ParseFrame(FrameAfter(p, k).bytes).freqIndex)
    ensures ScanFrames(p, points, count, values).port == FrameAfter(p, k).port
  {
    ScanFramesBadFrame(p, points, count, values, k);
    VerdictIndex(FrameAfter(p, k), points);
  }

  /** The verdict on a complete frame whose checksum disagrees. */
  lemma VerdictChecksum(fr: FrameRead, points: nat)
    requires !IsError(fr.result) && |fr.bytes| == FRAME_SIZE
    requires FrameChecksum(fr.bytes) != fr.bytes[FRAME_SIZE - 1]
    ensures FrameVerdict(fr, points) == ChecksumError(FrameChecksum(fr.bytes))
  {
    assert ParseFrame(fr.bytes).checksum == fr.bytes[FRAME_SIZE - 1];
  }

  /** The verdict on a complete frame whose checksum agrees and whose index
      lies outside the sweep. */
  lemma VerdictIndex(fr: FrameRead, points: nat)
    requires !IsError(fr.result) && |fr.bytes| == FRAME_SIZE
    requires ChecksumOk(fr.bytes) && ParseFrame(fr.bytes).freqIndex >= points
    ensures FrameVerdict(fr, points) == IndexError(ParseFrame(fr.bytes).freqIndex)
  {
    assert ParseFrame(fr.bytes).checksum == fr.bytes[FRAME_SIZE - 1];
  }

  /** The commands `scan` sends before reading frames: clear the FIFO,
      enter data mode, the sweep start and step (64-bit), the number of
      points and one value per frequency (16-bit), then read the FIFO. */
  function SetupCommands(start: nat, step: nat, points: nat): (r: seq<seq<bv8>>)
    requires start < TWO_64 && step < TWO_64 && points < TWO_16
    ensures |r| == 7
  {
    [ClearFifoCmd(), EnterDataModeCmd(),
      Write8Cmd(REG_SWEEP_START, start), Write8Cmd(REG_SWEEP_STEP, step),
      Write2Cmd(REG_SWEEP_POINTS, points), Write2Cmd(REG_VALUES_PER_FREQUENCY, 1),
      ReadFifoCmd()]
  }

  /** The commands `scan` sends after the last frame. */
  function FinishCommands(): seq<seq<bv8>> {
    [ClearFifoCmd(), LeaveDataModeCmd()]
  }

  /** `scan(start, step, points, values)`: the setup commands, then exactly
      `points` frames each stored at the index it reports, then the finish
      commands; the first failure is returned at once and nothing after it
      is sent. `values` is resized only once the setup has succeeded. */
  function Scan(p: Port, start: nat, step: nat, points: nat, values: seq<Slot>): (r: ScanResult)
    requires start < TWO_64 && step < TWO_64 && points < TWO_16
    ensures p.sent <= r.port.sent <= p.sent + SetupCommands(start, step, points) + FinishCommands()
    ensures !IsError(r.result) ==> r.port.sent == p.sent + SetupCommands(start, step, points) + FinishCommands()
    ensures !IsError(r.result) ==>
      var fs := Frames(Stream(p.incoming), points);
      && |fs| == points
      && Accepted(fs, points)
      && r.values == Place(Resize(values, points), ParseAll(fs))
  {
    var cmds := SetupCommands(start, step, points);
    var setup := RunWrites(p, cmds);
    PrefixOfLog(p.sent, cmds + FinishCommands(), setup.attempted);
    assert cmds[..setup.attempted] == (cmds + FinishCommands())[..setup.attempted];
    if IsError(setup.result) then ScanResult(setup.result, values, setup.port)
    else
      assert cmds[..setup.attempted] == cmds;
      var r := ScanTail(setup.port, points, Resize(values, points));
      assert p.sent + cmds + FinishCommands() == setup.port.sent + FinishCommands();
      r
  }

  /** `scan` once the setup commands are through: the frames, then the
      finish commands. */
  function ScanTail(q: Port, points: nat, values: seq<Slot>): (r: ScanResult)
    requires |values| == points
    ensures q.sent <= r.port.sent <= q.sent + FinishCommands()
    ensures !IsError(r.result) ==> r.port.sent == q.sent + FinishCommands()
    ensures IsError(ScanFrames(q, points, 0, values).result) ==> IsError(r.result) && r.port.sent == q.sent
    ensures !IsError(r.result) ==>
      var fs := Frames(Stream(q.incoming), points);
      && |fs| == points
      && Accepted(fs, points)
      && r.values == Place(values, ParseAll(fs))
  {
    var frames := ScanFrames(q, points, 0, values);
    if IsError(frames.result) then frames
    else
      var finish := RunWrites(frames.port, FinishCommands());
      PrefixOfLog(q.sent, FinishCommands(), finish.attempted);
      ScanResult(finish.result, frames.values, finish.port)
  }

  /** The log after k commands of a sequence lies between the log before
      and the log after the whole sequence. */
  lemma PrefixOfLog<T>(sent: seq<T>, all: seq<T>, k: nat)
    requires k <= |all|
    ensures sent <= sent + all[..k] <= sent + all
  {
    assert (sent + all)[..|sent| + k] == sent + all[..k];
  }

  /** A frame error returns before the finish commands: the log ends with
      the setup. */
  lemma FrameErrorSkipsFinish(p: Port, start: nat, step: nat, points: nat, values: seq<Slot>)
    requires start < TWO_64 && step < TWO_64 && points < TWO_16
    requires !IsError(RunWrites(p, SetupCommands(start, step, points)).result)
    requires IsError(ScanFrames(RunWrites(p, SetupCommands(start, step, points)).port,
      points, 0, Resize(values, points)).result)
    ensures Scan(p, start, step, points, values).result == ScanFrames(RunWrites(p, SetupCommands(start, step, points)).port,
      points, 0, Resize(values, points)).result
    ensures Scan(p, start, step, points, values).port.sent == p.sent + SetupCommands(start, step, points)
  {
    var cmds := SetupCommands(start, step, points);
    var setup := RunWrites(p, cmds);
    assert cmds[..setup.attempted] == cmds;
  }

  /** The frames a successful scan read, in arrival order. */
  function ScannedFrames(p: Port, points: nat): seq<Frame> {
    var fs := Frames(Stream(p.incoming), points);
    ParseAll(fs)
  }

  /** After a successful scan into fresh arrays, an index no frame
      reported holds zero. */
  lemma ScanUnreported(p: Port, start: nat, step: nat, points: nat, j: nat)
    requires start < TWO_64 && step < TWO_64 && points < TWO_16 && j < points
    requires !IsError(Scan(p, start, step, points, []).result)
    requires forall k | 0 <= k < |ScannedFrames(p, points)| :: ScannedFrames(p, points)[k].freqIndex != j
    ensures Scan(p, start, step, points, []).values[j] == Zero
  {
    var r := Scan(p, start, step, points, []);
    assert r.values == Place(Resize([], points), ScannedFrames(p, points));
    PlaceUntouched(Resize([], points), ScannedFrames(p, points), j);
  }

  /** After a successful scan into fresh arrays, the index the k-th frame
      reported holds that frame unless a later frame reported it too. */
  lemma ScanLastReported(p: Port, start: nat, step: nat, points: nat, k: nat)
    requires start < TWO_64 && step < TWO_64 && points < TWO_16
    requires !IsError(Scan(p, start, step, points, []).result)
    requires k < |ScannedFrames(p, points)|
    requires forall k' | k < k' < |ScannedFrames(p, points)| ::
      ScannedFrames(p, points)[k'].freqIndex != ScannedFrames(p, points)[k].freqIndex
    ensures ScannedFrames(p, points)[k].freqIndex < points
    ensures Scan(p, start, step, points, []).values[ScannedFrames(p, points)[k].freqIndex]
      == Measured(ScannedFrames(p, points)[k])
  {
    var r := Scan(p, start, step, points, []);
    var fs := Frames(Stream(p.incoming), points);
    assert FrameAccepted(fs[k], points);
    assert r.values == Place(Resize([], points), ScannedFrames(p, points));
    PlaceLast(Resize([], points), ScannedFrames(p, points), k);
  }

  // ---------------------------------------------------------------------
  // initialize

  const COM_PORT_HINT := ". Is LiteVNA connected " + "to the correct com port?"
  const INDICATE_PRE := "Invalid device indicate, " + "expected 0x32 but found 0x"
  const VARIANT_PRE := "Invalid device variant, " + "expected 0x02 but found 0x"
  const PROTOCOL_PRE := "Invalidprotocol version, " + "expected 0x01 but found 0x"

  /** `checkIndicate`, `checkDeviceVariant`, `checkProtocolVersion`: send the
      request, read one reply byte and compare it with the expected one;
      a mismatch reports the byte in hexadecimal between pre and post. A
      read that returns no byte leaves the reply buffer as it was, which
      the model takes to be zero. */
  function Handshake(p: Port, request: seq<bv8>, expected: bv8, pre: string, post: string): (r: Stage)
    requires expected != 0
    ensures r.port.sent == p.sent + [request]
    ensures !IsError(r.result) ==> Stream(p.incoming) == [expected] + Stream(r.port.incoming)
  {
    var w := Write(p, request);
    if IsError(w.result) then w
    else
      var rd := Read(w.port, 1);
      if IsError(rd.result) then Stage(rd.result, rd.port)
      else
        var reply: bv8 := if |rd.data| == 0 then 0 else rd.data[0];
        if reply != expected then Stage(Error(VNA_ERROR, pre + "{}" + post, [ToHex(reply as int, 0)]), rd.port)
        else
          assert rd.data == [expected];
          Stage(Ok(), rd.port)
  }

  /** The commands `initialize` sends once the port is open. */
  function InitCommands(): seq<seq<bv8>> {
    [ClearFifoCmd(), LeaveDataModeCmd(), [CMD_INDICATE],
      [CMD_READ1, REG_DEVICE_VARIANT], [CMD_READ1, REG_PROTOCOL_VERSION]]
  }

  /** `initialize(openResult)`: clear the FIFO, leave data mode, then check
      the indicate reply, the device variant and the protocol version in
      that order, returning the first failure. A successful handshake has
      read exactly the bytes 0x32, 0x02, 0x01. */
  function Initialize(openResult: Result, p: Port): (r: Stage)
    ensures IsError(openResult) ==> r == Stage(openResult, p)
    ensures p.sent <= r.port.sent <= p.sent + InitCommands()
    ensures !IsError(r.result) ==> r.port.sent == p.sent + InitCommands()
    ensures !IsError(r.result) ==>
      Stream(p.incoming) == [INDICATE_REPLY, DEVICE_VARIANT, PROTOCOL_VERSION] + Stream(r.port.incoming)
  {
    var all := InitCommands();
    if IsError(openResult) then Stage(openResult, p)
    else
      var w := RunWrites(p, all[..2]);
      assert all[..2][..w.attempted] == all[..w.attempted];
      PrefixOfLog(p.sent, all, w.attempted);
      if IsError(w.result) then Stage(w.result, w.port)
      else
        var c := Checks(w.port);
        assert w.port.sent + all[2..] == p.sent + all;
        c
  }

  /** The three checks of `initialize`, in order. */
  function Checks(q: Port): (r: Stage)
    ensures q.sent <= r.port.sent <= q.sent + InitCommands()[2..]
    ensures !IsError(r.result) ==> r.port.sent == q.sent + InitCommands()[2..]
    ensures !IsError(r.result) ==>
      Stream(q.incoming) == [INDICATE_REPLY, DEVICE_VARIANT, PROTOCOL_VERSION] + Stream(r.port.incoming)
  {
    var rest := InitCommands()[2..];
    var a := Handshake(q, rest[0], INDICATE_REPLY, INDICATE_PRE, COM_PORT_HINT);
    LogStep(q.sent, rest, 0, q.sent, a.port.sent);
    if IsError(a.result) then a
    else
      var b := Handshake(a.port, rest[1], DEVICE_VARIANT, VARIANT_PRE, COM_PORT_HINT);
      LogStep(q.sent, rest, 1, a.port.sent, b.port.sent);
      if IsError(b.result) then b
      else
        var c := Handshake(b.port, rest[2], PROTOCOL_VERSION, PROTOCOL_PRE, ".");
        LogStep(q.sent, rest, 2, b.port.sent, c.port.sent);
        assert rest[..3] == rest;
        if IsError(c.result) then c
        else
          StreamChain(Stream(q.incoming), Stream(a.port.incoming), Stream(b.port.incoming), Stream(c.port.incoming),
                      INDICATE_REPLY, DEVICE_VARIANT, PROTOCOL_VERSION);
          c
  }

  /** One more command of a fixed list sent: the log grows by it and stays
      between the log before the list and the log after all of it. */
  lemma LogStep<T>(sent: seq<T>, all: seq<T>, k: nat, before: seq<T>, after: seq<T>)
    requires k < |all| && before == sent + all[..k] && after == before + [all[k]]
    ensures after == sent + all[..k + 1] && sent <= after <= sent + all
  {
    assert all[..k + 1] == all[..k] + [all[k]];
    PrefixOfLog(sent, all, k + 1);
  }

  /** Three bytes consumed one after another. */
  lemma StreamChain(s0: seq<bv8>, s1: seq<bv8>, s2: seq<bv8>, s3: seq<bv8>, x: bv8, y: bv8, z: bv8)
    requires s0 == [x] + s1 && s1 == [y] + s2 && s2 == [z] + s3
    ensures s0 == [x, y, z] + s3
  {
  }


  /** A device that answers 0x32, 0x02 and 0x01 on a port whose writes all
      succeed passes the handshake. */
  lemma InitializeAccepts(openResult: Result)
    requires !IsError(openResult)
    ensures var p := Port([], [ReadEvent(Ok(), [0x32], 0), ReadEvent(Ok(), [0x02], 0), ReadEvent(Ok(), [0x01], 0)], []);
      !IsError(Initialize(openResult, p).result)
  {
  }

  /** A device answering the indicate request with 0x33 is rejected with
      the reply printed in hexadecimal. */
  lemma InitializeRejectsWrongDevice(openResult: Result)
    requires !IsError(openResult)
    ensures var p := Port([], [ReadEvent(Ok(), [0x33], 0)], []);
      var r := Initialize(openResult, p);
      r.result == Result(VNA_ERROR, INDICATE_PRE + "33" + COM_PORT_HINT)
      && r.port.sent == InitCommands()[..3]
  {
    HexOfReply();
    WrongIndicateMessage();
  }

  lemma HexOfReply()
    ensures ToHex(0x33, 0) == "33"
  {
    assert NumDigits(0x33, 16) == 2;
    assert LowDigits(0x33, 2, 16) == "33";
  }

  lemma WrongIndicateMessage()
    ensures Error(VNA_ERROR, INDICATE_PRE + "{}" + COM_PORT_HINT, ["33"])
      == Result(VNA_ERROR, INDICATE_PRE + "33" + COM_PORT_HINT)
  {
    IndicatePrePlain();
    HintPlain();
    ErrorWithOne(VNA_ERROR, INDICATE_PRE, "33", COM_PORT_HINT);
  }

  lemma IndicatePrePlain()
    ensures NoHole(INDICATE_PRE)
  {
    NoCloseNoHole(INDICATE_PRE);
  }

  lemma HintPlain()
    ensures NoHole(COM_PORT_HINT)
  {
    NoCloseNoHole(COM_PORT_HINT);
  }
}
