/** The byte formats of SD commands and responses in SPI mode: the 6-byte
    command frame, the big-endian 32-bit payload of a wide response, and
    what the two response readers of the driver return for a given card
    script. */
module SdCommand {
  import opened SpiBus
  import SdCrc

  /** The outcome of a driver operation. `Abort` stands for a failed
      `ASSERT`, after which the firmware halts for good. */
  datatype Result<T> = Ok(value: T) | Abort

  // ------------------------------------------------------------------
  //  Command frames
  // ------------------------------------------------------------------

  /** The frame `IssueCommand` sends: `0x40 | command`, the four argument
      bytes in order, and the checksum byte the driver computes over the
      first five. */
  function Frame(command: bv8, arg: seq<bv8>): (f: seq<bv8>)
    requires |arg| == 4
    ensures |f| == 6
  {
    var head := [0x40 | command] + arg;
    head + [SdCrc.CrcByte(SdCrc.CommandBody(head))]
  }

  /** A frame as the card checks it: start bit 0, transmission bit 1, and a
      checksum byte (end bit included) that matches the first five bytes. */
  predicate WellFormed(f: seq<bv8>)
  {
    |f| == 6 && f[0] & 0xC0 == 0x40 && f[5] == SdCrc.CrcByte(f[..5])
  }

  /** The command index a frame carries, in the six low bits of its first byte. */
  function CommandIndex(f: seq<bv8>): (c: bv8)
    requires |f| == 6
    ensures c < 64
  {
    f[0] & 0x3F
  }

  /** The layout of a frame: marker byte, argument, and a checksum byte with
      its end bit set that covers the body with the start bit cleared. */
  lemma FrameLayout(command: bv8, arg: seq<bv8>)
    requires |arg| == 4
    ensures var f := Frame(command, arg);
            f[0] == 0x40 | command && f[1..5] == arg && f[5] & 1 == 1
            && (command < 0x80 ==> f[5] == SdCrc.CrcByte(f[..5]))
  {
    var f := Frame(command, arg);
    var head := [0x40 | command] + arg;
    assert f[..5] == head;
    if command < 0x80 {
      SdCrc.StartBitClear(head);
      assert head[..5] == head;
    }
  }

  /** Every frame of a command index below 64 passes the card's checks and
      carries that index. */
  lemma FrameWellFormed(command: bv8, arg: seq<bv8>)
    requires |arg| == 4 && command < 64
    ensures WellFormed(Frame(command, arg))
    ensures CommandIndex(Frame(command, arg)) == command
  {
    FrameLayout(command, arg);
  }

  /** Conversely, a well-formed frame is the frame of its own command index
      and argument: nothing else can produce it. */
  lemma WellFormedIsFrame(f: seq<bv8>)
    requires WellFormed(f)
    ensures f == Frame(CommandIndex(f), f[1..5])
  {
    var c := CommandIndex(f);
    assert 0x40 | c == f[0];
    FrameLayout(c, f[1..5]);
    var g := Frame(c, f[1..5]);
    assert g[..5] == f[..5];
  }

  /** The checksum in a frame makes its bit stream a multiple of the CRC7
      generator: the condition the card tests on receipt. */
  lemma FramePassesCardCheck(command: bv8, arg: seq<bv8>)
    requires |arg| == 4 && command < 0x80
    ensures var f := Frame(command, arg);
            SdCrc.Remainder(SdCrc.MessageBits(f[..5]) + SdCrc.CheckBits(f[5] >> 1)) == 0
  {
    FrameLayout(command, arg);
    SdCrc.FrameDivisible(Frame(command, arg)[..5]);
  }

  /** The frame of CMD0 (GO_IDLE_STATE) with argument 0. */
  lemma GoIdleStateFrame()
    ensures Frame(0x00, [0x00, 0x00, 0x00, 0x00]) == [0x40, 0x00, 0x00, 0x00, 0x00, 0x95]
  {
    var head: seq<bv8> := [0x40, 0x00, 0x00, 0x00, 0x00];
    SdCrc.StartBitClear(head);
    assert head[..5] == head;
    SdCrc.GoIdleStateCrc();
  }

  /** The frame of CMD8 (SEND_IF_COND) with the check pattern 0x1AA. */
  lemma SendIfCondFrame()
    ensures Frame(0x08, [0x00, 0x00, 0x01, 0xAA]) == [0x48, 0x00, 0x00, 0x01, 0xAA, 0x87]
  {
    var head: seq<bv8> := [0x48, 0x00, 0x00, 0x01, 0xAA];
    SdCrc.StartBitClear(head);
    assert head[..5] == head;
    SdCrc.SendIfCondCrc();
  }

  // ------------------------------------------------------------------
  //  Big-endian payloads
  // ------------------------------------------------------------------

  /** Four bytes as a 32-bit value, the first byte most significant. */
  function Word(b: seq<bv8>): bv32
    requires |b| == 4
  {
    (b[0] as bv32 << 24) | (b[1] as bv32 << 16) | (b[2] as bv32 << 8) | (b[3] as bv32)
  }

  /** The four bytes of a 32-bit value, most significant first. */
  function WordBytes(w: bv32): (b: seq<bv8>)
    ensures |b| == 4
  {
    [(w >> 24) as bv8, ((w >> 16) & 0xFF) as bv8, ((w >> 8) & 0xFF) as bv8, (w & 0xFF) as bv8]
  }

  lemma WordOfBytes(w: bv32)
    ensures Word(WordBytes(w)) == w
  {
  }

  lemma BytesOfWord(b: seq<bv8>)
    requires |b| == 4
    ensures WordBytes(Word(b)) == b
  {
  }

  // ------------------------------------------------------------------
  //  What the response readers return
  // ------------------------------------------------------------------

  /** Both readers give up after this many exchanges. */
  const Tries: nat := 8

  /** `GetResponseR1`, polling from slot `at`: the first byte of the eight
      with bit 7 clear, or an abort. */
  function R1Reply(rx: seq<bv8>, at: int): Result<bv8>
  {
    match Poll(rx, at, 1, Tries, 0)
    case Found(n) => Ok(Incoming(rx, at + n))
    case Exhausted => Abort
  }

  /** The slots `GetResponseR1` clocks when polling from slot `at`. */
  function R1Length(rx: seq<bv8>, at: int): nat
  {
    Exchanged(Poll(rx, at, 1, Tries, 0), Tries)
  }

  /** A 5-byte response: the R1 status byte and the 32-bit payload that
      follows it (the operating conditions for R3, the echo for R7). */
  datatype Wide = Wide(status: bv8, payload: bv32)

  /** `GetResponseR3R7`, polling from slot `at` in chunks of five: the first
      chunk whose first byte has bit 7 clear, split into status and
      big-endian payload, or an abort. */
  function R7Reply(rx: seq<bv8>, at: int): Result<Wide>
  {
    match Poll(rx, at, 5, Tries, 0)
    case Found(n) =>
      var w := Window(rx, at + 5 * n, 5);
      Ok(Wide(w[0], Word(w[1..5])))
    case Exhausted => Abort
  }

  /** The slots `GetResponseR3R7` clocks when polling from slot `at`. */
  function R7Length(rx: seq<bv8>, at: int): nat
  {
    5 * Exchanged(Poll(rx, at, 5, Tries, 0), Tries)
  }

  /** A byte `GetResponseR1` returns has bit 7 clear, is the last byte it
      clocked, and every byte before it had bit 7 set. */
  lemma R1Accepted(rx: seq<bv8>, at: int)
    requires R1Reply(rx, at).Ok?
    ensures var n := R1Length(rx, at);
            1 <= n <= Tries && R1Reply(rx, at).value == Incoming(rx, at + n - 1)
            && R1Reply(rx, at).value & 0x80 == 0
            && forall t :: 0 <= t < n - 1 ==> !Accepted(rx, at, 1, t)
  {
    PollFirst(rx, at, 1, Tries, 0);
  }

  /** `GetResponseR1` aborts exactly when all eight bytes have bit 7 set, and
      then it has clocked all eight. */
  lemma R1Aborts(rx: seq<bv8>, at: int)
    ensures R1Reply(rx, at).Abort? <==> forall t :: 0 <= t < Tries ==> !Accepted(rx, at, 1, t)
    ensures R1Reply(rx, at).Abort? ==> R1Length(rx, at) == Tries
  {
    PollExhausted(rx, at, 1, Tries, 0);
  }

  /** A card that idles for `n` < 8 bytes and then answers `b`: the reader
      returns `b` after exactly `n + 1` exchanges. */
  lemma R1AfterIdle(rx: seq<bv8>, at: int, n: nat)
    requires n < Tries
    requires forall b :: b in Window(rx, at, n) ==> b == 0xFF
    requires Incoming(rx, at + n) & 0x80 == 0
    ensures R1Reply(rx, at) == Ok(Incoming(rx, at + n))
    ensures R1Length(rx, at) == n + 1
  {
    var w := Window(rx, at, n);
    assert forall t :: 0 <= t < n ==> w[t] in w && !Accepted(rx, at, 1, t);
    PollFindsFirst(rx, at, 1, Tries, 0, n);
  }

  /** A wide response `GetResponseR3R7` returns comes from the last chunk it
      clocked: its first byte, with bit 7 clear, then the next four bytes
      big-endian; every chunk before began with bit 7 set. */
  lemma R7Accepted(rx: seq<bv8>, at: int)
    requires R7Reply(rx, at).Ok?
    ensures var n := R7Length(rx, at) / 5 - 1;
            var r := R7Reply(rx, at).value;
            0 <= n < Tries && R7Length(rx, at) == 5 * (n + 1)
            && r.status == Incoming(rx, at + 5 * n) && r.status & 0x80 == 0
            && r.payload == Word(Window(rx, at + 5 * n + 1, 4))
            && forall t :: 0 <= t < n ==> !Accepted(rx, at, 5, t)
  {
    PollFirst(rx, at, 5, Tries, 0);
    var n := Poll(rx, at, 5, Tries, 0).chunk;
    assert Window(rx, at + 5 * n, 5)[1..5] == Window(rx, at + 5 * n + 1, 4);
  }

  /** `GetResponseR3R7` aborts exactly when each of the eight chunks begins
      with bit 7 set; it has then clocked forty bytes. */
  lemma R7Aborts(rx: seq<bv8>, at: int)
    ensures R7Reply(rx, at).Abort? <==> forall t :: 0 <= t < Tries ==> !Accepted(rx, at, 5, t)
    ensures R7Reply(rx, at).Abort? ==> R7Length(rx, at) == 5 * Tries
  {
    PollExhausted(rx, at, 5, Tries, 0);
  }

  /** A card whose answer starts one byte into the poll, the stream
      FF 01 00 00 01 AA FF FF ..., is missed by the chunked reader: the
      first chunk starts with 0xFF, the second with 0xAA, and the rest with
      idle bytes. A byte-by-byte poll would have found the status byte 0x01
      and the echo 0x1AA behind it. */
  lemma R7MissesShiftedAnswer()
    ensures R7Reply([0xFF, 0x01, 0x00, 0x00, 0x01, 0xAA], 0) == Abort
    ensures R1Reply([0xFF, 0x01, 0x00, 0x00, 0x01, 0xAA], 0) == Ok(0x01)
    ensures Word(Window([0xFF, 0x01, 0x00, 0x00, 0x01, 0xAA], 2, 4)) == 0x1AA
  {
    var rx: seq<bv8> := [0xFF, 0x01, 0x00, 0x00, 0x01, 0xAA];
    R7Aborts(rx, 0);
    assert Incoming(rx, 0) == 0xFF && Incoming(rx, 5) == 0xAA;
    R1AfterIdle(rx, 0, 1);
    var w := Window(rx, 2, 4);
    assert w == [0x00, 0x00, 0x01, 0xAA];
  }
}
