/** The SD-card driver object: chip-select control, command issue, the two
    response readers and the start of the SPI-mode power-up handshake.
    The SPI peripheral is replaced by the bus of module SpiBus: the driver
    records every byte it clocks, and the card answers from its script. */
module SdDriver {
  import opened SpiBus
  import opened SdCommand
  import SdCrc

  /** What a run of `Initialize` leaves behind: the slots it clocked, the
      writes to the chip-select pin, the chip-select level at the end, and
      its outcome (whether the card reported version 2, or an abort). */
  datatype Run = Run(trace: seq<Slot>, pins: seq<CsWrite>, cs: bool, outcome: Result<bool>)

  /** The CMD0 and CMD8 arguments `Initialize` sends. */
  const IdleArg: seq<bv8> := [0x00, 0x00, 0x00, 0x00]
  const IfCondArg: seq<bv8> := [0x00, 0x00, 0x01, 0xAA]

  /** The number of dummy bytes sent before the first command: 80 clocks. */
  const DummyBytes: nat := 10

  /** The slots `Initialize` clocks, started at slot `at`, up to the end
      of the CMD0 reply: dummy clocks with the card deselected, the CMD0
      frame, and the R1 poll. */
  function IdleTrace(rx: seq<bv8>, at: int): seq<Slot>
  {
    Clocked(DummyBytes, false) + Sent(Frame(0x00, IdleArg), true)
    + Clocked(R1Length(rx, at + DummyBytes + 6), true)
  }

  /** The slot at which the CMD8 frame starts. */
  function IfCondStart(rx: seq<bv8>, at: int): int
  {
    at + |IdleTrace(rx, at)|
  }

  /** The slots up to the end of the CMD8 reply: the CMD8 frame and the
      R7 poll follow the CMD0 exchange. */
  function IfCondTrace(rx: seq<bv8>, at: int): seq<Slot>
  {
    IdleTrace(rx, at) + Sent(Frame(0x08, IfCondArg), true)
    + Clocked(R7Length(rx, IfCondStart(rx, at) + 6), true)
  }

  /** The pin writes of `IssueCommand` started after `at` slots: select,
      and release once the six frame bytes are out. */
  function CommandPins(at: int): seq<CsWrite>
  {
    [CsWrite(at, true), CsWrite(at + 6, false)]
  }

  /** The pin writes of a response poll started after `at` slots that
      clocks `n` bytes: select, and release after them only when a reply
      was found. */
  function PollPins(at: int, n: nat, found: bool): seq<CsWrite>
  {
    [CsWrite(at, true)] + if found then [CsWrite(at + n, false)] else []
  }

  /** The pin writes up to the end of the CMD0 reply, when its poll
      clocked `n` bytes: deselect for the dummy clocks, then those of the
      command and of the poll. */
  function IdlePins(at: int, n: nat, found: bool): seq<CsWrite>
  {
    [CsWrite(at, false)] + CommandPins(at + DummyBytes) + PollPins(at + DummyBytes + 6, n, found)
  }

  /** The pin writes up to the end of the CMD8 reply, when the CMD0 poll
      clocked `n1` bytes and found the reply and the CMD8 poll `n7`. */
  function IfCondPins(at: int, n1: nat, n7: nat, found: bool): seq<CsWrite>
  {
    IdlePins(at, n1, true) + CommandPins(at + DummyBytes + 6 + n1)
    + PollPins(at + DummyBytes + 12 + n1, n7, found)
  }

  /** `Initialize` started at slot `at` against the card script `rx`, phase
      by phase: the CMD0 reply must be exactly 0x01, the idle state; the
      CMD8 reply must arrive, and its echo decides the version. */
  function InitRun(rx: seq<bv8>, at: int): Run
  {
    match R1Reply(rx, at + DummyBytes + 6)
    case Abort => Run(IdleTrace(rx, at), IdlePins(at, R1Length(rx, at + DummyBytes + 6), false), true, Abort)
    case Ok(status) =>
      var n1 := R1Length(rx, at + DummyBytes + 6);
      if status != 0x01 then Run(IdleTrace(rx, at), IdlePins(at, n1, true), false, Abort)
      else
        var n7 := R7Length(rx, IfCondStart(rx, at) + 6);
        match R7Reply(rx, IfCondStart(rx, at) + 6)
        case Abort => Run(IfCondTrace(rx, at), IfCondPins(at, n1, n7, false), true, Abort)
        case Ok(r7) => Run(IfCondTrace(rx, at), IfCondPins(at, n1, n7, true), false, Ok(r7.payload & 0x3FF == 0x1AA))
  }

  /** A run of `Initialize` started from the bus log `start` and the pin
      writes `p0` has got the idle status from CMD0 and left `log` and
      `pins`. */
  predicate IdleDone(rx: seq<bv8>, start: seq<Slot>, p0: seq<CsWrite>, log: seq<Slot>, pins: seq<CsWrite>)
  {
    R1Reply(rx, |start| + DummyBytes + 6) == Ok(0x01)
    && log == start + IdleTrace(rx, |start|)
    && pins == p0 + IdlePins(|start|, R1Length(rx, |start| + DummyBytes + 6), true)
  }

  /** A run of `Initialize` started from `start` and `p0` has ended as
      `InitRun` says: with `log`, `pins`, chip select `cs` and `outcome`. */
  predicate Finished(rx: seq<bv8>, start: seq<Slot>, p0: seq<CsWrite>, log: seq<Slot>, pins: seq<CsWrite>,
                     cs: bool, outcome: Result<bool>)
  {
    var run := InitRun(rx, |start|);
    log == start + run.trace && pins == p0 + run.pins && cs == run.cs && outcome == run.outcome
  }

  /** The bus log and the pin writes after the CMD0 exchange, from those
      left by its three steps. */
  lemma IdlePhase(rx: seq<bv8>, start: seq<Slot>, l1: seq<Slot>, l2: seq<Slot>, l3: seq<Slot>,
                  p0: seq<CsWrite>, p1: seq<CsWrite>, p2: seq<CsWrite>, p3: seq<CsWrite>,
                  response: Result<bv8>)
    requires l1 == start + Clocked(DummyBytes, false)
    requires l2 == l1 + Sent(Frame(0x00, IdleArg), true)
    requires l3 == l2 + Clocked(R1Length(rx, |l2|), true)
    requires response == R1Reply(rx, |l2|)
    requires p1 == p0 + [CsWrite(|start|, false)]
    requires p2 == p1 + CommandPins(|l1|)
    requires p3 == p2 + PollPins(|l2|, R1Length(rx, |l2|), response.Ok?)
    ensures response == Ok(0x01) ==> IdleDone(rx, start, p0, l3, p3)
    ensures response != Ok(0x01) ==> Finished(rx, start, p0, l3, p3, response.Abort?, Abort)
  {
    Extended(start, Clocked(DummyBytes, false), Sent(Frame(0x00, IdleArg), true),
             Clocked(R1Length(rx, |l2|), true), l1, l2, l3);
    Extended(p0, [CsWrite(|start|, false)], CommandPins(|l1|),
             PollPins(|l2|, R1Length(rx, |l2|), response.Ok?), p1, p2, p3);
  }

  /** Once CMD0 got the idle status, the run is decided by the CMD8 reply,
      which the poll reads just after the CMD8 frame. */
  lemma IfCondRun(rx: seq<bv8>, at: int)
    requires R1Reply(rx, at + DummyBytes + 6) == Ok(0x01)
    ensures var s := IfCondStart(rx, at);
            var wide, run := R7Reply(rx, s + 6), InitRun(rx, at);
            run.trace == IfCondTrace(rx, at) && run.cs == wide.Abort?
            && run.outcome == if wide.Abort? then Abort else Ok(wide.value.payload & 0x3FF == 0x1AA)
  {
  }

  /** The pin writes of such a run: those up to the CMD0 reply, then the
      CMD8 command's from slot `s` and its poll's. */
  lemma IfCondRunPins(rx: seq<bv8>, at: int)
    requires R1Reply(rx, at + DummyBytes + 6) == Ok(0x01)
    ensures var s, n1 := IfCondStart(rx, at), R1Length(rx, at + DummyBytes + 6);
            s == at + DummyBytes + 6 + n1
            && InitRun(rx, at).pins
               == IdlePins(at, n1, true) + CommandPins(s) + PollPins(s + 6, R7Length(rx, s + 6), R7Reply(rx, s + 6).Ok?)
  {
  }

  /** The slots clocked up to the end of the CMD8 reply, from those up to
      the end of the CMD0 reply and the two steps that follow. */
  lemma IfCondLog(rx: seq<bv8>, start: seq<Slot>, l3: seq<Slot>, l4: seq<Slot>, l5: seq<Slot>)
    requires l3 == start + IdleTrace(rx, |start|)
    requires l4 == l3 + Sent(Frame(0x08, IfCondArg), true)
    requires l5 == l4 + Clocked(R7Length(rx, |l4|), true)
    ensures |l4| == IfCondStart(rx, |start|) + 6 && l5 == start + IfCondTrace(rx, |start|)
  {
    Extended(start, IdleTrace(rx, |start|), Sent(Frame(0x08, IfCondArg), true),
             Clocked(R7Length(rx, |l4|), true), l3, l4, l5);
  }

  /** The bus log after the CMD8 exchange, from the state after CMD0. */
  lemma IfCondPhase(rx: seq<bv8>, start: seq<Slot>, l3: seq<Slot>, l4: seq<Slot>, l5: seq<Slot>,
                    p0: seq<CsWrite>, p3: seq<CsWrite>, wide: Result<Wide>)
    requires IdleDone(rx, start, p0, l3, p3)
    requires l4 == l3 + Sent(Frame(0x08, IfCondArg), true)
    requires l5 == l4 + Clocked(R7Length(rx, |l4|), true)
    requires wide == R7Reply(rx, |l4|)
    ensures var run := InitRun(rx, |start|);
            l5 == start + run.trace && run.cs == wide.Abort?
            && run.outcome == if wide.Abort? then Abort else Ok(wide.value.payload & 0x3FF == 0x1AA)
  {
    IfCondLog(rx, start, l3, l4, l5);
    IfCondRun(rx, |start|);
  }

  /** The pin writes after the CMD8 exchange, from the state after CMD0. */
  lemma IfCondPhasePins(rx: seq<bv8>, start: seq<Slot>, l3: seq<Slot>, l4: seq<Slot>,
                        p0: seq<CsWrite>, p3: seq<CsWrite>, p4: seq<CsWrite>, p5: seq<CsWrite>, found: bool)
    requires IdleDone(rx, start, p0, l3, p3)
    requires |l4| == |l3| + 6
    requires found == R7Reply(rx, |l4|).Ok?
    requires p4 == p3 + CommandPins(|l3|)
    requires p5 == p4 + PollPins(|l4|, R7Length(rx, |l4|), found)
    ensures p5 == p0 + InitRun(rx, |start|).pins
  {
    IfCondRunPins(rx, |start|);
    var s := IfCondStart(rx, |start|);
    assert |l3| == s;
    Extended(p0, IdlePins(|start|, R1Length(rx, |start| + DummyBytes + 6), true), CommandPins(s),
             PollPins(s + 6, R7Length(rx, s + 6), found), p3, p4, p5);
  }

  // ------------------------------------------------------------------
  //  What every run of the handshake does
  // ------------------------------------------------------------------

  /** Every run opens with ten deselected filler bytes (eighty clocks) and
      then the CMD0 frame 40 00 00 00 00 95 with the card selected. */
  lemma InitPrologue(rx: seq<bv8>, at: int)
    ensures var t := InitRun(rx, at).trace;
            |t| >= 16 && t[..16] == Clocked(DummyBytes, false) + Sent([0x40, 0x00, 0x00, 0x00, 0x00, 0x95], true)
  {
    GoIdleStateFrame();
    var head := Clocked(DummyBytes, false) + Sent(Frame(0x00, IdleArg), true);
    var t := InitRun(rx, at).trace;
    assert t[..16] == head by {
      if R1Reply(rx, at + DummyBytes + 6) == Ok(0x01) {
        var idle := IdleTrace(rx, at);
        assert t == idle + (Sent(Frame(0x08, IfCondArg), true) + Clocked(R7Length(rx, IfCondStart(rx, at) + 6), true));
        assert idle[..16] == head;
      }
    }
  }

  /** Chip select: deasserted for the eighty dummy clocks and asserted for
      every byte after them; after the run it stays asserted only when a
      response poll ran out, and never when the run succeeded. */
  lemma InitSelection(rx: seq<bv8>, at: int)
    ensures var run := InitRun(rx, at);
            (forall k :: 0 <= k < DummyBytes ==> !run.trace[k].selected && run.trace[k].mosi == 0xFF)
            && (forall k :: DummyBytes <= k < |run.trace| ==> run.trace[k].selected)
    ensures var run := InitRun(rx, at);
            run.cs <==> R1Reply(rx, at + DummyBytes + 6).Abort?
                        || (R1Reply(rx, at + DummyBytes + 6) == Ok(0x01)
                            && R7Reply(rx, IfCondStart(rx, at) + 6).Abort?)
    ensures InitRun(rx, at).cs ==> InitRun(rx, at).outcome.Abort?
  {
    var t := InitRun(rx, at).trace;
    InitPrologue(rx, at);
    var idle := IdleTrace(rx, at);
    assert forall k :: DummyBytes <= k < |idle| ==> idle[k].selected;
  }

  /** Pin writes each of which flips chip select, none going back in
      slot order. */
  predicate Toggles(p: seq<CsWrite>)
  {
    forall i :: 0 < i < |p| ==> p[i - 1].asserted != p[i].asserted && p[i - 1].at <= p[i].at
  }

  /** Two runs of toggling writes make one when the second starts by
      flipping the level the first ended on, no earlier than it. */
  lemma TogglesAppend(p: seq<CsWrite>, q: seq<CsWrite>)
    requires Toggles(p) && Toggles(q) && |p| > 0 && |q| > 0
    requires p[|p| - 1].asserted != q[0].asserted && p[|p| - 1].at <= q[0].at
    ensures Toggles(p + q)
  {
    forall i | 0 < i < |p + q|
      ensures (p + q)[i - 1].asserted != (p + q)[i].asserted && (p + q)[i - 1].at <= (p + q)[i].at
    {
      if i > |p| {
        assert (p + q)[i - 1] == q[i - 1 - |p|] && (p + q)[i] == q[i - |p|];
      }
    }
  }

  /** The writes up to the end of the CMD0 reply, written out. */
  lemma IdlePinsShape(at: int, n: nat, found: bool)
    ensures IdlePins(at, n, found)
         == [CsWrite(at, false), CsWrite(at + 10, true), CsWrite(at + 16, false), CsWrite(at + 16, true)]
            + if found then [CsWrite(at + 16 + n, false)] else []
  {
  }

  /** The writes up to the end of the CMD8 reply, written out. */
  lemma IfCondPinsShape(at: int, n1: nat, n7: nat, found: bool)
    ensures var s := at + 16 + n1;
            (IfCondPins(at, n1, n7, found)
             == [CsWrite(at, false), CsWrite(at + 10, true), CsWrite(at + 16, false), CsWrite(at + 16, true),
                 CsWrite(s, false), CsWrite(s, true), CsWrite(s + 6, false), CsWrite(s + 6, true)]
                + if found then [CsWrite(s + 6 + n7, false)] else [])
  {
    IdlePinsShape(at, n1, true);
  }

  /** The writes up to the end of the CMD0 reply toggle. */
  lemma IdlePinsToggle(at: int, n: nat, found: bool)
    ensures Toggles(IdlePins(at, n, found))
  {
    TogglesAppend([CsWrite(at, false)] + CommandPins(at + DummyBytes), PollPins(at + DummyBytes + 6, n, found));
  }

  /** The writes up to the end of the CMD8 reply toggle. */
  lemma IfCondPinsToggle(at: int, n1: nat, n7: nat, found: bool)
    ensures Toggles(IfCondPins(at, n1, n7, found))
  {
    var idle, s := IdlePins(at, n1, true), at + DummyBytes + 6 + n1;
    IdlePinsToggle(at, n1, true);
    IdlePinsShape(at, n1, true);
    var cmd := CommandPins(s);
    TogglesAppend(idle, cmd);
    TogglesAppend(idle + cmd, PollPins(at + DummyBytes + 12 + n1, n7, found));
  }

  /** Chip select around the handshake, write by write: released for the
      dummy clocks, taken for CMD0, released once the frame is out and
      taken again for the poll with no byte clocked in between, and
      released after the reply when one came. When the reply is the idle
      status, the same happens around CMD8 from slot `s` on. */
  lemma InitPins(rx: seq<bv8>, at: int)
    ensures var run, head := InitRun(rx, at),
                             [CsWrite(at, false), CsWrite(at + 10, true), CsWrite(at + 16, false), CsWrite(at + 16, true)];
            var s := IfCondStart(rx, at);
            (R1Reply(rx, at + 16).Abort? ==> run.pins == head)
            && (R1Reply(rx, at + 16).Ok? && R1Reply(rx, at + 16) != Ok(0x01) ==>
                  run.pins == head + [CsWrite(at + |run.trace|, false)])
            && (R1Reply(rx, at + 16) == Ok(0x01) ==>
                  run.pins == head + [CsWrite(s, false), CsWrite(s, true), CsWrite(s + 6, false), CsWrite(s + 6, true)]
                              + if run.cs then [] else [CsWrite(at + |run.trace|, false)])
  {
    var n1 := R1Length(rx, at + 16);
    IdlePinsShape(at, n1, R1Reply(rx, at + 16).Ok?);
    if R1Reply(rx, at + 16) == Ok(0x01) {
      var s := IfCondStart(rx, at);
      IfCondPinsShape(at, n1, R7Length(rx, s + 6), R7Reply(rx, s + 6).Ok?);
    }
  }

  /** The handshake clocks between 17 and 70 bytes: the sixteen of the
      prologue, one to eight while waiting for the CMD0 reply, and when
      that reply is the idle status, the six of CMD8 and five to forty
      while waiting for its reply. */
  lemma InitLength(rx: seq<bv8>, at: int)
    ensures var n := |InitRun(rx, at).trace|;
            n == DummyBytes + 6 + R1Length(rx, at + DummyBytes + 6)
                 + (if R1Reply(rx, at + DummyBytes + 6) == Ok(0x01)
                    then 6 + R7Length(rx, IfCondStart(rx, at) + 6) else 0)
            && 17 <= n <= 70
  {
    var a1 := at + DummyBytes + 6;
    if R1Reply(rx, a1).Ok? { R1Accepted(rx, a1); } else { R1Aborts(rx, a1); }
    var a7 := IfCondStart(rx, at) + 6;
    if R7Reply(rx, a7).Ok? { R7Accepted(rx, a7); } else { R7Aborts(rx, a7); }
  }

  // ------------------------------------------------------------------
  //  Runs against particular cards
  // ------------------------------------------------------------------

  /** `n` idle bytes from a card that is not driving the line. */
  function Filler(n: nat): (f: seq<bv8>)
    ensures |f| == n && forall b :: b in f ==> b == 0xFF
  {
    seq(n, _ => 0xFF)
  }

  /** The bytes a version 2 card drives: idle during the prologue, the
      idle status one byte into the CMD0 poll, idle during CMD8, then an
      R7 reply echoing the check pattern straight away. */
  function VersionTwoCard(): seq<bv8>
  {
    Filler(16) + [0xFF, 0x01] + Filler(6) + [0x01, 0x00, 0x00, 0x01, 0xAA]
  }

  /** The CMD0 reply of a card that idles `n` < 8 bytes into the poll and
      then sends the idle status, found after `n + 1` exchanges. */
  lemma IdleStatusAt(card: seq<bv8>, n: nat)
    requires n < Tries && |card| > 16 + n && card[16 + n] == 0x01
    requires forall k :: 16 <= k < 16 + n ==> card[k] == 0xFF
    ensures R1Reply(card, 16) == Ok(0x01) && R1Length(card, 16) == n + 1
    ensures IfCondStart(card, 0) == 17 + n
  {
    var w := Window(card, 16, n);
    assert forall t :: 0 <= t < n ==> w[t] == card[16 + t];
    R1AfterIdle(card, 16, n);
  }

  /** That card's two replies, and where the driver finds them. */
  lemma VersionTwoReplies()
    ensures R1Reply(VersionTwoCard(), 16) == Ok(0x01) && IfCondStart(VersionTwoCard(), 0) == 18
    ensures R7Reply(VersionTwoCard(), 24) == Ok(Wide(0x01, 0x0000_01AA))
    ensures R7Length(VersionTwoCard(), 24) == 5
  {
    var card := VersionTwoCard();
    IdleStatusAt(card, 1);
    var w := Window(card, 24, 5);
    assert w == card[24..29] == [0x01, 0x00, 0x00, 0x01, 0xAA];
    assert Poll(card, 24, 5, Tries, 0) == Found(0);
  }

  /** Against that card the run succeeds, reports version 2 and leaves the
      card deselected. */
  lemma VersionTwoRun()
    ensures InitRun(VersionTwoCard(), 0).outcome == Ok(true)
    ensures !InitRun(VersionTwoCard(), 0).cs
  {
    VersionTwoReplies();
  }

  /** Its bus trace, byte for byte: ten deselected fillers, CMD0, two
      polling fillers, CMD8 and one five-byte poll. */
  lemma VersionTwoTrace()
    ensures InitRun(VersionTwoCard(), 0).trace
         == Clocked(10, false) + Sent([0x40, 0x00, 0x00, 0x00, 0x00, 0x95], true)
            + Clocked(2, true) + Sent([0x48, 0x00, 0x00, 0x01, 0xAA, 0x87], true)
            + Clocked(5, true)
  {
    VersionTwoReplies();
    GoIdleStateFrame();
    SendIfCondFrame();
  }

  /** Its chip-select writes: released for the dummy clocks, then for
      each of CMD0, its poll, CMD8 and its poll, selected at the start and
      released at the end, with no byte clocked between a release and the
      next select. */
  lemma VersionTwoPins()
    ensures InitRun(VersionTwoCard(), 0).pins
         == [CsWrite(0, false), CsWrite(10, true), CsWrite(16, false), CsWrite(16, true), CsWrite(18, false),
             CsWrite(18, true), CsWrite(24, false), CsWrite(24, true), CsWrite(29, false)]
  {
    VersionTwoReplies();
    IfCondPinsShape(0, 2, 5, true);
  }

  /** A version 1 card rejects CMD8 with the illegal-command status 0x05
      and sends nothing after it. */
  function VersionOneCard(): seq<bv8>
  {
    Filler(16) + [0xFF, 0x01] + Filler(6) + [0x05]
  }

  /** The reader then takes the idle line for the payload, 0xFFFFFFFF, whose
      low ten bits do not echo the pattern: the run completes and reports
      that the card is not version 2; it is not an error. */
  lemma VersionOneRun()
    ensures R7Reply(VersionOneCard(), 24) == Ok(Wide(0x05, 0xFFFF_FFFF))
    ensures InitRun(VersionOneCard(), 0).outcome == Ok(false)
    ensures !InitRun(VersionOneCard(), 0).cs
  {
    var card := VersionOneCard();
    IdleStatusAt(card, 1);
    assert Window(card, 24, 5) == [0x05, 0xFF, 0xFF, 0xFF, 0xFF];
    assert Poll(card, 24, 5, Tries, 0) == Found(0);
  }

  /** A card that answers CMD8 one byte late, the stream FF 01 00 00 01 AA
      after the command. */
  function LateCard(): seq<bv8>
  {
    Filler(16) + [0xFF, 0x01] + Filler(6) + [0xFF, 0x01, 0x00, 0x00, 0x01, 0xAA]
  }

  /** Five-byte polling misses that answer: the run halts on the CMD8
      check with the card still selected, after forty polling bytes. */
  lemma LateCardRun()
    ensures InitRun(LateCard(), 0).outcome == Abort
    ensures InitRun(LateCard(), 0).cs
    ensures |InitRun(LateCard(), 0).trace| == 10 + 6 + 2 + 6 + 40
  {
    var card := LateCard();
    IdleStatusAt(card, 1);
    R7Aborts(card, 24);
    assert Incoming(card, 24) == 0xFF && Incoming(card, 29) == 0xAA;
  }

  /** With no card the line stays high: the CMD0 poll runs out after eight
      bytes and the run halts with chip select asserted. */
  lemma NoCardRun()
    ensures InitRun([], 0) == Run(Clocked(10, false) + Sent([0x40, 0x00, 0x00, 0x00, 0x00, 0x95], true)
                                  + Clocked(8, true),
                                  [CsWrite(0, false), CsWrite(10, true), CsWrite(16, false), CsWrite(16, true)],
                                  true, Abort)
  {
    R1Aborts([], 16);
    GoIdleStateFrame();
  }

  /** The buffer `IssueCommand` fills, with the checksum of its first
      five bytes appended, is the frame of the command. */
  lemma FrameFromBuffer(command: bv8, arg: seq<bv8>, buf: seq<bv8>, crc: bv8)
    requires |arg| == 4 && |buf| == 6
    requires buf[0] == 0x40 | command
    requires buf[1] == arg[0] && buf[2] == arg[1] && buf[3] == arg[2] && buf[4] == arg[3]
    requires crc == SdCrc.CrcByte(SdCrc.CommandBody(buf))
    ensures buf[..5] + [crc] == Frame(command, arg)
  {
    assert buf[..5] == [0x40 | command] + arg;
    assert SdCrc.CommandBody(buf) == SdCrc.CommandBody(buf[..5]);
  }

  /** Filler bytes sent after filler bytes extend the run of filler. */
  lemma MoreFiller(start: seq<Slot>, i: nat, sent: seq<bv8>, selected: bool)
    requires forall t :: 0 <= t < |sent| ==> sent[t] == 0xFF
    ensures start + Clocked(i, selected) + Sent(sent, selected)
         == start + Clocked(i + |sent|, selected)
  {
    assert Sent(sent, selected) == Clocked(|sent|, selected);
    ClockedAppend(i, |sent|, selected);
    SdCrc.AppendAssoc(start, Clocked(i, selected), Clocked(|sent|, selected));
  }

  /** The state of a response poll that started with the log `start` and
      has exchanged `i` chunks of `width` filler bytes, all rejected. */
  predicate Listening(rx: seq<bv8>, start: seq<Slot>, log: seq<Slot>, width: nat, i: nat)
  {
    i <= Tries && log == start + Clocked(width * i, true)
    && Poll(rx, |start|, width, Tries, i) == Poll(rx, |start|, width, Tries, 0)
  }

  /** One more exchange of `width` filler bytes, in which the card drove
      `got`: either the poll goes on, or chunk `i` is the one it returns. */
  lemma ListenStep(rx: seq<bv8>, start: seq<Slot>, log: seq<Slot>, width: nat, i: nat,
                   sent: seq<bv8>, got: seq<bv8>)
    requires Listening(rx, start, log, width, i) && i < Tries && 0 < width
    requires |sent| == width && forall t :: 0 <= t < width ==> sent[t] == 0xFF
    requires got == Window(rx, |log|, width)
    ensures got[0] & 0x80 != 0 ==> Listening(rx, start, log + Sent(sent, true), width, i + 1)
    ensures got[0] & 0x80 == 0 ==>
              Poll(rx, |start|, width, Tries, 0) == Found(i)
              && got == Window(rx, |start| + width * i, width)
              && log + Sent(sent, true) == start + Clocked(width * (i + 1), true)
  {
    MoreFiller(start, width * i, sent, true);
    assert got[0] == Incoming(rx, |start| + width * i);
  }

  class Driver {
    /** Chip select as the driver last set it: true when asserted (pin low). */
    var cs: bool
    /** Every byte clocked on the bus so far, in order. */
    var log: seq<Slot>
    /** Every write to the chip-select pin so far, in order. */
    var pins: seq<CsWrite>
    /** The card's script: what it drives back in each slot. */
    const rx: seq<bv8>

    /** The constructor only records the peripheral; it leaves the
        chip-select pin as it finds it. */
    constructor (rx: seq<bv8>, cs: bool)
      ensures this.rx == rx && this.cs == cs && log == [] && pins == []
    {
      this.rx := rx;
      this.cs := cs;
      log := [];
      pins := [];
    }

    /** Drives the chip-select pin low. */
    method CsEnable()
      modifies this
      ensures cs && log == old(log) && pins == old(pins) + [CsWrite(|log|, true)]
    {
      cs := true;
      pins := pins + [CsWrite(|log|, true)];
    }

    /** Drives the chip-select pin high. */
    method CsDisable()
      modifies this
      ensures !cs && log == old(log) && pins == old(pins) + [CsWrite(|log|, false)]
    {
      cs := false;
      pins := pins + [CsWrite(|log|, false)];
    }

    /** A transmit-only transfer: the bytes go out, and the bytes the card
        drives in the same slots are discarded. */
    method Transmit(data: array<bv8>)
      modifies this
      ensures cs == old(cs) && pins == old(pins) && log == old(log) + Sent(data[..], cs)
    {
      log := log + Sent(data[..], cs);
    }

    /** A full-duplex transfer of `txData.Length` bytes. */
    method TransmitReceive(txData: array<bv8>, rxData: array<bv8>)
      requires txData.Length == rxData.Length
      modifies this, rxData
      ensures cs == old(cs) && pins == old(pins) && log == old(log) + Sent(old(txData[..]), cs)
      ensures rxData[..] == Window(rx, |old(log)|, rxData.Length)
    {
      var at := |log|;
      log := log + Sent(txData[..], cs);
      forall k | 0 <= k < rxData.Length {
        rxData[k] := Incoming(rx, at + k);
      }
    }

    /** Sends the command frame for `command` and `arg[0..3]` while the card
        is selected; no response byte is read. */
    method IssueCommand(command: bv8, arg: array<bv8>)
      requires arg.Length >= 4
      modifies this
      ensures !cs && log == old(log) + Sent(Frame(command, [arg[0], arg[1], arg[2], arg[3]]), true)
      ensures pins == old(pins) + CommandPins(|old(log)|)
    {
      CsEnable();
      var txData := new bv8[6];
      txData[0] := 0x40 | command;
      txData[1] := arg[0];
      txData[2] := arg[1];
      txData[3] := arg[2];
      txData[4] := arg[3];
      ghost var filled := txData[..];
      var crc := SdCrc.GetSdCrc(txData);
      txData[5] := crc;
      FrameFromBuffer(command, [arg[0], arg[1], arg[2], arg[3]], filled, crc);
      assert txData[..] == filled[..5] + [crc];
      Transmit(txData);
      CsDisable();
    }

    /** Selects the card and clocks single filler bytes until one comes back
        with bit 7 clear, at most eight times. That byte is the R1 status
        and the card is deselected again; when none comes, the firmware
        halts with the card still selected. */
    method GetResponseR1() returns (res: Result<bv8>)
      modifies this
      ensures res == R1Reply(rx, |old(log)|)
      ensures log == old(log) + Clocked(R1Length(rx, |old(log)|), true)
      ensures pins == old(pins) + PollPins(|old(log)|, R1Length(rx, |old(log)|), res.Ok?)
      ensures cs <==> res.Abort?
    {
      ghost var start, at, before := log, |log|, pins;
      CsEnable();
      var txData := new bv8[] [0xFF];
      var rxData := new bv8[1];
      var responseOk := false;
      var i := 0;
      while i < 8
        invariant cs && !responseOk && txData[0] == 0xFF
        invariant Listening(rx, start, log, 1, i) && pins == before + [CsWrite(at, true)]
      {
        ghost var last := log;
        TransmitReceive(txData, rxData);
        ListenStep(rx, start, last, 1, i, txData[..], rxData[..]);
        if rxData[0] & 0x80 == 0x00 {
          responseOk := true;
          break;
        }
        i := i + 1;
      }
      if !responseOk {
        res := Abort;
        return;
      }
      CsDisable();
      res := Ok(rxData[0]);
    }

    /** As `GetResponseR1`, but each exchange clocks five filler bytes and
        only the first byte of each chunk is tested. The accepted chunk is
        the status byte and a 32-bit value sent most significant byte
        first. */
    method GetResponseR3R7() returns (res: Result<Wide>)
      modifies this
      ensures res == R7Reply(rx, |old(log)|)
      ensures log == old(log) + Clocked(R7Length(rx, |old(log)|), true)
      ensures pins == old(pins) + PollPins(|old(log)|, R7Length(rx, |old(log)|), res.Ok?)
      ensures cs <==> res.Abort?
    {
      ghost var start, at, before := log, |log|, pins;
      CsEnable();
      var txData := new bv8[] [0xFF, 0xFF, 0xFF, 0xFF, 0xFF];
      var rxData := new bv8[5];
      var responseOk := false;
      var i := 0;
      while i < 8
        invariant cs && !responseOk
        invariant forall t :: 0 <= t < 5 ==> txData[t] == 0xFF
        invariant Listening(rx, start, log, 5, i) && pins == before + [CsWrite(at, true)]
      {
        ghost var last := log;
        TransmitReceive(txData, rxData);
        ListenStep(rx, start, last, 5, i, txData[..], rxData[..]);
        if rxData[0] & 0x80 == 0x00 {
          responseOk := true;
          break;
        }
        i := i + 1;
      }
      if !responseOk {
        res := Abort;
        return;
      }
      CsDisable();
      var returnValue := Word(rxData[1..5]);
      res := Ok(Wide(rxData[0], returnValue));
    }

    /** The start of the SPI-mode power-up sequence: eighty clocks with the
        card deselected, CMD0 (GO_IDLE_STATE), which must be answered with
        the idle status 0x01, then CMD8 (SEND_IF_COND) with the check
        pattern 0x1AA. The card is version 2 when the low ten bits of the
        CMD8 payload echo that pattern. A failed check halts the firmware. */
    method Initialize() returns (res: Result<bool>)
      modifies this
      ensures var run := InitRun(rx, |old(log)|);
              log == old(log) + run.trace && pins == old(pins) + run.pins
              && cs == run.cs && res == run.outcome
    {
      ghost var start, p0 := log, pins;
      CsDisable();
      var i := 0;
      while i < 10
        invariant 0 <= i <= 10 && !cs && log == start + Clocked(i, false)
        invariant pins == p0 + [CsWrite(|start|, false)]
      {
        var dummy := new bv8[] [0xFF];
        Transmit(dummy);
        MoreFiller(start, i, dummy[..], false);
        i := i + 1;
      }
      ghost var l1, p1 := log, pins;

      var arg := new bv8[] [0x00, 0x00, 0x00, 0x00];
      IssueCommand(0, arg);
      ghost var l2, p2 := log, pins;
      var response := GetResponseR1();
      IdlePhase(rx, start, l1, l2, log, p0, p1, p2, pins, response);
      if response != Ok(0x01) {
        res := Abort;
        return;
      }

      ghost var l3, p3 := log, pins;
      arg := new bv8[] [0x00, 0x00, 0x01, 0xAA];
      IssueCommand(8, arg);
      ghost var l4, p4 := log, pins;
      var wide := GetResponseR3R7();
      IfCondPhase(rx, start, l3, l4, log, p0, p3, wide);
      IfCondPhasePins(rx, start, l3, l4, p0, p3, p4, pins, wide.Ok?);
      if wide.Abort? {
        res := Abort;
        return;
      }
      res := Ok(wide.value.payload & 0x0000_03FF == 0x0000_01AA);
    }
  }
}
