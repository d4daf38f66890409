/** The SPI link between the driver and the card, as the driver sees it: a
    chip-select line and a sequence of byte slots. Every byte the master
    clocks out occupies one slot, and in the same slot the card drives one
    byte back. The card is abstracted as the script `rx` of the bytes it
    drives, slot by slot; past the end of the script the data-out line idles
    high and reads as 0xFF. */
module SpiBus {

  /** One clocked byte: what the master drove on MOSI, and whether chip
      select was asserted (pin low) while it was clocked. */
  datatype Slot = Slot(mosi: bv8, selected: bool)

  /** One write to the chip-select pin: `asserted` is the level driven
      (true for low, the card selected), and `at` the number of slots
      clocked before it. Writes between two transfers share their `at`,
      and their order is that of the list they are kept in. */
  datatype CsWrite = CsWrite(at: int, asserted: bool)

  /** The byte the card drives in slot `k` of its script. */
  function Incoming(rx: seq<bv8>, k: int): (b: bv8)
    ensures !(0 <= k < |rx|) ==> b == 0xFF
  {
    if 0 <= k < |rx| then rx[k] else 0xFF
  }

  /** The `n` bytes the card drives from slot `k` on. */
  function Window(rx: seq<bv8>, k: int, n: nat): (w: seq<bv8>)
    ensures |w| == n
    ensures forall t :: 0 <= t < n ==> w[t] == Incoming(rx, k + t)
  {
    seq(n, t => Incoming(rx, k + t))
  }

  /** The slots taken by sending `bytes` with chip select as given. */
  function Sent(bytes: seq<bv8>, selected: bool): (slots: seq<Slot>)
    ensures |slots| == |bytes|
    ensures forall i :: 0 <= i < |bytes| ==> slots[i] == Slot(bytes[i], selected)
  {
    seq(|bytes|, i requires 0 <= i < |bytes| => Slot(bytes[i], selected))
  }

  /** `n` slots of 0xFF filler: the dummy clocks of the reset sequence and
      the bytes the master sends while it only wants to listen. */
  function Clocked(n: nat, selected: bool): (slots: seq<Slot>)
    ensures |slots| == n
    ensures forall i :: 0 <= i < n ==> slots[i] == Slot(0xFF, selected)
  {
    seq(n, _ => Slot(0xFF, selected))
  }

  lemma ClockedAppend(a: nat, b: nat, selected: bool)
    ensures Clocked(a, selected) + Clocked(b, selected) == Clocked(a + b, selected)
  {
  }

  /** A log that three steps extend in turn by `a`, `b` and `c` is
      extended by their concatenation. */
  lemma Extended<T>(start: seq<T>, a: seq<T>, b: seq<T>, c: seq<T>, la: seq<T>, lb: seq<T>, lc: seq<T>)
    requires la == start + a && lb == la + b && lc == lb + c
    ensures lc == start + (a + b + c)
  {
  }

  // ------------------------------------------------------------------
  //  Bounded response polling
  // ------------------------------------------------------------------

  /** The poll reads chunks of `width` bytes from slot `at` on; chunk `n`
      is accepted when its first byte has bit 7 clear, the mark of a
      response byte (a card that is not answering yet holds the line high). */
  predicate Accepted(rx: seq<bv8>, at: int, width: nat, n: nat)
  {
    Incoming(rx, at + width * n) & 0x80 == 0
  }

  datatype PollResult = Found(chunk: nat) | Exhausted

  /** Bounded polling from chunk `n` on: the first accepted chunk below
      `tries`, or exhaustion. */
  function Poll(rx: seq<bv8>, at: int, width: nat, tries: nat, n: nat): (p: PollResult)
    ensures p.Found? ==> n <= p.chunk < tries && Accepted(rx, at, width, p.chunk)
    decreases tries - n
  {
    if n >= tries then Exhausted
    else if Accepted(rx, at, width, n) then Found(n)
    else Poll(rx, at, width, tries, n + 1)
  }

  /** The number of chunks a poll exchanges: up to and including the
      accepted one, or all of them. */
  function Exchanged(p: PollResult, tries: nat): (c: nat)
    ensures p.Found? && p.chunk < tries ==> 1 <= c <= tries
    ensures p.Exhausted? ==> c == tries
  {
    match p
    case Found(n) => n + 1
    case Exhausted => tries
  }

  /** A chunk the poll returns is the first accepted one: every chunk before
      it was rejected. */
  lemma {:induction false} PollFirst(rx: seq<bv8>, at: int, width: nat, tries: nat, n: nat)
    ensures var p := Poll(rx, at, width, tries, n);
            p.Found? ==> forall t :: n <= t < p.chunk ==> !Accepted(rx, at, width, t)
    decreases tries - n
  {
    if n < tries && !Accepted(rx, at, width, n) {
      PollFirst(rx, at, width, tries, n + 1);
    }
  }

  /** Conversely, the first accepted chunk below the bound is the one the
      poll returns. */
  lemma {:induction false} PollFindsFirst(rx: seq<bv8>, at: int, width: nat, tries: nat, n: nat, c: nat)
    requires n <= c < tries && Accepted(rx, at, width, c)
    requires forall t :: n <= t < c ==> !Accepted(rx, at, width, t)
    ensures Poll(rx, at, width, tries, n) == Found(c)
    decreases c - n
  {
    if n < c {
      PollFindsFirst(rx, at, width, tries, n + 1, c);
    }
  }

  /** The poll is exhausted exactly when every chunk below the bound is
      rejected. */
  lemma {:induction false} PollExhausted(rx: seq<bv8>, at: int, width: nat, tries: nat, n: nat)
    ensures Poll(rx, at, width, tries, n).Exhausted?
        <==> forall t :: n <= t < tries ==> !Accepted(rx, at, width, t)
    decreases tries - n
  {
    if n < tries {
      PollExhausted(rx, at, width, tries, n + 1);
    }
  }
}
