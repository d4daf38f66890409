/** The CRC7 checksum that protects an SD command in SPI mode: the generator
    polynomial G(x) = x^7 + x^3 + 1, the reference definition of the checksum
    as a polynomial remainder, and the bit-serial routine the driver uses to
    compute it. */
module SdCrc {

  /** G(x) = x^7 + x^3 + 1 as the pattern the shift register subtracts
      (bit 7 is the x^7 term, bit 3 the x^3 term, bit 0 the constant). */
  const Generator: bv8 := 0x89

  /** The bits of a byte, most significant first: the order in which SPI
      clocks them out and the order of decreasing polynomial degree. */
  function ByteBits(b: bv8): (bits: seq<bool>)
    ensures |bits| == 8
  {
    [b & 0x80 != 0, b & 0x40 != 0, b & 0x20 != 0, b & 0x10 != 0,
     b & 0x08 != 0, b & 0x04 != 0, b & 0x02 != 0, b & 0x01 != 0]
  }

  /** The bits of a message, byte after byte. */
  function MessageBits(msg: seq<bv8>): (bits: seq<bool>)
    ensures |bits| == 8 * |msg|
  {
    if msg == [] then [] else ByteBits(msg[0]) + MessageBits(msg[1..])
  }

  function Zeros(n: nat): (z: seq<bool>)
    ensures |z| == n && forall i :: 0 <= i < n ==> !z[i]
  {
    seq(n, _ => false)
  }

  /** One step of long division by G over GF(2): multiply the partial
      remainder by x, add the next coefficient, and subtract G once the
      degree reaches 7. */
  function DivStep(r: bv8, b: bool): (r': bv8)
    requires r < 0x80
    ensures r' < 0x80
  {
    var t := (r << 1) | (if b then 1 else 0);
    if t & 0x80 != 0 then t ^ Generator else t
  }

  /** The remainder of the polynomial whose coefficients are `bits`
      (highest degree first) divided by G. */
  function Remainder(bits: seq<bool>): (r: bv8)
    ensures r < 0x80
  {
    if bits == [] then 0 else DivStep(Remainder(bits[..|bits| - 1]), bits[|bits| - 1])
  }

  /** CRC7 of a message M: the remainder of M(x) * x^7 divided by G(x). */
  function Crc7(bits: seq<bool>): (c: bv8)
    ensures c < 0x80
  {
    Remainder(bits + Zeros(7))
  }

  /** The checksum byte of a command frame: the CRC7 of the 5-byte body in
      bits 7..1 and the end bit (always 1) in bit 0. */
  function CrcByte(body: seq<bv8>): (c: bv8)
    ensures c & 1 == 1
    ensures c >> 1 == Crc7(MessageBits(body))
  {
    (Crc7(MessageBits(body)) << 1) | 1
  }

  // ------------------------------------------------------------------
  //  Computing the remainder a byte at a time
  // ------------------------------------------------------------------

  /** Eight division steps, one per bit of `b`, most significant first. */
  function ByteDiv(r: bv8, b: bv8): (r': bv8)
    requires r < 0x80
    ensures r' < 0x80
  {
    var r1 := DivStep(r, b & 0x80 != 0);
    var r2 := DivStep(r1, b & 0x40 != 0);
    var r3 := DivStep(r2, b & 0x20 != 0);
    var r4 := DivStep(r3, b & 0x10 != 0);
    var r5 := DivStep(r4, b & 0x08 != 0);
    var r6 := DivStep(r5, b & 0x04 != 0);
    var r7 := DivStep(r6, b & 0x02 != 0);
    DivStep(r7, b & 0x01 != 0)
  }

  /** Seven division steps with zero coefficients: the multiplication by x^7. */
  function Flush(r: bv8): (r': bv8)
    requires r < 0x80
    ensures r' < 0x80
  {
    var r1 := DivStep(r, false);
    var r2 := DivStep(r1, false);
    var r3 := DivStep(r2, false);
    var r4 := DivStep(r3, false);
    var r5 := DivStep(r4, false);
    var r6 := DivStep(r5, false);
    DivStep(r6, false)
  }

  lemma AppendAssoc<T>(p: seq<T>, a: seq<T>, b: seq<T>)
    ensures (p + a) + b == p + (a + b)
  {
  }

  lemma RemainderSnoc(p: seq<bool>, b: bool)
    ensures Remainder(p + [b]) == DivStep(Remainder(p), b)
  {
    assert (p + [b])[..|p|] == p;
  }

  lemma RemainderNibble(p: seq<bool>, x0: bool, x1: bool, x2: bool, x3: bool)
    ensures Remainder(p + [x0, x1, x2, x3])
         == DivStep(DivStep(DivStep(DivStep(Remainder(p), x0), x1), x2), x3)
  {
    var q1 := p + [x0];
    var q2 := q1 + [x1];
    var q3 := q2 + [x2];
    var q4 := q3 + [x3];
    assert q4 == p + [x0, x1, x2, x3];
    var r1 := DivStep(Remainder(p), x0);
    var r2 := DivStep(r1, x1);
    var r3 := DivStep(r2, x2);
    RemainderSnoc(p, x0);
    assert Remainder(q1) == r1;
    RemainderSnoc(q1, x1);
    assert Remainder(q2) == r2;
    RemainderSnoc(q2, x2);
    assert Remainder(q3) == r3;
    RemainderSnoc(q3, x3);
  }

  lemma RemainderByte(p: seq<bool>, b: bv8)
    ensures Remainder(p + ByteBits(b)) == ByteDiv(Remainder(p), b)
  {
    var bits := ByteBits(b);
    var hi := [bits[0], bits[1], bits[2], bits[3]];
    var lo := [bits[4], bits[5], bits[6], bits[7]];
    RemainderNibble(p, bits[0], bits[1], bits[2], bits[3]);
    RemainderNibble(p + hi, bits[4], bits[5], bits[6], bits[7]);
    AppendAssoc(p, hi, lo);
    assert bits == hi + lo;
  }

  lemma RemainderFlush(p: seq<bool>)
    ensures Remainder(p + Zeros(7)) == Flush(Remainder(p))
  {
    var q := p + [false, false, false, false];
    RemainderNibble(p, false, false, false, false);
    var r4 := Remainder(q);
    var q5 := q + [false];
    var q6 := q5 + [false];
    var q7 := q6 + [false];
    RemainderSnoc(q, false);
    assert Remainder(q5) == DivStep(r4, false);
    RemainderSnoc(q5, false);
    assert Remainder(q6) == DivStep(DivStep(r4, false), false);
    RemainderSnoc(q6, false);
    assert q7 == p + Zeros(7);
  }

  lemma {:induction false} MessageBitsSnoc(msg: seq<bv8>, b: bv8)
    ensures MessageBits(msg + [b]) == MessageBits(msg) + ByteBits(b)
  {
    if msg == [] {
      assert [b][1..] == [];
    } else {
      assert (msg + [b])[1..] == msg[1..] + [b];
      MessageBitsSnoc(msg[1..], b);
    }
  }

  /** Taking in one more byte of a message is one byte-at-a-time division step. */
  lemma PrefixRemainder(msg: seq<bv8>, k: int)
    requires 0 <= k < |msg|
    ensures Remainder(MessageBits(msg[..k + 1])) == ByteDiv(Remainder(MessageBits(msg[..k])), msg[k])
  {
    assert msg[..k + 1] == msg[..k] + [msg[k]];
    MessageBitsSnoc(msg[..k], msg[k]);
    RemainderByte(MessageBits(msg[..k]), msg[k]);
  }

  /** The first three bytes of a message fed through the byte-at-a-time division. */
  lemma RemainderOfThree(msg: seq<bv8>)
    requires |msg| >= 3
    ensures Remainder(MessageBits(msg[..3])) == ByteDiv(ByteDiv(ByteDiv(0, msg[0]), msg[1]), msg[2])
  {
    assert msg[..0] == [];
    PrefixRemainder(msg, 0);
    PrefixRemainder(msg, 1);
    PrefixRemainder(msg, 2);
  }

  /** The checksum of a 5-byte body, with the division done a byte at a time. */
  lemma CrcByBytes(body: seq<bv8>)
    requires |body| == 5
    ensures Crc7(MessageBits(body)) == Flush(ByteDiv(ByteDiv(Remainder(MessageBits(body[..3])), body[3]), body[4]))
  {
    LastTwoBytes(body);
    RemainderFlush(MessageBits(body));
  }

  lemma LastTwoBytes(body: seq<bv8>)
    requires |body| == 5
    ensures Remainder(MessageBits(body)) == ByteDiv(ByteDiv(Remainder(MessageBits(body[..3])), body[3]), body[4])
  {
    PrefixRemainder(body, 3);
    PrefixRemainder(body, 4);
    assert body[..5] == body;
  }

  // ------------------------------------------------------------------
  //  The card's check
  // ------------------------------------------------------------------

  /** The seven checksum bits of a remainder below 0x80, x^6 term first: the
      bits 7..1 of the checksum byte as they go out on the line. */
  function CheckBits(c: bv8): (bits: seq<bool>)
    ensures |bits| == 7
  {
    [c & 0x40 != 0, c & 0x20 != 0, c & 0x10 != 0, c & 0x08 != 0,
     c & 0x04 != 0, c & 0x02 != 0, c & 0x01 != 0]
  }

  /** Seven division steps that take in the checksum bits of `c`. */
  function TakeIn(r: bv8, c: bv8): (r': bv8)
    requires r < 0x80
    ensures r' < 0x80
  {
    var r1 := DivStep(r, c & 0x40 != 0);
    var r2 := DivStep(r1, c & 0x20 != 0);
    var r3 := DivStep(r2, c & 0x10 != 0);
    var r4 := DivStep(r3, c & 0x08 != 0);
    var r5 := DivStep(r4, c & 0x04 != 0);
    var r6 := DivStep(r5, c & 0x02 != 0);
    DivStep(r6, c & 0x01 != 0)
  }

  lemma RemainderSeven(p: seq<bool>, x0: bool, x1: bool, x2: bool, x3: bool, x4: bool, x5: bool, x6: bool)
    ensures Remainder(p + [x0, x1, x2, x3, x4, x5, x6])
         == DivStep(DivStep(DivStep(DivStep(DivStep(DivStep(DivStep(Remainder(p), x0), x1), x2), x3), x4), x5), x6)
  {
    var q := p + [x0, x1, x2, x3];
    RemainderNibble(p, x0, x1, x2, x3);
    var r4 := Remainder(q);
    var q5 := q + [x4];
    var q6 := q5 + [x5];
    var q7 := q6 + [x6];
    RemainderSnoc(q, x4);
    assert Remainder(q5) == DivStep(r4, x4);
    RemainderSnoc(q5, x5);
    assert Remainder(q6) == DivStep(DivStep(r4, x4), x5);
    RemainderSnoc(q6, x6);
    var a := [x0, x1, x2, x3];
    AppendAssoc(p, a, [x4]);
    AppendAssoc(p, a + [x4], [x5]);
    AppendAssoc(p, a + [x4] + [x5], [x6]);
    assert a + [x4] + [x5] + [x6] == [x0, x1, x2, x3, x4, x5, x6];
  }

  lemma RemainderCheckBits(p: seq<bool>, c: bv8)
    ensures Remainder(p + CheckBits(c)) == TakeIn(Remainder(p), c)
  {
    RemainderSeven(p, c & 0x40 != 0, c & 0x20 != 0, c & 0x10 != 0, c & 0x08 != 0,
                   c & 0x04 != 0, c & 0x02 != 0, c & 0x01 != 0);
  }

  lemma FlushCancelsLow(r: bv8)
    requires r < 0x40
    ensures TakeIn(r, Flush(r)) == 0
  {
  }

  lemma FlushCancelsHigh(r: bv8)
    requires 0x40 <= r < 0x80
    ensures TakeIn(r, Flush(r)) == 0
  {
  }

  /** Dividing on through the checksum of a remainder cancels it: the
      remainder of M(x) * x^7 + C(x), C the checksum of M, is zero. */
  lemma FlushCancels(r: bv8)
    requires r < 0x80
    ensures TakeIn(r, Flush(r)) == 0
  {
    if r < 0x40 {
      FlushCancelsLow(r);
    } else {
      FlushCancelsHigh(r);
    }
  }

  /** What the card checks: a message followed by its seven checksum bits is
      a multiple of G. */
  lemma CodewordDivisible(bits: seq<bool>)
    ensures Remainder(bits + CheckBits(Crc7(bits))) == 0
  {
    RemainderFlush(bits);
    RemainderCheckBits(bits, Crc7(bits));
    FlushCancels(Remainder(bits));
  }

  /** A command frame, its body followed by the checksum byte without the end
      bit, passes the card's check. */
  lemma FrameDivisible(body: seq<bv8>)
    ensures Remainder(MessageBits(body) + CheckBits(CrcByte(body) >> 1)) == 0
  {
    CodewordDivisible(MessageBits(body));
  }

  // ------------------------------------------------------------------
  //  Test vectors
  // ------------------------------------------------------------------

  /** GO_IDLE_STATE (CMD0, argument 0) carries the checksum byte 0x95, the one
      value a card checks before it has entered SPI mode. */
  lemma GoIdleStateCrc()
    ensures CrcByte([0x40, 0x00, 0x00, 0x00, 0x00]) == 0x95
  {
    RemainderOfThree([0x40, 0x00, 0x00, 0x00, 0x00]);
    CrcByBytes([0x40, 0x00, 0x00, 0x00, 0x00]);
  }

  /** SEND_IF_COND (CMD8, argument 0x1AA) carries the checksum byte 0x87. */
  lemma SendIfCondCrc()
    ensures CrcByte([0x48, 0x00, 0x00, 0x01, 0xAA]) == 0x87
  {
    RemainderOfThree([0x48, 0x00, 0x00, 0x01, 0xAA]);
    CrcByBytes([0x48, 0x00, 0x00, 0x01, 0xAA]);
  }

  // ------------------------------------------------------------------
  //  The driver's bit-serial routine
  // ------------------------------------------------------------------

  lemma {:induction false} MessageBitsAt(msg: seq<bv8>, i: nat, t: nat)
    requires i < |msg| && t < 8
    ensures MessageBits(msg)[8 * i + t] == ByteBits(msg[i])[t]
  {
    if i > 0 {
      MessageBitsAt(msg[1..], i - 1, t);
    }
  }

  /** Bit `j` of `b` (bit 0 the least significant): the value of the C
      expression `(b >> j) & 1`, as ShiftedBitIsShift shows. It is stated
      through ByteBits so that the register proofs need no shift by a
      variable amount. */
  function ShiftedBit(b: bv8, j: int): (x: bv8)
    requires 0 <= j < 8
    ensures x == 0 || x == 1
  {
    if ByteBits(b)[7 - j] then 1 else 0
  }

  lemma ShiftedBitIsShift(b: bv8, j: int)
    requires 0 <= j < 8
    ensures ShiftedBit(b, j) == (b >> j) & 1
  {
    if j < 4 {
      assert j == 0 || j == 1 || j == 2 || j == 3;
    } else {
      assert j == 4 || j == 5 || j == 6 || j == 7;
    }
  }

  /** The routine keeps its register in a C `int`, but only the low byte is
      ever observed: the bit-7 test reads bit 7 and the result is truncated
      to a byte. One pass of the inner loop on the wide register agrees, on
      its low byte, with the same pass on a byte register; the bits above
      never flow down, since the register only shifts left. */
  lemma IntRegisterLowByte(c: bv32, x: bv8)
    requires x == 0 || x == 1
    ensures var t := (c << 1) | x as bv32;
            var u := if t & 0x80 != 0 then t ^ 0x89 else t;
            var c8 := (c & 0xFF) as bv8;
            var t8 := (c8 << 1) | x;
            var u8 := if t8 & 0x80 != 0 then t8 ^ Generator else t8;
            (c << 1) & 0xFF == (c8 << 1) as bv32 && (u & 0xFF) as bv8 == u8
  {
  }

  /** With the start bit clear the wide register never leaves the low
      byte: from a value below 0x80, a pass shifts to below 0x100 and the
      reduction brings it back below 0x80. So for a command byte the `int`
      is exactly the byte register, and the shifts never reach its sign bit. */
  lemma IntRegisterBelow(c: bv32, x: bv8)
    requires c < 0x80 && (x == 0 || x == 1)
    ensures var t := (c << 1) | x as bv32;
            var u := if t & 0x80 != 0 then t ^ 0x89 else t;
            t < 0x100 && u < 0x80
  {
  }

  /** A byte with bit 7 clear is its own remainder: loading it whole is the
      same as shifting its eight bits in one by one. */
  lemma PreloadByte(c: bv8)
    requires c < 0x80
    ensures Remainder(ByteBits(c)) == c
  {
    RemainderByte([], c);
    assert [] + ByteBits(c) == ByteBits(c);
  }

  /** The five bytes the routine divides: `buf[0..4]` with the start bit of
      `buf[0]` cleared, since the preload skips its reduction. */
  function CommandBody(buf: seq<bv8>): (body: seq<bv8>)
    requires |buf| >= 5
    ensures |body| == 5
  {
    [buf[0] & 0x7F] + buf[1..5]
  }

  /** The bit stream the routine divides: the body with its start bit
      cleared, then the eight zero bits of the sixth outer pass. */
  function Stream(buf: seq<bv8>): (s: seq<bool>)
    requires |buf| >= 5
    ensures |s| == 48
  {
    MessageBits(CommandBody(buf)) + Zeros(8)
  }

  /** The byte of the body that stream bit `k` comes from, for `8 <= k < 40`. */
  function ByteIndex(k: int): (n: int)
    ensures 1 <= n <= 4
  {
    if k < 16 then 1 else if k < 24 then 2 else if k < 32 then 3 else 4
  }

  /** Stream bit `k` read straight from the buffer: a bit of byte `k / 8` in
      the first four outer passes (most significant first), zero in the
      sixth. */
  function InBit(buf: seq<bv8>, k: int): bool
    requires |buf| >= 5 && 8 <= k < 48
  {
    if k < 40 then
      var n := ByteIndex(k);
      ByteBits(buf[n])[if 0 <= k - 8 * n < 8 then k - 8 * n else 0]
    else false
  }

  /** The reference register: its low seven bits after the routine has taken
      in `k` stream bits (the preload counts as the first eight). */
  function Register(buf: seq<bv8>, k: int): (r: bv8)
    requires |buf| >= 5 && 8 <= k <= 48
    ensures r < 0x80
    decreases k
  {
    if k == 8 then buf[0] & 0x7F else DivStep(Register(buf, k - 1), InBit(buf, k - 1))
  }

  lemma InBitIsStreamBit(buf: seq<bv8>, k: int)
    requires |buf| >= 5 && 8 <= k < 48
    ensures InBit(buf, k) == Stream(buf)[k]
  {
    var body := CommandBody(buf);
    if k < 40 {
      var n := ByteIndex(k);
      MessageBitsAt(body, n, k - 8 * n);
    }
  }

  /** The register holds the polynomial remainder of the stream bits taken
      in so far. */
  lemma {:induction false} RegisterIsRemainder(buf: seq<bv8>, k: int)
    requires |buf| >= 5 && 8 <= k <= 48
    ensures Register(buf, k) == Remainder(Stream(buf)[..k])
    decreases k
  {
    var stream := Stream(buf);
    if k == 8 {
      assert stream[..8] == ByteBits(buf[0] & 0x7F);
      PreloadByte(buf[0] & 0x7F);
    } else {
      RegisterIsRemainder(buf, k - 1);
      InBitIsStreamBit(buf, k - 1);
      assert stream[..k] == stream[..k - 1] + [stream[k - 1]];
      RemainderSnoc(stream[..k - 1], stream[k - 1]);
    }
  }

  /** `prev` is the reference register after `k` stream bits, shifted left
      once: the register as it stands before the next bit is taken in. */
  predicate Shifted(buf: seq<bv8>, k: int, prev: bv8)
    requires |buf| >= 5 && 8 <= k <= 48
  {
    prev == Register(buf, k) << 1
  }

  /** One pass of the inner loop on the byte register: whatever its bit 7
      holds, shifting in `bit` and reducing is one division step on its low
      seven bits. */
  lemma RegisterStep(before: bv8, bit: bv8, b: bool)
    requires bit == if b then 1 else 0
    ensures var t := (before << 1) | bit;
            (if t & 0x80 != 0 then t ^ Generator else t) == DivStep(before & 0x7F, b)
    ensures before << 1 == (before & 0x7F) << 1
  {
  }

  /** In the first four outer passes the inner loop takes in bit `j` of
      `buf[i]`, stream bit `8 * i + 7 - j`. */
  lemma InBitAt(buf: seq<bv8>, i: int, j: int)
    requires |buf| >= 5 && 1 <= i <= 4 && 0 <= j <= 7
    ensures InBit(buf, 8 * i + 7 - j) == (ShiftedBit(buf[i], j) == 1)
  {
    assert ByteIndex(8 * i + 7 - j) == i;
  }

  /** A pass of the inner loop in the first four outer passes shifts in
      bit `j` of `buf[i]`, stream bit `k`. */
  lemma BodyPass(buf: seq<bv8>, i: int, j: int, k: int, k': int, before: bv8, prev: bv8, mid: bv8, after: bv8)
    requires |buf| >= 5 && 1 <= i <= 4 && 0 <= j <= 7 && k == 8 * i + 7 - j && k' == k + 1
    requires before & 0x7F == Register(buf, k)
    requires prev == before << 1
    requires mid == prev | ShiftedBit(buf[i], j)
    requires after == if mid & 0x80 != 0 then mid ^ Generator else mid
    ensures after == Register(buf, k')
    ensures Shifted(buf, k, prev)
  {
    InBitAt(buf, i, j);
    RegisterStep(before, ShiftedBit(buf[i], j), InBit(buf, 8 * i + 7 - j));
  }

  /** A pass of the inner loop in the sixth outer pass shifts in a zero. */
  lemma FlushPass(buf: seq<bv8>, k: int, k': int, before: bv8, prev: bv8, after: bv8)
    requires |buf| >= 5 && 40 <= k < 48 && k' == k + 1
    requires before & 0x7F == Register(buf, k)
    requires prev == before << 1
    requires after == if prev & 0x80 != 0 then prev ^ Generator else prev
    ensures after == Register(buf, k')
    ensures Shifted(buf, k, prev)
  {
    assert prev | 0 == prev;
    RegisterStep(before, 0, false);
  }

  /** All but the last stream bit: the body followed by the seven zeros of
      the multiplication by x^7. */
  lemma StreamPrefix(buf: seq<bv8>)
    requires |buf| >= 5
    ensures Stream(buf)[..47] == MessageBits(CommandBody(buf)) + Zeros(7)
  {
    var bits := MessageBits(CommandBody(buf));
    assert Zeros(8)[..7] == Zeros(7);
    assert (bits + Zeros(8))[..47] == bits + Zeros(8)[..7];
  }

  lemma StartBitClear(buf: seq<bv8>)
    requires |buf| >= 5 && buf[0] < 0x80
    ensures CommandBody(buf) == buf[..5]
  {
    assert buf[0] & 0x7F == buf[0];
  }

  /** The loop invariant of the routine: after `k` stream bits the low seven
      bits of `crc` are the reference register, and once a pass has run
      `prev` is the register shifted before the last reduction. */
  predicate Tracks(buf: seq<bv8>, k: int, crc: bv8, prev: bv8)
    requires |buf| >= 5 && 8 <= k <= 48
  {
    crc & 0x7F == Register(buf, k) && (k > 8 ==> Shifted(buf, k - 1, prev))
  }

  /** Any pass of the inner loop, `i` and `j` as in the routine. */
  lemma InnerPass(buf: seq<bv8>, i: int, j: int, k: int, before: bv8, oldPrev: bv8, prev: bv8, mid: bv8, after: bv8)
    requires |buf| >= 5 && 1 <= i <= 5 && 0 <= j <= 7 && k == 8 * i + 7 - j
    requires Tracks(buf, k, before, oldPrev)
    requires prev == before << 1
    requires mid == if i < 5 then prev | ShiftedBit(buf[i], j) else prev
    requires after == if mid & 0x80 != 0 then mid ^ Generator else mid
    ensures Tracks(buf, k + 1, after, prev)
  {
    if i < 5 {
      BodyPass(buf, i, j, k, k + 1, before, prev, mid, after);
    } else {
      FlushPass(buf, k, k + 1, before, prev, after);
    }
  }

  /** The register before the last reduction, with the end bit set, is the
      checksum byte of the body with its start bit cleared. */
  lemma RegisterEnd(buf: seq<bv8>, crc: bv8, prev: bv8)
    requires |buf| >= 5
    requires Tracks(buf, 48, crc, prev)
    ensures prev | 1 == CrcByte(CommandBody(buf))
    ensures buf[0] < 0x80 ==> prev | 1 == CrcByte(buf[..5])
  {
    var body := CommandBody(buf);
    RegisterIsRemainder(buf, 47);
    StreamPrefix(buf);
    assert Register(buf, 47) == Crc7(MessageBits(body));
    if buf[0] < 0x80 {
      StartBitClear(buf);
    }
  }

  /** `GetSdCrc`: the checksum byte of the 5-byte command body in `buf`.
      The register is preloaded with `buf[0]` without a reduction, so bit 7 of
      `buf[0]` (the start bit, 0 in every command) is shifted out unseen; the
      sixth outer pass shifts in zeros and the result is the register as it
      stood before the last reduction, with the end bit set. The C `int`
      register is kept as its low byte (IntRegisterLowByte). */
  method GetSdCrc(buf: array<bv8>) returns (r: bv8)
    requires buf.Length >= 5
    ensures r & 1 == 1
    ensures r == CrcByte(CommandBody(buf[..]))
    ensures buf[0] < 0x80 ==> r == CrcByte(buf[..5])
  {
    ghost var body := buf[..];
    var crc: bv8 := buf[0];
    var crcPrev: bv8 := 0;
    // k: the stream bits the register has taken in
    ghost var k := 8;
    var i := 1;
    while i < 6
      invariant 1 <= i <= 6 && k == 8 * i
      invariant Tracks(body, k, crc, crcPrev)
    {
      var j := 7;
      while j >= 0
        invariant -1 <= j <= 7 && k == 8 * i + 7 - j
        invariant Tracks(body, k, crc, crcPrev)
      {
        ghost var before, oldPrev := crc, crcPrev;
        crc := crc << 1;
        crcPrev := crc;
        if i < 5 {
          var bit := (buf[i] >> j) & 1;
          ShiftedBitIsShift(buf[i], j);
          crc := crc | bit;
        }
        ghost var mid := crc;
        if crc & 0x80 != 0 {
          crc := crc ^ Generator;
        }
        InnerPass(body, i, j, k, before, oldPrev, crcPrev, mid, crc);
        k := k + 1;
        j := j - 1;
      }
      i := i + 1;
    }
    r := crcPrev | 1;
    RegisterEnd(body, crc, crcPrev);
  }
}
