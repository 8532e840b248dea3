/** The transmit ring shared with the Hyper-V host: a byte ring that carries framed packets. */
module TxRing {
  import opened Arithmetic
  import opened Pieces
  import opened Prelude

  // ── The ring as a queue ───────────────────────────────────────────────────

  /** The unread bytes between the offsets `r` and `w`. */
  function Content(d: seq<byte>, r: nat, w: nat): seq<byte>
    requires r < |d| && w < |d|
  {
    if r <= w then d[r..w] else d[r..] + d[..w]
  }

  /** How far past `off` the index `j` lies, going around. */
  function Ahead(size: nat, off: nat, j: nat): nat
    requires off < size && j < size
  {
    if off <= j then j - off else j + size - off
  }

  /** The offset `n` bytes past `off`, going around. */
  function Advance(size: nat, off: nat, n: nat): (r: nat)
    requires off < size && n <= size
    ensures r < size
  {
    if off + n < size then off + n else off + n - size
  }

  lemma {:induction false} AdvanceAligned(size: nat, off: nat, n: nat)
    requires off < size && n <= size && size % 8 == 0 && off % 8 == 0 && n % 8 == 0
    ensures Advance(size, off, n) % 8 == 0
  {
    var units := off / 8 + n / 8;
    if off + n < size {
      QuotientUnique(off + n, 8, units, 0);
    } else {
      QuotientUnique(off + n - size, 8, units - size / 8, 0);
    }
  }

  lemma {:induction false} RemainderOnce(x: nat, size: nat)
    requires 0 < size <= x < 2 * size
    ensures x % size == x - size
  {
    QuotientUnique(x, size, 1, x - size);
  }

  lemma {:induction false} AdvanceIsRemainder(size: nat, off: nat, n: nat)
    requires off < size && n <= size
    ensures (off + n) % size == Advance(size, off, n)
  {
    if off + n >= size {
      RemainderOnce(off + n, size);
    }
  }

  /** The ring after `s` was written from `off` on, going around at the end. */
  function Put(d: seq<byte>, s: seq<byte>, off: nat): (r: seq<byte>)
    requires off < |d|
    ensures |r| == |d|
  {
    seq(|d|, j requires 0 <= j < |d| => if Ahead(|d|, off, j) < |s| then s[Ahead(|d|, off, j)] else d[j])
  }

  function Free(size: nat, r: nat, w: nat): nat
    requires r < size && w < size
  {
    if w >= r then size - (w - r) else r - w
  }

  /** Two writes in a row are one write. */
  lemma {:induction false} PutPut(d: seq<byte>, a: seq<byte>, b: seq<byte>, off: nat)
    requires off < |d| && |a| + |b| <= |d|
    ensures Put(Put(d, a, off), b, Advance(|d|, off, |a|)) == Put(d, a + b, off)
    ensures Advance(|d|, Advance(|d|, off, |a|), |b|) == Advance(|d|, off, |a| + |b|)
  {
  }

  /** A write that leaves at least one byte free appends to the queue and overwrites nothing in it. */
  lemma {:induction false} PutAppends(d: seq<byte>, s: seq<byte>, r: nat, w: nat)
    requires r < |d| && w < |d| && |s| < Free(|d|, r, w)
    ensures var w' := Advance(|d|, w, |s|);
            Content(Put(d, s, w), r, w') == Content(d, r, w) + s
  {
    var w' := Advance(|d|, w, |s|);
    var d' := Put(d, s, w);
    var c, c' := Content(d, r, w), Content(d', r, w');
    assert |c'| == |c| + |s|;
    forall i | 0 <= i < |c'| ensures c'[i] == (c + s)[i] {
      var j := if r + i < |d| then r + i else r + i - |d|;
      assert c'[i] == d'[j];
      if i < |c| {
        assert c[i] == d[j];
      }
    }
  }

  /** The `n` bytes of the ring from `off` on, going around at the end. */
  function Around(d: seq<byte>, off: nat, n: nat): seq<byte>
    requires off < |d| && n <= |d|
  {
    seq(n, i requires 0 <= i < n => d[Advance(|d|, off, i)])
  }

  /** The unread bytes are those from the read offset on, as many as the offsets are apart. */
  lemma {:induction false} ContentIsAround(d: seq<byte>, r: nat, w: nat)
    requires r < |d| && w < |d|
    ensures |Content(d, r, w)| == (w - r) % |d| && Content(d, r, w) == Around(d, r, |Content(d, r, w)|)
  {
    AheadIsRemainder(|d|, r, w);
  }

  lemma {:induction false} AheadIsRemainder(size: nat, off: nat, j: nat)
    requires off < size && j < size
    ensures (j - off) % size == Ahead(size, off, j)
  {
    if off <= j {
      QuotientUnique(j - off, size, 0, j - off);
    } else {
      QuotientUnique(j - off, size, -1, j - off + size);
    }
  }

  /** A write puts its bytes from the offset on, and changes no others. */
  lemma {:induction false} PutIsAround(d: seq<byte>, s: seq<byte>, off: nat, j: nat)
    requires off < |d| && |s| <= |d| && j < |d|
    ensures Around(Put(d, s, off), off, |s|) == s
    ensures |s| <= (j - off) % |d| ==> Put(d, s, off)[j] == d[j]
  {
    AheadIsRemainder(|d|, off, j);
  }

  /** Taking bytes off the front moves the read offset over them. */
  lemma {:induction false} TakeFront(d: seq<byte>, r: nat, w: nat, n: nat)
    requires r < |d| && w < |d| && n <= |Content(d, r, w)|
    ensures var r' := Advance(|d|, r, n);
            Content(d, r', w) == Content(d, r, w)[n..]
  {
  }

  /** What a reader leaves unread, however far it moves: too far, and bytes read before count as unread again. */
  lemma {:induction false} ReadOn(d: seq<byte>, r: nat, w: nat, n: nat)
    requires r < |d| && w < |d|
    ensures |Content(d, (r + n) % |d|, w)| == (|Content(d, r, w)| - n) % |d|
    ensures n <= |Content(d, r, w)| ==> Content(d, (r + n) % |d|, w) == Content(d, r, w)[n..]
  {
    var size, r' := |d|, (r + n) % |d|;
    var q := (r + n) / size;
    assert r + n == q * size + r';
    var left, left' := |Content(d, r, w)|, |Content(d, r', w)|;
    var k := (if r <= w then 0 else 1) - (if r' <= w then 0 else 1);
    assert (k - q) * size == k * size - q * size;
    QuotientUnique(left - n, size, k - q, left');
    if n <= left {
      TakeFront(d, r, w, n);
      AdvanceIsRemainder(size, r, n);
    }
  }

  /** Where a reader's offset goes; the sum is cut to 32 bits. */
  function ReadOffset(size: nat, off: nat, n: nat): (r: nat)
    requires 0 < size
    ensures r < size
  {
    (off + n) % 0x1_0000_0000 % size
  }

  /** Offsets stay on 8-byte boundaries exactly if the reader moves by multiples of 8. */
  lemma {:induction false} OffsetAligned(size: nat, off: nat, n: nat)
    requires 0 < size && size % 8 == 0 && off % 8 == 0
    ensures ReadOffset(size, off, n) % 8 == n % 8
  {
    var x := off + n;
    RemainderAligned(x, 0x1_0000_0000);
    RemainderAligned(x % 0x1_0000_0000, size);
    QuotientUnique(x, 8, off / 8 + n / 8, n % 8);
  }

  lemma {:induction false} RemainderAligned(x: nat, size: nat)
    requires 0 < size && size % 8 == 0
    ensures x % size % 8 == x % 8
  {
    var a, q, r := size / 8, x / size, x % size;
    assert x == q * size + r && size == 8 * a && r == 8 * (r / 8) + r % 8;
    assert q * size == 8 * (q * a);
    QuotientUnique(x, 8, q * a + r / 8, r % 8);
  }

  // ── Packets ───────────────────────────────────────────────────────────────

  function Field16(s: seq<byte>, i: nat): nat
    requires i + 2 <= |s|
  {
    s[i] as nat + 256 * s[i + 1] as nat
  }

  function Le16(n: nat): (r: seq<byte>)
    requires n < 0x1_0000
    ensures |r| == 2 && Field16(r, 0) == n
  {
    [(n % 256) as byte, (n / 256) as byte]
  }

  function Le32(n: nat): (r: seq<byte>)
    requires n < 0x1_0000_0000
    ensures |r| == 4 && Field16(r, 0) + 0x1_0000 * Field16(r, 2) == n
  {
    Le16(n % 0x1_0000) + Le16(n / 0x1_0000)
  }

  function Zeros(n: nat): seq<byte> {
    seq(n, _ => 0 as byte)
  }

  const FOOTER_LEN: nat := 8

  /** A header names its own length, in units of 8 bytes, in its second field. */
  predicate HeaderOk(h: seq<byte>) {
    16 <= |h| < 0x1_0000 && Field16(h, 2) * 8 == |h|
  }

  function Padding(len: nat): (p: nat)
    ensures p < 8 && (len + p) % 8 == 0
  {
    (8 - len % 8) % 8
  }

  function PacketLen(h: seq<byte>, payload: seq<byte>): nat {
    |h| + |payload| + Padding(|payload|) + FOOTER_LEN
  }

  /** The header with the length of the packet, without footer and in units of 8 bytes, cut to 16 bits. */
  function Stamped(h: seq<byte>, len: nat): (r: seq<byte>)
    requires 16 <= |h| && FOOTER_LEN <= len
    ensures |r| == |h| && Field16(r, 4) == (len - FOOTER_LEN) / 8 % 0x1_0000 && Field16(r, 2) == Field16(h, 2)
  {
    h[..4] + Le16((len - FOOTER_LEN) / 8 % 0x1_0000) + h[6..]
  }

  /** Header, payload, zero padding, footer: the bytes a packet puts into the ring at offset `off`. */
  function Packet(h: seq<byte>, payload: seq<byte>, off: nat): (r: seq<byte>)
    requires 16 <= |h| && off < 0x1_0000_0000
    ensures |r| == PacketLen(h, payload)
  {
    Stamped(h, PacketLen(h, payload)) + payload + Zeros(Padding(|payload|)) + (Le32(0) + Le32(off))
  }

  /** The value of the bytes from `i` up to `j`, the least significant first. */
  function LittleEndian(s: seq<byte>, i: nat, j: nat): nat
    requires i <= j <= |s|
    decreases j - i
  {
    if i == j then 0 else s[i] as nat + 256 * LittleEndian(s, i + 1, j)
  }

  /**
   * A packet as the host finds it: the header with its length in units of 8 bytes in place of field 4, the payload,
   * zeros up to the next multiple of 8, four more zeros, and the offset at which the packet begins.
   */
  ghost predicate OnWire(p: seq<byte>, h: seq<byte>, payload: seq<byte>, off: nat) {
    var n, end := |h| + |payload|, |p| - 8;
    && 16 <= |h| && n <= end < n + 8
    && (forall i :: 0 <= i < |h| && i != 4 && i != 5 ==> p[i] == h[i])
    && LittleEndian(p, 4, 6) == end / 8 % 0x1_0000
    && p[|h|..n] == payload
    && (forall i :: n <= i < end + 4 ==> p[i] == 0)
    && LittleEndian(p, end + 4, end + 8) == off
  }

  lemma {:induction false} PacketOnWire(h: seq<byte>, payload: seq<byte>, off: nat)
    requires 16 <= |h| && off < 0x1_0000_0000
    ensures OnWire(Packet(h, payload, off), h, payload, off)
  {
    var p, st := Packet(h, payload, off), Stamped(h, PacketLen(h, payload));
    var end := |p| - 8;
    assert p[4] == st[4] && p[5] == st[5];
    assert LittleEndian(p, 4, 6) == Field16(st, 4) by {
      assert LittleEndian(p, 5, 6) == p[5] as nat + 256 * LittleEndian(p, 6, 6);
    }
    var f := Le32(off);
    assert p[end + 4..] == f;
    assert p[end + 4] == f[0] && p[end + 5] == f[1] && p[end + 6] == f[2] && p[end + 7] == f[3];
    assert LittleEndian(p, end + 7, end + 8) == p[end + 7] as nat + 256 * LittleEndian(p, end + 8, end + 8);
    assert LittleEndian(p, end + 6, end + 8) == p[end + 6] as nat + 256 * LittleEndian(p, end + 7, end + 8);
    assert LittleEndian(p, end + 5, end + 8) == p[end + 5] as nat + 256 * LittleEndian(p, end + 6, end + 8);
  }

  /** The length by which a reader of the packet moves on. */
  function ConsumedLen(s: seq<byte>): nat
    requires 6 <= |s|
  {
    Field16(s, 4) * 8 + FOOTER_LEN
  }

  lemma {:induction false} LengthFits(units: nat, rest: nat)
    requires rest % 8 == 0
    ensures var body := units * 8 + rest;
            (body + 8) % 8 == 0 && (body / 8 % 0x1_0000 * 8 + 8 == body + 8 <==> body / 8 < 0x1_0000)
  {
    var n := units + rest / 8;
    assert units * 8 + rest == n * 8;
    QuotientUnique(n * 8, 8, n, 0);
  }

  /** A reader moves on by the length sent exactly if that length fits the 16-bit field. */
  lemma {:induction false} ConsumedIsSent(h: seq<byte>, payload: seq<byte>, off: nat)
    requires HeaderOk(h) && off < 0x1_0000_0000
    ensures var p := Packet(h, payload, off);
            && |p| % 8 == 0 && Field16(p, 2) * 8 == |h|
            && (ConsumedLen(p) == |p| <==> (PacketLen(h, payload) - FOOTER_LEN) / 8 < 0x1_0000)
  {
    var p, st := Packet(h, payload, off), Stamped(h, PacketLen(h, payload));
    assert p[4] == st[4] && p[5] == st[5] && p[2] == st[2] && p[3] == st[3];
    LengthFits(Field16(h, 2), |payload| + Padding(|payload|));
  }

  /** The bytes a reader finds behind the header are the payload and its padding. */
  lemma {:induction false} PayloadIsSent(h: seq<byte>, payload: seq<byte>, off: nat)
    requires HeaderOk(h) && off < 0x1_0000_0000 && (PacketLen(h, payload) - FOOTER_LEN) / 8 < 0x1_0000
    ensures var p := Packet(h, payload, off);
            var hl := Field16(p, 2) * 8;
            var dataLen := Field16(p, 4) * 8 - hl;
            && 0 <= dataLen && hl + dataLen <= |p|
            && p[hl..hl + dataLen] == payload + Zeros(Padding(|payload|))
  {
    ConsumedIsSent(h, payload, off);
  }

  /** The check compares lengths cut to 32 bits; it is exact for lengths that fit. */
  predicate EnoughSpace(len: nat, free: nat) {
    len % 0x1_0000_0000 < free % 0x1_0000_0000
  }

  lemma {:induction false} SpaceCheckExact(len: nat, free: nat)
    requires free < 0x1_0000_0000
    ensures len < 0x1_0000_0000 ==> (EnoughSpace(len, free) <==> len < free)
    ensures EnoughSpace(0x1_0000_0000, 8)
  {
  }

  // ── Runs ──────────────────────────────────────────────────────────────────

  datatype Ring = Ring(data: seq<byte>, r: nat, w: nat)

  /** Offsets in range and on 8-byte boundaries. */
  predicate RingOk(q: Ring) {
    && 0 < |q.data| < 0x1_0000_0000 && |q.data| % 8 == 0
    && q.r < |q.data| && q.w < |q.data| && q.r % 8 == 0 && q.w % 8 == 0
  }

  datatype Op = Send(header: seq<byte>, payload: seq<byte>) | Consume

  /** A send passes the space check with lengths that fit their fields; a reader finds the ring not empty. */
  predicate Permitted(q: Ring, op: Op)
    requires RingOk(q)
  {
    match op
    case Send(h, p) =>
      && HeaderOk(h) && PacketLen(h, p) < 0x1_0000_0000 && (PacketLen(h, p) - FOOTER_LEN) / 8 < 0x1_0000
      && EnoughSpace(PacketLen(h, p), Free(|q.data|, q.r, q.w))
    case Consume => q.r != q.w
  }

  function Step(q: Ring, op: Op): Ring
    requires RingOk(q) && Permitted(q, op)
  {
    match op
    case Send(h, p) =>
      SpaceCheckExact(PacketLen(h, p), Free(|q.data|, q.r, q.w));
      Ring(Put(q.data, Packet(h, p, q.w), q.w), q.r, Advance(|q.data|, q.w, PacketLen(h, p)))
    case Consume =>
      var c := Content(q.data, q.r, q.w);
      if 6 <= |c| && ConsumedLen(c) <= |c| then q.(r := Advance(|q.data|, q.r, ConsumedLen(c))) else q
  }

  /** A packet a reader can step over. */
  predicate Framed(p: seq<byte>) {
    24 <= |p| && |p| % 8 == 0 && ConsumedLen(p) == |p|
  }

  /** The unread bytes are exactly these packets, one after the other. */
  ghost predicate Holds(q: Ring, ps: seq<seq<byte>>)
    requires RingOk(q)
  {
    Content(q.data, q.r, q.w) == Concat(ps) && forall i :: 0 <= i < |ps| ==> Framed(ps[i])
  }

  /** The queue of packets after one operation. */
  function Queue(q: Ring, ps: seq<seq<byte>>, op: Op): seq<seq<byte>>
    requires RingOk(q)
  {
    match op
    case Send(h, p) => if 16 <= |h| then ps + [Packet(h, p, q.w)] else ps
    case Consume => if ps == [] then [] else ps[1..]
  }

  lemma {:induction false} PutStep(q: Ring, ps: seq<seq<byte>>, pkt: seq<byte>)
    requires RingOk(q) && Holds(q, ps) && Framed(pkt) && |pkt| < Free(|q.data|, q.r, q.w)
    ensures var q' := Ring(Put(q.data, pkt, q.w), q.r, Advance(|q.data|, q.w, |pkt|));
            RingOk(q') && Holds(q', ps + [pkt])
  {
    PutAppends(q.data, pkt, q.r, q.w);
    AdvanceAligned(|q.data|, q.w, |pkt|);
    ConcatAppend(ps, [pkt]);
    ConcatOne(pkt);
  }

  /** The ring after one packet was written: the bytes behind the old write offset, the new offset, the unread bytes. */
  ghost predicate PacketSent(q: Ring, q': Ring, h: seq<byte>, p: seq<byte>)
    requires RingOk(q) && 16 <= |h|
  {
    var len := PacketLen(h, p);
    && len <= |q.data| && RingOk(q')
    && q' == Ring(Put(q.data, Packet(h, p, q.w), q.w), q.r, Advance(|q.data|, q.w, len))
    && Content(q'.data, q'.r, q'.w) == Content(q.data, q.r, q.w) + Packet(h, p, q.w)
    && OnWire(Around(q'.data, q.w, len), h, p, q.w)
  }

  lemma {:induction false} SendEffect(q: Ring, q': Ring, h: seq<byte>, p: seq<byte>)
    requires RingOk(q) && HeaderOk(h) && PacketLen(h, p) < Free(|q.data|, q.r, q.w)
    requires q' == Ring(Put(q.data, Packet(h, p, q.w), q.w), q.r, Advance(|q.data|, q.w, PacketLen(h, p)))
    ensures PacketSent(q, q', h, p)
  {
    var pkt := Packet(h, p, q.w);
    PacketOnWire(h, p, q.w);
    PutIsAround(q.data, pkt, q.w, 0);
    ConsumedIsSent(h, p, q.w);
    PutAppends(q.data, pkt, q.r, q.w);
    AdvanceAligned(|q.data|, q.w, |pkt|);
  }

  lemma {:induction false} SendStep(q: Ring, ps: seq<seq<byte>>, h: seq<byte>, p: seq<byte>)
    requires RingOk(q) && Holds(q, ps) && Permitted(q, Send(h, p))
    ensures var q' := Step(q, Send(h, p)); RingOk(q') && Holds(q', ps + [Packet(h, p, q.w)])
  {
    ConsumedIsSent(h, p, q.w);
    SpaceCheckExact(PacketLen(h, p), Free(|q.data|, q.r, q.w));
    PutStep(q, ps, Packet(h, p, q.w));
  }

  /** The first packet says where the next one begins. */
  lemma {:induction false} HeadLength(ps: seq<seq<byte>>)
    requires ps != [] && Framed(ps[0])
    ensures var c := Concat(ps); 6 <= |ps[0]| <= |c| && ConsumedLen(c) == |ps[0]| && c[|ps[0]|..] == Concat(ps[1..])
  {
    var c := Concat(ps);
    assert c[4] == ps[0][4] && c[5] == ps[0][5];
  }

  lemma {:induction false} ConsumeStep(q: Ring, ps: seq<seq<byte>>)
    requires RingOk(q) && Holds(q, ps) && Permitted(q, Consume)
    ensures ps != []
    ensures var q' := Step(q, Consume); RingOk(q') && Holds(q', ps[1..])
  {
    assert ps != [];
    HeadLength(ps);
    TakeFront(q.data, q.r, q.w, |ps[0]|);
    AdvanceAligned(|q.data|, q.r, |ps[0]|);
  }

  /** The ring behaves as a queue of packets: an operation does to the queue what it says,
      and the offsets are equal exactly if the queue is empty. */
  lemma {:induction false} StepIsFifo(q: Ring, ps: seq<seq<byte>>, op: Op)
    requires RingOk(q) && Holds(q, ps) && Permitted(q, op)
    ensures var q' := Step(q, op);
            && RingOk(q') && Holds(q', Queue(q, ps, op))
            && (q'.r == q'.w <==> Queue(q, ps, op) == [])
  {
    match op
    case Send(h, p) => SendStep(q, ps, h, p);
    case Consume => ConsumeStep(q, ps);
    var q', ps' := Step(q, op), Queue(q, ps, op);
    if ps' != [] {
      assert Framed(ps'[0]);
    }
  }

  ghost predicate PermittedRun(q: Ring, ops: seq<Op>)
    requires RingOk(q)
    decreases |ops|
  {
    ops != [] ==> Permitted(q, ops[0]) && RingOk(Step(q, ops[0])) && PermittedRun(Step(q, ops[0]), ops[1..])
  }

  function Run(q: Ring, ops: seq<Op>): Ring
    requires RingOk(q) && PermittedRun(q, ops)
    decreases |ops|
  {
    if ops == [] then q else Run(Step(q, ops[0]), ops[1..])
  }

  function RunQueue(q: Ring, ps: seq<seq<byte>>, ops: seq<Op>): seq<seq<byte>>
    requires RingOk(q) && PermittedRun(q, ops)
    decreases |ops|
  {
    if ops == [] then ps else RunQueue(Step(q, ops[0]), Queue(q, ps, ops[0]), ops[1..])
  }

  /** The same over every run of sends and reads. */
  lemma {:induction false} RunIsFifo(q: Ring, ps: seq<seq<byte>>, ops: seq<Op>)
    requires RingOk(q) && Holds(q, ps) && PermittedRun(q, ops)
    ensures var q' := Run(q, ops);
            && RingOk(q') && Holds(q', RunQueue(q, ps, ops))
            && (q'.r == q'.w <==> RunQueue(q, ps, ops) == [])
    decreases |ops|
  {
    if ops == [] {
      if ps != [] {
        assert Framed(ps[0]);
      }
    } else {
      StepIsFifo(q, ps, ops[0]);
      RunIsFifo(Step(q, ops[0]), Queue(q, ps, ops[0]), ops[1..]);
    }
  }

  // ── The ring in memory ────────────────────────────────────────────────────

  /** `Overrun`: the cut length passes the check, and the program goes on to write past the ring. */
  datatype Sending = Sent | NoSpace | Overrun

  /** The check on lengths cut to 32 bits. */
  function Judge(len: nat, free: nat): (r: Sending)
    requires free < 0x1_0000_0000
    ensures r.Sent? <==> len < free
    ensures r.Overrun? ==> 0x1_0000_0000 <= len
  {
    SpaceCheckExact(len, free);
    if !EnoughSpace(len, free) then NoSpace else if 0x1_0000_0000 <= len then Overrun else Sent
  }

  /** What a reader that moves by `n` leaves unread. */
  ghost predicate ReadLeaves(q: Ring, q': Ring, n: nat)
    requires RingOk(q) && q'.r < |q'.data| && q'.w < |q'.data|
  {
    var c, c' := Content(q.data, q.r, q.w), Content(q'.data, q'.r, q'.w);
    |c'| == (|c| - n) % |q.data| && (n <= |c| ==> c' == c[n..])
  }

  lemma {:induction false} ReadMoves(q: Ring, n: nat)
    requires RingOk(q)
    ensures var q' := q.(r := ReadOffset(|q.data|, q.r, n));
            && (RingOk(q') <==> n % 8 == 0)
            && (q.r + n < 0x1_0000_0000 ==> ReadLeaves(q, q', n))
  {
    OffsetAligned(|q.data|, q.r, n);
    if q.r + n < 0x1_0000_0000 {
      CutFits(q.r + n, |q.data|);
      ReadOn(q.data, q.r, q.w, n);
    }
  }

  lemma {:induction false} CutFits(x: nat, size: nat)
    requires 0 < size && x < 0x1_0000_0000
    ensures x % 0x1_0000_0000 % size == x % size
  {
    assert x % 0x1_0000_0000 == x;
  }

  class RingBuffer {
    var data: array<byte>
    var readOffset: nat
    var writeOffset: nat

    ghost function Value(): Ring
      reads this, data
    {
      Ring(data[..], readOffset, writeOffset)
    }

    ghost predicate Valid()
      reads this, data
    {
      RingOk(Value())
    }

    constructor (size: nat)
      requires 0 < size < 0x1_0000_0000 && size % 8 == 0
      ensures Valid() && fresh(data) && data.Length == size && Holds(Value(), [])
    {
      data := new byte[size](_ => 0 as byte);
      readOffset, writeOffset := 0, 0;
    }

    method IsEmpty() returns (r: bool)
      requires Valid()
      ensures r <==> Content(data[..], readOffset, writeOffset) == []
    {
      r := readOffset == writeOffset;
    }

    method GetAvailableWriteSpace() returns (n: nat)
      requires Valid()
      ensures n == data.Length - |Content(data[..], readOffset, writeOffset)|
      ensures n == Free(data.Length, readOffset, writeOffset)
    {
      n := if writeOffset >= readOffset then data.Length - (writeOffset - readOffset) else readOffset - writeOffset;
    }

    /** Copies `s` into the ring at `off`, in two pieces if it goes around. */
    method Send(s: seq<byte>, off: nat) returns (next: nat)
      requires off < data.Length && |s| <= data.Length
      modifies data
      ensures data[..] == Put(old(data[..]), s, off) && next == Advance(data.Length, off, |s|)
    {
      ghost var d := data[..];
      var toEnd := data.Length - off;
      if |s| <= toEnd {
        Copy(s, off);
      } else {
        Copy(s[..toEnd], off);
        Copy(s[toEnd..], 0);
      }
      assert data[..] == Put(d, s, off);
      AdvanceIsRemainder(data.Length, off, |s|);
      next := (off + |s|) % data.Length;
    }

    method Copy(s: seq<byte>, off: nat)
      requires off + |s| <= data.Length
      modifies data
      ensures forall j :: 0 <= j < data.Length ==> data[j] == if off <= j < off + |s| then s[j - off] else old(data[j])
    {
      for i := 0 to |s|
        invariant forall j :: 0 <= j < data.Length ==>
                    data[j] == if off <= j < off + i then s[j - off] else old(data[j])
      {
        data[off + i] := s[i];
      }
    }

    /** Writes one packet: header, payload, padding, footer, then the new write offset. */
    method SendRaw(header: seq<byte>, payload: seq<byte>) returns (r: Sending)
      requires Valid() && HeaderOk(header)
      modifies data, `writeOffset
      ensures Valid()
      ensures r == Judge(PacketLen(header, payload), Free(data.Length, readOffset, old(writeOffset)))
      ensures !r.Sent? ==> Value() == old(Value())
      ensures r.Sent? ==> PacketSent(old(Value()), Value(), header, payload)
    {
      var padding := Padding(|payload|);
      var txLen := |header| + |payload| + padding + FOOTER_LEN;
      var free := GetAvailableWriteSpace();
      r := Judge(txLen, free);
      if r != Sent {
        return;
      }
      WritePacket(header, payload, padding, txLen);
      SendEffect(old(Value()), Value(), header, payload);
    }

    method WritePacket(header: seq<byte>, payload: seq<byte>, padding: nat, txLen: nat)
      requires Valid() && HeaderOk(header) && padding == Padding(|payload|)
      requires txLen == PacketLen(header, payload) <= data.Length
      modifies data, `writeOffset
      ensures Value() == Ring(Put(old(data[..]), Packet(header, payload, old(writeOffset)), old(writeOffset)),
                              readOffset,
                              Advance(data.Length, old(writeOffset), txLen))
    {
      var stamped, footer := Stamped(header, txLen), Le32(0) + Le32(writeOffset);
      var at := WriteParts(stamped, payload, Zeros(padding), footer, writeOffset);
      writeOffset := at;
    }

    /** The four writes, each from where the last one ended. */
    method WriteParts(a: seq<byte>, b: seq<byte>, c: seq<byte>, e: seq<byte>, off: nat) returns (at: nat)
      requires off < data.Length && |a| + |b| + |c| + |e| <= data.Length
      modifies data
      ensures data[..] == Put(old(data[..]), a + b + c + e, off)
      ensures at == Advance(data.Length, off, |a| + |b| + |c| + |e|)
    {
      ghost var d := data[..];
      at := Send(a, off);
      at := Send(b, at);
      PutPut(d, a, b, off);
      at := Send(c, at);
      PutPut(d, a + b, c, off);
      at := Send(e, at);
      PutPut(d, a + b + c, e, off);
    }

    /** Moves the read offset on by `n` bytes, whatever the write offset is. */
    method AdvanceReadIndex(n: nat)
      requires Valid() && n < 0x1_0000_0000
      modifies `readOffset
      ensures Value() == old(Value()).(r := ReadOffset(data.Length, old(readOffset), n)) && (Valid() <==> n % 8 == 0)
      ensures readOffset == (old(readOffset) + n) % 0x1_0000_0000 % data.Length
      ensures old(readOffset) + n < 0x1_0000_0000 ==> ReadLeaves(old(Value()), Value(), n)
    {
      ReadMoves(Value(), n);
      readOffset := ReadOffset(data.Length, readOffset, n);
    }
  }
}
