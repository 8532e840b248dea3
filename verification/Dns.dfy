/**
 * Names and resource records of DNS messages (kernel/src/driver/net/proto/dns.rs),
 * sections 3.1, 4.1.3 and 4.1.4 of RFC 1035. Whether bytes are well-formed
 * UTF-8 is a parameter.
 */
module Dns {
  import opened Prelude

  const DOT: byte := 46
  const MAX_JUMPS := 5

  // ── Dotted names ──────────────────────────────────────────────────────────

  datatype Labels = End | Label(text: seq<byte>, rest: Labels)

  /** The parts of a name between its dots; the empty name has one empty part. */
  function Split(name: seq<byte>): (labels: Labels)
    ensures labels.Label?
  {
    if name == [] then Label([], End)
    else if name[0] == DOT then Label([], Split(name[1..]))
    else var rest := Split(name[1..]); Label([name[0]] + rest.text, rest.rest)
  }

  function Join(labels: Labels): seq<byte> {
    match labels
    case End => []
    case Label(text, End) => text
    case Label(text, rest) => text + [DOT] + Join(rest)
  }

  lemma {:induction false} JoinSplit(name: seq<byte>)
    ensures Join(Split(name)) == name
    decreases |name|
  {
    if name != [] {
      var rest := Split(name[1..]);
      JoinSplit(name[1..]);
      assert name == [name[0]] + name[1..];
      if name[0] != DOT && rest.rest.Label? {
        assert [name[0]] + rest.text + [DOT] + Join(rest.rest) == [name[0]] + (rest.text + [DOT] + Join(rest.rest));
      }
    }
  }

  /** No label contains a dot. */
  predicate DotFree(labels: Labels) { labels.Label? ==> DOT !in labels.text && DotFree(labels.rest) }

  lemma {:induction false} SplitDotFree(name: seq<byte>)
    ensures DotFree(Split(name))
    decreases |name|
  {
    if name != [] {
      SplitDotFree(name[1..]);
    }
  }

  /** Splitting undoes joining: the parts of a name are the labels it was made of. */
  lemma {:induction false} SplitJoin(labels: Labels)
    requires labels.Label? && DotFree(labels)
    ensures Split(Join(labels)) == labels
  {
    if labels.rest.End? {
      SplitText(labels.text, [], End);
      assert labels.text + [] == labels.text;
    } else {
      SplitJoin(labels.rest);
      SplitText(labels.text, [DOT] + Join(labels.rest), labels.rest);
      assert labels.text + [DOT] + Join(labels.rest) == labels.text + ([DOT] + Join(labels.rest));
    }
  }

  /** A text without dots goes into the first part whole. */
  lemma {:induction false} SplitText(text: seq<byte>, tail: seq<byte>, rest: Labels)
    requires DOT !in text && Split(tail) == Label([], rest)
    ensures Split(text + tail) == Label(text, rest)
    decreases |text|
  {
    if text == [] {
      assert text + tail == tail;
    } else {
      SplitText(text[1..], tail, rest);
      assert (text + tail)[1..] == text[1..] + tail;
      assert [text[0]] + text[1..] == text;
    }
  }

  predicate Short(labels: Labels) { labels.Label? ==> |labels.text| < 64 && Short(labels.rest) }

  predicate NonEmpty(labels: Labels) { labels.Label? ==> labels.text != [] && NonEmpty(labels.rest) }

  predicate Text(utf8: seq<byte> -> bool, labels: Labels)
  {
    labels.Label? ==> utf8(labels.text) && Text(utf8, labels.rest)
  }

  /** The labels before the first empty one. */
  function Leading(labels: Labels): Labels {
    if labels.End? || labels.text == [] then End else Label(labels.text, Leading(labels.rest))
  }

  function Append(a: Labels, b: Labels): Labels {
    if a.End? then b else Label(a.text, Append(a.rest, b))
  }

  // ── Names on the wire ─────────────────────────────────────────────────────

  /** Each label behind its length. */
  function Encoded(labels: Labels): seq<byte>
    requires Short(labels)
  {
    if labels.End? then [] else [|labels.text| as byte] + labels.text + Encoded(labels.rest)
  }

  /** A name on the wire: the labels and a zero byte. */
  function Wire(labels: Labels): seq<byte>
    requires Short(labels)
  {
    Encoded(labels) + [0]
  }

  function Word(n: nat): seq<byte>
    requires n < 0x1_0000
  {
    [(n / 256) as byte, (n % 256) as byte]
  }

  function WordAt(p: seq<byte>, c: nat): (n: nat)
    requires c + 2 <= |p|
    ensures n < 0x1_0000
  {
    p[c] as nat * 256 + p[c + 1] as nat
  }

  /** Two bytes with the top two bits set lead to an earlier offset. */
  function PointerTo(q: nat): (r: seq<byte>)
    requires q < 0x4000
    ensures |r| == 2
  {
    [(192 + q / 256) as byte, (q % 256) as byte]
  }

  /** What the pointer at `c` points to. */
  function Pointer(p: seq<byte>, c: nat): nat
    requires c + 2 <= |p| && p[c] >= 192
  {
    (p[c] as nat - 192) * 256 + p[c + 1] as nat
  }

  function Prepend(text: seq<byte>, r: Option<(Labels, nat)>): Option<(Labels, nat)> {
    if r.None? then None else Some((Label(text, r.value.0), r.value.1))
  }

  /**
   * The labels from `c` on, and the offset past the name: `end` once a pointer
   * has been followed. Reading stops at a zero byte or at the end of the
   * message, and fails on a label or pointer cut off by it, on a label that is
   * not text, and on the sixth pointer.
   */
  function Read(p: seq<byte>, utf8: seq<byte> -> bool, c: nat, end: Option<nat>, jumps: nat): Option<(Labels, nat)>
    requires jumps <= MAX_JUMPS
    decreases MAX_JUMPS - jumps, |p| - c
  {
    if c >= |p| then Some((End, if end.Some? then end.value else c))
    else if p[c] == 0 then Some((End, if end.Some? then end.value else c + 1))
    else if p[c] >= 192 then
      if c + 1 >= |p| || jumps == MAX_JUMPS then None
      else Read(p, utf8, Pointer(p, c), if end.Some? then end else Some(c + 2), jumps + 1)
    else
      var n := p[c] as nat;
      if c + 1 + n > |p| || !utf8(p[c + 1..c + 1 + n]) then None
      else Prepend(p[c + 1..c + 1 + n], Read(p, utf8, c + 1 + n, end, jumps))
  }

  function Name(p: seq<byte>, utf8: seq<byte> -> bool, c: nat): Option<(seq<byte>, nat)> {
    match Read(p, utf8, c, None, 0)
    case None => None
    case Some((labels, end)) => Some((Join(labels), end))
  }

  /** `s` lies in `p` at offset `c`. */
  predicate At(p: seq<byte>, c: nat, s: seq<byte>) {
    c + |s| <= |p| && p[c..c + |s|] == s
  }

  lemma {:induction false} AtConcat(p: seq<byte>, c: nat, s: seq<byte>, t: seq<byte>)
    ensures At(p, c, s + t) <==> At(p, c, s) && At(p, c + |s|, t)
  {
    if c + |s| + |t| <= |p| {
      assert p[c..c + |s| + |t|] == p[c..c + |s|] + p[c + |s|..c + |s| + |t|];
      if p[c..c + |s| + |t|] == s + t {
        assert p[c..c + |s|] == (s + t)[..|s|];
        assert p[c + |s|..c + |s| + |t|] == (s + t)[|s|..];
      }
    }
  }

  lemma {:induction false} AtHead(p: seq<byte>, c: nat, l: seq<byte>, rest: seq<byte>)
    requires |l| < 64 && At(p, c, [|l| as byte] + l + rest)
    ensures p[c] == |l| as byte && c + 1 + |l| <= |p| && p[c + 1..c + 1 + |l|] == l
    ensures At(p, c + 1 + |l|, rest)
  {
    AtConcat(p, c, [|l| as byte] + l, rest);
    AtConcat(p, c, [|l| as byte], l);
    assert p[c..c + 1][0] == p[c];
  }

  /** One label is read. */
  lemma {:induction false} LabelRead(p: seq<byte>, utf8: seq<byte> -> bool, c: nat, end: Option<nat>, jumps: nat,
                                     l: seq<byte>, rest: seq<byte>)
    requires jumps <= MAX_JUMPS && 0 < |l| < 64 && utf8(l) && At(p, c, [|l| as byte] + l + rest)
    ensures At(p, c + 1 + |l|, rest)
    ensures Read(p, utf8, c, end, jumps) == Prepend(l, Read(p, utf8, c + 1 + |l|, end, jumps))
  {
    AtHead(p, c, l, rest);
  }

  lemma {:induction false} ZeroRead(p: seq<byte>, utf8: seq<byte> -> bool, c: nat, end: Option<nat>, jumps: nat,
                                    rest: seq<byte>)
    requires jumps <= MAX_JUMPS && At(p, c, [0] + rest)
    ensures Read(p, utf8, c, end, jumps) == Some((End, if end.Some? then end.value else c + 1))
  {
    AtConcat(p, c, [0], rest);
    assert p[c..c + 1][0] == p[c];
  }

  lemma {:induction false} PointerRead(p: seq<byte>, utf8: seq<byte> -> bool, c: nat, end: Option<nat>, jumps: nat,
                                       q: nat)
    requires jumps < MAX_JUMPS && q < 0x4000 && At(p, c, PointerTo(q))
    ensures Read(p, utf8, c, end, jumps) == Read(p, utf8, q, Some(if end.Some? then end.value else c + 2), jumps + 1)
  {
    var w := p[c..c + 2];
    assert w[0] == p[c] && w[1] == p[c + 1] && Pointer(p, c) == q;
  }

  lemma {:induction false} EncodedLabel(labels: Labels, after: seq<byte>)
    requires labels.Label? && Short(labels)
    ensures Encoded(labels) + after == [|labels.text| as byte] + labels.text + (Encoded(labels.rest) + after)
  {
  }

  /** What reading a name on the wire gives: everything up to its first empty label. */
  lemma {:induction false} WireRead(p: seq<byte>, utf8: seq<byte> -> bool, c: nat, end: Option<nat>, jumps: nat,
                                    labels: Labels)
    requires jumps <= MAX_JUMPS && Short(labels) && Text(utf8, labels) && At(p, c, Wire(labels))
    ensures Short(Leading(labels))
    ensures Read(p, utf8, c, end, jumps)
         == Some((Leading(labels), if end.Some? then end.value else c + |Encoded(Leading(labels))| + 1))
    decreases labels
  {
    match labels
    case End =>
      ZeroRead(p, utf8, c, end, jumps, []);
    case Label(l, rest) =>
      EncodedLabel(labels, [0]);
      if l == [] {
        assert [|l| as byte] + l + Wire(rest) == [0] + Wire(rest);
        ZeroRead(p, utf8, c, end, jumps, Wire(rest));
      } else {
        LabelRead(p, utf8, c, end, jumps, l, Wire(rest));
        WireRead(p, utf8, c + 1 + |l|, end, jumps, rest);
      }
  }

  lemma {:induction false} LeadingSize(labels: Labels)
    requires Short(labels)
    ensures Short(Leading(labels))
    ensures |Encoded(Leading(labels))| == |Encoded(labels)| <==> NonEmpty(labels)
    ensures |Encoded(Leading(labels))| <= |Encoded(labels)|
    ensures NonEmpty(labels) ==> Leading(labels) == labels
  {
    if labels.Label? {
      LeadingSize(labels.rest);
    }
  }

  /**
   * A name encoded anywhere in a message is read back, with the offset just
   * past it, exactly when none of its labels is empty.
   */
  lemma {:induction false} RoundTrip(pre: seq<byte>, name: seq<byte>, post: seq<byte>, utf8: seq<byte> -> bool)
    requires Short(Split(name)) && Text(utf8, Split(name))
    ensures Name(pre + Wire(Split(name)) + post, utf8, |pre|) == Some((name, |pre| + |Wire(Split(name))|))
       <==> NonEmpty(Split(name))
  {
    var labels := Split(name);
    var p := pre + Wire(labels) + post;
    assert p[|pre|..|pre| + |Wire(labels)|] == Wire(labels);
    WireRead(p, utf8, |pre|, None, 0, labels);
    LeadingSize(labels);
    JoinSplit(name);
  }

  function PrependAll(labels: Labels, r: Option<(Labels, nat)>): Option<(Labels, nat)> {
    if r.None? then None else Some((Append(labels, r.value.0), r.value.1))
  }

  /** Non-empty labels are read one by one. */
  lemma {:induction false} LabelsRead(p: seq<byte>, utf8: seq<byte> -> bool, c: nat, end: Option<nat>, jumps: nat,
                                      head: Labels, after: seq<byte>, e: nat)
    requires jumps <= MAX_JUMPS && Short(head) && NonEmpty(head) && Text(utf8, head) && At(p, c, Encoded(head) + after)
    requires e == c + |Encoded(head)|
    ensures At(p, e, after)
    ensures Read(p, utf8, c, end, jumps) == PrependAll(head, Read(p, utf8, e, end, jumps))
    decreases head
  {
    match head
    case End =>
      assert Encoded(head) + after == after && e == c;
    case Label(l, rest) =>
      EncodedLabel(head, after);
      LabelRead(p, utf8, c, end, jumps, l, Encoded(rest) + after);
      LabelsRead(p, utf8, c + 1 + |l|, end, jumps, rest, after, e);
      PrependOnce(l, rest, Read(p, utf8, e, end, jumps));
  }

  lemma {:induction false} PrependOnce(l: seq<byte>, rest: Labels, r: Option<(Labels, nat)>)
    ensures Prepend(l, PrependAll(rest, r)) == PrependAll(Label(l, rest), r)
  {
  }

  /** A name in pieces: labels and a pointer to where it goes on, or labels and a zero byte. */
  datatype Pieces = Last(tail: Labels) | Hop(head: Labels, to: nat, rest: Pieces)

  function Hops(x: Pieces): nat {
    if x.Last? then 0 else 1 + Hops(x.rest)
  }

  function Whole(x: Pieces): Labels {
    if x.Last? then x.tail else Append(x.head, Whole(x.rest))
  }

  predicate Readable(utf8: seq<byte> -> bool, labels: Labels) {
    Short(labels) && NonEmpty(labels) && Text(utf8, labels)
  }

  /** The pieces of the name lie in the message, the first at `c`. */
  predicate Laid(p: seq<byte>, utf8: seq<byte> -> bool, c: nat, x: Pieces)
    decreases x
  {
    match x
    case Last(tail) => Readable(utf8, tail) && At(p, c, Wire(tail))
    case Hop(head, to, rest) =>
      Readable(utf8, head) && to < 0x4000 && At(p, c, Encoded(head) + PointerTo(to)) && Laid(p, utf8, to, rest)
  }

  /** The offset past the first piece. */
  function Past(c: nat, x: Pieces): nat
    requires Short(if x.Last? then x.tail else x.head)
  {
    if x.Last? then c + |Encoded(x.tail)| + 1 else c + |Encoded(x.head)| + 2
  }

  /**
   * A name in pieces is read as one name, with the offset just past its first
   * piece, exactly if it has at most five pointers; with more it is refused.
   */
  lemma {:induction false} CompressedRead(p: seq<byte>, utf8: seq<byte> -> bool, c: nat, end: Option<nat>, jumps: nat,
                                          x: Pieces, past: nat)
    requires jumps <= 5 && Laid(p, utf8, c, x) && past == if end.Some? then end.value else Past(c, x)
    ensures Read(p, utf8, c, end, jumps) == if jumps + Hops(x) <= 5 then Some((Whole(x), past)) else None
    decreases x
  {
    match x
    case Last(tail) =>
      LastRead(p, utf8, c, end, jumps, tail);
    case Hop(head, to, rest) =>
      HopRead(p, utf8, c, end, jumps, head, to, past);
      if jumps < MAX_JUMPS {
        CompressedRead(p, utf8, to, Some(past), jumps + 1, rest, past);
      }
  }

  /** Labels and a pointer: the sixth pointer is refused. */
  lemma {:induction false} HopRead(p: seq<byte>, utf8: seq<byte> -> bool, c: nat, end: Option<nat>, jumps: nat,
                                   head: Labels, to: nat, past: nat)
    requires jumps <= MAX_JUMPS && Readable(utf8, head) && to < 0x4000 && At(p, c, Encoded(head) + PointerTo(to))
    requires past == if end.Some? then end.value else c + |Encoded(head)| + 2
    ensures Read(p, utf8, c, end, jumps)
         == if jumps < MAX_JUMPS then PrependAll(head, Read(p, utf8, to, Some(past), jumps + 1)) else None
  {
    var e := c + |Encoded(head)|;
    LabelsRead(p, utf8, c, end, jumps, head, PointerTo(to), e);
    PointerStep(p, utf8, e, end, jumps, to, past);
  }

  lemma {:induction false} PointerStep(p: seq<byte>, utf8: seq<byte> -> bool, c: nat, end: Option<nat>, jumps: nat,
                                       to: nat, past: nat)
    requires jumps <= MAX_JUMPS && to < 0x4000 && At(p, c, PointerTo(to))
    requires past == if end.Some? then end.value else c + 2
    ensures Read(p, utf8, c, end, jumps) == if jumps < MAX_JUMPS then Read(p, utf8, to, Some(past), jumps + 1) else None
  {
    if jumps < MAX_JUMPS {
      PointerRead(p, utf8, c, end, jumps, to);
    } else {
      PointerRefused(p, utf8, c, end, to);
    }
  }

  lemma {:induction false} LastRead(p: seq<byte>, utf8: seq<byte> -> bool, c: nat, end: Option<nat>, jumps: nat,
                                    tail: Labels)
    requires jumps <= MAX_JUMPS && Readable(utf8, tail) && At(p, c, Wire(tail))
    ensures Read(p, utf8, c, end, jumps) == Some((tail, if end.Some? then end.value else c + |Encoded(tail)| + 1))
  {
    LeadingSize(tail);
    WireRead(p, utf8, c, end, jumps, tail);
  }

  lemma {:induction false} PointerRefused(p: seq<byte>, utf8: seq<byte> -> bool, c: nat, end: Option<nat>, q: nat)
    requires q < 0x4000 && At(p, c, PointerTo(q))
    ensures Read(p, utf8, c, end, MAX_JUMPS).None?
  {
    var w := p[c..c + 2];
    assert w[0] == p[c] && w[1] == p[c + 1];
  }

  /** Where reading goes on from `c`, which holds a pointer or a label. */
  predicate LeadsInto(p: seq<byte>, c: nat, places: set<nat>) {
    && c < |p| && p[c] != 0
    && if p[c] >= 192 then c + 2 <= |p| && Pointer(p, c) in places else c + 1 + p[c] as nat in places
  }

  /** Labels and pointers that lead around in a circle are refused. */
  lemma {:induction false} CycleRefused(p: seq<byte>, utf8: seq<byte> -> bool, c: nat, end: Option<nat>, jumps: nat,
                                        places: set<nat>)
    requires jumps <= MAX_JUMPS && c in places
    requires forall x {:trigger LeadsInto(p, x, places)} :: x in places ==> LeadsInto(p, x, places)
    ensures Read(p, utf8, c, end, jumps).None?
    decreases MAX_JUMPS - jumps, |p| - c
  {
    assert LeadsInto(p, c, places);
    if p[c] < 192 {
      CycleRefused(p, utf8, c + 1 + p[c] as nat, end, jumps, places);
    } else if jumps < MAX_JUMPS {
      CycleRefused(p, utf8, Pointer(p, c), if end.Some? then end else Some(c + 2), jumps + 1, places);
    }
  }

  // ── Resource records ──────────────────────────────────────────────────────

  datatype RecordType = A | Ns | Cname | Mx | Aaaa

  function Code(t: RecordType): (n: nat)
    ensures n < 0x1_0000
  {
    match t
    case A => 1 case Ns => 2 case Cname => 5 case Mx => 15 case Aaaa => 28
  }

  function TypeOf(n: nat): Option<RecordType> {
    if n == 1 then Some(A) else if n == 2 then Some(Ns) else if n == 5 then Some(Cname)
    else if n == 15 then Some(Mx) else if n == 28 then Some(Aaaa) else None
  }

  datatype Record = Record(name: seq<byte>, recordType: RecordType, ttl: nat, data: seq<byte>)

  /** The record at `c`, and the offset past it. Only the internet class is known. */
  function Parse(p: seq<byte>, utf8: seq<byte> -> bool, c: nat): Option<(Record, nat)> {
    match Name(p, utf8, c)
    case None => None
    case Some((name, e)) =>
      if e + 10 > |p| then None else
        var length := WordAt(p, e + 8);
        if TypeOf(WordAt(p, e)).None? || WordAt(p, e + 2) != 1 || e + 10 + length > |p| then None
        else Some((Record(name, TypeOf(WordAt(p, e)).value, WordAt(p, e + 4) * 0x1_0000 + WordAt(p, e + 6),
                          p[e + 10..e + 10 + length]),
                   e + 10 + length))
  }

  /** Type, class, time to live, and data behind its length. */
  function RecordFields(r: Record): seq<byte>
    requires r.ttl < 0x1_0000_0000 && |r.data| < 0x1_0000
  {
    Word(Code(r.recordType))
      + (Word(1) + (Word(r.ttl / 0x1_0000) + (Word(r.ttl % 0x1_0000) + (Word(|r.data|) + r.data))))
  }

  lemma {:induction false} WordRead(p: seq<byte>, c: nat, n: nat, rest: seq<byte>)
    requires n < 0x1_0000 && At(p, c, Word(n) + rest)
    ensures c + 2 <= |p| && WordAt(p, c) == n && At(p, c + 2, rest)
  {
    AtConcat(p, c, Word(n), rest);
    var w := p[c..c + 2];
    assert w[0] == p[c] && w[1] == p[c + 1];
  }

  lemma {:induction false} FieldsRead(p: seq<byte>, e: nat, code: nat, hi: nat, lo: nat, data: seq<byte>)
    requires code < 0x1_0000 && hi < 0x1_0000 && lo < 0x1_0000 && |data| < 0x1_0000
    requires At(p, e, Word(code) + (Word(1) + (Word(hi) + (Word(lo) + (Word(|data|) + data)))))
    ensures e + 10 <= |p| && WordAt(p, e) == code && WordAt(p, e + 2) == 1
    ensures WordAt(p, e + 4) == hi && WordAt(p, e + 6) == lo && WordAt(p, e + 8) == |data|
    ensures At(p, e + 10, data)
  {
    var f5 := Word(|data|) + data;
    var f4 := Word(lo) + f5;
    var f3 := Word(hi) + f4;
    WordRead(p, e, code, Word(1) + f3);
    WordRead(p, e + 2, 1, f3);
    WordRead(p, e + 4, hi, f4);
    WordRead(p, e + 6, lo, f5);
    WordRead(p, e + 8, |data|, data);
  }

  /** Fields written after a name are read back from wherever the name leads past itself. */
  lemma {:induction false} RecordRoundTrip(p: seq<byte>, utf8: seq<byte> -> bool, c: nat, e: nat, r: Record)
    requires r.ttl < 0x1_0000_0000 && |r.data| < 0x1_0000
    requires Name(p, utf8, c) == Some((r.name, e)) && At(p, e, RecordFields(r))
    ensures Parse(p, utf8, c) == Some((r, e + |RecordFields(r)|))
  {
    FieldsRead(p, e, Code(r.recordType), r.ttl / 0x1_0000, r.ttl % 0x1_0000, r.data);
    assert TypeOf(Code(r.recordType)) == Some(r.recordType);
  }

  lemma {:induction false} WordThere(p: seq<byte>, c: nat, rest: seq<byte>)
    requires At(p, c + 2, rest)
    ensures At(p, c, Word(WordAt(p, c)) + rest)
  {
    assert p[c..c + 2] == Word(WordAt(p, c));
    assert p[c..c + 2 + |rest|] == p[c..c + 2] + p[c + 2..c + 2 + |rest|];
  }

  lemma {:induction false} FieldsThere(p: seq<byte>, e: nat, data: seq<byte>)
    requires At(p, e + 10, data)
    ensures At(p, e, Word(WordAt(p, e)) + (Word(WordAt(p, e + 2)) + (Word(WordAt(p, e + 4))
                     + (Word(WordAt(p, e + 6)) + (Word(WordAt(p, e + 8)) + data)))))
  {
    var f5 := Word(WordAt(p, e + 8)) + data;
    var f4 := Word(WordAt(p, e + 6)) + f5;
    var f3 := Word(WordAt(p, e + 4)) + f4;
    WordThere(p, e + 8, data);
    WordThere(p, e + 6, f5);
    WordThere(p, e + 4, f4);
    WordThere(p, e + 2, f3);
    WordThere(p, e, Word(WordAt(p, e + 2)) + f3);
  }

  /** Record `r` stands at `e`, behind its name, and ends at `end`. */
  predicate RecordAt(p: seq<byte>, e: nat, r: Record, end: nat) {
    && r.ttl < 0x1_0000_0000 && |r.data| < 0x1_0000
    && At(p, e, RecordFields(r)) && end == e + |RecordFields(r)|
  }

  lemma {:induction false} RecordStands(p: seq<byte>, utf8: seq<byte> -> bool, c: nat, r: Record, end: nat)
    requires Parse(p, utf8, c) == Some((r, end))
    ensures Name(p, utf8, c).Some?
    ensures var (name, e) := Name(p, utf8, c).value; r.name == name && RecordAt(p, e, r, end)
  {
    var (name, e) := Name(p, utf8, c).value;
    FieldsThere(p, e, r.data);
    TypeIsCode(WordAt(p, e));
    assert r.ttl / 0x1_0000 == WordAt(p, e + 4) && r.ttl % 0x1_0000 == WordAt(p, e + 6);
  }

  /** A record is read exactly where one stands; all else is refused. */
  lemma {:induction false} RecordExact(p: seq<byte>, utf8: seq<byte> -> bool, c: nat, r: Record, end: nat)
    ensures var name := Name(p, utf8, c);
            Parse(p, utf8, c) == Some((r, end)) <==>
              name.Some? && r.name == name.value.0 && RecordAt(p, name.value.1, r, end)
  {
    var name := Name(p, utf8, c);
    if name.Some? && r.name == name.value.0 && RecordAt(p, name.value.1, r, end) {
      RecordRoundTrip(p, utf8, c, name.value.1, r);
    }
    if Parse(p, utf8, c) == Some((r, end)) {
      RecordStands(p, utf8, c, r, end);
    }
  }

  lemma {:induction false} TypeIsCode(n: nat)
    ensures TypeOf(n).Some? ==> Code(TypeOf(n).value) == n
  {
  }

  /** The question for the address of "a.bc", byte by byte, and the other types. */
  lemma {:induction false} QuestionBytes()
    ensures Word(Code(Ns)) == [0, 2] && Word(Code(Cname)) == [0, 5] && Word(Code(Mx)) == [0, 15]
    ensures Word(Code(Aaaa)) == [0, 28]
    ensures var labels := Split([97, 46, 98, 99]);
            && Short(labels)
            && Wire(labels) + Word(Code(A)) + Word(1) == [1, 97, 2, 98, 99, 0, 0, 1, 0, 1]
  {
    var name: seq<byte> := [97, 46, 98, 99];
    var labels := Label([97], Label([98, 99], End));
    assert Join(labels.rest) == [98, 99] && Join(labels) == [97] + [DOT] + [98, 99] == name;
    SplitJoin(labels);
    assert Encoded(End) == [] && Encoded(labels.rest) == [2, 98, 99] + Encoded(End);
    assert Encoded(labels) == [1, 97] + Encoded(labels.rest);
  }

  // ── The loops ─────────────────────────────────────────────────────────────

  /** The question section entry of a name; a label of 64 bytes or more is a failed assertion. */
  method ToBytes(name: seq<byte>, recordType: RecordType) returns (bytes: Option<seq<byte>>)
    ensures bytes.Some? <==> Short(Split(name))
    ensures bytes.Some? ==> bytes.value == Wire(Split(name)) + Word(Code(recordType)) + Word(1)
  {
    var rest := Split(name);
    var out: seq<byte> := [];
    while rest.Label?
      invariant Short(rest) <==> Short(Split(name))
      invariant Short(rest) ==> Encoded(Split(name)) == out + Encoded(rest)
      decreases rest
    {
      if |rest.text| >= 64 {
        return None;
      }
      out := out + [|rest.text| as byte] + rest.text;
      rest := rest.rest;
    }
    return Some(out + [0] + Word(Code(recordType)) + Word(1));
  }

  /** Labels collected in order, before others. */
  function OnTo(labels: seq<seq<byte>>, rest: Labels): Labels {
    if labels == [] then rest else OnTo(labels[..|labels| - 1], Label(labels[|labels| - 1], rest))
  }

  function Collected(labels: seq<seq<byte>>, r: Option<(Labels, nat)>): Option<(Labels, nat)> {
    if r.None? then None else Some((OnTo(labels, r.value.0), r.value.1))
  }

  method ParseName(p: seq<byte>, utf8: seq<byte> -> bool, offset: nat) returns (r: Option<(seq<byte>, nat)>)
    ensures r == Name(p, utf8, offset)
  {
    var labels: seq<seq<byte>>, cursor, end: Option<nat>, jumps := [], offset, None, 0;
    while cursor < |p|
      invariant 0 <= jumps <= MAX_JUMPS && 0 <= cursor
      invariant Read(p, utf8, offset, None, 0) == Collected(labels, Read(p, utf8, cursor, end, jumps))
      decreases MAX_JUMPS - jumps, |p| - cursor
    {
      var b := p[cursor];
      if b == 0 {
        return Some((Join(OnTo(labels, End)), if end.Some? then end.value else cursor + 1));
      }
      if b >= 192 {
        if cursor + 1 >= |p| || jumps == MAX_JUMPS {
          return None;
        }
        end := if end.Some? then end else Some(cursor + 2);
        cursor, jumps := Pointer(p, cursor), jumps + 1;
      } else {
        var n := b as nat;
        if cursor + 1 + n > |p| || !utf8(p[cursor + 1..cursor + 1 + n]) {
          return None;
        }
        var l := p[cursor + 1..cursor + 1 + n];
        assert (labels + [l])[..|labels|] == labels;
        labels, cursor := labels + [l], cursor + 1 + n;
      }
    }
    return Some((Join(OnTo(labels, End)), if end.Some? then end.value else cursor));
  }
}
