/** The wire format: big-endian, fixed-width frames, their encoding and the parser. */
module Protocol {
  import opened Orders

  type Byte = b: int | 0 <= b < 256
  type Bytes = seq<Byte>

  // ----- big-endian fields

  /** The number of values of an `n`-byte field. */
  function Range(n: nat): (r: nat)
    ensures r >= 1
  {
    if n == 0 then 1 else 256 * Range(n - 1)
  }

  function Load(s: Bytes): nat {
    if s == [] then 0 else 256 * Load(s[..|s| - 1]) + s[|s| - 1]
  }

  function Store(v: nat, n: nat): (s: Bytes)
    ensures |s| == n
  {
    if n == 0 then [] else Store(v / 256, n - 1) + [v % 256]
  }

  lemma {:induction false} LoadStore(v: nat, n: nat)
    requires v < Range(n)
    ensures Load(Store(v, n)) == v
  {
    if n > 0 {
      LoadStore(v / 256, n - 1);
      assert Store(v, n)[..n - 1] == Store(v / 256, n - 1);
    }
  }

  lemma {:induction false} StoreLoad(s: Bytes)
    ensures Load(s) < Range(|s|)
    ensures Store(Load(s), |s|) == s
  {
    if s != [] {
      StoreLoad(s[..|s| - 1]);
    }
  }

  // ----- frames

  const HEADER := 20
  const MAX_MESSAGE := 44

  function TypeOf(m: Message): Byte {
    match m
    case AddOrder(_, _, _, _) => 1
    case ModifyOrder(_, _, _, _) => 2
    case DeleteOrder(_, _, _, _) => 3
    case Trade(_, _, _, _) => 4
    case Heartbeat(_, _, _) => 5
    case GapRequest(_, _, _, _) => 6
    case GapResponse(_, _, _, _, _) => 7
  }

  /** The wire length of a message type, 0 for an unknown one. */
  function WireLength(kind: Byte): nat {
    match kind
    case 1 => 44
    case 2 => 44
    case 3 => 36
    case 4 => 44
    case 5 => 28
    case 6 => 36
    case 7 => 44
    case _ => 0
  }

  function Zeros(n: nat): Bytes {
    seq(n, _ => 0)
  }

  function EncodeHeader(kind: Byte, seqNo: nat, ts: nat): (s: Bytes)
    ensures |s| == HEADER
  {
    [kind, 0] + Store(WireLength(kind), 2) + Store(seqNo, 8) + Store(ts, 8)
  }

  function SideByte(side: Side): Byte {
    if side == Buy then 0 else 1
  }

  function EncodeOrder(id: nat, o: Order): (s: Bytes)
    ensures |s| == 24
  {
    Store(id, 8) + Store(o.symbol, 4) + [SideByte(o.side)] + Zeros(3) + Store(o.price, 4) + Store(o.qty, 4)
  }

  function EncodeBody(m: Message): (s: Bytes)
    ensures HEADER + |s| == WireLength(TypeOf(m))
  {
    match m
    case AddOrder(_, _, id, o) => EncodeOrder(id, o)
    case ModifyOrder(_, _, id, o) => EncodeOrder(id, o)
    case DeleteOrder(_, _, id, symbol) => Store(id, 8) + Store(symbol, 4) + Zeros(4)
    case Trade(_, _, id, o) => EncodeOrder(id, o)
    case Heartbeat(_, _, exchangeTs) => Store(exchangeTs, 8)
    case GapRequest(_, _, start, end) => Store(start, 8) + Store(end, 8)
    case GapResponse(_, _, start, end, n) => Store(start, 8) + Store(end, 8) + Store(n, 4) + Zeros(4)
  }

  function Encode(m: Message): (s: Bytes)
    ensures |s| == WireLength(TypeOf(m))
  {
    EncodeHeader(TypeOf(m), m.seqNo, m.ts) + EncodeBody(m)
  }

  /** Every field of the message fits its place on the wire. */
  predicate Encodable(m: Message) {
    && m.seqNo < Range(8) && m.ts < Range(8)
    && match m
       case AddOrder(_, _, id, o) => id < Range(8) && OrderEncodable(o)
       case ModifyOrder(_, _, id, o) => id < Range(8) && OrderEncodable(o)
       case DeleteOrder(_, _, id, symbol) => id < Range(8) && symbol < Range(4)
       case Trade(_, _, id, o) => id < Range(8) && OrderEncodable(o)
       case Heartbeat(_, _, exchangeTs) => exchangeTs < Range(8)
       case GapRequest(_, _, start, end) => start < Range(8) && end < Range(8)
       case GapResponse(_, _, start, end, n) => start < Range(8) && end < Range(8) && n < Range(4)
  }

  predicate OrderEncodable(o: Order) {
    o.symbol < Range(4) && o.price < Range(4) && o.qty < Range(4)
  }

  // ----- the parser

  datatype Status = Ok | Truncated | BadLength | UnknownType | BadSide

  datatype Parsed = Parsed(status: Status, message: Option<Message>, consumed: nat)

  /** The `n`-byte field at offset `off`. */
  function Field(b: Bytes, off: nat, n: nat): nat
    requires off + n <= |b|
  {
    Load(b[off..off + n])
  }

  function SeqOf(b: Bytes): nat
    requires |b| >= HEADER
  {
    Field(b, 4, 8)
  }

  /** The fields that additions, modifications and trades have in common; none if the side is invalid. */
  function ParseOrder(b: Bytes): Option<Order>
    requires |b| >= MAX_MESSAGE
  {
    if b[32] == 0 then Some(Order(Field(b, 28, 4), Buy, Field(b, 36, 4), Field(b, 40, 4)))
    else if b[32] == 1 then Some(Order(Field(b, 28, 4), Sell, Field(b, 36, 4), Field(b, 40, 4)))
    else None
  }

  /** The message in a frame of the right length; none if its side is invalid. */
  function ParseBody(b: Bytes): Option<Message>
    requires |b| >= HEADER && |b| == WireLength(b[0])
  {
    var seqNo, ts := Field(b, 4, 8), Field(b, 12, 8);
    match b[0]
    case 1 => var o := ParseOrder(b); if o.None? then None else Some(AddOrder(seqNo, ts, Field(b, 20, 8), o.value))
    case 2 => var o := ParseOrder(b); if o.None? then None else Some(ModifyOrder(seqNo, ts, Field(b, 20, 8), o.value))
    case 3 => Some(DeleteOrder(seqNo, ts, Field(b, 20, 8), Field(b, 28, 4)))
    case 4 => var o := ParseOrder(b); if o.None? then None else Some(Trade(seqNo, ts, Field(b, 20, 8), o.value))
    case 5 => Some(Heartbeat(seqNo, ts, Field(b, 20, 8)))
    case 6 => Some(GapRequest(seqNo, ts, Field(b, 20, 8), Field(b, 28, 8)))
    case _ => Some(GapResponse(seqNo, ts, Field(b, 20, 8), Field(b, 28, 8), Field(b, 36, 4)))
  }

  function Parse(b: Bytes): (r: Parsed)
    ensures r.consumed <= |b|
    ensures r.status == Ok ==> r.message.Some? && HEADER <= r.consumed <= MAX_MESSAGE
  {
    if |b| < HEADER then Parsed(Truncated, None, 0) else
      var length := Field(b, 2, 2);
      if length < HEADER || length > MAX_MESSAGE then Parsed(BadLength, None, 0)
      else if |b| < length then Parsed(Truncated, None, 0)
      else if WireLength(b[0]) == 0 then Parsed(UnknownType, None, 0)
      else if length != WireLength(b[0]) then Parsed(BadLength, None, 0)
      else
        var m := ParseBody(b[..length]);
        Parsed(if m.None? then BadSide else Ok, m, length)
  }

  // ----- round trips

  /** A frame: bytes that parse as one message and nothing more. */
  predicate IsFrame(f: Bytes) {
    Parse(f).status == Ok && Parse(f).consumed == |f|
  }

  lemma OrderRoundTrip(header: Bytes, id: nat, o: Order)
    requires |header| == HEADER && id < Range(8) && OrderEncodable(o)
    ensures var b := header + EncodeOrder(id, o);
            Field(b, 20, 8) == id && ParseOrder(b) == Some(o)
  {
    var b := header + EncodeOrder(id, o);
    assert b[20..28] == Store(id, 8);
    assert b[28..32] == Store(o.symbol, 4);
    assert b[36..40] == Store(o.price, 4);
    assert b[40..44] == Store(o.qty, 4);
    LoadStore(id, 8);
    LoadStore(o.symbol, 4);
    LoadStore(o.price, 4);
    LoadStore(o.qty, 4);
  }

  lemma HeaderRoundTrip(kind: Byte, seqNo: nat, ts: nat, body: Bytes)
    requires seqNo < Range(8) && ts < Range(8)
    ensures var b := EncodeHeader(kind, seqNo, ts) + body;
            b[0] == kind && Field(b, 2, 2) == WireLength(kind) && Field(b, 4, 8) == seqNo && Field(b, 12, 8) == ts
  {
    var b := EncodeHeader(kind, seqNo, ts) + body;
    assert b[2..4] == Store(WireLength(kind), 2);
    assert b[4..12] == Store(seqNo, 8);
    assert b[12..20] == Store(ts, 8);
    LoadStore(WireLength(kind), 2);
    LoadStore(seqNo, 8);
    LoadStore(ts, 8);
  }

  lemma BodyRoundTrip(m: Message, header: Bytes)
    requires Encodable(m) && |header| == HEADER && header[0] == TypeOf(m)
    requires Field(header, 4, 8) == m.seqNo && Field(header, 12, 8) == m.ts
    ensures ParseBody(header + EncodeBody(m)) == Some(m)
  {
    hide Load, Store, Range;
    var b := header + EncodeBody(m);
    assert b[4..12] == header[4..12] && b[12..20] == header[12..20];
    match m
    case AddOrder(_, _, id, o) => OrderRoundTrip(header, id, o);
    case ModifyOrder(_, _, id, o) => OrderRoundTrip(header, id, o);
    case DeleteOrder(_, _, id, symbol) =>
      assert b[20..28] == Store(id, 8) && b[28..32] == Store(symbol, 4);
      LoadStore(id, 8);
      LoadStore(symbol, 4);
    case Trade(_, _, id, o) => OrderRoundTrip(header, id, o);
    case Heartbeat(_, _, exchangeTs) =>
      assert b[20..28] == Store(exchangeTs, 8);
      LoadStore(exchangeTs, 8);
    case GapRequest(_, _, start, end) =>
      assert b[20..28] == Store(start, 8) && b[28..36] == Store(end, 8);
      LoadStore(start, 8);
      LoadStore(end, 8);
    case GapResponse(_, _, start, end, n) =>
      assert b[20..28] == Store(start, 8) && b[28..36] == Store(end, 8) && b[36..40] == Store(n, 4);
      LoadStore(start, 8);
      LoadStore(end, 8);
      LoadStore(n, 4);
  }

  /** Parsing the encoding of a message, whatever follows it, gives the message back, for every message kind. */
  lemma ParseEncode(m: Message, rest: Bytes)
    requires Encodable(m)
    ensures Parse(Encode(m) + rest) == Parsed(Ok, Some(m), |Encode(m)|)
    ensures IsFrame(Encode(m)) && SeqOf(Encode(m)) == m.seqNo
  {
    hide Load, Store, Range, ParseBody, EncodeHeader, EncodeBody;
    var header, f := EncodeHeader(TypeOf(m), m.seqNo, m.ts), Encode(m);
    HeaderRoundTrip(TypeOf(m), m.seqNo, m.ts, EncodeBody(m));
    HeaderRoundTrip(TypeOf(m), m.seqNo, m.ts, []);
    assert header + [] == header;
    BodyRoundTrip(m, header);
    assert f[..|f|] == f;
    ParseIgnoresRest(f, rest);
  }

  /** The result of a successful parse does not depend on the bytes after the message. */
  lemma ParseIgnoresRest(b: Bytes, rest: Bytes)
    requires Parse(b).status == Ok
    ensures Parse(b[..Parse(b).consumed] + rest) == Parse(b)
  {
    var length := Parse(b).consumed;
    var b' := b[..length] + rest;
    assert b'[2..4] == b[2..4];
    assert b'[..length] == b[..length];
  }

  /** A frame cut short is reported as truncated, wherever it is cut. */
  lemma CutFrameIsTruncated(f: Bytes, cut: nat)
    requires IsFrame(f) && cut < |f|
    ensures Parse(f[..cut]).status == Truncated
  {
    if cut >= HEADER {
      assert f[..cut][2..4] == f[2..4];
    }
  }

  /** The padding bytes of a frame are the ones that the encoder writes. */
  predicate PaddingIsZero(f: Bytes)
    requires |f| >= HEADER && |f| == WireLength(f[0])
  {
    f[1] == 0 && BodyPaddingIsZero(f)
  }

  predicate BodyPaddingIsZero(f: Bytes)
    requires |f| >= HEADER && |f| == WireLength(f[0])
  {
    && (f[0] == 1 || f[0] == 2 || f[0] == 4 ==> f[33] == f[34] == f[35] == 0)
    && (f[0] == 3 ==> f[32] == f[33] == f[34] == f[35] == 0)
    && (f[0] == 7 ==> f[40] == f[41] == f[42] == f[43] == 0)
  }

  lemma FieldBytes(f: Bytes, off: nat, n: nat)
    requires off + n <= |f|
    ensures Field(f, off, n) < Range(n)
    ensures Store(Field(f, off, n), n) == f[off..off + n]
  {
    StoreLoad(f[off..off + n]);
  }

  lemma OrderBytes(f: Bytes)
    requires |f| == MAX_MESSAGE && ParseOrder(f).Some?
    ensures var o := ParseOrder(f).value;
            && OrderEncodable(o)
            && (EncodeOrder(Field(f, 20, 8), o) == f[20..] <==> f[33] == f[34] == f[35] == 0)
  {
    hide Load, Store, Range;
    var o := ParseOrder(f).value;
    FieldBytes(f, 20, 8);
    FieldBytes(f, 28, 4);
    FieldBytes(f, 36, 4);
    FieldBytes(f, 40, 4);
    var e := EncodeOrder(Field(f, 20, 8), o);
    assert e[13..16] == Zeros(3);
    assert e[..13] == f[20..33] && e[16..] == f[36..];
    assert e == e[..13] + e[13..16] + e[16..];
    assert f[20..] == f[20..33] + f[33..36] + f[36..];
    if e == f[20..] {
      assert e[13] == f[33] && e[14] == f[34] && e[15] == f[35];
    }
  }

  lemma HeaderBytes(f: Bytes)
    requires |f| >= HEADER && Field(f, 2, 2) == WireLength(f[0])
    ensures EncodeHeader(f[0], Field(f, 4, 8), Field(f, 12, 8)) == f[..HEADER] <==> f[1] == 0
  {
    hide Load, Store, Range;
    FieldBytes(f, 2, 2);
    FieldBytes(f, 4, 8);
    FieldBytes(f, 12, 8);
    var h := EncodeHeader(f[0], Field(f, 4, 8), Field(f, 12, 8));
    assert h == [f[0], 0] + f[2..4] + f[4..12] + f[12..20];
    assert f[..HEADER] == [f[0], f[1]] + f[2..4] + f[4..12] + f[12..20];
    assert h[1] == 0 && f[..HEADER][1] == f[1];
  }

  lemma BodyBytes(f: Bytes)
    requires |f| >= HEADER && |f| == WireLength(f[0]) && ParseBody(f).Some?
    ensures var m := ParseBody(f).value;
            Encodable(m) && TypeOf(m) == f[0] && (EncodeBody(m) == f[HEADER..] <==> BodyPaddingIsZero(f))
  {
    hide Load, Store, Range, EncodeOrder, ParseOrder;
    FieldBytes(f, 4, 8);
    FieldBytes(f, 12, 8);
    FieldBytes(f, 20, 8);
    match f[0]
    case 3 =>
      FieldBytes(f, 28, 4);
      DeleteBytes(f);
    case 5 =>
    case 6 =>
      FieldBytes(f, 28, 8);
      assert f[20..] == f[20..28] + f[28..36];
    case 7 =>
      FieldBytes(f, 28, 8);
      FieldBytes(f, 36, 4);
      assert f[20..] == f[20..28] + f[28..36] + f[36..40] + f[40..];
      TailIsZero(f[20..28] + f[28..36] + f[36..40], f[40..]);
    case _ =>
      OrderBytes(f);
  }

  lemma TailIsZero(front: Bytes, tail: Bytes)
    requires |tail| == 4
    ensures front + tail == front + Zeros(4) <==> tail[0] == tail[1] == tail[2] == tail[3] == 0
  {
    if front + tail == front + Zeros(4) {
      assert tail == (front + tail)[|front|..] && Zeros(4) == (front + Zeros(4))[|front|..];
    }
  }

  lemma DeleteBytes(f: Bytes)
    requires |f| == 36
    ensures f[20..28] + f[28..32] + Zeros(4) == f[20..] <==> f[32] == f[33] == f[34] == f[35] == 0
  {
    assert f[20..] == f[20..28] + f[28..32] + f[32..];
    TailIsZero(f[20..28] + f[28..32], f[32..]);
  }

  /** Encoding what was parsed gives the frame back if and only if its padding is zero. */
  lemma EncodeParse(f: Bytes)
    requires IsFrame(f)
    ensures var m := Parse(f).message.value;
            Encodable(m) && (Encode(m) == f <==> PaddingIsZero(f))
  {
    hide Load, Store, Range, EncodeHeader, EncodeBody, BodyPaddingIsZero;
    var m := Parse(f).message.value;
    assert f[..|f|] == f;
    HeaderBytes(f);
    BodyBytes(f);
    assert f == f[..HEADER] + f[HEADER..];
    if Encode(m) == f {
      assert EncodeHeader(f[0], m.seqNo, m.ts) == Encode(m)[..HEADER] && EncodeBody(m) == Encode(m)[HEADER..];
    }
  }

  // ----- the format, byte by byte

  predicate HasSide(kind: Byte) {
    kind == 1 || kind == 2 || kind == 4
  }

  /** The frame lengths of the seven message types. */
  predicate KnownLength(kind: Byte, length: nat) {
    || (length == 44 && (kind == 1 || kind == 2 || kind == 4 || kind == 7))
    || (length == 36 && (kind == 3 || kind == 6))
    || (length == 28 && kind == 5)
  }

  /** The number that two bytes make, most significant first. */
  function Two(b: Bytes, off: nat): nat
    requires off + 2 <= |b|
  {
    var hi: int, lo: int := b[off], b[off + 1];
    0x100 * hi + lo
  }

  function Four(b: Bytes, off: nat): nat
    requires off + 4 <= |b|
  {
    0x1_0000 * Two(b, off) + Two(b, off + 2)
  }

  function Eight(b: Bytes, off: nat): nat
    requires off + 8 <= |b|
  {
    0x1_0000_0000 * Four(b, off) + Four(b, off + 4)
  }

  lemma FieldOfTwo(b: Bytes, off: nat)
    requires off + 2 <= |b|
    ensures Field(b, off, 2) == Two(b, off)
  {
    var s := b[off..off + 2];
    assert s[..1] == [s[0]];
    OneByte(s[0]);
  }

  lemma OneByte(x: Byte)
    ensures Load([x]) == x
  {
    assert [x][..0] == [];
  }

  lemma {:induction false} LoadJoins(a: Bytes, b: Bytes)
    ensures Load(a + b) == Range(|b|) * Load(a) + Load(b)
  {
    if b == [] {
      assert a + b == a;
    } else {
      var n := |b| - 1;
      LoadJoins(a, b[..n]);
      assert (a + b)[..|a| + n] == a + b[..n];
      TimesAssociates(256, Range(n), Load(a));
    }
  }

  lemma TimesAssociates(a: nat, b: nat, c: nat)
    ensures a * (b * c) == a * b * c
  {
  }

  lemma FieldOfFour(b: Bytes, off: nat)
    requires off + 4 <= |b|
    ensures Field(b, off, 4) == Four(b, off)
  {
    hide Load;
    FieldOfTwo(b, off);
    FieldOfTwo(b, off + 2);
    LoadJoins(b[off..off + 2], b[off + 2..off + 4]);
    assert b[off..off + 4] == b[off..off + 2] + b[off + 2..off + 4];
    assert Range(2) == 0x1_0000;
  }

  lemma FieldOfEight(b: Bytes, off: nat)
    requires off + 8 <= |b|
    ensures Field(b, off, 8) == Eight(b, off)
  {
    hide Load, Four;
    FieldOfFour(b, off);
    FieldOfFour(b, off + 4);
    LoadJoins(b[off..off + 4], b[off + 4..off + 8]);
    assert b[off..off + 8] == b[off..off + 4] + b[off + 4..off + 8];
    assert Range(2) == 0x1_0000 && Range(4) == 0x1_0000_0000;
  }

  /** What the parser says of any bytes, from the length, the type byte, the length bytes and the side byte. */
  lemma ParseStatus(b: Bytes)
    ensures var r := Parse(b);
            if |b| < 20 then r == Parsed(Truncated, None, 0) else
              var length := Two(b, 2);
              && (r.status == Truncated <==> 20 <= length <= 44 && |b| < length)
              && (r.status == UnknownType <==> 20 <= length <= 44 && length <= |b| && !(1 <= b[0] <= 7))
              && (r.status == BadLength <==>
                    length < 20 || length > 44 || (length <= |b| && 1 <= b[0] <= 7 && !KnownLength(b[0], length)))
              && (r.status == BadSide <==>
                    length <= |b| && KnownLength(b[0], length) && HasSide(b[0]) && b[32] > 1)
              && (r.status == Ok <==>
                    length <= |b| && KnownLength(b[0], length) && (HasSide(b[0]) ==> b[32] <= 1))
              && (r.message.Some? <==> r.status == Ok)
              && r.consumed == if r.status == Ok || r.status == BadSide then length else 0
  {
    hide Load;
    if |b| >= 20 {
      FieldOfTwo(b, 2);
    }
  }

  predicate OrderOnWire(b: Bytes, id: nat, o: Order)
    requires |b| == 44
  {
    && id == Eight(b, 20) && o.symbol == Four(b, 28) && b[32] == (if o.side == Buy then 0 else 1)
    && o.price == Four(b, 36) && o.qty == Four(b, 40)
  }

  /** The layout of the seven messages, apart from padding. */
  predicate OnWire(b: Bytes, m: Message) {
    && |b| >= 20 && Two(b, 2) == |b| && m.seqNo == Eight(b, 4) && m.ts == Eight(b, 12)
    && match m
       case AddOrder(_, _, id, o) => b[0] == 1 && |b| == 44 && OrderOnWire(b, id, o)
       case ModifyOrder(_, _, id, o) => b[0] == 2 && |b| == 44 && OrderOnWire(b, id, o)
       case DeleteOrder(_, _, id, symbol) => b[0] == 3 && |b| == 36 && id == Eight(b, 20) && symbol == Four(b, 28)
       case Trade(_, _, id, o) => b[0] == 4 && |b| == 44 && OrderOnWire(b, id, o)
       case Heartbeat(_, _, exchangeTs) => b[0] == 5 && |b| == 28 && exchangeTs == Eight(b, 20)
       case GapRequest(_, _, start, end) => b[0] == 6 && |b| == 36 && start == Eight(b, 20) && end == Eight(b, 28)
       case GapResponse(_, _, start, end, n) =>
         b[0] == 7 && |b| == 44 && start == Eight(b, 20) && end == Eight(b, 28) && n == Four(b, 36)
  }

  /** A frame is laid out as the message that it parses to, and its sequence number is that message's. */
  lemma ParseLayout(f: Bytes)
    requires IsFrame(f)
    ensures OnWire(f, Parse(f).message.value) && SeqOf(f) == Parse(f).message.value.seqNo
  {
    hide Field, Four, Eight;
    assert f[..|f|] == f;
    ParseStatus(f);
    FieldOfEight(f, 4);
    FieldOfEight(f, 12);
    FieldOfEight(f, 20);
    if f[0] == 6 || f[0] == 7 {
      FieldOfEight(f, 28);
    }
    if f[0] == 7 {
      FieldOfFour(f, 36);
    } else if |f| >= 36 {
      FieldOfFour(f, 28);
      if |f| == 44 {
        FieldOfFour(f, 36);
        FieldOfFour(f, 40);
      }
    }
  }

  /** The encoder writes this layout, with zero padding. */
  lemma EncodeLayout(m: Message)
    requires Encodable(m)
    ensures OnWire(Encode(m), m) && PaddingIsZero(Encode(m))
  {
    hide OnWire, PaddingIsZero;
    ParseEncode(m, []);
    assert Encode(m) + [] == Encode(m);
    ParseLayout(Encode(m));
    EncodeParse(Encode(m));
  }
}
