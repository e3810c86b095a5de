/** Messages between crawlers and scheduler, and how they are framed (net/oop/Message.cpp, net/oop/Serialiser.hpp). */
module Messages {
  import opened Bytes
  import opened Sequences

  /** What a message says: its type, and its body as the bytes it is serialised to. */
  datatype Content = Content(id: nat, body: seq<byte>)

  const HEADER_SIZE: nat := 6
  const TWO_TO_THE_16: nat := 0x1_0000
  const TWO_TO_THE_32: nat := 0x1_0000_0000

  /** Id and size are in range, and there is a body. */
  predicate Sendable(c: Content) {
    c.id < TWO_TO_THE_16 && c.body != [] && HEADER_SIZE + |c.body| < TWO_TO_THE_32
  }

  // ----- Headers -----

  function BigEndian(n: nat, width: nat): (b: seq<byte>)
    ensures |b| == width
  {
    if width == 0 then [] else BigEndian(n / 256, width - 1) + [n % 256]
  }

  function FromBigEndian(b: seq<byte>): nat {
    if b == [] then 0 else 256 * FromBigEndian(b[..|b| - 1]) + b[|b| - 1]
  }

  function Power256(width: nat): (p: nat)
    ensures p > 0
  {
    if width == 0 then 1 else 256 * Power256(width - 1)
  }

  lemma {:induction false} EncodeDecode(n: nat, width: nat)
    requires n < Power256(width)
    ensures FromBigEndian(BigEndian(n, width)) == n
  {
    if width > 0 {
      EncodeDecode(n / 256, width - 1);
    }
  }

  lemma {:induction false} DecodeEncode(b: seq<byte>)
    ensures FromBigEndian(b) < Power256(|b|) && BigEndian(FromBigEndian(b), |b|) == b
  {
    if b != [] {
      DecodeEncode(b[..|b| - 1]);
    }
  }

  /** Size of the whole message in 32 bits, and its id in 16, both in network byte order. */
  function HeaderBytes(bodySize: nat, id: nat): (h: seq<byte>)
    ensures |h| == HEADER_SIZE
  {
    BigEndian((HEADER_SIZE + bodySize) % TWO_TO_THE_32, 4) + BigEndian(id, 2)
  }

  function HeaderBodySize(h: seq<byte>): (n: nat)
    requires |h| == HEADER_SIZE
    ensures n < TWO_TO_THE_32
  {
    (FromBigEndian(h[..4]) - HEADER_SIZE) % TWO_TO_THE_32
  }

  function HeaderId(h: seq<byte>): nat
    requires |h| == HEADER_SIZE
  {
    FromBigEndian(h[4..])
  }

  /** Every size and id come back from the header, even where the sum overflows. */
  lemma HeaderRoundTrip(bodySize: nat, id: nat)
    requires bodySize < TWO_TO_THE_32 && id < TWO_TO_THE_16
    ensures HeaderBodySize(HeaderBytes(bodySize, id)) == bodySize && HeaderId(HeaderBytes(bodySize, id)) == id
  {
    var h := HeaderBytes(bodySize, id);
    assert h[..4] == BigEndian((HEADER_SIZE + bodySize) % TWO_TO_THE_32, 4) && h[4..] == BigEndian(id, 2);
    Powers();
    EncodeDecode((HEADER_SIZE + bodySize) % TWO_TO_THE_32, 4);
    EncodeDecode(id, 2);
  }

  /** The bytes one by one: the size of the whole message from its highest byte down, then the id likewise. */
  lemma HeaderLayout(bodySize: nat, id: nat)
    requires HEADER_SIZE + bodySize < TWO_TO_THE_32 && id < TWO_TO_THE_16
    ensures var h := HeaderBytes(bodySize, id);
            && 0x100_0000 * (h[0] as int) + 0x1_0000 * (h[1] as int) + 0x100 * (h[2] as int) + h[3] as int == 6 + bodySize
            && 0x100 * (h[4] as int) + h[5] as int == id
  {
    var h := HeaderBytes(bodySize, id);
    HeaderRoundTrip(bodySize, id);
    FourBytes(h[..4]);
    TwoBytes(h[4..]);
    assert HeaderBodySize(h) == (FromBigEndian(h[..4]) - HEADER_SIZE) % TWO_TO_THE_32;
    DecodeEncode(h[..4]);
    Powers();
  }

  lemma TwoBytes(b: seq<byte>)
    requires |b| == 2
    ensures FromBigEndian(b) == 0x100 * (b[0] as int) + b[1] as int
  {
    assert FromBigEndian(b[..1]) == b[0];
  }

  lemma FourBytes(b: seq<byte>)
    requires |b| == 4
    ensures FromBigEndian(b) == 0x100_0000 * (b[0] as int) + 0x1_0000 * (b[1] as int) + 0x100 * (b[2] as int) + b[3] as int
  {
    var c := b[..3];
    assert c[..2] == b[..2] && FromBigEndian(b) == 256 * FromBigEndian(c) + b[3] && FromBigEndian(c) == 256 * FromBigEndian(c[..2]) + b[2];
    TwoBytes(b[..2]);
  }

  lemma Powers()
    ensures Power256(2) == TWO_TO_THE_16 && Power256(4) == TWO_TO_THE_32
  {
    assert Power256(1) == 256 && Power256(2) == 0x1_0000;
    assert Power256(3) == 0x100_0000;
  }

  /** Any six bytes are the header of some message. */
  lemma HeaderOfBytes(h: seq<byte>)
    requires |h| == HEADER_SIZE
    ensures HeaderBytes(HeaderBodySize(h), HeaderId(h)) == h && HeaderId(h) < TWO_TO_THE_16
  {
    hide BigEndian, FromBigEndian, Power256;
    Powers();
    DecodeEncode(h[..4]);
    DecodeEncode(h[4..]);
    assert h == h[..4] + h[4..];
  }

  // ----- Frames -----

  function Frame(c: Content): (f: seq<byte>)
    ensures |f| == HEADER_SIZE + |c.body|
  {
    HeaderBytes(|c.body|, c.id) + c.body
  }

  function Frames(cs: seq<Content>): seq<byte> {
    if cs == [] then [] else Frame(cs[0]) + Frames(cs[1..])
  }

  lemma {:induction false} FramesAppend(cs: seq<Content>, ds: seq<Content>)
    ensures Frames(cs + ds) == Frames(cs) + Frames(ds)
  {
    hide Frame;
    if cs == [] {
      assert cs + ds == ds;
    } else {
      FramesAppend(cs[1..], ds);
      assert (cs + ds)[1..] == cs[1..] + ds && (cs + ds)[0] == cs[0];
      Associative(Frame(cs[0]), Frames(cs[1..]), Frames(ds));
    }
  }

  lemma FramesOfOne(c: Content)
    ensures Frames([c]) == Frame(c)
  {
    assert [c][1..] == [];
  }

  /** The header, and as much of the body, of a message that is being received. */
  function Part(bodySize: nat, id: nat, got: seq<byte>): seq<byte> {
    HeaderBytes(bodySize, id) + got
  }

  lemma PrefixHead<T>(a: seq<T>, b: seq<T>, c: seq<T>)
    requires a + b <= c
    ensures a <= c && c[..|a|] == a && b <= c[|a|..]
  {
    assert a == (a + b)[..|a|] == c[..|a|];
    assert b == (a + b)[|a|..];
  }

  /** Two frames that begin the same bytes are the same. */
  lemma FirstFrame(c: Content, rest: seq<byte>, d: Content, more: seq<byte>)
    requires Sendable(d) && c.id < TWO_TO_THE_16 && |c.body| < TWO_TO_THE_32
    requires Frame(c) + rest <= Frame(d) + more
    ensures c == d && rest <= more
  {
    var whole := Frame(d) + more;
    PrefixHead(Frame(c), rest, whole);
    assert whole[..HEADER_SIZE] == HeaderBytes(|d.body|, d.id);
    assert Frame(c)[..HEADER_SIZE] == HeaderBytes(|c.body|, c.id);
    assert whole[..|Frame(c)|][..HEADER_SIZE] == whole[..HEADER_SIZE];
    HeaderRoundTrip(|c.body|, c.id);
    HeaderRoundTrip(|d.body|, d.id);
    assert c.body == Frame(c)[HEADER_SIZE..] && d.body == Frame(d)[HEADER_SIZE..] && Frame(d) == whole[..|Frame(d)|];
    assert whole[|Frame(d)|..] == more;
  }

  /** Whole frames that begin the frames of `ds` are those of the first of `ds`. */
  lemma {:induction false} FramesArePrefixFree(cs: seq<Content>, rest: seq<byte>, ds: seq<Content>)
    requires (forall d <- ds :: Sendable(d)) && (forall c <- cs :: c.id < TWO_TO_THE_16 && |c.body| < TWO_TO_THE_32)
    requires Frames(cs) + rest <= Frames(ds)
    ensures cs <= ds && rest <= Frames(ds[|cs|..])
    decreases |cs|
  {
    if cs != [] {
      assert Frames(cs) + rest == Frame(cs[0]) + (Frames(cs[1..]) + rest);
      assert ds != [];
      FirstFrame(cs[0], Frames(cs[1..]) + rest, ds[0], Frames(ds[1..]));
      FramesArePrefixFree(cs[1..], rest, ds[1..]);
      assert cs == [cs[0]] + cs[1..] && ds == [ds[0]] + ds[1..] && ds[1..][|cs| - 1..] == ds[|cs|..];
    } else {
      assert Frames(cs) + rest == rest && ds[0..] == ds;
    }
  }

  // ----- Message objects -----

  /** How far a message on its way out has got. */
  datatype Out = Out(content: Content, processed: bool, position: nat)

  /** It has not been started, or its header has been written. */
  predicate OnItsWay(o: Out) {
    Sendable(o.content) && o.position <= |o.content.body| && (!o.processed ==> o.position == 0)
  }

  /** The bytes of it still to be written. */
  function Rest(o: Out): seq<byte>
    requires o.position <= |o.content.body|
  {
    (if o.processed then [] else HeaderBytes(|o.content.body|, o.content.id)) + o.content.body[o.position..]
  }

  /** What it is after `n` more bytes have been written. */
  function Advanced(o: Out, n: nat): Out
    requires OnItsWay(o) && n <= |Rest(o)| && (o.processed || n == 0 || n >= HEADER_SIZE)
  {
    if n == 0 then o else Out(o.content, true, if o.processed then o.position + n else n - HEADER_SIZE)
  }

  lemma AdvancedRest(o: Out, n: nat)
    requires OnItsWay(o) && n <= |Rest(o)| && (o.processed || n == 0 || n >= HEADER_SIZE)
    ensures OnItsWay(Advanced(o, n)) && Rest(Advanced(o, n)) == Rest(o)[n..]
  {
  }

  /** What is left after the header, when there is room for it, and then `left` bytes of the body. */
  lemma AdvancedBy(o: Out, max: nat, left: nat)
    requires OnItsWay(o) && (o.processed || max == 0 || max >= HEADER_SIZE)
    requires var at := if !o.processed && max >= HEADER_SIZE then HEADER_SIZE else 0;
             left == if max - at > |o.content.body| - o.position then |o.content.body| - o.position else max - at
    ensures var at := if !o.processed && max >= HEADER_SIZE then HEADER_SIZE else 0;
            && at + left == (if max <= |Rest(o)| then max else |Rest(o)|)
            && Advanced(o, at + left) == Out(o.content, o.processed || at > 0, o.position + left)
            && Rest(o)[..at + left] == HeaderBytes(|o.content.body|, o.content.id)[..at] + o.content.body[o.position..o.position + left]
  {
  }

  /** Copies bytes into the buffer. */
  method CopyTo(buffer: array<byte>, offset: nat, bytes: seq<byte>)
    requires offset + |bytes| <= buffer.Length
    modifies buffer
    ensures buffer[offset..offset + |bytes|] == bytes && buffer[..offset] == old(buffer[..offset])
  {
    forall i | 0 <= i < |bytes| {
      buffer[offset + i] := bytes[i];
    }
  }

  class Message {
    const id: nat
    var bodySize: nat      // in the header
    var processed: bool    // the header has been written
    var serialised: bool
    var stream: seq<byte>
    var position: nat      // of the next byte to be read from the stream

    /** A message whose body has been serialised. */
    constructor Deconstructed(id: nat, body: seq<byte>)
      ensures this.id == id && bodySize == |body| % TWO_TO_THE_32 && !processed && serialised && stream == body && position == 0
    {
      this.id, bodySize, processed, serialised, stream, position := id, |body| % TWO_TO_THE_32, false, true, body, 0;
    }

    /** A message whose body is still to be received. */
    constructor Expected(id: nat, bodySize: nat)
      ensures this.id == id && this.bodySize == bodySize && !processed && !serialised && stream == [] && position == 0
    {
      this.id, this.bodySize, processed, serialised, stream, position := id, bodySize, false, false, [], 0;
    }

    function Says(): Content
      reads this`stream
    {
      Content(id, stream)
    }

    ghost function Seen(): Out
      reads this`stream, this`processed, this`position
    {
      Out(Says(), processed, position)
    }

    /** It is being sent: its header tells the size of its body. */
    ghost predicate Outgoing()
      reads this`serialised, this`bodySize, this`stream, this`processed, this`position
    {
      serialised && bodySize == |stream| && OnItsWay(Seen())
    }

    ghost predicate Incoming()
      reads this`serialised, this`stream, this`bodySize
    {
      !serialised && |stream| <= bodySize
    }

    function Pending(): nat
      requires if serialised then position <= bodySize else |stream| <= bodySize
      reads this`bodySize, this`serialised, this`position, this`stream
    {
      bodySize - if serialised then position else |stream|
    }

    function Size(): nat
      reads this`bodySize
    {
      (HEADER_SIZE + bodySize) % TWO_TO_THE_32
    }

    /** Writes the next bytes of the message, at most `max`, from the offset on. */
    method ToBuffer(buffer: array<byte>, offset: nat, max: nat) returns (n: nat)
      requires Outgoing() && offset + max <= buffer.Length
      requires processed || max == 0 || max >= HEADER_SIZE
      modifies this`processed, this`position, buffer
      ensures n == (if max <= |Rest(old(Seen()))| then max else |Rest(old(Seen()))|)
      ensures Seen() == Advanced(old(Seen()), n) && Outgoing()
      ensures buffer[offset..offset + n] == Rest(old(Seen()))[..n] && buffer[..offset] == old(buffer[..offset])
    {
      hide HeaderBytes, BigEndian, Rest, Advanced;
      ghost var o := Seen();
      var at, h := 0, HeaderBytes(bodySize, id);
      if !processed && max >= HEADER_SIZE {
        CopyTo(buffer, offset, h);
        processed := true;
        at := HEADER_SIZE;
      }
      assert buffer[offset..offset + at] == h[..at] && buffer[..offset] == old(buffer[..offset]);
      var left := max - at;
      if left > Pending() {
        left := Pending();
      }
      n := at + left;
      AdvancedBy(o, max, left);
      AdvancedRest(o, n);
      var bytes := stream[position..position + left];
      assert Rest(o)[..n] == h[..at] + bytes;
      WriteOn(buffer, offset, offset + at, bytes);
      assert offset + at + |bytes| == offset + n;
      position := position + left;
    }

    /** Copies bytes to the offset `at`, behind what has been written since `offset`. */
    static method WriteOn(buffer: array<byte>, ghost offset: nat, at: nat, bytes: seq<byte>)
      requires offset <= at && at + |bytes| <= buffer.Length
      modifies buffer
      ensures buffer[offset..at + |bytes|] == old(buffer[offset..at]) + bytes && buffer[..offset] == old(buffer[..offset])
    {
      ghost var before := buffer[..at];
      CopyTo(buffer, at, bytes);
      assert buffer[..offset] == before[..offset] && buffer[offset..at] == before[offset..at];
      assert buffer[offset..at + |bytes|] == buffer[offset..at] + buffer[at..at + |bytes|];
    }

    /** Takes the next bytes of the body, at most `max`, from the offset on. */
    method FromBuffer(buffer: array<byte>, offset: nat, max: nat) returns (n: nat)
      requires Incoming() && offset + max <= buffer.Length
      modifies this`stream
      ensures n == (if max <= old(Pending()) then max else old(Pending()))
      ensures stream == old(stream) + buffer[offset..offset + n] && Incoming()
    {
      n := if max > Pending() then Pending() else max;
      stream := stream + buffer[offset..offset + n];
    }
  }
}
