/** What a protocol object keeps about the messages it sends and receives, as properties of values. */
module Framing {
  import opened Bytes
  import opened Sequences
  import opened Messages

  // ----- Sending -----

  ghost predicate AllOnTheirWay(outs: seq<Out>) {
    forall i :: 0 <= i < |outs| ==> OnItsWay(outs[i]) && Rest(outs[i]) != []
  }

  ghost predicate NotStarted(outs: seq<Out>) {
    forall i :: 0 <= i < |outs| ==> !outs[i].processed
  }

  /** The bytes still to be written, of all messages queued. */
  ghost function OutBytes(outs: seq<Out>): seq<byte>
    requires AllOnTheirWay(outs)
  {
    if outs == [] then [] else Rest(outs[0]) + OutBytes(outs[1..])
  }

  ghost function Contents(outs: seq<Out>): (cs: seq<Content>)
    ensures |cs| == |outs| && forall i :: 0 <= i < |outs| ==> cs[i] == outs[i].content
  {
    seq(|outs|, i requires 0 <= i < |outs| => outs[i].content)
  }

  /** Messages not started yet will be written as their frames. */
  lemma {:induction false} NotStartedBytes(outs: seq<Out>)
    requires AllOnTheirWay(outs) && NotStarted(outs)
    ensures OutBytes(outs) == Frames(Contents(outs))
  {
    if outs != [] {
      NotStartedBytes(outs[1..]);
      assert Contents(outs)[1..] == Contents(outs[1..]);
    }
  }

  /**
    What has been sent, and what is still to be sent, are the frames of all messages pushed, in order.
    The freed messages are the first of them, then come those buffered in full, then those queued.
   */
  ghost predicate Sends(pushed: seq<Content>, freed: seq<Content>, bufs: seq<Content>, outs: seq<Out>, sent: seq<byte>) {
    && AllOnTheirWay(outs) && (outs != [] ==> NotStarted(outs[1..]))
    && pushed == freed + bufs + Contents(outs)
    && sent + OutBytes(outs) == Frames(pushed) && forall c <- pushed :: Sendable(c)
  }

  lemma {:induction false} OutBytesAppend(outs: seq<Out>, o: Out)
    requires AllOnTheirWay(outs) && OnItsWay(o) && Rest(o) != []
    ensures AllOnTheirWay(outs + [o]) && OutBytes(outs + [o]) == OutBytes(outs) + Rest(o)
  {
    if outs == [] {
      assert outs + [o] == [o] && [o][1..] == [];
    } else {
      OutBytesAppend(outs[1..], o);
      assert (outs + [o])[1..] == outs[1..] + [o];
      Associative(Rest(outs[0]), OutBytes(outs[1..]), Rest(o));
    }
  }

  /** One more message is queued. */
  lemma Pushed(pushed: seq<Content>, freed: seq<Content>, bufs: seq<Content>, outs: seq<Out>, sent: seq<byte>, c: Content)
    requires Sends(pushed, freed, bufs, outs, sent) && Sendable(c)
    ensures Sends(pushed + [c], freed, bufs, outs + [Out(c, false, 0)], sent)
  {
    var o := Out(c, false, 0);
    assert Rest(o) == Frame(c);
    OutBytesAppend(outs, o);
    FramesAppend(pushed, [c]);
    FramesOfOne(c);
    assert Contents(outs + [o]) == Contents(outs) + [c];
    Associative(freed + bufs, Contents(outs), [c]);
    Associative(sent, OutBytes(outs), Frame(c));
  }

  /** `n` more bytes of the first message are written, but not all of it. */
  lemma WroteSome(pushed: seq<Content>, freed: seq<Content>, bufs: seq<Content>, outs: seq<Out>, sent: seq<byte>, n: nat)
    requires Sends(pushed, freed, bufs, outs, sent) && outs != [] && n < |Rest(outs[0])|
    requires outs[0].processed || n == 0 || n >= HEADER_SIZE
    ensures Sends(pushed, freed, bufs, [Advanced(outs[0], n)] + outs[1..], sent + Rest(outs[0])[..n])
  {
    var o := Advanced(outs[0], n);
    var next := [o] + outs[1..];
    AdvancedRest(outs[0], n);
    assert next[1..] == outs[1..] && Contents(next) == Contents(outs);
    assert Rest(outs[0]) == Rest(outs[0])[..n] + Rest(o);
    Associative(Rest(outs[0])[..n], Rest(o), OutBytes(outs[1..]));
    Associative(sent, Rest(outs[0])[..n], OutBytes(next));
  }

  /** The first message is written to its end: it is buffered now. */
  lemma WroteAll(pushed: seq<Content>, freed: seq<Content>, bufs: seq<Content>, outs: seq<Out>, sent: seq<byte>)
    requires Sends(pushed, freed, bufs, outs, sent) && outs != []
    ensures Sends(pushed, freed, bufs + [outs[0].content], outs[1..], sent + Rest(outs[0]))
  {
    assert Contents(outs) == [outs[0].content] + Contents(outs[1..]);
    Associative(freed, bufs, [outs[0].content]);
    Associative(freed + bufs, [outs[0].content], Contents(outs[1..]));
    Associative(sent, Rest(outs[0]), OutBytes(outs[1..]));
  }

  // ----- Acknowledgements -----

  /**
    The sizes of the messages freed, and what has been transferred beyond them, are the bytes acknowledged;
    no more have been acknowledged than sent.
   */
  ghost predicate Accounted(freed: seq<Content>, sent: seq<byte>, transferred: nat, acknowledged: nat) {
    |Frames(freed)| + transferred == acknowledged <= |sent|
  }

  /** The first message buffered has not been acknowledged to its end. */
  ghost predicate Unfinished(bufs: seq<Content>, transferred: nat) {
    bufs != [] ==> transferred < |Frame(bufs[0])|
  }

  /** While a message is being written less of it has been transferred than its size. */
  lemma TransferredLessThanFront(pushed: seq<Content>, freed: seq<Content>, outs: seq<Out>, sent: seq<byte>, transferred: nat, acknowledged: nat)
    requires Sends(pushed, freed, [], outs, sent) && outs != [] && Accounted(freed, sent, transferred, acknowledged)
    ensures transferred < |Frame(outs[0].content)|
  {
    NotStartedBytes(outs[1..]);
    assert Contents(outs) == [outs[0].content] + Contents(outs[1..]);
    FramesAppend(freed + [], Contents(outs));
    assert freed + [] == freed;
    assert Frames(Contents(outs)) == Frame(outs[0].content) + Frames(Contents(outs[1..])) by {
      assert Contents(outs)[1..] == Contents(outs[1..]);
    }
  }

  /** The first message buffered has been acknowledged to its end: it is freed. */
  lemma Freed(pushed: seq<Content>, freed: seq<Content>, bufs: seq<Content>, outs: seq<Out>, sent: seq<byte>)
    requires Sends(pushed, freed, bufs, outs, sent) && bufs != []
    ensures Sends(pushed, freed + [bufs[0]], bufs[1..], outs, sent)
    ensures |Frames(freed + [bufs[0]])| == |Frames(freed)| + |Frame(bufs[0])|
  {
    assert bufs == [bufs[0]] + bufs[1..];
    Associative(freed, [bufs[0]], bufs[1..]);
    FramesAppend(freed, [bufs[0]]);
    FramesOfOne(bufs[0]);
  }

  /** Messages are being freed, of the `amount` acknowledged beyond those freed. */
  ghost predicate Freeing(pushed: seq<Content>, freed: seq<Content>, bufs: seq<Content>, outs: seq<Out>, sent: seq<byte>,
                          amount: nat, acknowledged: nat) {
    Sends(pushed, freed, bufs, outs, sent) && Accounted(freed, sent, amount, acknowledged)
  }

  lemma FreedOne(pushed: seq<Content>, freed: seq<Content>, bufs: seq<Content>, outs: seq<Out>, sent: seq<byte>,
                 amount: nat, acknowledged: nat, amount': nat)
    requires Freeing(pushed, freed, bufs, outs, sent, amount, acknowledged) && bufs != [] && amount' + |Frame(bufs[0])| == amount
    ensures Freeing(pushed, freed + [bufs[0]], bufs[1..], outs, sent, amount', acknowledged)
  {
    Freed(pushed, freed, bufs, outs, sent);
  }

  // ----- The whole of the sender's books -----

  ghost predicate Books(pushed: seq<Content>, freed: seq<Content>, bufs: seq<Content>, outs: seq<Out>, sent: seq<byte>,
                        transferred: nat, acknowledged: nat) {
    Sends(pushed, freed, bufs, outs, sent) && Accounted(freed, sent, transferred, acknowledged) && Unfinished(bufs, transferred)
  }

  lemma BooksPushed(pushed: seq<Content>, freed: seq<Content>, bufs: seq<Content>, outs: seq<Out>, sent: seq<byte>,
                    transferred: nat, acknowledged: nat, c: Content)
    requires Books(pushed, freed, bufs, outs, sent, transferred, acknowledged) && Sendable(c)
    ensures Books(pushed + [c], freed, bufs, outs + [Out(c, false, 0)], sent, transferred, acknowledged)
  {
    hide Sends;
    Pushed(pushed, freed, bufs, outs, sent, c);
  }

  /** After `n` bytes of the first message, which is buffered once it is written to its end. */
  lemma BooksWrote(pushed: seq<Content>, freed: seq<Content>, bufs: seq<Content>, outs: seq<Out>, sent: seq<byte>,
                   transferred: nat, acknowledged: nat, n: nat, sent': seq<byte>)
    requires Books(pushed, freed, bufs, outs, sent, transferred, acknowledged) && outs != [] && n <= |Rest(outs[0])|
    requires (outs[0].processed || n == 0 || n >= HEADER_SIZE) && sent' == sent + Rest(outs[0])[..n]
    ensures if n == |Rest(outs[0])|
            then Books(pushed, freed, bufs + [outs[0].content], outs[1..], sent', transferred, acknowledged)
            else Books(pushed, freed, bufs, [Advanced(outs[0], n)] + outs[1..], sent', transferred, acknowledged)
  {
    if n == |Rest(outs[0])| {
      WroteAll(pushed, freed, bufs, outs, sent);
      assert Rest(outs[0])[..n] == Rest(outs[0]);
      if bufs == [] {
        TransferredLessThanFront(pushed, freed, outs, sent, transferred, acknowledged);
      }
    } else {
      WroteSome(pushed, freed, bufs, outs, sent, n);
    }
    hide Sends, Frames;
  }

  // ----- Receiving -----

  /** A message of which the header, and not yet the whole body, has been received. */
  datatype Arriving = Nothing | Part(id: nat, bodySize: nat, got: seq<byte>)

  ghost predicate Partial(p: Arriving) {
    p.Part? ==> p.id < TWO_TO_THE_16 && |p.got| < p.bodySize < TWO_TO_THE_32
  }

  ghost function PartBytes(p: Arriving): seq<byte> {
    if p.Nothing? then [] else HeaderBytes(p.bodySize, p.id) + p.got
  }

  ghost predicate Whole(c: Content) {
    c.id < TWO_TO_THE_16 && |c.body| < TWO_TO_THE_32
  }

  /** The bytes seen are the frames of the messages delivered and the part of one more. */
  ghost predicate Receives(seen: seq<byte>, delivered: seq<Content>, p: Arriving) {
    Partial(p) && (forall c <- delivered :: Whole(c)) && seen == Frames(delivered) + PartBytes(p)
  }

  /** A header has been read, and as much of the body as `got`. */
  ghost predicate Reads(seen: seq<byte>, delivered: seq<Content>, id: nat, bodySize: nat, got: seq<byte>) {
    && id < TWO_TO_THE_16 && |got| <= bodySize < TWO_TO_THE_32 && (forall c <- delivered :: Whole(c))
    && seen == Frames(delivered) + (HeaderBytes(bodySize, id) + got)
  }

  lemma ReadHeader(seen: seq<byte>, delivered: seq<Content>, h: seq<byte>)
    requires Receives(seen, delivered, Nothing) && |h| == HEADER_SIZE
    ensures Reads(seen + h, delivered, HeaderId(h), HeaderBodySize(h), [])
  {
    HeaderOfBytes(h);
    assert HeaderBytes(HeaderBodySize(h), HeaderId(h)) + [] == h && Frames(delivered) + [] == Frames(delivered);
  }

  lemma ReadOn(seen: seq<byte>, delivered: seq<Content>, id: nat, bodySize: nat, got: seq<byte>, more: seq<byte>)
    requires Reads(seen, delivered, id, bodySize, got) && |got| + |more| <= bodySize
    ensures Reads(seen + more, delivered, id, bodySize, got + more)
  {
    Associative(HeaderBytes(bodySize, id), got, more);
    Associative(Frames(delivered), HeaderBytes(bodySize, id) + got, more);
  }

  /** Once the whole body is there the message is delivered. */
  lemma ReadAll(seen: seq<byte>, delivered: seq<Content>, id: nat, bodySize: nat, got: seq<byte>)
    requires Reads(seen, delivered, id, bodySize, got) && |got| == bodySize
    ensures Receives(seen, delivered + [Content(id, got)], Nothing)
  {
    var c := Content(id, got);
    FramesAppend(delivered, [c]);
    FramesOfOne(c);
    assert Frames(delivered + [c]) + [] == Frames(delivered + [c]);
  }

  /** After the frames `cs` a frame with this header begins. */
  ghost predicate Begins(bytes: seq<byte>, cs: seq<Content>, bodySize: nat, id: nat) {
    && (forall c <- cs :: Whole(c)) && id < TWO_TO_THE_16 && bodySize < TWO_TO_THE_32
    && Frames(cs) + HeaderBytes(bodySize, id) <= bytes
  }

  /** Wherever a frame begins in these bytes, it is that of a known message. */
  ghost predicate KnownIds(bytes: seq<byte>, known: set<nat>) {
    forall cs, bodySize: nat, id: nat :: Begins(bytes, cs, bodySize, id) ==> id in known
  }

  /** It is so for whatever a peer sends that pushes known messages only. */
  lemma PeersSendKnownIds(pushed: seq<Content>, bytes: seq<byte>, known: set<nat>)
    requires bytes <= Frames(pushed) && forall c <- pushed :: Sendable(c) && c.id in known
    ensures KnownIds(bytes, known)
  {
    forall cs, bodySize: nat, id: nat | Begins(bytes, cs, bodySize, id) ensures id in known {
      hide Frame;
      FramesArePrefixFree(cs, HeaderBytes(bodySize, id), pushed);
      SameHeader(pushed[|cs|], Frames(pushed[|cs|..][1..]), bodySize, id);
    }
  }

  lemma SameHeader(c: Content, more: seq<byte>, bodySize: nat, id: nat)
    requires Sendable(c) && id < TWO_TO_THE_16 && bodySize < TWO_TO_THE_32 && HeaderBytes(bodySize, id) <= Frame(c) + more
    ensures c.id == id
  {
    var whole := Frame(c) + more;
    assert whole[..HEADER_SIZE] == HeaderBytes(|c.body|, c.id);
    assert whole[..|HeaderBytes(bodySize, id)|] == HeaderBytes(bodySize, id);
    HeaderRoundTrip(bodySize, id);
    HeaderRoundTrip(|c.body|, c.id);
  }

  /** A header read where the first of such bytes have been seen is that of a known message. */
  lemma HeaderIsKnown(bytes: seq<byte>, known: set<nat>, seen: seq<byte>, delivered: seq<Content>, h: seq<byte>)
    requires KnownIds(bytes, known) && Receives(seen, delivered, Nothing) && |h| == HEADER_SIZE && seen + h <= bytes
    ensures HeaderId(h) in known
  {
    HeaderOfBytes(h);
    assert Frames(delivered) + [] == Frames(delivered);
    assert Begins(bytes, delivered, HeaderBodySize(h), HeaderId(h));
  }

  /**
    However the bytes of the messages pushed were cut up: a receiver that has seen the first of them has
    been delivered the first of the messages, and one that has seen all has been delivered all.
   */
  lemma DeliversWhatWasPushed(pushed: seq<Content>, seen: seq<byte>, delivered: seq<Content>, p: Arriving)
    requires Receives(seen, delivered, p) && forall c <- pushed :: Sendable(c)
    requires seen <= Frames(pushed)
    ensures delivered <= pushed
    ensures seen == Frames(pushed) ==> delivered == pushed && p == Nothing
  {
    hide Frame, Frames, PartBytes, Partial;
    FramesArePrefixFree(delivered, PartBytes(p), pushed);
    if seen == Frames(pushed) {
      AllReceived(pushed);
      OneWayToReceive(seen, delivered, p, pushed, Nothing);
    }
  }

  lemma AllReceived(pushed: seq<Content>)
    requires forall c <- pushed :: Sendable(c)
    ensures Receives(Frames(pushed), pushed, Nothing)
  {
  }

  /** A part is shorter than the frame it is part of. */
  lemma NoFrameInPart(p: Arriving, c: Content, more: seq<byte>)
    requires Partial(p) && Whole(c)
    ensures PartBytes(p) != Frame(c) + more
  {
    if p.Part? && PartBytes(p) == Frame(c) + more {
      assert PartBytes(p)[..HEADER_SIZE] == HeaderBytes(p.bodySize, p.id);
      assert (Frame(c) + more)[..HEADER_SIZE] == HeaderBytes(|c.body|, c.id);
      HeaderRoundTrip(p.bodySize, p.id);
      HeaderRoundTrip(|c.body|, c.id);
    }
  }

  /** Bytes can be seen in one way only: how they were cut up makes no difference to what is delivered. */
  lemma {:induction false} OneWayToReceive(seen: seq<byte>, delivered: seq<Content>, p: Arriving, delivered': seq<Content>, p': Arriving)
    requires Receives(seen, delivered, p) && Receives(seen, delivered', p')
    ensures delivered == delivered' && p == p'
    decreases |delivered|
  {
    hide Frame, PartBytes, Partial;
    if delivered != [] && delivered' != [] {
      var c, d := delivered[0], delivered'[0];
      SplitFirst(seen, delivered, p);
      SplitFirst(seen, delivered', p');
      SameFirstFrame(seen, c, d);
      OneWayToReceive(seen[|Frame(c)|..], delivered[1..], p, delivered'[1..], p');
      assert delivered == [c] + delivered[1..] && delivered' == [d] + delivered'[1..];
    } else if delivered == [] && delivered' == [] {
      OnePart(seen, p, p');
    } else if delivered == [] {
      SplitFirst(seen, delivered', p');
      NoFrameInPart(p, delivered'[0], seen[|Frame(delivered'[0])|..]);
    } else {
      SplitFirst(seen, delivered, p);
      NoFrameInPart(p', delivered[0], seen[|Frame(delivered[0])|..]);
    }
  }

  lemma SplitFirst(seen: seq<byte>, delivered: seq<Content>, p: Arriving)
    requires Receives(seen, delivered, p) && delivered != []
    ensures Frame(delivered[0]) <= seen && seen == Frame(delivered[0]) + seen[|Frame(delivered[0])|..]
    ensures Receives(seen[|Frame(delivered[0])|..], delivered[1..], p)
  {
    hide Frame, PartBytes;
    Associative(Frame(delivered[0]), Frames(delivered[1..]), PartBytes(p));
  }

  lemma OnePart(seen: seq<byte>, p: Arriving, p': Arriving)
    requires Receives(seen, [], p) && Receives(seen, [], p')
    ensures p == p'
  {
    if p.Part? && p'.Part? {
      assert seen[..HEADER_SIZE] == HeaderBytes(p.bodySize, p.id) && seen[..HEADER_SIZE] == HeaderBytes(p'.bodySize, p'.id);
      HeaderRoundTrip(p.bodySize, p.id);
      HeaderRoundTrip(p'.bodySize, p'.id);
      assert seen[HEADER_SIZE..] == p.got && seen[HEADER_SIZE..] == p'.got;
    }
  }

  lemma SameFirstFrame(seen: seq<byte>, c: Content, d: Content)
    requires Whole(c) && Whole(d) && Frame(c) <= seen && Frame(d) <= seen
    ensures c == d
  {
    assert seen[..|Frame(c)|][..HEADER_SIZE] == seen[..HEADER_SIZE] && seen[..|Frame(d)|][..HEADER_SIZE] == seen[..HEADER_SIZE];
    assert Frame(c) == seen[..|Frame(c)|] && Frame(d) == seen[..|Frame(d)|];
    assert Frame(c)[..HEADER_SIZE] == HeaderBytes(|c.body|, c.id) && Frame(d)[..HEADER_SIZE] == HeaderBytes(|d.body|, d.id);
    HeaderRoundTrip(|c.body|, c.id);
    HeaderRoundTrip(|d.body|, d.id);
    assert c.body == Frame(c)[HEADER_SIZE..] && d.body == Frame(d)[HEADER_SIZE..];
  }
}
