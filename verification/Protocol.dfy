/** One end of a connection: messages go out through buffers and come in through buffers (net/oop/Protocol.cpp). */
module Protocols {
  import opened Bytes
  import opened Sequences
  import opened Messages
  import opened Framing
  import opened Factories
  import BitSets

  ghost function Said(ms: seq<Message>): (cs: seq<Content>)
    reads ms`stream
    ensures |cs| == |ms| && forall i :: 0 <= i < |ms| ==> cs[i] == ms[i].Says()
  {
    if ms == [] then [] else Said(ms[..|ms| - 1]) + [ms[|ms| - 1].Says()]
  }

  ghost function Outs(ms: seq<Message>): (os: seq<Out>)
    reads ms`stream, ms`processed, ms`position
    ensures |os| == |ms| && forall i :: 0 <= i < |ms| ==> os[i] == ms[i].Seen()
  {
    if ms == [] then [] else Outs(ms[..|ms| - 1]) + [ms[|ms| - 1].Seen()]
  }

  class Protocol {
    const factory: Factory
    var incoming: Message?
    var transferred: nat
    var inbound: seq<Message>
    var outbound: seq<Message>
    var buffered: seq<Message>

    ghost var pushed: seq<Content>     // the messages to be sent
    ghost var sent: seq<byte>          // the bytes written so far
    ghost var freed: seq<Content>      // the messages done with
    ghost var acknowledged: nat        // how many bytes were acknowledged
    ghost var seen: seq<byte>          // the bytes received
    ghost var delivered: seq<Content>  // the messages received
    ghost var popped: seq<Content>     // those of them handed on

    constructor (factory: Factory)
      ensures this.factory == factory && Sending() && Receiving() && pushed == [] && sent == [] && seen == [] && acknowledged == 0
      ensures incoming == null && inbound == outbound == buffered == []
    {
      this.factory, incoming, transferred, inbound, outbound, buffered := factory, null, 0, [], [], [];
      pushed, sent, freed, acknowledged, seen, delivered, popped := [], [], [], 0, [], [], [];
      new;
      hide Books, Receives;
      NothingYet();
    }

    static lemma NothingYet()
      ensures Books([], [], [], [], [], 0, 0) && Receives([], [], Nothing)
    {
    }

    // ----- Sending -----

    /** What has been pushed and sent is accounted for. */
    ghost predicate Sending()
      reads this`transferred, this`outbound, this`buffered, this`pushed, this`sent, this`freed, this`acknowledged
      reads outbound`serialised, outbound`bodySize, outbound`stream, outbound`processed, outbound`position
      reads buffered`stream, buffered`bodySize
    {
      Queues() && Books(pushed, freed, Said(buffered), Outs(outbound), sent, transferred, acknowledged)
    }

    /** No message is queued twice, and those buffered know their size. */
    ghost predicate Queues()
      reads this`outbound, this`buffered, buffered`stream, buffered`bodySize
      reads outbound`serialised, outbound`bodySize, outbound`stream, outbound`processed, outbound`position
    {
      && (forall i, j :: 0 <= i < j < |outbound| ==> outbound[i] != outbound[j])
      && (forall i :: 0 <= i < |outbound| ==> outbound[i].Outgoing())
      && (forall i :: 0 <= i < |buffered| ==> Complete(buffered[i]))
      && (forall i, j :: 0 <= i < |outbound| && 0 <= j < |buffered| ==> outbound[i] != buffered[j])
    }

    static ghost predicate Complete(m: Message)
      reads m`stream, m`bodySize
    {
      |m.stream| == m.bodySize && Sendable(m.Says())
    }

    /** Queues a message that has been serialised; null is ignored. */
    method PushMessage(m: Message?)
      requires Sending()
      requires m != null ==> m.Outgoing() && !m.processed && m !in outbound && m !in buffered
      modifies this`outbound, this`pushed
      ensures Sending()
      ensures outbound == old(outbound) + (if m == null then [] else [m]) && pushed == old(pushed) + if m == null then [] else [m.Says()]
    {
      hide Books, Said, Outs;
      if m == null {
        return;
      }
      ghost var outs := Outs(outbound);
      BooksPushed(pushed, freed, Said(buffered), outs, sent, transferred, acknowledged, m.Says());
      pushed := pushed + [m.Says()];
      outbound := outbound + [m];
      assert Outs(outbound) == outs + [Out(m.Says(), false, 0)];
    }

    /** Keeps the books: these bytes have been sent. */
    ghost method NoteSent(more: seq<byte>)
      modifies this`sent
      ensures sent == old(sent) + more && Outs(outbound) == old(Outs(outbound)) && Said(buffered) == old(Said(buffered))
      ensures old(Queues()) ==> Queues()
    {
      hide Said, Outs;
      sent := sent + more;
    }

    /** Writes bytes of the message at the front of the queue. */
    method WriteFront(buffer: array<byte>, offset: nat, left: nat) returns (n: nat)
      requires Queues() && outbound != [] && offset + left <= buffer.Length
      requires outbound[0].processed || left == 0 || left >= HEADER_SIZE
      modifies outbound[..1]`processed, outbound[..1]`position, buffer
      ensures Queues() && Said(buffered) == old(Said(buffered))
      ensures var outs := old(Outs(outbound)); var rest := Rest(outs[0]);
              && n == (if left <= |rest| then left else |rest|) && buffer[offset..offset + n] == rest[..n]
              && Outs(outbound) == [Advanced(outs[0], n)] + outs[1..]
      ensures buffer[..offset] == old(buffer[..offset])
    {
      hide Said, Outs;
      ghost var outs := Outs(outbound);
      n := outbound[0].ToBuffer(buffer, offset, left);
      assert Outs(outbound) == [Advanced(outs[0], n)] + outs[1..];
    }

    /** Writes bytes of the message at the front of the queue, and notes that they have been sent. */
    method WriteNoted(buffer: array<byte>, offset: nat, left: nat) returns (n: nat)
      requires Queues() && outbound != [] && offset + left <= buffer.Length
      requires outbound[0].processed || left == 0 || left >= HEADER_SIZE
      modifies this`sent, outbound[..1]`processed, outbound[..1]`position, buffer
      ensures Queues() && Said(buffered) == old(Said(buffered))
      ensures var outs := old(Outs(outbound)); var rest := Rest(outs[0]);
              && n == (if left <= |rest| then left else |rest|) && sent == old(sent) + rest[..n]
              && Outs(outbound) == [Advanced(outs[0], n)] + outs[1..]
              && Outs(outbound)[1..] == outs[1..] && Outs(outbound)[0].content == outs[0].content
              && (outbound[0].Outgoing() && (outbound[0].Pending() == 0 <==> n == |rest|))
      ensures sent == old(sent) + buffer[offset..offset + n] && buffer[..offset] == old(buffer[..offset])
    {
      hide Rest, Queues, Said, Outs;
      ghost var outs := Outs(outbound);
      FrontSeen();
      n := WriteFront(buffer, offset, left);
      NoteSent(buffer[offset..offset + n]);
      FrontSeen();
      PendingAtFront(outs[0], n);
    }

    /** Moves the message at the front of the queue to those buffered. */
    method MoveFront()
      requires Queues() && outbound != []
      modifies this`outbound, this`buffered
      ensures Queues() && Moved(old(outbound), old(buffered), true)
      ensures Outs(outbound) == old(Outs(outbound))[1..] && Said(buffered) == old(Said(buffered)) + [old(Outs(outbound))[0].content]
    {
      hide Said, Outs;
      ghost var outs := Outs(outbound);
      buffered := buffered + [outbound[0]];
      outbound := outbound[1..];
      assert Outs(outbound) == outs[1..];
    }

    /** The front message has been moved to those buffered if it is complete. */
    ghost predicate Moved(os: seq<Message>, bs: seq<Message>, complete: bool)
      requires os != []
      reads this`outbound, this`buffered
    {
      && outbound == (if complete then os[1..] else os)
      && buffered == bs + if complete then [os[0]] else []
    }

    /** Writes as much as there is room for of the message at the front of the queue. */
    method SendOne(buffer: array<byte>, offset: nat, left: nat) returns (n: nat, complete: bool)
      requires Sending() && outbound != [] && offset + left <= buffer.Length
      requires outbound[0].processed || left == 0 || left >= HEADER_SIZE
      modifies this`outbound, this`buffered, this`sent, outbound[..1]`processed, outbound[..1]`position, buffer
      ensures Sending()
      ensures var rest := |Rest(old(Outs(outbound))[0])|; n == (if left <= rest then left else rest) && (complete <==> n == rest)
      ensures sent == old(sent) + buffer[offset..offset + n] && buffer[..offset] == old(buffer[..offset])
      ensures Moved(old(outbound), old(buffered), complete)
    {
      hide Books, Rest, Queues, Moved, Said, Outs;
      NothingMoved();
      ghost var outs, bufs := Outs(outbound), Said(buffered);
      ghost var before := sent;
      n := WriteNoted(buffer, offset, left);
      BooksWrote(pushed, freed, bufs, outs, before, transferred, acknowledged, n, sent);
      complete := outbound[0].Pending() == 0;
      if complete {
        MoveFront();
      }
    }

    lemma FrontSeen()
      requires outbound != []
      ensures Outs(outbound)[0] == outbound[0].Seen()
      ensures Queues() ==> outbound[0].Outgoing()
    {
    }

    /** Nothing is pending once all has been written. */
    lemma PendingAtFront(o: Out, n: nat)
      requires outbound != [] && OnItsWay(o) && n <= |Rest(o)| && (o.processed || n == 0 || n >= HEADER_SIZE)
      requires outbound[0].Outgoing() && outbound[0].Seen() == Advanced(o, n)
      ensures outbound[0].Pending() == 0 <==> n == |Rest(o)|
    {
    }

    /** The loop of message2buffer, when there is something to write and room for it. */
    method Fill(buffer: array<byte>, max: nat) returns (used: nat)
      requires Sending() && max <= buffer.Length && max > 0 && outbound != []
      requires outbound[0].processed || max >= HEADER_SIZE
      requires |Rest(Outs(outbound)[0])| == max ==> |outbound| > 1
      modifies this`outbound, this`buffered, this`sent, outbound`processed, outbound`position, buffer
      ensures Sending() && used <= max && sent == old(sent) + buffer[..used]
      ensures var rest := |Rest(old(Outs(outbound))[0])|;
              used == (if max <= rest then max else rest) && Moved(old(outbound), old(buffered), used == rest)
    {
      hide Sending, Rest, Moved, Said, Outs;
      FrontHasRest();
      NothingMoved();
      ghost var os, bs, outs, rest := outbound, buffered, Outs(outbound), |Rest(Outs(outbound)[0])|;
      var done, left := false, max;
      used := 0;
      while !done
        invariant 0 <= left && used + left == max && Sending() && sent == old(sent) + buffer[..used]
        invariant Moved(os, bs, used == rest)
        invariant !done ==> if left > 0 then used == 0 && Outs(outbound) == outs else used == rest
        invariant done ==> used == if max <= rest then max else rest
        decreases if done then 0 else if left == 0 then 1 else 2
      {
        StillQueued(os, bs, used == rest);
        FrontHasRest();
        var n, complete := SendOne(buffer, used, left);
        used := used + n;
        left := left - n;
        done := left == 0;
        if complete {
          done := left > 0;
        }
        if |os| > 1 {
          StillMoved(os, bs);
        }
      }
    }

    /** When the front message has been moved, there is another; otherwise it is still the front. */
    lemma StillQueued(os: seq<Message>, bs: seq<Message>, complete: bool)
      requires os != [] && (complete ==> |os| > 1)
      ensures Moved(os, bs, complete) ==>
                outbound != [] && outbound == (if complete then os[1..] else os) && buffered == bs + if complete then [os[0]] else []
    {
    }

    /** Nothing more is moved. */
    lemma StillMoved(os: seq<Message>, bs: seq<Message>)
      requires |os| > 1
      ensures Moved(os[1..], bs + [os[0]], false) ==> Moved(os, bs, true)
    {
    }

    lemma NothingMoved()
      requires outbound != []
      ensures Moved(outbound, buffered, false)
    {
    }

    /**
      Writes queued messages to the first `max` bytes of the buffer: as much of the front message as there
      is room for. A frame needs room for its header to be started, and when the front message fills the
      buffer to its end another must be queued, because the code then looks at the next one.
     */
    method Message2Buffer(buffer: array<byte>, max: nat) returns (used: nat)
      requires Sending() && max <= buffer.Length
      requires max > 0 && outbound != [] ==> outbound[0].processed || max >= HEADER_SIZE
      requires outbound != [] && |Rest(Outs(outbound)[0])| == max ==> |outbound| > 1
      modifies this`outbound, this`buffered, this`sent, outbound`processed, outbound`position, buffer
      ensures Sending() && used <= max && sent == old(sent) + buffer[..used]
      ensures old(outbound) == [] ==> used == 0 && outbound == old(outbound) && buffered == old(buffered)
      ensures old(outbound) != [] ==>
                var rest := |Rest(old(Outs(outbound))[0])|;
                used == (if max <= rest then max else rest) && Moved(old(outbound), old(buffered), used == rest)
    {
      FrontHasRestIfAny();
      hide Sending, Rest, Moved, Said, Outs;
      if max == 0 || outbound == [] {
        if outbound != [] {
          NothingMoved();
        }
        return 0;
      }
      used := Fill(buffer, max);
    }

    lemma FrontHasRestIfAny()
      ensures Sending() && outbound != [] ==> Outs(outbound)[0].position <= |Outs(outbound)[0].content.body| && Rest(Outs(outbound)[0]) != []
    {
    }

    lemma FrontHasRest()
      requires outbound != []
      ensures Sending() ==> Outs(outbound)[0].position <= |Outs(outbound)[0].content.body| && Rest(Outs(outbound)[0]) != []
    {
    }

    lemma FrontSize()
      requires buffered != []
      ensures Queues() ==> buffered[0].Size() == |Frame(Said(buffered)[0])|
      ensures Said(buffered[1..]) == Said(buffered)[1..]
    {
      assert Complete(buffered[0]) ==> buffered[0].Size() == |Frame(buffered[0].Says())|;
    }

    /** Frees the first message buffered, of the `amount` bytes acknowledged; `amount'` is left. */
    method FreeFront(ghost amount: nat, ghost amount': nat)
      requires Queues() && buffered != [] && amount' + buffered[0].Size() == amount
      requires Freeing(pushed, freed, Said(buffered), Outs(outbound), sent, amount, acknowledged)
      modifies this`buffered, this`freed
      ensures Queues() && buffered == old(buffered)[1..] && freed + Said(buffered) == old(freed + Said(buffered)) && old(freed) <= freed
      ensures Freeing(pushed, freed, Said(buffered), Outs(outbound), sent, amount', acknowledged)
    {
      hide Freeing, Said, Outs;
      FrontSize();
      ghost var bufs := Said(buffered);
      FreedOne(pushed, freed, bufs, Outs(outbound), sent, amount, acknowledged, amount');
      assert bufs == [bufs[0]] + bufs[1..];
      Associative(freed, [bufs[0]], bufs[1..]);
      freed := freed + [bufs[0]];
      buffered := buffered[1..];
    }

    /** Frees every message all of whose bytes are among the `total` acknowledged, and tells what is left. */
    method FreeAll(total: nat) returns (amount: nat)
      requires Queues() && Freeing(pushed, freed, Said(buffered), Outs(outbound), sent, total, acknowledged)
      modifies this`buffered, this`freed
      ensures Queues() && Freeing(pushed, freed, Said(buffered), Outs(outbound), sent, amount, acknowledged)
      ensures Unfinished(Said(buffered), amount) && old(freed) <= freed && freed + Said(buffered) == old(freed + Said(buffered))
    {
      hide Freeing, Queues, Said, Outs;
      var outgoing: Message?, messageSize := null, 0;
      var done := buffered == [];
      amount := total;
      while !done
        invariant Queues() && Freeing(pushed, freed, Said(buffered), Outs(outbound), sent, amount, acknowledged)
        invariant old(freed) <= freed && freed + Said(buffered) == old(freed + Said(buffered))
        invariant !done ==> buffered != [] && outgoing == null
        invariant done ==> Unfinished(Said(buffered), amount)
        decreases |buffered|, !done
      {
        if outgoing == null {
          outgoing := buffered[0];
          messageSize := outgoing.Size();
        }
        FrontSize();
        done := amount < messageSize;
        if !done {
          outgoing := null;
          FreeFront(amount, amount - messageSize);
          amount := amount - messageSize;
          done := buffered == [];
        }
      }
    }

    /**
      The peer has `n` bytes more: every message all of whose bytes it has is freed, in the order they
      were pushed, and what it has of the next one is remembered.
     */
    method BytesTransferred(n: nat)
      requires Sending() && acknowledged + n <= |sent|
      modifies this`transferred, this`buffered, this`freed, this`acknowledged
      ensures Sending() && acknowledged == old(acknowledged) + n
      ensures old(freed) <= freed && freed + Said(buffered) == old(freed + Said(buffered))
    {
      hide Freeing, Queues, Sending, Said, Outs;
      if n == 0 {
        return;
      }
      var total := transferred + n;
      ghost var all := acknowledged + n;
      StartFreeing(n, total, all);
      acknowledged := all;
      transferred := FreeAll(total);
      EndFreeing();
    }

    lemma StartFreeing(n: nat, total: nat, all: nat)
      requires total == transferred + n && all == acknowledged + n <= |sent|
      ensures Sending() ==> Queues() && Freeing(pushed, freed, Said(buffered), Outs(outbound), sent, total, all)
    {
    }

    lemma EndFreeing()
      ensures && Queues() && Freeing(pushed, freed, Said(buffered), Outs(outbound), sent, transferred, acknowledged)
              && Unfinished(Said(buffered), transferred)
              ==> Sending()
    {
    }

    // ----- Receiving -----

    ghost function Arriving(): Arriving
      reads this`incoming, {incoming}`bodySize, {incoming}`stream
    {
      if incoming == null then Nothing else Part(incoming.id, incoming.bodySize, incoming.stream)
    }

    /** What has been received is accounted for. */
    ghost predicate Receiving()
      reads this`incoming, this`inbound, this`seen, this`delivered, this`popped
      reads {incoming}`bodySize, {incoming}`stream, {incoming}`serialised, inbound`stream, inbound`bodySize
    {
      && (incoming != null ==> !incoming.serialised)
      && Receives(seen, delivered, Arriving())
      && Inbox()
    }

    /** The messages waiting to be handed on are complete. */
    ghost predicate Inbox()
      reads this`incoming, this`inbound, this`delivered, this`popped, inbound`stream, inbound`bodySize
    {
      && incoming !in inbound && (forall m <- inbound :: |m.stream| == m.bodySize)
      && delivered == popped + Said(inbound)
    }

    /** A header has been read, and some of the body. */
    ghost predicate Reading()
      reads this`incoming, this`inbound, this`seen, this`delivered, this`popped
      reads {incoming}`bodySize, {incoming}`stream, {incoming}`serialised, inbound`stream, inbound`bodySize
    {
      && incoming != null && !incoming.serialised
      && Reads(seen, delivered, incoming.id, incoming.bodySize, incoming.stream)
      && Inbox()
    }

    /** A message of the type the header names, for its body to be received. */
    method Expect(h: seq<byte>) returns (m: Message)
      requires |h| == HEADER_SIZE && factory.Valid() && Agrees(factory.registry, factory.Members()) && HeaderId(h) in factory.Members()
      ensures fresh(m) && m.id == HeaderId(h) && m.bodySize == HeaderBodySize(h) && m.stream == [] && !m.serialised
    {
      var made := factory.Create(HeaderId(h), HeaderBodySize(h));
      m := new Message.Expected(made.prototype, made.bodySize);
    }

    /** Starts a message with the header at the offset, unless one is being received. */
    method Start(buffer: array<byte>, offset: nat) returns (at: nat)
      requires Receiving() && factory.Valid() && Agrees(factory.registry, factory.Members())
      requires offset <= buffer.Length
      requires incoming == null ==> offset + HEADER_SIZE <= buffer.Length && HeaderId(buffer[offset..offset + HEADER_SIZE]) in factory.Members()
      modifies this`incoming, this`seen
      ensures Reading() && (if old(incoming) != null then incoming == old(incoming) && at == 0 else fresh(incoming) && at == HEADER_SIZE)
      ensures offset + at <= buffer.Length && seen == old(seen) + buffer[offset..offset + at]
      ensures old(incoming) != null ==> |incoming.stream| < incoming.bodySize
    {
      at := 0;
      if incoming == null {
        at := HEADER_SIZE;
        var h := buffer[offset..offset + HEADER_SIZE];
        ReadHeader(seen, delivered, h);
        incoming := Expect(h);
        seen := seen + h;
      }
    }

    /** Takes more of the body of the message being received. */
    method Take(buffer: array<byte>, offset: nat, max: nat) returns (n: nat)
      requires Reading() && offset + max <= buffer.Length
      modifies this`seen, incoming`stream
      ensures Reading() && n <= max && seen == old(seen) + buffer[offset..offset + n]
      ensures |incoming.stream| == |old(incoming.stream)| + n && (n < max ==> |incoming.stream| == incoming.bodySize)
    {
      ghost var got := incoming.stream;
      n := incoming.FromBuffer(buffer, offset, max);
      ReadOn(seen, delivered, incoming.id, incoming.bodySize, got, buffer[offset..offset + n]);
      seen := seen + buffer[offset..offset + n];
    }

    /** Hands the message over once it is complete. */
    method Finish() returns (complete: bool)
      requires Reading()
      modifies this`incoming, this`inbound, this`delivered
      ensures Receiving() && (complete <==> incoming == null) && (!complete ==> incoming == old(incoming))
      ensures complete <==> |old(incoming).stream| == old(incoming).bodySize
      ensures delivered == if complete then old(delivered) + [old(incoming.Says())] else old(delivered)
      ensures inbound == if complete then old(inbound) + [old(incoming)] else old(inbound)
    {
      complete := |incoming.stream| == incoming.bodySize;
      if complete {
        ReadAll(seen, delivered, incoming.id, incoming.bodySize, incoming.stream);
        delivered := delivered + [incoming.Says()];
        inbound := inbound + [incoming];
        incoming := null;
      }
    }

    static lemma PiecesTogether(before: seq<byte>, b: array<byte>, i: nat, j: nat, k: nat)
      requires i <= j <= k <= b.Length
      ensures before + b[i..j] + b[j..k] == before + b[i..k]
    {
    }

    /** The header that begins where the next frame is expected is that of a known message. */
    lemma HeaderAt(b: array<byte>, offset: nat, left: nat)
      requires left >= HEADER_SIZE && offset + left <= b.Length
      ensures Receiving() && incoming == null && KnownIds(seen + b[offset..offset + left], factory.Members()) ==>
                HeaderId(b[offset..offset + HEADER_SIZE]) in factory.Members()
    {
      if Receiving() && incoming == null && KnownIds(seen + b[offset..offset + left], factory.Members()) {
        var h, bytes := b[offset..offset + HEADER_SIZE], b[offset..offset + left];
        assert bytes == h + bytes[HEADER_SIZE..];
        Associative(seen, h, bytes[HEADER_SIZE..]);
        HeaderIsKnown(seen + bytes, factory.Members(), seen, delivered, h);
      }
    }

    /** One round: of the `left` bytes from the offset on, all are used up or a message is completed. */
    method ReceiveOne(buffer: array<byte>, offset: nat, left: nat) returns (n: nat, complete: bool)
      requires Receiving() && factory.Valid() && Agrees(factory.registry, factory.Members())
      requires left > 0 && offset + left <= buffer.Length && (incoming == null ==> left >= HEADER_SIZE)
      requires KnownIds(seen + buffer[offset..offset + left], factory.Members())
      modifies this`incoming, this`inbound, this`seen, this`delivered, {incoming}`stream
      ensures Receiving() && 0 < n <= left && (complete <==> incoming == null) && (!complete ==> n == left)
      ensures seen == old(seen) + buffer[offset..offset + n]
      ensures incoming == null || incoming == old(incoming) || fresh(incoming)
    {
      hide Reads, Receives, KnownIds, Agrees, HeaderId, Inbox, Said, Outs;
      if incoming == null {
        HeaderAt(buffer, offset, left);
      }
      var at := Start(buffer, offset);
      var next := offset + at;
      var m := Take(buffer, next, left - at);
      n := at + m;
      PiecesTogether(old(seen), buffer, offset, next, offset + n);
      complete := Finish();
    }

    /**
      Receives messages from the first `max` bytes of the buffer, the last perhaps in part. Bytes left
      unused, too few for a header, are to be presented again.
     */
    method Buffer2Message(buffer: array<byte>, max: nat) returns (used: nat)
      requires Receiving() && factory.Valid() && Agrees(factory.registry, factory.Members())
      requires max <= buffer.Length && (incoming == null ==> max == 0 || max >= HEADER_SIZE)
      requires KnownIds(seen + buffer[..max], factory.Members())
      modifies this`incoming, this`inbound, this`seen, this`delivered, {incoming}`stream
      ensures Receiving() && used <= max && seen == old(seen) + buffer[..used]
      ensures used < max ==> incoming == null && max - used < HEADER_SIZE
      ensures incoming == null || incoming == old(incoming) || fresh(incoming)
    {
      used := 0;
      if max == 0 {
        return;
      }
      hide Receiving, KnownIds, Agrees, Said, Outs;
      ghost var first, b := seen, buffer[..];
      var done, left := false, max;
      while !done
        invariant 0 <= left && used + left == max && Receiving()
        invariant seen == first + b[..used]
        invariant incoming == null || incoming == old(incoming) || fresh(incoming)
        invariant done ==> left == 0 || (incoming == null && left < HEADER_SIZE)
        invariant !done ==> left > 0 && (incoming == null ==> left >= HEADER_SIZE)
        decreases left
      {
        Slices(first, b, used, left);
        var n, complete := ReceiveOne(buffer, used, left);
        Slices(first, b, used, n);
        used := used + n;
        left := left - n;
        done := left == 0;
        if complete {
          done := left < HEADER_SIZE;
        }
      }
    }

    static lemma Slices(before: seq<byte>, b: seq<byte>, i: nat, n: nat)
      requires i + n <= |b|
      ensures before + b[..i] + b[i..i + n] == before + b[..i + n]
    {
    }

    /** Receiving leaves what is being sent as it was. */
    method Receive(buffer: array<byte>, max: nat) returns (used: nat)
      requires Sending() && Receiving() && factory.Valid() && Agrees(factory.registry, factory.Members())
      requires max <= buffer.Length && (incoming == null ==> max == 0 || max >= HEADER_SIZE)
      requires KnownIds(seen + buffer[..max], factory.Members())
      modifies this`incoming, this`inbound, this`seen, this`delivered, {incoming}`stream
      ensures Sending() && Receiving() && used <= max && seen == old(seen) + buffer[..used]
      ensures used < max ==> incoming == null && max - used < HEADER_SIZE
      ensures incoming == null || incoming == old(incoming) || fresh(incoming)
    {
      hide Books, Said, Outs, Receives, Inbox, KnownIds, Agrees;
      IncomingIsNotQueued();
      ghost var bufs, outs := Said(buffered), Outs(outbound);
      used := Buffer2Message(buffer, max);
      assert Said(buffered) == bufs && Outs(outbound) == outs;
    }

    lemma IncomingIsNotQueued()
      ensures Sending() && Receiving() && incoming != null ==> incoming !in outbound && incoming !in buffered
    {
    }

    /** Hands on the first message received, if there is one. */
    method PopMessage() returns (m: Message?)
      requires Receiving()
      modifies this`inbound, this`popped
      ensures Receiving()
      ensures if old(inbound) == [] then m == null && inbound == [] && popped == old(popped)
              else m == old(inbound)[0] && inbound == old(inbound)[1..] && popped == old(popped) + [m.Says()]
    {
      hide Receives, Said;
      if inbound == [] {
        return null;
      }
      SaidFirst(inbound);
      m := inbound[0];
      ghost var rest := Said(inbound[1..]);
      Associative(popped, [m.Says()], rest);
      popped := popped + [m.Says()];
      inbound := inbound[1..];
      assert Said(inbound) == rest;
    }
  }

  lemma {:induction false} SaidFirst(ms: seq<Message>)
    requires ms != []
    ensures Said(ms) == [ms[0].Says()] + Said(ms[1..])
  {
    assert Said(ms)[1..] == Said(ms[1..]);
  }

  /**
    Between two ends, whatever the sizes of the buffers were: what `b` has been delivered are the first of
    the messages pushed at `a`, and all of them once `a` has sent and `b` has seen everything.
   */
  lemma Delivery(a: Protocol, b: Protocol)
    requires a.Sending() && b.Receiving() && b.seen <= a.sent
    ensures b.popped + Said(b.inbound) == b.delivered <= a.pushed
    ensures a.outbound == [] && b.seen == a.sent ==> b.delivered == a.pushed && b.incoming == null
  {
    DeliversWhatWasPushed(a.pushed, b.seen, b.delivered, b.Arriving());
  }

  /** What has been freed are the first of the messages pushed; the peer has all their bytes. */
  lemma FreedInOrder(a: Protocol)
    requires a.Sending()
    ensures a.freed <= a.pushed && |Frames(a.freed)| <= a.acknowledged <= |a.sent|
    ensures a.buffered != [] ==> a.acknowledged < |Frames(a.freed)| + a.buffered[0].Size()
  {
    if a.buffered != [] {
      a.FrontSize();
    }
  }
}
