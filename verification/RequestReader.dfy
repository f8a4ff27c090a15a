/** The recv loops of `readRequest`, over a connection that hands out its deliveries. */
module RequestReader {
  import opened Text
  import opened HttpFraming

  datatype Event = Got(recv: Recv) | Ended(end: End)

  class Connection {
    var pending: seq<Recv>
    const end: End

    constructor (deliveries: seq<Recv>, end: End)
      ensures pending == deliveries && this.end == end
    {
      pending := deliveries;
      this.end := end;
    }

    method Recv() returns (event: Event)
      modifies this
      ensures old(pending) == [] ==> event == Ended(end) && pending == []
      ensures old(pending) != [] ==> event == Got(old(pending)[0]) && pending == old(pending)[1..]
    {
      if pending == [] {
        return Ended(end);
      }
      event := Got(pending[0]);
      pending := pending[1..];
    }
  }

  /** Grows `raw` until the head terminator shows or the head fails. */
  method ReadHeadBytes(client: Connection) returns (result: Head)
    modifies client
    ensures result == ReadHead([], old(client.pending), client.end)
    ensures result.HeadRead? ==> client.pending == result.rest && result.offset + 4 <= |result.raw|
    ensures result.HeadRead? && Sized(old(client.pending)) ==>
              |result.raw| <= MAX_HEADER_BYTES + RECV_BYTES && Sized(result.rest)
  {
    var raw := [];
    HeadHasTerminator([], client.pending, client.end);
    while true
      invariant ReadHead(raw, client.pending, client.end) == ReadHead([], old(client.pending), client.end)
      invariant |raw| <= MAX_HEADER_BYTES
      invariant Sized(old(client.pending)) ==> Sized(client.pending)
      decreases |client.pending|
    {
      ghost var before := client.pending;
      var event := client.Recv();
      if event.Ended? {
        return NoHead(Failed(EndStatus(event.end), HeadEnded(event.end)));
      }
      if event.recv.Interrupted? {
        continue;
      }
      raw := raw + event.recv.bytes;
      var headerEnd := Find(raw);
      if headerEnd.None? && |raw| > MAX_HEADER_BYTES {
        return NoHead(Failed(431, HeadTooLarge));
      }
      if headerEnd.Some? && headerEnd.value > MAX_HEADER_BYTES {
        return NoHead(Failed(431, HeadTooLarge));
      }
      if headerEnd.Some? {
        return HeadRead(raw, headerEnd.value, client.pending);
      }
    }
  }

  /** Grows `raw` to the declared length; at most one recv is buffered beyond it. */
  method ReadBodyBytes(client: Connection, head: string, offset: nat, length: nat) returns (result: Outcome)
    requires offset + 4 <= |head|
    modifies client
    ensures result == ReadBody(head, offset, length, old(client.pending), client.end)
  {
    var raw := head;
    var expected := offset + 4 + length;
    while |raw| < expected
      invariant offset + 4 <= |raw|
      invariant ReadBody(raw, offset, length, client.pending, client.end)
             == ReadBody(head, offset, length, old(client.pending), client.end)
      decreases |client.pending|
    {
      var event := client.Recv();
      if event.Ended? {
        return Failed(EndStatus(event.end), BodyEnded(event.end));
      }
      if event.recv.Interrupted? {
        continue;
      }
      raw := raw + event.recv.bytes;
      if |raw| > expected + RECV_BYTES {
        return Failed(400, ExcessData);
      }
    }
    return Accepted(raw[..offset], raw[offset + 4..expected]);
  }

  /** The whole reader: an accepted request is the declared slice of the delivered stream,
      and the outcome is the stream's own framing at every safe offset. */
  method ReadRequest(client: Connection, examine: string -> Verdict) returns (result: Outcome)
    requires Sized(client.pending)
    modifies client
    ensures result == Receive(examine, old(client.pending), client.end)
    ensures SafeOffset(Stream(old(client.pending))) ==>
              result == Framing(examine, Stream(old(client.pending)), client.end)
    ensures result.Accepted? ==> result.head + "\r\n\r\n" + result.body <= Stream(old(client.pending))
    ensures result.Failed? ==> result.cause != ExcessData
  {
    ReceiveOutcome(examine, client.pending, client.end);
    AcceptedIsSlice(examine, client.pending, client.end);
    ExcessDataUnreachable(examine, client.pending, client.end);
    var found := ReadHeadBytes(client);
    if found.NoHead? {
      return found.failure;
    }
    var verdict := examine(found.raw[..found.offset]);
    if verdict.Rejected? {
      return Failed(verdict.status, HeaderRejected);
    }
    result := ReadBodyBytes(client, found.raw, found.offset, verdict.length);
  }
}
