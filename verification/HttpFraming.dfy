/** Byte framing of one HTTP request: a head found in a growing buffer, then a body
    of the declared length. Header validation is the parameter `examine`. */
module HttpFraming {
  import opened Text

  const MAX_HEADER_BYTES: nat := 65536
  const RECV_BYTES: nat := 8192

  /** One call to recv that did not end the reading. */
  datatype Recv = Data(bytes: string) | Interrupted

  /** What the first recv after all the data reports. */
  datatype End = Closed | TimedOut | Broken

  datatype Verdict = Rejected(status: nat) | Declares(length: nat)

  datatype Cause =
    | HeadTooLarge
    | HeadEnded(end: End)
    | HeaderRejected
    | BodyEnded(end: End)
    | ExcessData

  datatype Outcome = Failed(status: nat, cause: Cause) | Accepted(head: string, body: string)

  datatype Head = NoHead(failure: Outcome) | HeadRead(raw: string, offset: nat, rest: seq<Recv>)

  // ----- the terminator -----

  predicate TerminatorAt(s: string, i: int) {
    0 <= i && i + 4 <= |s| && s[i..i + 4] == "\r\n\r\n"
  }

  /** The offset `std::string::find` returns, searching from `i`. */
  function FindFrom(s: string, i: nat): (r: Option<nat>)
    requires i <= |s|
    ensures r.None? ==> forall j :: i <= j ==> !TerminatorAt(s, j)
    ensures r.Some? ==> i <= r.value && TerminatorAt(s, r.value)
    ensures r.Some? ==> forall j :: i <= j < r.value ==> !TerminatorAt(s, j)
    decreases |s| - i
  {
    if i + 4 > |s| then None
    else if TerminatorAt(s, i) then Some(i)
    else FindFrom(s, i + 1)
  }

  function Find(s: string): Option<nat> { FindFrom(s, 0) }

  /** A buffered prefix shows the stream's terminator exactly when it holds all four bytes. */
  lemma PrefixFinds(raw: string, more: string)
    ensures Find(raw + more).None? ==> Find(raw).None?
    ensures Find(raw + more).Some? ==>
              Find(raw) == if Find(raw + more).value + 4 <= |raw| then Find(raw + more) else None
  {
    var all := raw + more;
    forall j | 0 <= j && j + 4 <= |raw| ensures TerminatorAt(raw, j) == TerminatorAt(all, j) {
      assert raw[j..j + 4] == all[j..j + 4];
    }
    if Find(raw).Some? {
      assert TerminatorAt(all, Find(raw).value);
    }
    if Find(all).Some? && Find(all).value + 4 <= |raw| {
      assert TerminatorAt(raw, Find(all).value);
    }
  }

  // ----- the reader, delivery by delivery -----

  function EndStatus(end: End): nat { if end == TimedOut then 408 else 400 }

  function ReadHead(raw: string, d: seq<Recv>, end: End): Head
    decreases d
  {
    if d == [] then NoHead(Failed(EndStatus(end), HeadEnded(end)))
    else if d[0].Interrupted? then ReadHead(raw, d[1..], end)
    else
      var grown := raw + d[0].bytes;
      match Find(grown)
      case None =>
        if |grown| > MAX_HEADER_BYTES then NoHead(Failed(431, HeadTooLarge))
        else ReadHead(grown, d[1..], end)
      case Some(h) =>
        if h > MAX_HEADER_BYTES then NoHead(Failed(431, HeadTooLarge))
        else HeadRead(grown, h, d[1..])
  }

  function ReadBody(raw: string, offset: nat, length: nat, d: seq<Recv>, end: End): Outcome
    requires offset + 4 <= |raw|
    decreases d
  {
    var expected := offset + 4 + length;
    if |raw| >= expected then Accepted(raw[..offset], raw[offset + 4..expected])
    else if d == [] then Failed(EndStatus(end), BodyEnded(end))
    else if d[0].Interrupted? then ReadBody(raw, offset, length, d[1..], end)
    else
      var grown := raw + d[0].bytes;
      if |grown| > expected + RECV_BYTES then Failed(400, ExcessData)
      else ReadBody(grown, offset, length, d[1..], end)
  }

  lemma {:induction false} HeadHasTerminator(raw: string, d: seq<Recv>, end: End)
    ensures var r := ReadHead(raw, d, end);
            r.HeadRead? ==> Find(r.raw) == Some(r.offset) && r.offset + 4 <= |r.raw|
    decreases d
  {
    if d != [] {
      HeadHasTerminator(raw, d[1..], end);
      if d[0].Data? { HeadHasTerminator(raw + d[0].bytes, d[1..], end); }
    }
  }

  function Receive(examine: string -> Verdict, d: seq<Recv>, end: End): Outcome {
    match ReadHead([], d, end)
    case NoHead(failure) => failure
    case HeadRead(raw, offset, rest) =>
      match examine(raw[..HeadSize([], d, end)])
      case Rejected(status) => Failed(status, HeaderRejected)
      case Declares(length) => ReadBody(raw, HeadSize([], d, end), length, rest, end)
  }

  /** The offset of the head that `ReadHead` found, known to leave room for the terminator. */
  function HeadSize(raw: string, d: seq<Recv>, end: End): (h: nat)
    requires ReadHead(raw, d, end).HeadRead?
    ensures h == ReadHead(raw, d, end).offset && h + 4 <= |ReadHead(raw, d, end).raw|
  {
    HeadHasTerminator(raw, d, end);
    ReadHead(raw, d, end).offset
  }

  // ----- the same request, without deliveries -----

  function Framing(examine: string -> Verdict, stream: string, end: End): Outcome {
    match Find(stream)
    case None =>
      if |stream| > MAX_HEADER_BYTES then Failed(431, HeadTooLarge)
      else Failed(EndStatus(end), HeadEnded(end))
    case Some(h) =>
      if h > MAX_HEADER_BYTES then Failed(431, HeadTooLarge)
      else
        match examine(stream[..h])
        case Rejected(status) => Failed(status, HeaderRejected)
        case Declares(length) => BodyFraming(stream, h, length, end)
  }

  function BodyFraming(stream: string, h: nat, length: nat, end: End): Outcome
    requires h + 4 <= |stream|
  {
    if |stream| < h + 4 + length then Failed(EndStatus(end), BodyEnded(end))
    else Accepted(stream[..h], stream[h + 4..h + 4 + length])
  }

  function Stream(d: seq<Recv>): string {
    if d == [] then [] else (if d[0].Data? then d[0].bytes else []) + Stream(d[1..])
  }

  predicate Sized(d: seq<Recv>) {
    forall i :: 0 <= i < |d| ==> d[i].Interrupted? || 1 <= |d[i].bytes| <= RECV_BYTES
  }

  predicate Delivers(d: seq<Recv>, stream: string) { Sized(d) && Stream(d) == stream }

  /** The offsets at which delivery cannot matter. */
  predicate SafeOffset(stream: string) {
    Find(stream).None? || Find(stream).value <= MAX_HEADER_BYTES - 3 || Find(stream).value > MAX_HEADER_BYTES
  }

  // ----- delivery independence -----

  lemma {:induction false} BodyIgnoresDelivery(raw: string, h: nat, length: nat, d: seq<Recv>, end: End)
    requires Sized(d) && h + 4 <= |raw|
    ensures ReadBody(raw, h, length, d, end) == BodyFraming(raw + Stream(d), h, length, end)
    decreases d
  {
    var all := raw + Stream(d);
    var expected := h + 4 + length;
    if |raw| >= expected {
      assert all[..h] == raw[..h];
      assert all[h + 4..expected] == raw[h + 4..expected];
    } else if d == [] {
      assert all == raw;
    } else if d[0].Interrupted? {
      assert Stream(d) == Stream(d[1..]);
      BodyIgnoresDelivery(raw, h, length, d[1..], end);
    } else {
      var grown := raw + d[0].bytes;
      assert grown + Stream(d[1..]) == all;
      BodyIgnoresDelivery(grown, h, length, d[1..], end);
    }
  }

  /** What the head loop may report for the stream `all`. */
  predicate HeadAgrees(r: Head, all: string, end: End) {
    match Find(all)
    case None =>
      r == NoHead(if |all| > MAX_HEADER_BYTES then Failed(431, HeadTooLarge) else Failed(EndStatus(end), HeadEnded(end)))
    case Some(h) =>
      if h > MAX_HEADER_BYTES then r == NoHead(Failed(431, HeadTooLarge))
      else r.HeadRead? && r.offset == h && h + 4 <= |r.raw| && Sized(r.rest) && r.raw + Stream(r.rest) == all
  }

  /** Either the head loop agrees with the stream, or a long head was cut short. */
  lemma {:induction false} HeadOutcome(raw: string, d: seq<Recv>, end: End)
    requires Sized(d) && Find(raw).None? && |raw| <= MAX_HEADER_BYTES
    ensures var all := raw + Stream(d);
            var r := ReadHead(raw, d, end);
            || HeadAgrees(r, all, end)
            || (!SafeOffset(all) && r == NoHead(Failed(431, HeadTooLarge)))
    decreases d
  {
    var all := raw + Stream(d);
    PrefixFinds(raw, Stream(d));
    if d == [] {
      assert all == raw;
    } else if d[0].Interrupted? {
      assert Stream(d) == Stream(d[1..]);
      HeadOutcome(raw, d[1..], end);
    } else {
      var grown := raw + d[0].bytes;
      assert grown + Stream(d[1..]) == all;
      PrefixFinds(grown, Stream(d[1..]));
      if Find(grown).None? && |grown| <= MAX_HEADER_BYTES {
        HeadOutcome(grown, d[1..], end);
      }
    }
  }

  lemma ReceiveOutcome(examine: string -> Verdict, d: seq<Recv>, end: End)
    requires Sized(d)
    ensures var r := Receive(examine, d, end);
            || r == Framing(examine, Stream(d), end)
            || (!SafeOffset(Stream(d)) && r == Failed(431, HeadTooLarge))
  {
    var all := Stream(d);
    assert [] + all == all;
    HeadOutcome([], d, end);
    var r := ReadHead([], d, end);
    if r.HeadRead? {
      assert all[..r.offset] == r.raw[..r.offset];
      match examine(all[..r.offset]) {
        case Rejected(_) =>
        case Declares(length) => BodyIgnoresDelivery(r.raw, r.offset, length, r.rest, end);
      }
    }
  }

  // ----- two deliveries that differ on every other offset -----

  function Blocks(s: string, size: nat): seq<Recv>
    requires size > 0
    decreases |s|
  {
    if s == [] then []
    else if |s| <= size then [Data(s)]
    else [Data(s[..size])] + Blocks(s[size..], size)
  }

  lemma {:induction false} BlocksDeliver(s: string, size: nat)
    requires 0 < size <= RECV_BYTES
    ensures Delivers(Blocks(s, size), s)
    decreases |s|
  {
    if |s| > size {
      var tail := Blocks(s[size..], size);
      BlocksDeliver(s[size..], size);
      assert Blocks(s, size)[1..] == tail;
    } else if s != [] {
      assert Stream([Data(s)]) == s + Stream([]);
    }
  }

  /** One byte at a time, a head that ends after offset MAX_HEADER_BYTES + 1 is cut short. */
  lemma {:induction false} BytesCutShort(raw: string, rest: string, end: End)
    requires Find(raw + rest).Some? && Find(raw + rest).value + 4 > MAX_HEADER_BYTES + 1
    requires |raw| <= MAX_HEADER_BYTES
    ensures ReadHead(raw, Blocks(rest, 1), end) == NoHead(Failed(431, HeadTooLarge))
    decreases |rest|
  {
    var d := Blocks(rest, 1);
    var grown := raw + rest[..1];
    assert d[0] == Data(rest[..1]) && d[1..] == Blocks(rest[1..], 1);
    assert grown + rest[1..] == raw + rest;
    PrefixFinds(grown, rest[1..]);
    if |grown| <= MAX_HEADER_BYTES { BytesCutShort(grown, rest[1..], end); }
  }

  /** In full blocks the buffer steps over the bytes at which it would be cut short. */
  lemma {:induction false} BlocksFindHead(raw: string, rest: string, end: End)
    requires Find(raw + rest).Some?
    requires MAX_HEADER_BYTES - 3 < Find(raw + rest).value <= MAX_HEADER_BYTES
    requires |raw| <= MAX_HEADER_BYTES && |raw| % RECV_BYTES == 0
    ensures ReadHead(raw, Blocks(rest, RECV_BYTES), end).HeadRead?
    decreases |rest|
  {
    var n := if |rest| <= RECV_BYTES then |rest| else RECV_BYTES;
    var d := Blocks(rest, RECV_BYTES);
    var grown := raw + rest[..n];
    assert d[0] == Data(rest[..n]) && d[1..] == Blocks(rest[n..], RECV_BYTES) by {
      if n == |rest| { assert rest[..n] == rest; }
    }
    assert grown + rest[n..] == raw + rest;
    PrefixFinds(grown, rest[n..]);
    if Find(grown).None? { BlocksFindHead(grown, rest[n..], end); }
  }

  lemma UnsafeDiffers(examine: string -> Verdict, stream: string, end: End)
    requires !SafeOffset(stream)
    ensures Delivers(Blocks(stream, 1), stream)
    ensures Delivers(Blocks(stream, RECV_BYTES), stream)
    ensures Receive(examine, Blocks(stream, 1), end) == Failed(431, HeadTooLarge)
    ensures Receive(examine, Blocks(stream, RECV_BYTES), end) == Framing(examine, stream, end)
    ensures Framing(examine, stream, end) != Failed(431, HeadTooLarge)
  {
    assert [] + stream == stream;
    BlocksDeliver(stream, 1);
    BlocksDeliver(stream, RECV_BYTES);
    BytesCutShort([], stream, end);
    BlocksFindHead([], stream, end);
    ReceiveOutcome(examine, Blocks(stream, RECV_BYTES), end);
    BodyNeverTooLarge(examine, Blocks(stream, RECV_BYTES), end);
  }

  lemma BodyNeverTooLarge(examine: string -> Verdict, d: seq<Recv>, end: End)
    requires Sized(d) && ReadHead([], d, end).HeadRead?
    ensures Receive(examine, d, end).Failed? ==>
              Receive(examine, d, end).cause in {HeaderRejected, BodyEnded(end)}
  {
    var r := ReadHead([], d, end);
    HeadOutcome([], d, end);
    match examine(r.raw[..r.offset]) {
      case Rejected(_) =>
      case Declares(length) => BodyIgnoresDelivery(r.raw, r.offset, length, r.rest, end);
    }
  }

  /** The outcome does not depend on how the bytes arrive, exactly at the safe offsets. */
  lemma DeliveryIndependence(examine: string -> Verdict, stream: string, end: End)
    ensures SafeOffset(stream) <==>
            forall d :: Delivers(d, stream) ==> Receive(examine, d, end) == Framing(examine, stream, end)
  {
    if SafeOffset(stream) {
      forall d | Delivers(d, stream) ensures Receive(examine, d, end) == Framing(examine, stream, end) {
        ReceiveOutcome(examine, d, end);
      }
    } else {
      UnsafeDiffers(examine, stream, end);
      assert Delivers(Blocks(stream, 1), stream);
    }
  }

  /** Whatever the delivery, an accepted request is the declared slice of the stream. */
  lemma AcceptedIsSlice(examine: string -> Verdict, d: seq<Recv>, end: End)
    requires Sized(d)
    ensures var r := Receive(examine, d, end);
            r.Accepted? ==>
              && Find(Stream(d)) == Some(|r.head|)
              && |r.head| <= MAX_HEADER_BYTES
              && examine(r.head) == Declares(|r.body|)
              && r.head + "\r\n\r\n" + r.body <= Stream(d)
  {
    hide Receive, SafeOffset, Find;
    ReceiveOutcome(examine, d, end);
    var all := Stream(d);
    var r := Receive(examine, d, end);
    if r.Accepted? {
      SliceAt(all, |r.head|, |r.body|);
    }
  }

  lemma SliceAt(all: string, h: nat, n: nat)
    requires h + 4 + n <= |all|
    ensures Find(all) == Some(h) ==> all[..h] + "\r\n\r\n" + all[h + 4..h + 4 + n] <= all
  {
    if Find(all) == Some(h) {
      assert TerminatorAt(all, h);
      var whole := all[..h] + all[h..h + 4] + all[h + 4..h + 4 + n];
      assert whole == all[..|whole|];
    }
  }

  lemma ExcessDataUnreachable(examine: string -> Verdict, d: seq<Recv>, end: End)
    requires Sized(d)
    ensures Receive(examine, d, end).Failed? ==> Receive(examine, d, end).cause != ExcessData
  {
    hide Receive, SafeOffset, Find;
    ReceiveOutcome(examine, d, end);
  }

  /** Why a request can fail and with which status: the head is too long (431), the peer
      stopped before the end of the head or of the declared body (408 on a timeout, 400 on a
      close or an error), or the header was rejected with a status of its own. */
  lemma FailureIs(examine: string -> Verdict, d: seq<Recv>, end: End)
    requires Sized(d)
    ensures var r, all := Receive(examine, d, end), Stream(d);
            r.Failed? ==>
              match r.cause
              case HeadTooLarge =>
                r.status == 431 && |all| > MAX_HEADER_BYTES && (Find(all).None? || Find(all).value > MAX_HEADER_BYTES - 3)
              case HeadEnded(e) =>
                && e == end && Find(all).None? && |all| <= MAX_HEADER_BYTES
                && r.status == (match end case TimedOut => 408 case Closed => 400 case Broken => 400)
              case HeaderRejected => Find(all).Some? && examine(all[..Find(all).value]) == Rejected(r.status)
              case BodyEnded(e) =>
                && e == end && Find(all).Some? && examine(all[..Find(all).value]).Declares?
                && |all| < Find(all).value + 4 + examine(all[..Find(all).value]).length
                && r.status == (match end case TimedOut => 408 case Closed => 400 case Broken => 400)
              case ExcessData => false
  {
    FoundFits(Stream(d));
    hide Receive, Find;
    ReceiveOutcome(examine, d, end);
  }

  lemma FoundFits(s: string)
    ensures Find(s).Some? ==> Find(s).value + 4 <= |s|
  {
  }
}
