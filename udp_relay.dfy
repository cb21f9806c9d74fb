/**
 * The UDP relay loop of `main` in doh-proxy.go. One 512-byte receive buffer
 * is reused for every datagram; each datagram's bytes are copied out of it
 * into an array owned by that datagram's handler, which forwards the query
 * and, when the forwarder answers, sends the answer to the datagram's sender.
 * Socket I/O is not modelled: what `ReadFromUDP` delivers is an input, and
 * what `WriteToUDP` would send is an output.
 */
module UdpRelay {
  import opened Wrappers
  import opened Base64Url
  import opened DohRequest

  /** The size of `buf`, the receive buffer. */
  const BufferSize: nat := 512

  /** A client endpoint, as Go's `*net.UDPAddr`. */
  datatype UdpAddr = UdpAddr(ip: seq<byte>, port: int)

  /** One outcome of `conn.ReadFromUDP(buf)`: a datagram and its sender, or a read error. */
  datatype ReadResult = Received(payload: seq<byte>, sender: UdpAddr) | ReadError

  /** A datagram written back with `conn.WriteToUDP`. */
  datatype Reply = Reply(payload: seq<byte>, dest: UdpAddr)

  /**
   * What of a datagram fits in the receive buffer: the whole datagram when it
   * has at most 512 bytes, and its first 512 bytes otherwise.
   */
  function Truncate(payload: seq<byte>): (q: seq<byte>)
    ensures |q| == if |payload| <= BufferSize then |payload| else BufferSize
    ensures q <= payload
  {
    if |payload| <= BufferSize then payload else payload[..BufferSize]
  }

  /**
   * The per-datagram goroutine: forward the query; on an error send nothing,
   * otherwise send the response body, unchanged, to the client the query came
   * from. (`query[:n]` there is the whole query, since it has n bytes.)
   */
  function HandleQuery(query: seq<byte>, client: UdpAddr, transport: Request -> Exchange): (reply: Option<Reply>)
    ensures reply.None? <==> transport(BuildRequest(query)).Failed?
    ensures reply.Some? ==> reply.value == Reply(transport(BuildRequest(query)).body, client)
  {
    match SendToDoH(query, transport)
    case DohError => None
    case DohAnswer(answer) => Some(Reply(answer, client))
  }

  /** What handling one read sends: nothing, or the one reply of its handler. */
  function ReplyTo(r: ReadResult, transport: Request -> Exchange): seq<Reply> {
    match r
    case ReadError => []
    case Received(payload, sender) =>
      match HandleQuery(Truncate(payload), sender, transport)
      case None => []
      case Some(reply) => [reply]
  }

  /**
   * The replies the relay sends for a sequence of reads, handled one after
   * the other in the order they were read.
   */
  function Replies(inbound: seq<ReadResult>, transport: Request -> Exchange): seq<Reply>
    decreases |inbound|
  {
    if inbound == [] then []
    else Replies(inbound[..|inbound| - 1], transport) + ReplyTo(inbound[|inbound| - 1], transport)
  }

  lemma RepliesSnoc(inbound: seq<ReadResult>, r: ReadResult, transport: Request -> Exchange)
    ensures Replies(inbound + [r], transport) == Replies(inbound, transport) + ReplyTo(r, transport)
  {
    assert (inbound + [r])[..|inbound|] == inbound;
  }

  /** Handling the reads one further along the run adds that read's replies at the end. */
  lemma RepliesPrefix(inbound: seq<ReadResult>, i: nat, transport: Request -> Exchange)
    requires i < |inbound|
    ensures Replies(inbound[..i + 1], transport) == Replies(inbound[..i], transport) + ReplyTo(inbound[i], transport)
  {
    assert inbound[..i + 1] == inbound[..i] + [inbound[i]];
    RepliesSnoc(inbound[..i], inbound[i], transport);
  }

  /** Whether the exchange for a read datagram succeeds. */
  predicate ExchangeSucceeds(r: ReadResult, transport: Request -> Exchange) {
    r.Received? && transport(BuildRequest(Truncate(r.payload))).Answered?
  }

  /** The reply carries the answer to the datagram's own query and goes to its sender. */
  predicate AnswersDatagram(reply: Reply, r: ReadResult, transport: Request -> Exchange) {
    && ExchangeSucceeds(r, transport)
    && reply == Reply(transport(BuildRequest(Truncate(r.payload))).body, r.sender)
  }

  /** The number of read datagrams whose exchange succeeds. */
  function AnsweredCount(inbound: seq<ReadResult>, transport: Request -> Exchange): nat
    decreases |inbound|
  {
    if inbound == [] then 0
    else AnsweredCount(inbound[..|inbound| - 1], transport) + (if ExchangeSucceeds(inbound[|inbound| - 1], transport) then 1 else 0)
  }

  /** Handling one read sends one reply, answering it, when its exchange succeeds, and none otherwise. */
  lemma ReplyToAnswers(r: ReadResult, transport: Request -> Exchange)
    ensures |ReplyTo(r, transport)| == if ExchangeSucceeds(r, transport) then 1 else 0
    ensures |ReplyTo(r, transport)| == 1 ==> AnswersDatagram(ReplyTo(r, transport)[0], r, transport)
  {
  }

  /**
   * Exactly one reply per datagram whose exchange succeeds: none for a read
   * error and none for a failed exchange.
   */
  lemma {:induction false} RepliesCount(inbound: seq<ReadResult>, transport: Request -> Exchange)
    ensures |Replies(inbound, transport)| == AnsweredCount(inbound, transport)
    decreases |inbound|
  {
    if inbound != [] {
      RepliesCount(inbound[..|inbound| - 1], transport);
      ReplyToAnswers(inbound[|inbound| - 1], transport);
    }
  }

  /**
   * Every reply is the unchanged body answering the query of one read
   * datagram, addressed to that datagram's sender: no reply goes to anyone
   * else, and none carries the answer to another datagram's query.
   */
  lemma {:induction false} RepliesAnswerTheirSender(inbound: seq<ReadResult>, transport: Request -> Exchange)
    ensures forall k :: 0 <= k < |Replies(inbound, transport)| ==>
      exists j :: 0 <= j < |inbound| && AnswersDatagram(Replies(inbound, transport)[k], inbound[j], transport)
    decreases |inbound|
  {
    if inbound != [] {
      var init, last := inbound[..|inbound| - 1], inbound[|inbound| - 1];
      RepliesAnswerTheirSender(init, transport);
      ReplyToAnswers(last, transport);
      var earlier, sent := Replies(init, transport), Replies(inbound, transport);
      forall k | 0 <= k < |sent|
        ensures exists j :: 0 <= j < |inbound| && AnswersDatagram(sent[k], inbound[j], transport)
      {
        if k < |earlier| {
          assert sent[k] == earlier[k];
          assert exists j :: 0 <= j < |init| && AnswersDatagram(earlier[k], init[j], transport);
          var j :| 0 <= j < |init| && AnswersDatagram(earlier[k], init[j], transport);
          assert sent[k] == earlier[k] && inbound[j] == init[j];
        } else {
          assert sent[k] == ReplyTo(last, transport)[0];
          assert AnswersDatagram(sent[k], inbound[|inbound| - 1], transport);
        }
      }
      assert sent == Replies(inbound, transport);
    } else {
      assert Replies(inbound, transport) == [];
    }
  }

  /**
   * Every read datagram whose exchange succeeds gets its own reply: the one
   * after the replies to the answered reads before it. So replies and answered
   * reads match one to one, in the order read.
   */
  lemma {:induction false} AnsweredReadsGetTheirReply(inbound: seq<ReadResult>, transport: Request -> Exchange, j: nat)
    requires j < |inbound| && ExchangeSucceeds(inbound[j], transport)
    ensures AnsweredCount(inbound[..j], transport) < |Replies(inbound, transport)|
    ensures AnswersDatagram(Replies(inbound, transport)[AnsweredCount(inbound[..j], transport)], inbound[j], transport)
    decreases |inbound|
  {
    var init, last := inbound[..|inbound| - 1], inbound[|inbound| - 1];
    RepliesCount(init, transport);
    ReplyToAnswers(last, transport);
    if j < |inbound| - 1 {
      assert init[j] == inbound[j];
      assert init[..j] == inbound[..j];
      AnsweredReadsGetTheirReply(init, transport, j);
    } else {
      assert inbound[..j] == init;
    }
  }

  /** A read error does nothing: the loop goes on to the next read. */
  lemma ReadErrorIgnored(inbound: seq<ReadResult>, transport: Request -> Exchange)
    ensures Replies(inbound + [ReadError], transport) == Replies(inbound, transport)
  {
    RepliesSnoc(inbound, ReadError, transport);
  }

  /** The relay's state: the receive buffer `buf` that every read overwrites. */
  class Relay {
    const buf: array<byte>

    constructor ()
      ensures fresh(buf) && buf.Length == BufferSize
    {
      buf := new byte[BufferSize];
    }

    /**
     * `conn.ReadFromUDP(buf)` delivering a datagram: its first bytes, as many
     * as fit, are written to the front of `buf`, the rest of `buf` keeps what
     * an earlier read left there, and n is the number of bytes written.
     */
    method Receive(payload: seq<byte>) returns (n: nat)
      requires buf.Length == BufferSize
      modifies buf
      ensures n <= BufferSize && n == |Truncate(payload)|
      ensures buf[..n] == Truncate(payload)
      ensures buf[n..] == old(buf[n..])
    {
      n := if |payload| <= buf.Length then |payload| else buf.Length;
      var i := 0;
      while i < n
        invariant 0 <= i <= n
        invariant buf[..i] == payload[..i]
        invariant buf[i..] == old(buf[i..])
      {
        buf[i] := payload[i];
        i := i + 1;
      }
    }

    /**
     * `append([]byte(nil), buf[:n]...)`: a new array holding exactly the n
     * received bytes, which no later read into `buf` can change.
     */
    method Capture(n: nat) returns (query: array<byte>)
      requires n <= buf.Length
      ensures fresh(query)
      ensures query[..] == buf[..n]
    {
      query := new byte[n];
      var i := 0;
      while i < n
        invariant 0 <= i <= n
        invariant query[..i] == buf[..i]
      {
        query[i] := buf[i];
        i := i + 1;
      }
    }

    /**
     * Two inbound in a row: the second overwrites `buf`, yet the query
     * captured from the first keeps the first datagram's bytes.
     */
    method ReceiveTwo(first: seq<byte>, second: seq<byte>) returns (q1: array<byte>, q2: array<byte>)
      requires buf.Length == BufferSize
      modifies buf
      ensures fresh(q1) && fresh(q2) && q1 != q2
      ensures q1[..] == Truncate(first) && q2[..] == Truncate(second)
      ensures buf[..|Truncate(second)|] == Truncate(second)
    {
      var n1 := Receive(first);
      q1 := Capture(n1);
      var n2 := Receive(second);
      q2 := Capture(n2);
    }

    /**
     * One pass of the receive loop: a read error is skipped; a datagram is
     * read into `buf`, copied out, and its copy handed to its handler.
     */
    method HandleRead(r: ReadResult, transport: Request -> Exchange) returns (step: seq<Reply>)
      requires buf.Length == BufferSize
      modifies buf
      ensures step == ReplyTo(r, transport)
      ensures r.Received? ==> buf[..|Truncate(r.payload)|] == Truncate(r.payload)
      ensures r.Received? ==> buf[|Truncate(r.payload)|..] == old(buf[|Truncate(r.payload)|..])
      ensures r.ReadError? ==> buf[..] == old(buf[..])
    {
      step := [];
      match r {
        case ReadError =>
        case Received(payload, sender) =>
          var n := Receive(payload);
          var query := Capture(n);
          assert query[..] == Truncate(payload);
          var reply := HandleQuery(query[..], sender, transport);
          if reply.Some? {
            step := [reply.value];
          }
      }
    }

    /**
     * The receive loop over a finite run of reads: each read is handled in
     * turn, a read error is skipped, and each datagram's copy is forwarded.
     */
    method Serve(inbound: seq<ReadResult>, transport: Request -> Exchange) returns (sent: seq<Reply>)
      requires buf.Length == BufferSize
      modifies buf
      ensures sent == Replies(inbound, transport)
    {
      sent := [];
      var i := 0;
      assert inbound[..0] == [];
      while i < |inbound|
        invariant 0 <= i <= |inbound|
        invariant sent == Replies(inbound[..i], transport)
      {
        var step := HandleRead(inbound[i], transport);
        RepliesPrefix(inbound, i, transport);
        sent := sent + step;
        i := i + 1;
      }
      assert inbound[..i] == inbound;
    }
  }
}
