/** server/common/server.py: turning a decoded batch into bets, the
    per-connection loop, and the run/stop flags. */
module Server {
  import opened Results
  import opened Bytes
  import opened Text
  import opened Sockets
  import opened Protocol
  import opened Messages
  import opened BatchLaws

  /** A bet as the server stores it: the agency of its batch plus the five
      fields of its comma-separated string. */
  datatype Bet = Bet(agency: string, firstName: string, lastName: string, document: string, birthdate: string, number: string)

  // ------------------------------------------------------------- parse_msg

  /** One entry of msg["data"]: split at the commas, the first five pieces
      become the fields; fewer than five raise IndexError. */
  function MakeBet(agency: string, bet: string): (r: Result<Bet>)
    ensures r.Ok? <==> |Split(bet, Comma)| >= FieldsPerBet
    ensures r.Ok? ==> r.value.agency == agency
  {
    var fields := Split(bet, Comma);
    if |fields| < FieldsPerBet then Err(IndexOutOfRange)
    else Ok(Bet(agency, fields[0], fields[1], fields[2], fields[3], fields[4]))
  }

  /** The loop of parse_msg: one bet per entry, in order; the first entry
      with too few fields makes the whole call fail. */
  function MakeBets(agency: string, data: seq<string>): (r: Result<seq<Bet>>)
    ensures r.Ok? <==> forall i | 0 <= i < |data| :: |Split(data[i], Comma)| >= FieldsPerBet
    ensures r.Ok? ==> |r.value| == |data| && forall i | 0 <= i < |data| :: MakeBet(agency, data[i]) == Ok(r.value[i])
  {
    if data == [] then Ok([])
    else
      var first :- MakeBet(agency, data[0]);
      var rest :- MakeBets(agency, data[1..]);
      assert forall i | 1 <= i < |data| :: data[i] == data[1..][i - 1];
      Ok([first] + rest)
  }

  /** parse_msg: the bets of the batch, each carrying the batch's agency
      whatever its own text says, and the batch's last_batch flag unchanged. */
  function ParseMsg(msg: Batch): (r: Result<(seq<Bet>, bool)>)
    ensures r.Ok? <==> forall i | 0 <= i < |msg.data| :: |Split(msg.data[i], Comma)| >= FieldsPerBet
    ensures r.Ok? ==> r.value.1 == msg.lastBatch && |r.value.0| == |msg.data|
    ensures r.Ok? ==> forall i | 0 <= i < |msg.data| ::
      var fields := Split(msg.data[i], Comma);
      r.value.0[i] == Bet(msg.agency, fields[0], fields[1], fields[2], fields[3], fields[4])
  {
    var bets :- MakeBets(msg.agency, msg.data);
    Ok((bets, msg.lastBatch))
  }

  /** A bet made of five comma-free fields yields exactly those fields, in order. */
  lemma FiveFieldsKept(agency: string, fields: seq<string>)
    requires |fields| == FieldsPerBet
    requires forall i | 0 <= i < |fields| :: Comma !in fields[i]
    ensures MakeBet(agency, Join(fields, Comma)) == Ok(Bet(agency, fields[0], fields[1], fields[2], fields[3], fields[4]))
  {
    SplitJoin(fields, Comma);
  }

  /** Anything after a fifth comma is ignored. */
  lemma ExtraFieldsIgnored(agency: string, bet: string, extra: string)
    requires |Split(bet, Comma)| >= FieldsPerBet
    ensures MakeBet(agency, bet + [Comma] + extra) == MakeBet(agency, bet)
  {
    SplitAppend(bet, extra, Comma);
  }

  /** Splitting text with a separator in the middle splits each side. */
  lemma {:induction false} SplitAppend(a: string, b: string, sep: char)
    ensures Split(a + [sep] + b, sep) == Split(a, sep) + Split(b, sep)
  {
    var whole := a + [sep] + b;
    if a == [] {
      assert whole == [sep] + b && whole[1..] == b;
    } else {
      assert whole[0] == a[0] && whole[1..] == a[1..] + [sep] + b;
      SplitAppend(a[1..], b, sep);
      var t, u := Split(a[1..], sep), Split(b, sep);
      if a[0] == sep {
        Associate([""], t, u);
      } else {
        HeadTail(t, u);
        Associate([[a[0]] + t[0]], t[1..], u);
      }
    }
  }

  lemma HeadTail<T>(t: seq<T>, u: seq<T>)
    requires t != []
    ensures (t + u)[0] == t[0] && (t + u)[1..] == t[1..] + u
  {
  }

  // ------------------------------------------------- one client connection

  /** What the server does that outlives a connection, in order: a batch's
      bets handed to store_bets, an ack sent with the given status. */
  datatype Event = Stored(bets: seq<Bet>) | Acked(status: bool)

  /** How __handle_client_connection leaves the loop: after a final batch,
      with `rest` still unread, or on the first exception. */
  datatype SessionEnd = Finished(rest: seq<byte>) | Failed(error: Error)

  /** The batches stored (and acknowledged) in one connection, and its end. */
  datatype Session = Session(stored: seq<seq<Bet>>, end: SessionEnd)

  /** The loop of __handle_client_connection over the bytes the client
      sends: receive a batch, parse it, store it, acknowledge it; stop after
      the first final batch or at the first failure, which is not acknowledged. */
  function Serve(input: seq<byte>): (s: Session)
    decreases |input|
    ensures s.end.Finished? ==> |s.end.rest| < |input| && s.stored != []
  {
    match ParseBatch(input)
    case Err(e) => Session([], Failed(e))
    case Ok((batch, rest)) =>
      match ParseMsg(batch)
      case Err(e) => Session([], Failed(e))
      case Ok((bets, last)) =>
        if last then Session([bets], Finished(rest))
        else
          var tail := Serve(rest);
          Session([bets] + tail.stored, tail.end)
  }

  /** The events for a sequence of stored batches: each batch is stored,
      then acknowledged with true exactly once, before the next is read. */
  function Exchange(stored: seq<seq<Bet>>): (r: seq<Event>)
    ensures |r| == 2 * |stored|
    ensures forall e | e in r :: e.Acked? ==> e.status
  {
    if stored == [] then []
    else Exchange(stored[..|stored| - 1]) + [Stored(stored[|stored| - 1]), Acked(true)]
  }

  /** Event 2i stores batch i and event 2i+1 acknowledges it, and nothing else happens. */
  lemma {:induction false} ExchangeOrder(stored: seq<seq<Bet>>)
    ensures forall i | 0 <= i < |stored| :: Exchange(stored)[2 * i] == Stored(stored[i]) && Exchange(stored)[2 * i + 1] == Acked(true)
  {
    if stored != [] {
      var n := |stored| - 1;
      ExchangeOrder(stored[..n]);
      forall i | 0 <= i < n
        ensures Exchange(stored)[2 * i] == Stored(stored[i]) && Exchange(stored)[2 * i + 1] == Acked(true)
      {
        assert stored[..n][i] == stored[i];
      }
    }
  }

  /** The packets of `count` success acks. */
  function AckPackets(cfg: Config, count: nat): (r: seq<seq<byte>>)
    ensures |r| == count
    ensures forall i | 0 <= i < count :: r[i] == AckFrame(cfg, true).value && |r[i]| == cfg.cantBytesAck
  {
    seq(count, _ => AckFrame(cfg, true).value)
  }

  /** What the client's recv_ack calls read back from the acks the server
      sent: `count` reads yield true each time and leave what follows. */
  lemma {:induction false} AcksReadBack(cfg: Config, count: nat, rest: seq<byte>)
    ensures var r := ParseMany(AckReader(cfg), Flatten(AckPackets(cfg, count)) + rest, count);
      r.Ok? && r.value.1 == rest && forall i | 0 <= i < |r.value.0| :: r.value.0[i]
  {
    var p := AckReader(cfg);
    if count == 0 {
      assert Flatten(AckPackets(cfg, 0)) + rest == rest;
    } else {
      var frame := AckFrame(cfg, true).value;
      var before := AckPackets(cfg, count - 1);
      AckPacketsSnoc(cfg, count - 1);
      FlattenAppend(before, [frame]);
      assert Flatten([frame]) == frame;
      AcksReadBack(cfg, count - 1, frame + rest);
      Associate(Flatten(before), frame, rest);
      var prev := ParseMany(p, Flatten(before) + (frame + rest), count - 1).value;
      AckRoundTrip(cfg, true, rest);
      assert p(frame + rest) == Ok((true, rest));
      ParseManyStep(p, Flatten(before) + frame + rest, count - 1, prev.0, frame + rest, true, rest);
    }
  }

  /** One turn of the loop: a batch parsed and stored from `input` leaves
      the rest of the session to the bytes after it. */
  lemma ServeStep(input: seq<byte>, batch: Batch, rest: seq<byte>, bets: seq<Bet>, last: bool)
    requires ParseBatch(input) == Ok((batch, rest)) && ParseMsg(batch) == Ok((bets, last))
    ensures last ==> Serve(input) == Session([bets], Finished(rest))
    ensures !last ==> Serve(input) == Session([bets] + Serve(rest).stored, Serve(rest).end)
  {
  }

  /** Storing one more batch adds its store and ack events. */
  lemma ExchangeSnoc(done: seq<seq<Bet>>, bets: seq<Bet>)
    ensures Exchange(done + [bets]) == Exchange(done) + [Stored(bets), Acked(true)]
  {
    assert (done + [bets])[..|done|] == done;
  }

  /** ... and one more ack packet. */
  lemma AckPacketsSnoc(cfg: Config, n: nat)
    ensures AckPackets(cfg, n + 1) == AckPackets(cfg, n) + [AckFrame(cfg, true).value]
  {
  }

  /** A session that has stored `done` and goes on as `head`, where `head`
      stores `bets` and then goes on as `tail`, has stored done + [bets] and
      goes on as `tail`. */
  lemma Advance(session: Session, done: seq<seq<Bet>>, head: Session, tail: Session, bets: seq<Bet>)
    requires session == Session(done + head.stored, head.end)
    requires head == Session([bets] + tail.stored, tail.end)
    ensures session == Session((done + [bets]) + tail.stored, tail.end)
  {
    Associate(done, [bets], tail.stored);
  }

  /** A session that goes on as `head`, which stores `bets` and finishes, is over. */
  lemma Finish(session: Session, done: seq<seq<Bet>>, head: Session, bets: seq<Bet>, rest: seq<byte>)
    requires session == Session(done + head.stored, head.end)
    requires head == Session([bets], Finished(rest))
    ensures session == Session(done + [bets], Finished(rest))
  {
  }

  /** A session that goes on as `head`, which stores nothing more, is over. */
  lemma Settle(session: Session, done: seq<seq<Bet>>, head: Session)
    requires session == Session(done + head.stored, head.end) && head.stored == []
    ensures session == Session(done, head.end)
  {
    assert done + [] == done;
  }

  /** The bookkeeping of one completed turn of the connection loop: the
      batch joins those stored, its events and its ack join the logs, and
      the session goes on from the bytes left (or is over, after a final batch). */
  lemma Step(cfg: Config, session: Session, done: seq<seq<Bet>>, pending: seq<byte>, next: seq<byte>, last: bool, bets: seq<Bet>,
             trace: seq<Event>, trace0: seq<Event>, trace1: seq<Event>, sent: seq<seq<byte>>, sent0: seq<seq<byte>>, sent1: seq<seq<byte>>)
    requires trace0 == trace + Exchange(done) && sent0 == sent + AckPackets(cfg, |done|)
    requires trace1 == trace0 + [Stored(bets), Acked(true)] && sent1 == sent0 + [AckFrame(cfg, true).value]
    requires session == Session(done + Serve(pending).stored, Serve(pending).end)
    requires last ==> Serve(pending) == Session([bets], Finished(next))
    requires !last ==> Serve(pending) == Session([bets] + Serve(next).stored, Serve(next).end)
    ensures trace1 == trace + Exchange(done + [bets]) && sent1 == sent + AckPackets(cfg, |done + [bets]|)
    ensures !last ==> session == Session((done + [bets]) + Serve(next).stored, Serve(next).end)
    ensures last ==> session == Session(done + [bets], Finished(next))
  {
    if last {
      Finish(session, done, Serve(pending), bets, next);
    } else {
      Advance(session, done, Serve(pending), Serve(next), bets);
    }
    ExchangeSnoc(done, bets);
    AckPacketsSnoc(cfg, |done|);
    Associate(trace, Exchange(done), [Stored(bets), Acked(true)]);
    Associate(sent, AckPackets(cfg, |done|), [AckFrame(cfg, true).value]);
  }

  /** A batch the client side can send and the server can take apart. */
  predicate WellFormedBatch(b: Batch) {
    StrFits(b.agency) && |b.data| < Pow256(LenNumber) && forall i | 0 <= i < |b.data| :: WellFormedBet(b.data[i])
  }

  /** The frames of consecutive batches, back to back. */
  function Frames(batches: seq<Batch>): (r: seq<byte>)
    requires forall i | 0 <= i < |batches| :: WellFormedBatch(batches[i])
  {
    if batches == [] then []
    else
      FrameOk(batches[0]);
      BatchFrame(batches[0].agency, batches[0].data, batches[0].lastBatch).value + Frames(batches[1..])
  }

  /** A well-formed batch can be encoded. */
  lemma FrameOk(b: Batch)
    requires WellFormedBatch(b)
    ensures BatchFrame(b.agency, b.data, b.lastBatch).Ok?
  {
    BatchRoundTrip(b.agency, b.data, b.lastBatch, []);
  }

  /** The bets parse_msg makes of each batch, batch by batch. */
  function StoredBy(batches: seq<Batch>): seq<seq<Bet>>
    requires forall i | 0 <= i < |batches| :: WellFormedBatch(batches[i])
  {
    if batches == [] then []
    else
      MsgParses(batches[0]);
      [ParseMsg(batches[0]).value.0] + StoredBy(batches[1..])
  }

  /** One well-formed batch frame in front of `after`: its bets are stored,
      and the session ends there if the batch is final, or goes on with `after`. */
  lemma ServeFrame(b: Batch, after: seq<byte>)
    requires WellFormedBatch(b)
    ensures BatchFrame(b.agency, b.data, b.lastBatch).Ok? && ParseMsg(b).Ok?
    ensures var input := BatchFrame(b.agency, b.data, b.lastBatch).value + after;
      var bets := ParseMsg(b).value.0;
      (b.lastBatch ==> Serve(input) == Session([bets], Finished(after))) &&
      (!b.lastBatch ==> Serve(input) == Session([bets] + Serve(after).stored, Serve(after).end))
  {
    BatchRoundTrip(b.agency, b.data, b.lastBatch, after);
    MsgParses(b);
    var frame := BatchFrame(b.agency, b.data, b.lastBatch).value;
    ServeStep(frame + after, b, after, ParseMsg(b).value.0, b.lastBatch);
  }

  /** A client that sends well-formed batches, only the last of them final,
      has every batch stored in order, as parse_msg makes it, and the
      connection ends right after the final one: whatever follows it is
      never read. */
  lemma {:induction false} ServeFrames(batches: seq<Batch>, rest: seq<byte>)
    requires batches != []
    requires forall i | 0 <= i < |batches| :: WellFormedBatch(batches[i])
    requires forall i | 0 <= i < |batches| - 1 :: !batches[i].lastBatch
    requires batches[|batches| - 1].lastBatch
    ensures Serve(Frames(batches) + rest) == Session(StoredBy(batches), Finished(rest))
  {
    if |batches| == 1 {
      ServeLast(batches, rest);
    } else {
      assert forall i | 0 <= i < |batches| - 2 :: batches[1..][i] == batches[i + 1];
      ServeFrames(batches[1..], rest);
      ServeNext(batches, rest);
    }
  }

  /** The run of one final batch. */
  lemma ServeLast(batches: seq<Batch>, rest: seq<byte>)
    requires |batches| == 1 && WellFormedBatch(batches[0]) && batches[0].lastBatch
    ensures Serve(Frames(batches) + rest) == Session(StoredBy(batches), Finished(rest))
  {
    FramesOne(batches);
    ServeFrame(batches[0], rest);
  }

  /** The frames and the stored bets of a single batch. */
  lemma FramesOne(batches: seq<Batch>)
    requires |batches| == 1 && WellFormedBatch(batches[0])
    ensures BatchFrame(batches[0].agency, batches[0].data, batches[0].lastBatch).Ok? && ParseMsg(batches[0]).Ok?
    ensures Frames(batches) == BatchFrame(batches[0].agency, batches[0].data, batches[0].lastBatch).value
    ensures StoredBy(batches) == [ParseMsg(batches[0]).value.0]
  {
    var b, tail := FramesCons(batches);
    assert Frames(tail) == [] && StoredBy(tail) == [];
    Rejoin(BatchFrame(b.agency, b.data, b.lastBatch).value, |BatchFrame(b.agency, b.data, b.lastBatch).value|);
  }

  /** A non-final batch in front of a run the server serves to the end. */
  lemma ServeNext(batches: seq<Batch>, rest: seq<byte>)
    requires |batches| >= 2 && !batches[0].lastBatch
    requires forall i | 0 <= i < |batches| :: WellFormedBatch(batches[i])
    requires Serve(Frames(batches[1..]) + rest) == Session(StoredBy(batches[1..]), Finished(rest))
    ensures Serve(Frames(batches) + rest) == Session(StoredBy(batches), Finished(rest))
  {
    var b, tail := FramesCons(batches);
    var after := Frames(tail) + rest;
    ServeFrame(b, after);
    var frame := BatchFrame(b.agency, b.data, b.lastBatch).value;
    Associate(frame, Frames(tail), rest);
    Link(Serve(frame + after), Serve(after), ParseMsg(b).value.0, StoredBy(tail), rest);
  }

  /** The first batch of a non-empty run of frames, and the rest of the run. */
  lemma FramesCons(batches: seq<Batch>) returns (b: Batch, tail: seq<Batch>)
    requires batches != []
    requires forall i | 0 <= i < |batches| :: WellFormedBatch(batches[i])
    ensures b == batches[0] && tail == batches[1..] && WellFormedBatch(b)
    ensures forall i | 0 <= i < |tail| :: WellFormedBatch(tail[i])
    ensures BatchFrame(b.agency, b.data, b.lastBatch).Ok? && ParseMsg(b).Ok?
    ensures Frames(batches) == BatchFrame(b.agency, b.data, b.lastBatch).value + Frames(tail)
    ensures StoredBy(batches) == [ParseMsg(b).value.0] + StoredBy(tail)
  {
    b, tail := batches[0], batches[1..];
    assert forall i | 0 <= i < |tail| :: tail[i] == batches[i + 1];
    MsgParses(b);
  }

  /** A session that stores `bets` and goes on as a session that stores
      `stored` and finishes has stored [bets] + stored and finishes. */
  lemma Link(whole: Session, next: Session, bets: seq<Bet>, stored: seq<seq<Bet>>, rest: seq<byte>)
    requires whole == Session([bets] + next.stored, next.end)
    requires next == Session(stored, Finished(rest))
    ensures whole == Session([bets] + stored, Finished(rest))
  {
  }

  /** A well-formed batch always has the fields parse_msg looks for. */
  lemma MsgParses(b: Batch)
    requires WellFormedBatch(b)
    ensures ParseMsg(b).Ok? && ParseMsg(b).value.1 == b.lastBatch
  {
    assert forall i | 0 <= i < |b.data| :: |Split(b.data[i], Comma)| >= FieldsPerBet;
  }

  // ---------------------------------------------------------------- server

  /** The server: its protocol settings, the is_alive flag run loops on,
      the _server_running flag stop sets, whether the listening socket is
      still open, and the ghost record of what it has stored and acked. */
  class Server {
    const protocol: Config
    var isAlive: bool
    var serverRunning: Option<bool>
    var listenerOpen: bool
    ghost var trace: seq<Event>

    /** __init__: listening, alive, and _server_running not yet set. */
    constructor(protocol: Config)
      ensures this.protocol == protocol && isAlive && listenerOpen
      ensures serverRunning == None && trace == []
    {
      this.protocol := protocol;
      isAlive := true;
      serverRunning := None;
      listenerOpen := true;
      trace := [];
    }

    /** store_bets: the bets are recorded, nothing else is. */
    method StoreBets(bets: seq<Bet>)
      modifies this`trace
      ensures trace == old(trace) + [Stored(bets)]
    {
      trace := trace + [Stored(bets)];
    }

    /** One turn of the loop in __handle_client_connection: receive a
        batch, parse it, store its bets, acknowledge it.  On failure nothing
        is stored or sent; otherwise the result is the batch's last_batch flag
        and the session continues on what is still pending. */
    method ServeBatch(skt: Socket) returns (r: Result<bool>, bets: seq<Bet>)
      requires skt.Valid()
      modifies this`trace, skt`pos, skt`sent
      ensures skt.Valid() && skt.closes == old(skt.closes)
      ensures r.Err? ==> Serve(old(skt.Remaining())) == Session([], Failed(r.error))
      ensures r.Err? ==> trace == old(trace) && skt.sent == old(skt.sent)
      ensures r.Ok? ==> |skt.Remaining()| < |old(skt.Remaining())|
      ensures r.Ok? ==> trace == old(trace) + [Stored(bets), Acked(true)]
      ensures r.Ok? ==> skt.sent == old(skt.sent) + [AckFrame(protocol, true).value]
      ensures r == Ok(true) ==> Serve(old(skt.Remaining())) == Session([bets], Finished(skt.Remaining()))
      ensures r == Ok(false) ==>
        Serve(old(skt.Remaining())) == Session([bets] + Serve(skt.Remaining()).stored, Serve(skt.Remaining()).end)
    {
      ghost var pending := skt.Remaining();
      bets := [];
      var batch :- RecvBets(skt);
      var parsed :- ParseMsg(batch);
      bets := parsed.0;
      StoreBets(bets);
      var ack := SendAck(protocol, skt, true);
      trace := trace + [Acked(true)];
      ServeStep(pending, batch, skt.Remaining(), bets, parsed.1);
      r := Ok(parsed.1);
    }

    /** __handle_client_connection: runs the Serve loop on the socket, sends
        one success ack per stored batch, and closes the socket exactly once
        however the loop ends. */
    method HandleClientConnection(skt: Socket)
      requires skt.Valid()
      modifies this`trace, skt`pos, skt`sent, skt`closes
      ensures skt.Valid()
      ensures trace == old(trace) + Exchange(Serve(old(skt.Remaining())).stored)
      ensures skt.sent == old(skt.sent) + AckPackets(protocol, |Serve(old(skt.Remaining())).stored|)
      ensures skt.closes == old(skt.closes) + 1
      ensures Serve(old(skt.Remaining())).end.Finished? ==> skt.Remaining() == Serve(old(skt.Remaining())).end.rest
    {
      ghost var session := Serve(skt.Remaining());
      ghost var done: seq<seq<Bet>> := [];
      ghost var pending := skt.Remaining();
      var lastBatchReceived := false;
      while !lastBatchReceived
        invariant skt.Valid() && pending == skt.Remaining()
        invariant trace == old(trace) + Exchange(done)
        invariant skt.sent == old(skt.sent) + AckPackets(protocol, |done|)
        invariant skt.closes == old(skt.closes)
        invariant !lastBatchReceived ==> session == Session(done + Serve(pending).stored, Serve(pending).end)
        invariant lastBatchReceived ==> session == Session(done, Finished(pending))
        decreases if lastBatchReceived then 0 else |pending| + 1
      {
        ghost var trace0, sent0 := trace, skt.sent;
        var last, bets := ServeBatch(skt);
        if last.Err? {
          Settle(session, done, Serve(pending));
          break;
        }
        Step(protocol, session, done, pending, skt.Remaining(), last.value, bets,
          old(trace), trace0, trace, old(skt.sent), sent0, skt.sent);
        done := done + [bets];
        pending := skt.Remaining();
        lastBatchReceived := last.value;
      }
      skt.Close();
    }

    /** __accept_new_connection: the next client's connection, fresh; fails
        once the listening socket has been closed. */
    method Accept(input: seq<byte>) returns (r: Result<Socket>)
      ensures listenerOpen ==> r.Ok? && fresh(r.value) && r.value.Valid()
      ensures listenerOpen ==> r.value.Remaining() == input && r.value.sent == [] && r.value.closes == 0
      ensures !listenerOpen ==> r == Err(AcceptFailed)
    {
      if !listenerOpen {
        return Err(AcceptFailed);
      }
      var skt := new Socket(input);
      r := Ok(skt);
    }

    /** run: while is_alive, accept the next client and serve it to the end.
        An exception from accept ends run: once the listener is closed,
        accept raises even when no client is left.  With the listener open
        and the clients exhausted, accept would block for ever; the model
        returns there. */
    method Run(clients: seq<seq<byte>>) returns (r: Result<()>)
      modifies this`trace
      ensures !isAlive ==> r == Ok(()) && trace == old(trace)
      ensures isAlive && listenerOpen ==> r == Ok(()) && trace == old(trace) + Sessions(clients)
      ensures isAlive && !listenerOpen ==> r == Err(AcceptFailed) && trace == old(trace)
    {
      if isAlive && !listenerOpen {
        var conn := Accept([]);
        return Err(conn.error);
      }
      r := Ok(());
      var i := 0;
      assert clients[..0] == [];
      while isAlive && i < |clients|
        invariant 0 <= i <= |clients|
        invariant trace == old(trace) + Sessions(clients[..i])
        invariant isAlive ==> listenerOpen
        invariant !isAlive ==> i == 0
      {
        var conn := Accept(clients[i]);
        HandleClientConnection(conn.value);
        SessionsSnoc(clients, i);
        Associate(old(trace), Sessions(clients[..i]), Exchange(Serve(clients[i]).stored));
        i := i + 1;
      }
      assert isAlive ==> clients[..i] == clients;
    }

    /** stop: marks the server as not running and closes the listening
        socket (a failure to close is only logged).  is_alive, the flag run
        loops on, is left as it was. */
    method Stop()
      modifies this`serverRunning, this`listenerOpen
      ensures serverRunning == Some(false) && !listenerOpen
      ensures isAlive == old(isAlive)
    {
      serverRunning := Some(false);
      listenerOpen := false;
    }
  }

  /** The events of serving each client in turn, one whole connection after another. */
  function Sessions(clients: seq<seq<byte>>): (r: seq<Event>)
    ensures forall e | e in r :: e.Acked? ==> e.status
  {
    if clients == [] then []
    else
      var n := |clients| - 1;
      Sessions(clients[..n]) + Exchange(Serve(clients[n]).stored)
  }

  /** Serving one more client appends that client's events. */
  lemma SessionsSnoc(clients: seq<seq<byte>>, i: nat)
    requires i < |clients|
    ensures Sessions(clients[..i + 1]) == Sessions(clients[..i]) + Exchange(Serve(clients[i]).stored)
  {
    assert clients[..i + 1][..i] == clients[..i];
  }
}
