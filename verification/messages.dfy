/** The sending halves of shared/protocol.py and its small fixed-width
    frames: send_bets / recv_bets, the ack, the winner query and the
    winner list. */
module Messages {
  import opened Results
  import opened Bytes
  import opened Text
  import opened Sockets
  import opened Protocol
  import opened Chunking
  import opened BatchLaws

  // ------------------------------------------------------------- send_bets

  /** send_bets: encode_batch, then _send_chunk with the whole frame. When
      encode_batch raises nothing is sent. */
  method SendBets(cfg: Config, skt: Socket, agency: string, data: seq<string>, lastBatch: bool) returns (r: Result<()>)
    requires cfg.maxPacketSize > 0
    modifies skt`sent
    ensures r.Ok? <==> BatchFrame(agency, data, lastBatch).Ok?
    ensures r.Ok? ==> skt.sent == old(skt.sent) + DivideMsg(BatchFrame(agency, data, lastBatch).value, cfg.maxPacketSize)
    ensures r.Ok? ==> Flatten(skt.sent) == Flatten(old(skt.sent)) + BatchFrame(agency, data, lastBatch).value
    ensures r.Err? ==> r.error == BatchFrame(agency, data, lastBatch).error && skt.sent == old(skt.sent)
  {
    var batch := EncodeBatch(agency, data, lastBatch);
    if batch.Err? {
      return Err(batch.error);
    }
    SendChunk(skt, batch.value, cfg.maxPacketSize);
    r := Ok(());
  }

  /** What send_bets sends, however it is cut into packets, is decoded by
      recv_bets on the other side into the batch that was sent. */
  lemma SentBatchDecodes(cfg: Config, agency: string, data: seq<string>, lastBatch: bool, rest: seq<byte>)
    requires cfg.maxPacketSize > 0
    requires StrFits(agency) && |data| < Pow256(LenNumber)
    requires forall i | 0 <= i < |data| :: WellFormedBet(data[i])
    ensures BatchFrame(agency, data, lastBatch).Ok?
    ensures ParseBatch(Flatten(DivideMsg(BatchFrame(agency, data, lastBatch).value, cfg.maxPacketSize)) + rest)
      == Ok((Batch(agency, data, lastBatch), rest))
  {
    BatchRoundTrip(agency, data, lastBatch, rest);
  }

  // ------------------------------------------------------------------- ack

  /** The ack frame send_ack writes: ACK_OK (0) for true, ACK_ERROR (1) for
      false, in cant_bytes_ack bytes. */
  function AckFrame(cfg: Config, status: bool): (r: Result<seq<byte>>)
    ensures r.Ok? <==> status || cfg.cantBytesAck > 0
    ensures r.Ok? ==> |r.value| == cfg.cantBytesAck
  {
    ToBytes(if status then AckOk else AckError, cfg.cantBytesAck)
  }

  method SendAck(cfg: Config, skt: Socket, status: bool) returns (r: Result<()>)
    modifies skt`sent
    ensures r.Ok? <==> AckFrame(cfg, status).Ok?
    ensures r.Ok? ==> skt.sent == old(skt.sent) + [AckFrame(cfg, status).value]
    ensures r.Err? ==> r.error == Overflow && skt.sent == old(skt.sent)
  {
    var msg := if status then AckOk else AckError;
    var bytes :- ToBytes(msg, cfg.cantBytesAck);
    skt.SendMsg(bytes);
    r := Ok(());
  }

  /** recv_ack on the pending bytes: true exactly when the value read is
      ACK_OK, that is when every byte of it is zero. */
  function ParseAck(cfg: Config, input: seq<byte>): (r: Result<(bool, seq<byte>)>)
    ensures r.Ok? <==> cfg.cantBytesAck <= |input|
    ensures r.Ok? ==> r.value.1 == input[cfg.cantBytesAck..]
    ensures r.Ok? ==> (r.value.0 <==> forall i | 0 <= i < cfg.cantBytesAck :: input[i] == 0)
  {
    var ackBytes :- RecvExact(input, cfg.cantBytesAck);
    FromBytesZero(ackBytes.0);
    assert ackBytes.0 == input[..cfg.cantBytesAck];
    Ok((FromBytes(ackBytes.0) == AckOk, ackBytes.1))
  }

  method RecvAck(cfg: Config, skt: Socket) returns (r: Result<bool>)
    requires skt.Valid()
    modifies skt`pos
    ensures skt.Valid()
    ensures Agrees(r, ParseAck(cfg, old(skt.Remaining())), skt.Remaining())
  {
    var ackBytes :- skt.RecvMsg(cfg.cantBytesAck);
    var ack := FromBytes(ackBytes);
    r := Ok(ack == AckOk);
  }

  /** recv_ack returns the status send_ack sent, whenever send_ack can send
      it (a false status needs at least one byte). */
  lemma AckRoundTrip(cfg: Config, status: bool, rest: seq<byte>)
    requires status || cfg.cantBytesAck > 0
    ensures AckFrame(cfg, status).Ok?
    ensures ParseAck(cfg, AckFrame(cfg, status).value + rest) == Ok((status, rest))
  {
    var frame := AckFrame(cfg, status).value;
    var input := frame + rest;
    assert input[..cfg.cantBytesAck] == frame;
    assert input[cfg.cantBytesAck..] == rest;
  }

  /** recv_ack as a reader of the pending bytes, for runs of acks. */
  function AckReader(cfg: Config): seq<byte> -> Result<(bool, seq<byte>)> {
    input => ParseAck(cfg, input)
  }

  // ---------------------------------------------------------- winner query

  /** The query ask_for_winners sends: the agency id in cant_bytes_agency bytes. */
  function QueryFrame(cfg: Config, agencyId: int): (r: Result<seq<byte>>)
    ensures r.Ok? <==> 0 <= agencyId < Pow256(cfg.cantBytesAgency)
    ensures r.Ok? ==> |r.value| == cfg.cantBytesAgency
  {
    ToBytes(agencyId, cfg.cantBytesAgency)
  }

  /** recv_ask_for_winners on the pending bytes. */
  function ParseQuery(cfg: Config, input: seq<byte>): (r: Result<(nat, seq<byte>)>)
    ensures r.Ok? <==> cfg.cantBytesAgency <= |input|
    ensures r.Ok? ==> r.value.1 == input[cfg.cantBytesAgency..]
  {
    var agencyBytes :- RecvExact(input, cfg.cantBytesAgency);
    Ok((FromBytes(agencyBytes.0), agencyBytes.1))
  }

  method RecvAskForWinners(cfg: Config, skt: Socket) returns (r: Result<nat>)
    requires skt.Valid()
    modifies skt`pos
    ensures skt.Valid()
    ensures Agrees(r, ParseQuery(cfg, old(skt.Remaining())), skt.Remaining())
  {
    var agencyBytes :- skt.RecvMsg(cfg.cantBytesAgency);
    r := Ok(FromBytes(agencyBytes));
  }

  /** recv_ask_for_winners returns the agency id ask_for_winners sent. */
  lemma QueryRoundTrip(cfg: Config, agencyId: int, rest: seq<byte>)
    requires 0 <= agencyId < Pow256(cfg.cantBytesAgency)
    ensures QueryFrame(cfg, agencyId).Ok?
    ensures ParseQuery(cfg, QueryFrame(cfg, agencyId).value + rest) == Ok((agencyId, rest))
  {
    var frame := QueryFrame(cfg, agencyId).value;
    var input := frame + rest;
    assert input[..cfg.cantBytesAgency] == frame;
    assert input[cfg.cantBytesAgency..] == rest;
  }

  // ----------------------------------------------------------- winner list

  /** The bytes send_winners puts on the wire: the length of the
      comma-joined names in cant_bytes_agency bytes, then their latin-1 bytes. */
  function WinnersFrame(cfg: Config, winners: seq<string>): (r: Result<seq<byte>>)
    ensures r.Ok? <==> |Join(winners, Comma)| < Pow256(cfg.cantBytesAgency) && IsLatin1(Join(winners, Comma))
    ensures r.Ok? ==> |r.value| == cfg.cantBytesAgency + |Join(winners, Comma)|
  {
    var text := Join(winners, Comma);
    var size :- ToBytes(|text|, cfg.cantBytesAgency);
    var body :- Latin1(text);
    Ok(size + body)
  }

  /** send_winners: the size prefix goes out before the names are encoded, so
      a name that has no latin-1 encoding fails after the prefix was sent. */
  method SendWinners(cfg: Config, skt: Socket, winners: seq<string>) returns (r: Result<()>)
    requires cfg.maxPacketSize > 0
    modifies skt`sent
    ensures var text := Join(winners, Comma);
      var size := ToBytes(|text|, cfg.cantBytesAgency);
      (size.Err? ==> r == Err(Overflow) && skt.sent == old(skt.sent)) &&
      (size.Ok? && !IsLatin1(text) ==> r == Err(NotLatin1) && skt.sent == old(skt.sent) + [size.value]) &&
      (size.Ok? && IsLatin1(text) ==>
        r == Ok(()) && skt.sent == old(skt.sent) + [size.value] + DivideMsg(Latin1(text).value, cfg.maxPacketSize))
    ensures r.Ok? <==> WinnersFrame(cfg, winners).Ok?
    ensures r.Ok? ==> Flatten(skt.sent) == Flatten(old(skt.sent)) + WinnersFrame(cfg, winners).value
  {
    var text := Join(winners, Comma);
    var size := |text|;
    var sizeBytes :- ToBytes(size, cfg.cantBytesAgency);
    skt.SendMsg(sizeBytes);
    var body :- Latin1(text);
    SendChunk(skt, body, cfg.maxPacketSize);
    FlattenAppend(old(skt.sent), [sizeBytes]);
    assert Flatten([sizeBytes]) == sizeBytes + Flatten([]);
    r := Ok(());
  }

  /** The read half of ask_for_winners on the pending bytes: an empty text is
      no winners, any other text is split at the commas. */
  function ParseWinners(cfg: Config, input: seq<byte>): (r: Result<(seq<string>, seq<byte>)>)
    ensures r.Ok? ==> |r.value.1| + cfg.cantBytesAgency <= |input|
    ensures |input| < cfg.cantBytesAgency ==> r == Err(StreamClosed)
  {
    var sizeBytes :- RecvExact(input, cfg.cantBytesAgency);
    var size := FromBytes(sizeBytes.0);
    var body :- RecvExact(sizeBytes.1, size);
    var winners :- Utf8Decode(body.0);
    Ok((if |winners| == 0 then [] else Split(winners, Comma), body.1))
  }

  /** ask_for_winners: send the query, then read the winner list. When the
      agency id does not fit, nothing is sent and nothing is read. */
  method AskForWinners(cfg: Config, skt: Socket, agencyId: int) returns (r: Result<seq<string>>)
    requires skt.Valid()
    modifies skt`sent, skt`pos
    ensures skt.Valid()
    ensures QueryFrame(cfg, agencyId).Err? ==>
      r == Err(Overflow) && skt.sent == old(skt.sent) && skt.pos == old(skt.pos)
    ensures QueryFrame(cfg, agencyId).Ok? ==>
      skt.sent == old(skt.sent) + [QueryFrame(cfg, agencyId).value] &&
      Agrees(r, ParseWinners(cfg, old(skt.Remaining())), skt.Remaining())
  {
    var query :- ToBytes(agencyId, cfg.cantBytesAgency);
    skt.SendMsg(query);
    var winnersSizeBytes :- skt.RecvMsg(cfg.cantBytesAgency);
    var winnersSize := FromBytes(winnersSizeBytes);
    var body :- skt.RecvMsg(winnersSize);
    var winners :- Utf8Decode(body);
    if |winners| == 0 {
      r := Ok([]);
    } else {
      r := Ok(Split(winners, Comma));
    }
  }

  /** A winner name ask_for_winners can read back: ASCII and without commas. */
  predicate PlainName(name: string) {
    IsAscii(name) && Comma !in name
  }

  /** After a size prefix equal to the body's length, ask_for_winners reads
      the decoded body, split at the commas unless it is empty. */
  lemma ParseWinnersOf(cfg: Config, size: seq<byte>, body: seq<byte>, rest: seq<byte>)
    requires |size| == cfg.cantBytesAgency && FromBytes(size) == |body|
    ensures ParseWinners(cfg, size + (body + rest)) ==
      (var text :- Utf8Decode(body); Ok((if |text| == 0 then [] else Split(text, Comma), rest)))
  {
    var input := size + (body + rest);
    assert input[..cfg.cantBytesAgency] == size;
    assert input[cfg.cantBytesAgency..] == body + rest;
    assert (body + rest)[..|body|] == body;
    assert (body + rest)[|body|..] == rest;
  }

  /** The size prefix and latin-1 bytes of an ASCII text that fits are read
      back by ask_for_winners as that text, split at the commas. */
  lemma TextRead(cfg: Config, text: string, rest: seq<byte>)
    requires IsAscii(text) && |text| < Pow256(cfg.cantBytesAgency)
    ensures ToBytes(|text|, cfg.cantBytesAgency).Ok? && Latin1(text).Ok?
    ensures ParseWinners(cfg, ToBytes(|text|, cfg.cantBytesAgency).value + Latin1(text).value + rest) ==
      Ok((if |text| == 0 then [] else Split(text, Comma), rest))
  {
    Latin1Utf8(text);
    var size := ToBytes(|text|, cfg.cantBytesAgency).value;
    var body := Latin1(text).value;
    ParseWinnersOf(cfg, size, body, rest);
    Associate(size, body, rest);
  }

  /** The text send_winners joined is the text ask_for_winners decodes, when
      it is ASCII. */
  lemma WinnersText(cfg: Config, winners: seq<string>, rest: seq<byte>)
    requires IsAscii(Join(winners, Comma)) && |Join(winners, Comma)| < Pow256(cfg.cantBytesAgency)
    ensures WinnersFrame(cfg, winners).Ok?
    ensures var text := Join(winners, Comma);
      ParseWinners(cfg, WinnersFrame(cfg, winners).value + rest) == Ok((if |text| == 0 then [] else Split(text, Comma), rest))
  {
    var text := Join(winners, Comma);
    TextRead(cfg, text, rest);
  }

  /** ask_for_winners reads back the list send_winners sent, for comma-free
      ASCII names whose joined text fits the size prefix; the one list this
      excludes, [""], is covered by EmptyNameLost. */
  lemma WinnersRoundTrip(cfg: Config, winners: seq<string>, rest: seq<byte>)
    requires forall i | 0 <= i < |winners| :: PlainName(winners[i])
    requires |Join(winners, Comma)| < Pow256(cfg.cantBytesAgency)
    requires winners != [""]
    ensures WinnersFrame(cfg, winners).Ok?
    ensures ParseWinners(cfg, WinnersFrame(cfg, winners).value + rest) == Ok((winners, rest))
  {
    JoinAscii(winners, Comma);
    WinnersText(cfg, winners, rest);
    if winners != [] {
      SplitJoin(winners, Comma);
      if |winners| > 1 {
        assert |Join(winners, Comma)| > 0;
      }
    }
  }

  /** A list holding one empty name goes out exactly like the empty list and
      is read back as no winners at all. */
  lemma EmptyNameLost(cfg: Config, rest: seq<byte>)
    ensures WinnersFrame(cfg, [""]) == WinnersFrame(cfg, [])
    ensures ParseWinners(cfg, WinnersFrame(cfg, [""]).value + rest) == Ok(([], rest))
  {
    WinnersRoundTrip(cfg, [], rest);
  }
}
