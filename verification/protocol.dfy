/** The wire codec of shared/protocol.py: batch frames, ack frames, the
    winner query, the winner list, and the chunking of outgoing payloads. */
module Protocol {
  import opened Results
  import opened Bytes
  import opened Text
  import opened Sockets

  const LenString: nat := 2
  const LenNumber: nat := 2
  const LenType: nat := 1
  const NormalBatch: char := 'N'
  const LastBatch: char := 'L'
  const AckOk: nat := 0
  const AckError: nat := 1
  const Comma: char := ','
  const FieldsPerBet: nat := 5

  /** The settings a Protocol object reads once, at construction. */
  datatype Config = Config(maxPacketSize: nat, cantBytesLen: nat, cantBytesAck: nat, cantBytesAgency: nat)

  /** What decode_batch returns: {"agency", "data", "last_batch"}. */
  datatype Batch = Batch(agency: string, data: seq<string>, lastBatch: bool)

  /** A socket read `r` agrees with the pure parse `spec` of the bytes that
      were pending, and `rest` is what is left pending afterwards. */
  predicate Agrees<T(==)>(r: Result<T>, spec: Result<(T, seq<byte>)>, rest: seq<byte>) {
    match spec
    case Ok(p) => r == Ok(p.0) && rest == p.1
    case Err(e) => r == Err(e)
  }

  // ---------------------------------------------------------------- encoding

  /** One length-prefixed string: 2-byte big-endian length, then its latin-1 bytes. */
  function EncodeStr(s: string): (r: Result<seq<byte>>)
    ensures r.Ok? <==> |s| < Pow256(LenString) && IsLatin1(s)
    ensures r.Ok? ==> |r.value| == LenString + |s| && FromBytes(r.value[..LenString]) == |s|
    ensures r.Err? ==> (r.error == Overflow <==> |s| >= Pow256(LenString))
    ensures r.Err? ==> r.error == Overflow || r.error == NotLatin1
  {
    var size :- ToBytes(|s|, LenString);
    var body :- Latin1(s);
    Ok(size + body)
  }

  /** The encodings of xs, in order, concatenated; the first failure wins. */
  function EncodeEach<T>(f: T -> Result<seq<byte>>, xs: seq<T>): (r: Result<seq<byte>>)
    ensures r.Err? ==> exists i | 0 <= i < |xs| :: f(xs[i]) == Err(r.error)
  {
    if xs == [] then Ok([])
    else
      var head :- f(xs[0]);
      var tail :- EncodeEach(f, xs[1..]);
      Ok(head + tail)
  }

  /** A bet travels as each of its comma-separated fields, length-prefixed. */
  function EncodeBet(bet: string): (r: Result<seq<byte>>)
    ensures r.Err? ==> exists j | 0 <= j < |Split(bet, Comma)| :: EncodeStr(Split(bet, Comma)[j]) == Err(r.error)
    ensures r.Err? ==> r.error == Overflow || r.error == NotLatin1
  {
    EncodeEach(EncodeStr, Split(bet, Comma))
  }

  /** encode_batch: type tag, agency, bet count, then every bet's fields. */
  function BatchFrame(agency: string, data: seq<string>, lastBatch: bool): (r: Result<seq<byte>>)
    ensures r.Ok? ==> |r.value| >= LenType + LenString + |agency| + LenNumber
    ensures r.Ok? ==> FromBytes(r.value[LenType..LenType + LenString]) == |agency|
    ensures r.Ok? ==>
      var at := LenType + LenString + |agency|;
      FromBytes(r.value[at..at + LenNumber]) == |data|
    ensures r.Err? ==> r.error == Overflow || r.error == NotLatin1
  {
    var msgType: byte := if lastBatch then LastBatch as int else NormalBatch as int;
    var agencyBytes :- EncodeStr(agency);
    var count :- ToBytes(|data|, LenNumber);
    var bets :- EncodeEach(EncodeBet, data);
    var frame := [msgType] + agencyBytes + count + bets;
    var at := LenType + LenString + |agency|;
    assert frame[LenType..LenType + LenString] == agencyBytes[..LenString];
    assert frame[at..at + LenNumber] == count;
    Ok(frame)
  }

  lemma {:induction false} EncodeEachSnoc<T>(f: T -> Result<seq<byte>>, xs: seq<T>, x: T)
    requires EncodeEach(f, xs).Ok?
    ensures f(x).Ok? ==> EncodeEach(f, xs + [x]) == Ok(EncodeEach(f, xs).value + f(x).value)
    ensures f(x).Err? ==> EncodeEach(f, xs + [x]) == Err(f(x).error)
  {
    if xs == [] {
      assert xs + [x] == [x];
      assert EncodeEach(f, [x][1..]) == Ok([]);
      if f(x).Ok? {
        assert f(x).value + [] == [] + f(x).value;
      }
    } else {
      assert (xs + [x])[0] == xs[0];
      assert (xs + [x])[1..] == xs[1..] + [x];
      EncodeEachSnoc(f, xs[1..], x);
      var head := f(xs[0]).value;
      var tail := EncodeEach(f, xs[1..]).value;
      if f(x).Ok? {
        assert head + (tail + f(x).value) == (head + tail) + f(x).value;
      }
    }
  }

  /** When every element before index k encodes, the first failure is that of xs[k]. */
  lemma {:induction false} EncodeEachFirstError<T>(f: T -> Result<seq<byte>>, xs: seq<T>, k: nat)
    requires k < |xs|
    requires EncodeEach(f, xs[..k]).Ok? && f(xs[k]).Err?
    ensures EncodeEach(f, xs) == Err(f(xs[k]).error)
  {
    if k > 0 {
      assert xs[1..][..k - 1] == xs[1..k];
      assert xs[..k][1..] == xs[1..k];
      EncodeEachFirstError(f, xs[1..], k - 1);
    }
  }

  /** The inner loop of encode_batch: each field of one bet, length-prefixed. */
  method EncodeFields(items: seq<string>) returns (r: Result<seq<byte>>)
    ensures r == EncodeEach(EncodeStr, items)
  {
    var payload: seq<byte> := [];
    var j := 0;
    while j < |items|
      invariant 0 <= j <= |items|
      invariant EncodeEach(EncodeStr, items[..j]) == Ok(payload)
    {
      var size := ToBytes(|items[j]|, LenString);
      var bytes := Latin1(items[j]);
      if size.Err? || bytes.Err? {
        EncodeEachFirstError(EncodeStr, items, j);
        return Err(EncodeStr(items[j]).error);
      }
      EncodeEachSnoc(EncodeStr, items[..j], items[j]);
      assert payload + (size.value + bytes.value) == payload + size.value + bytes.value;
      payload := payload + size.value + bytes.value;
      assert items[..j + 1] == items[..j] + [items[j]];
      j := j + 1;
    }
    assert items[..j] == items;
    r := Ok(payload);
  }

  /** The outer loop of encode_batch: every bet, in order. */
  method EncodeBets(data: seq<string>) returns (r: Result<seq<byte>>)
    ensures r == EncodeEach(EncodeBet, data)
  {
    var payload: seq<byte> := [];
    var i := 0;
    while i < |data|
      invariant 0 <= i <= |data|
      invariant EncodeEach(EncodeBet, data[..i]) == Ok(payload)
    {
      var fields := EncodeFields(Split(data[i], Comma));
      if fields.Err? {
        EncodeEachFirstError(EncodeBet, data, i);
        return Err(fields.error);
      }
      EncodeEachSnoc(EncodeBet, data[..i], data[i]);
      assert data[..i + 1] == data[..i] + [data[i]];
      payload := payload + fields.value;
      i := i + 1;
    }
    assert data[..i] == data;
    r := Ok(payload);
  }

  /** encode_batch: the type tag, the agency, the bet count, then the bets,
      appended to one payload. */
  method EncodeBatch(agency: string, data: seq<string>, lastBatch: bool) returns (r: Result<seq<byte>>)
    ensures r == BatchFrame(agency, data, lastBatch)
  {
    var msgType: byte := if lastBatch then LastBatch as int else NormalBatch as int;
    var payload: seq<byte> := [msgType];
    var agencyBytes :- EncodeStr(agency);
    payload := payload + agencyBytes;
    var count :- ToBytes(|data|, LenNumber);
    payload := payload + count;
    var bets :- EncodeBets(data);
    r := Ok(payload + bets);
  }

  // ---------------------------------------------------------------- decoding

  /** recv_msg(n) on the pending bytes: the next n of them and the rest. */
  function RecvExact(input: seq<byte>, n: nat): (r: Result<(seq<byte>, seq<byte>)>)
    ensures r.Ok? <==> n <= |input|
    ensures r.Ok? ==> |r.value.0| == n && r.value.0 + r.value.1 == input
    ensures r.Err? ==> r.error == StreamClosed
  {
    if n <= |input| then Ok((input[..n], input[n..])) else Err(StreamClosed)
  }

  /** read_str: a 2-byte length `size`, then `size` bytes of text. */
  function ParseStr(input: seq<byte>): (r: Result<(string, seq<byte>)>)
    ensures r.Ok? ==> |r.value.1| + LenString <= |input|
  {
    var sizeBytes :- RecvExact(input, LenString);
    var size := FromBytes(sizeBytes.0);
    var body :- RecvExact(sizeBytes.1, size);
    var s :- Utf8Decode(body.0);
    Ok((s, body.1))
  }

  /** read_str consumes exactly 2 + size bytes and yields the text of the
      next size bytes; with fewer bytes pending it fails with nothing read. */
  lemma ParseStrConsumes(input: seq<byte>)
    ensures |input| < LenString ==> ParseStr(input) == Err(StreamClosed)
    ensures |input| >= LenString ==>
      var size := FromBytes(input[..LenString]);
      var r := ParseStr(input);
      (|input| < LenString + size ==> r == Err(StreamClosed)) &&
      (r.Ok? ==> |input| >= LenString + size && r.value.1 == input[LenString + size..] &&
                 Latin1(r.value.0) == Ok(input[LenString..LenString + size]))
  {
    if |input| >= LenString {
      var size := FromBytes(input[..LenString]);
      var r := ParseStr(input);
      if r.Ok? {
        assert input[LenString..][size..] == input[LenString + size..];
        var body := input[LenString..][..size];
        assert body == input[LenString..LenString + size];
        var s := r.value.0;
        assert Utf8Decode(body) == Ok(s);
        assert Latin1(s).Ok?;
        assert Latin1(s).value == body;
      }
    }
  }

  /** read_number: a 2-byte big-endian count. */
  function ParseNumber(input: seq<byte>): (r: Result<(nat, seq<byte>)>)
    ensures r.Ok? <==> LenNumber <= |input|
    ensures r.Ok? ==> r.value.0 == FromBytes(input[..LenNumber]) && r.value.1 == input[LenNumber..]
  {
    var num :- RecvExact(input, LenNumber);
    assert num.0 == input[..LenNumber];
    Ok((FromBytes(num.0), num.1))
  }

  /** n items read one after the other by `p`, in order; the first failure
      is the result. */
  function ParseMany<T>(p: seq<byte> -> Result<(T, seq<byte>)>, input: seq<byte>, n: nat): (r: Result<(seq<T>, seq<byte>)>)
    ensures r.Ok? ==> |r.value.0| == n
  {
    if n == 0 then Ok(([], input))
    else
      var init :- ParseMany(p, input, n - 1);
      var item :- p(init.1);
      Ok((init.0 + [item.0], item.1))
  }

  /** The five fields of one bet, read one after the other by `p`:
      name, last name, document, birth date, number. */
  function ParseFields<T>(p: seq<byte> -> Result<(T, seq<byte>)>, input: seq<byte>): (r: Result<(seq<T>, seq<byte>)>)
    ensures r.Ok? ==> |r.value.0| == FieldsPerBet && p(input).Ok? && r.value.0[0] == p(input).value.0
  {
    var name :- p(input);
    var lastName :- p(name.1);
    var document :- p(lastName.1);
    var birth :- p(document.1);
    var number :- p(birth.1);
    Ok(([name.0, lastName.0, document.0, birth.0, number.0], number.1))
  }

  /** One bet of decode_batch: five strings, re-joined with commas. */
  function ParseBet(input: seq<byte>): (r: Result<(string, seq<byte>)>)
    ensures r.Ok? ==> |r.value.1| < |input|
  {
    var fields :- ParseFields(ParseStr, input);
    Ok((Join(fields.0, Comma), fields.1))
  }

  /** The first n bets of a batch. */
  function ParseBets(input: seq<byte>, n: nat): (r: Result<(seq<string>, seq<byte>)>)
    ensures r.Ok? ==> |r.value.0| == n && |r.value.1| <= |input|
  {
    ParseManyConsumes(ParseBet, input, n, 0);
    ParseMany(ParseBet, input, n)
  }

  /** Items that each consume at least k bytes: n of them consume n * k. */
  lemma {:induction false} ParseManyConsumes<T>(p: seq<byte> -> Result<(T, seq<byte>)>, input: seq<byte>, n: nat, k: nat)
    requires forall s: seq<byte> :: p(s).Ok? ==> |p(s).value.1| + k <= |s|
    ensures ParseMany(p, input, n).Ok? ==>
      |ParseMany(p, input, n).value.0| == n && |ParseMany(p, input, n).value.1| + n * k <= |input|
  {
    if n > 0 {
      ParseManyConsumes(p, input, n - 1, k);
    }
  }

  /** decode_batch on the pending bytes. */
  function ParseBatch(input: seq<byte>): (r: Result<(Batch, seq<byte>)>)
    ensures r.Ok? ==> |r.value.1| < |input|
    ensures r.Ok? ==> (r.value.0.lastBatch <==> input[0] == LastBatch as int)
    ensures input == [] ==> r == Err(StreamClosed)
    ensures input != [] && input[0] >= 128 ==> r == Err(NotUtf8)
  {
    var tag :- RecvExact(input, LenType);
    var batchType :- Utf8Decode(tag.0);
    var agency :- ParseStr(tag.1);
    var count :- ParseNumber(agency.1);
    var bets :- ParseBets(count.1, count.0);
    assert batchType == [LastBatch] <==> batchType[0] == LastBatch;
    Ok((Batch(agency.0, bets.0, batchType == [LastBatch]), bets.1))
  }

  lemma ParseManyStep<T>(p: seq<byte> -> Result<(T, seq<byte>)>, input: seq<byte>, i: nat, items: seq<T>, mid: seq<byte>, item: T, rest: seq<byte>)
    requires ParseMany(p, input, i) == Ok((items, mid))
    requires p(mid) == Ok((item, rest))
    ensures ParseMany(p, input, i + 1) == Ok((items + [item], rest))
  {
  }

  /** If item i + 1 fails after items 0..i parsed, so do all longer runs. */
  lemma {:induction false} ParseManyStops<T>(p: seq<byte> -> Result<(T, seq<byte>)>, input: seq<byte>, i: nat, n: nat, e: Error)
    requires i < n
    requires ParseMany(p, input, i).Ok?
    requires p(ParseMany(p, input, i).value.1) == Err(e)
    ensures ParseMany(p, input, n) == Err(e)
  {
    if n > i + 1 {
      ParseManyStops(p, input, i, n - 1, e);
    }
  }

  method ReadStr(skt: Socket) returns (r: Result<string>)
    requires skt.Valid()
    modifies skt`pos
    ensures skt.Valid()
    ensures Agrees(r, ParseStr(old(skt.Remaining())), skt.Remaining())
  {
    var sizeBytes :- skt.RecvMsg(LenString);
    var size := FromBytes(sizeBytes);
    var body :- skt.RecvMsg(size);
    r := Utf8Decode(body);
  }

  method ReadNumber(skt: Socket) returns (r: Result<nat>)
    requires skt.Valid()
    modifies skt`pos
    ensures skt.Valid()
    ensures Agrees(r, ParseNumber(old(skt.Remaining())), skt.Remaining())
  {
    var num :- skt.RecvMsg(LenNumber);
    r := Ok(FromBytes(num));
  }

  /** The body of decode_batch's loop: the five fields of one bet. */
  method ReadBet(skt: Socket) returns (r: Result<string>)
    requires skt.Valid()
    modifies skt`pos
    ensures skt.Valid()
    ensures Agrees(r, ParseBet(old(skt.Remaining())), skt.Remaining())
  {
    var name :- ReadStr(skt);
    var lastName :- ReadStr(skt);
    var document :- ReadStr(skt);
    var birth :- ReadStr(skt);
    var number :- ReadStr(skt);
    r := Ok(Join([name, lastName, document, birth, number], Comma));
  }

  /** The loop of decode_batch: n bets, in order. */
  method ReadBets(skt: Socket, n: nat) returns (r: Result<seq<string>>)
    requires skt.Valid()
    modifies skt`pos
    ensures skt.Valid()
    ensures Agrees(r, ParseBets(old(skt.Remaining()), n), skt.Remaining())
  {
    ghost var start := skt.Remaining();
    var bets: seq<string> := [];
    var i := 0;
    while i < n
      invariant skt.Valid() && 0 <= i <= n
      invariant ParseMany(ParseBet, start, i) == Ok((bets, skt.Remaining()))
    {
      ghost var mid := skt.Remaining();
      var bet := ReadBet(skt);
      if bet.Err? {
        ParseManyStops(ParseBet, start, i, n, bet.error);
        return Err(bet.error);
      }
      ParseManyStep(ParseBet, start, i, bets, mid, bet.value, skt.Remaining());
      bets := bets + [bet.value];
      i := i + 1;
    }
    r := Ok(bets);
  }

  /** decode_batch: reads the frame field by field from the socket. */
  method DecodeBatch(skt: Socket) returns (r: Result<Batch>)
    requires skt.Valid()
    modifies skt`pos
    ensures skt.Valid()
    ensures Agrees(r, ParseBatch(old(skt.Remaining())), skt.Remaining())
  {
    var tag :- skt.RecvMsg(LenType);
    var batchType :- Utf8Decode(tag);
    var agency :- ReadStr(skt);
    var dataLen :- ReadNumber(skt);
    var bets :- ReadBets(skt, dataLen);
    r := Ok(Batch(agency, bets, batchType == [LastBatch]));
  }

  /** recv_bets: decode_batch plus logging. */
  method RecvBets(skt: Socket) returns (r: Result<Batch>)
    requires skt.Valid()
    modifies skt`pos
    ensures skt.Valid()
    ensures Agrees(r, ParseBatch(old(skt.Remaining())), skt.Remaining())
  {
    r := DecodeBatch(skt);
  }
}
