/** Laws of the batch frame of shared/protocol.py: what encode_batch writes,
    decode_batch reads back. */
module BatchLaws {
  import opened Results
  import opened Bytes
  import opened Text
  import opened Protocol

  /** A string read_str can carry: its length fits the 2-byte prefix and it
      is ASCII, where the encoder's latin-1 and the decoder's UTF-8 agree. */
  predicate StrFits(s: string) {
    |s| < Pow256(LenString) && IsAscii(s)
  }

  /** A bet decode_batch can rebuild: exactly five fields, each one fitting. */
  predicate WellFormedBet(bet: string) {
    var fields := Split(bet, Comma);
    |fields| == FieldsPerBet && forall i | 0 <= i < |fields| :: StrFits(fields[i])
  }

  /** `p` reads back exactly what `f` writes for x, whatever follows it. */
  ghost predicate RoundTrips<T(!new)>(f: T -> Result<seq<byte>>, p: seq<byte> -> Result<(T, seq<byte>)>, x: T) {
    f(x).Ok? && forall rest: seq<byte> :: p(f(x).value + rest) == Ok((x, rest))
  }

  lemma StrRoundTrip(s: string, rest: seq<byte>)
    requires StrFits(s)
    ensures EncodeStr(s).Ok?
    ensures ParseStr(EncodeStr(s).value + rest) == Ok((s, rest))
  {
    Latin1Utf8(s);
    var size := ToBytes(|s|, LenString).value;
    var body := Latin1(s).value;
    assert EncodeStr(s).value == size + body;
    Associate(size, body, rest);
    ParseStrOf(size, body, rest);
  }

  /** read_str on a length prefix followed by that many bytes. */
  lemma ParseStrOf(size: seq<byte>, body: seq<byte>, rest: seq<byte>)
    requires |size| == LenString && FromBytes(size) == |body|
    ensures ParseStr(size + (body + rest)) == (var text :- Utf8Decode(body); Ok((text, rest)))
  {
    var input := size + (body + rest);
    assert input[..LenString] == size;
    assert input[LenString..] == body + rest;
    assert (body + rest)[..|body|] == body;
    assert (body + rest)[|body|..] == rest;
  }

  /** Items that each round-trip, encoded one after the other, are read back
      in order by as many reads. */
  lemma {:induction false} ManyRoundTrip<T(!new)>(f: T -> Result<seq<byte>>, p: seq<byte> -> Result<(T, seq<byte>)>, xs: seq<T>, rest: seq<byte>)
    requires forall i | 0 <= i < |xs| :: RoundTrips(f, p, xs[i])
    ensures EncodeEach(f, xs).Ok?
    ensures ParseMany(p, EncodeEach(f, xs).value + rest, |xs|) == Ok((xs, rest))
  {
    if xs == [] {
      assert [] + rest == rest;
    } else {
      var init, x := xs[..|xs| - 1], xs[|xs| - 1];
      assert xs == init + [x];
      ManyRoundTrip(f, p, init, f(x).value + rest);
      EncodeEachSnoc(f, init, x);
      var e := EncodeEach(f, init).value;
      assert e + f(x).value + rest == e + (f(x).value + rest);
      ParseManyStep(p, e + f(x).value + rest, |init|, init, f(x).value + rest, x, rest);
    }
  }

  /** decode_batch's five reads for one bet are five reads of ParseMany. */
  lemma ParseFieldsAsMany<T>(p: seq<byte> -> Result<(T, seq<byte>)>, input: seq<byte>)
    ensures ParseMany(p, input, FieldsPerBet).Ok? ==> ParseFields(p, input) == ParseMany(p, input, FieldsPerBet)
  {
    var m := ParseMany(p, input, FieldsPerBet);
    if m.Ok? {
      var m4 := ParseManyLast(p, input, 4);
      var m3 := ParseManyLast(p, input, 3);
      var m2 := ParseManyLast(p, input, 2);
      var m1 := ParseManyLast(p, input, 1);
      var m0 := ParseManyLast(p, input, 0);
      assert m.value.0 == [m0.0, m1.0, m2.0, m3.0, m4.0];
    }
  }

  /** A run of n + 1 reads that succeeds is a run of n reads plus one more;
      the read added is returned. */
  lemma ParseManyLast<T>(p: seq<byte> -> Result<(T, seq<byte>)>, input: seq<byte>, n: nat) returns (item: (T, seq<byte>))
    requires ParseMany(p, input, n + 1).Ok?
    ensures ParseMany(p, input, n).Ok?
    ensures p(ParseMany(p, input, n).value.1) == Ok(item)
    ensures ParseMany(p, input, n + 1).value == (ParseMany(p, input, n).value.0 + [item.0], item.1)
  {
    item := p(ParseMany(p, input, n).value.1).value;
  }

  /** A well-formed bet is read back by decode_batch's five reads. */
  lemma BetRoundTrip(bet: string)
    requires WellFormedBet(bet)
    ensures RoundTrips(EncodeBet, ParseBet, bet)
  {
    var fields := Split(bet, Comma);
    forall i | 0 <= i < |fields|
      ensures RoundTrips(EncodeStr, ParseStr, fields[i])
    {
      forall r: seq<byte> ensures ParseStr(EncodeStr(fields[i]).value + r) == Ok((fields[i], r)) {
        StrRoundTrip(fields[i], r);
      }
    }
    ManyRoundTrip(EncodeStr, ParseStr, fields, []);
    forall rest: seq<byte> ensures ParseBet(EncodeBet(bet).value + rest) == Ok((bet, rest)) {
      ManyRoundTrip(EncodeStr, ParseStr, fields, rest);
      ParseFieldsAsMany(ParseStr, EncodeBet(bet).value + rest);
      JoinSplit(bet, Comma);
    }
  }

  /** The bets of a batch are read back in order by as many bet reads. */
  lemma BetsRoundTrip(data: seq<string>, rest: seq<byte>)
    requires forall i | 0 <= i < |data| :: WellFormedBet(data[i])
    ensures EncodeEach(EncodeBet, data).Ok?
    ensures ParseBets(EncodeEach(EncodeBet, data).value + rest, |data|) == Ok((data, rest))
  {
    forall i | 0 <= i < |data|
      ensures RoundTrips(EncodeBet, ParseBet, data[i])
    {
      BetRoundTrip(data[i]);
    }
    ManyRoundTrip(EncodeBet, ParseBet, data, rest);
  }

  /** The type tag of decode_batch: any ASCII tag is accepted, and only 'L'
      marks the batch as the last one; the rest of the frame is read the
      same way whatever the tag. */
  lemma ParseBatchAt(s: seq<byte>)
    requires s != [] && s[0] < 128
    ensures ParseBatch(s) == (
      var agency :- ParseStr(s[LenType..]);
      var count :- ParseNumber(agency.1);
      var bets :- ParseBets(count.1, count.0);
      Ok((Batch(agency.0, bets.0, s[0] == LastBatch as int), bets.1)))
  {
    assert s[..LenType] == [s[0]];
    var batchType := Utf8Decode([s[0]]).value;
    assert batchType == [LastBatch] <==> s[0] == LastBatch as int;
  }

  /** The same, for a tag byte put in front of the rest of a frame. */
  lemma ParseBatchTag(t: byte, body: seq<byte>)
    requires t < 128
    ensures ParseBatch([t] + body) == (
      var agency :- ParseStr(body);
      var count :- ParseNumber(agency.1);
      var bets :- ParseBets(count.1, count.0);
      Ok((Batch(agency.0, bets.0, t == LastBatch as int), bets.1)))
  {
    assert ([t] + body)[LenType..] == body;
    ParseBatchAt([t] + body);
  }

  /** decode_batch on a frame whose parts are each read back by their own reader. */
  lemma ParseBatchParts(t: byte, body: seq<byte>, afterAgency: seq<byte>, afterCount: seq<byte>, rest: seq<byte>, agency: string, data: seq<string>)
    requires t < 128
    requires ParseStr(body) == Ok((agency, afterAgency))
    requires ParseNumber(afterAgency) == Ok((|data|, afterCount))
    requires ParseBets(afterCount, |data|) == Ok((data, rest))
    ensures ParseBatch([t] + body) == Ok((Batch(agency, data, t == LastBatch as int), rest))
  {
    ParseBatchTag(t, body);
  }

  /** decode_batch reads back what encode_batch writes: the same agency, the
      same bets in order and the same final flag, leaving what follows the
      frame unread. */
  lemma BatchRoundTrip(agency: string, data: seq<string>, lastBatch: bool, rest: seq<byte>)
    requires StrFits(agency) && |data| < Pow256(LenNumber)
    requires forall i | 0 <= i < |data| :: WellFormedBet(data[i])
    ensures BatchFrame(agency, data, lastBatch).Ok?
    ensures ParseBatch(BatchFrame(agency, data, lastBatch).value + rest) == Ok((Batch(agency, data, lastBatch), rest))
  {
    BetsRoundTrip(data, rest);
    var tag: byte := if lastBatch then LastBatch as int else NormalBatch as int;
    var c := ToBytes(|data|, LenNumber).value;
    var b := EncodeEach(EncodeBet, data).value;
    var afterCount := b + rest;
    var afterAgency := c + afterCount;
    StrRoundTrip(agency, afterAgency);
    var a := EncodeStr(agency).value;
    var body := a + afterAgency;
    assert afterAgency[..LenNumber] == c && afterAgency[LenNumber..] == afterCount;
    ParseBatchParts(tag, body, afterAgency, afterCount, rest, agency, data);
    assert BatchFrame(agency, data, lastBatch).value == [tag] + a + c + b;
    Regroup([tag], a, c, b, rest);
  }

  // ------------------------------------------------ when encode_batch raises

  /** A string EncodeStr accepts: its length fits the 2-byte prefix and every
      character has a latin-1 byte. */
  predicate Encodable(s: string) {
    |s| < Pow256(LenString) && IsLatin1(s)
  }

  /** EncodeEach succeeds exactly when every item encodes. */
  lemma {:induction false} EncodeEachOk<T>(f: T -> Result<seq<byte>>, xs: seq<T>)
    ensures EncodeEach(f, xs).Ok? <==> forall i | 0 <= i < |xs| :: f(xs[i]).Ok?
  {
    if xs != [] {
      EncodeEachOk(f, xs[1..]);
      assert forall i | 1 <= i < |xs| :: xs[i] == xs[1..][i - 1];
    }
  }

  /** Every comma-separated field of the bet is encodable. */
  predicate FieldsEncodable(bet: string) {
    forall j | 0 <= j < |Split(bet, Comma)| :: Encodable(Split(bet, Comma)[j])
  }

  /** One bet encodes exactly when each of its comma-separated fields does. */
  lemma BetEncodable(bet: string)
    ensures EncodeBet(bet).Ok? <==> FieldsEncodable(bet)
  {
    var fields := Split(bet, Comma);
    EncodeEachOk(EncodeStr, fields);
    if FieldsEncodable(bet) {
      forall j | 0 <= j < |fields| ensures EncodeStr(fields[j]).Ok? {
        assert Encodable(fields[j]);
      }
    } else {
      var j :| 0 <= j < |fields| && !Encodable(fields[j]);
      assert EncodeStr(fields[j]).Err?;
    }
  }

  /** encode_batch raises (OverflowError or UnicodeEncodeError) exactly when
      the agency or some field of some bet is 65536 characters or longer or
      holds a character above U+00FF, or there are 65536 bets or more. */
  lemma BatchFrameOk(agency: string, data: seq<string>, lastBatch: bool)
    ensures BatchFrame(agency, data, lastBatch).Ok? <==>
      Encodable(agency) && |data| < Pow256(LenNumber) && forall i | 0 <= i < |data| :: FieldsEncodable(data[i])
  {
    EncodeEachOk(EncodeBet, data);
    forall i | 0 <= i < |data| ensures EncodeBet(data[i]).Ok? <==> FieldsEncodable(data[i]) {
      BetEncodable(data[i]);
    }
    assert BatchFrame(agency, data, lastBatch).Ok? <==>
      EncodeStr(agency).Ok? && ToBytes(|data|, LenNumber).Ok? && EncodeEach(EncodeBet, data).Ok?;
  }

  // ------------------------------------------------------------ frame length

  /** The sum of g over xs. */
  function Sum<T>(g: T -> nat, xs: seq<T>): nat {
    if xs == [] then 0 else g(xs[0]) + Sum(g, xs[1..])
  }

  /** Bytes one field takes on the wire: its 2-byte length, then itself. */
  function FieldWidth(s: string): nat {
    LenString + |s|
  }

  /** Bytes one bet takes on the wire: every one of its fields. */
  function BetWidth(bet: string): nat {
    Sum(FieldWidth, Split(bet, Comma))
  }

  /** Items whose encodings take g(x) bytes each take the sum of g together. */
  lemma {:induction false} EncodeEachLength<T>(f: T -> Result<seq<byte>>, g: T -> nat, xs: seq<T>)
    requires forall x :: f(x).Ok? ==> |f(x).value| == g(x)
    ensures EncodeEach(f, xs).Ok? ==> |EncodeEach(f, xs).value| == Sum(g, xs)
  {
    if xs != [] {
      EncodeEachLength(f, g, xs[1..]);
    }
  }

  /** An encoded batch is 1 + 2 + len(agency) + 2 bytes, plus 2 + len(field)
      for every field of every bet. */
  lemma BatchFrameLength(agency: string, data: seq<string>, lastBatch: bool)
    ensures BatchFrame(agency, data, lastBatch).Ok? ==>
      |BatchFrame(agency, data, lastBatch).value| == LenType + LenString + |agency| + LenNumber + Sum(BetWidth, data)
  {
    forall bet ensures EncodeBet(bet).Ok? ==> |EncodeBet(bet).value| == BetWidth(bet) {
      EncodeEachLength(EncodeStr, FieldWidth, Split(bet, Comma));
    }
    EncodeEachLength(EncodeBet, BetWidth, data);
  }

  /** The first byte of an encoded batch is 'L' for the last batch and 'N'
      otherwise, so decode_batch recovers the flag from it. */
  lemma BatchFrameTag(agency: string, data: seq<string>, lastBatch: bool)
    ensures BatchFrame(agency, data, lastBatch).Ok? ==>
      (BatchFrame(agency, data, lastBatch).value[0] == LastBatch as int <==> lastBatch) &&
      (BatchFrame(agency, data, lastBatch).value[0] == NormalBatch as int <==> !lastBatch)
  {
  }

  // ------------------------------------------------------ what decode reads

  /** decode_batch returns exactly as many bets as the 2-byte count that
      follows the agency says. */
  lemma DecodedCount(input: seq<byte>)
    ensures ParseBatch(input).Ok? ==>
      var size := FromBytes(input[LenType..LenType + LenString]);
      var at := LenType + LenString + size;
      at + LenNumber <= |input| && |ParseBatch(input).value.0.data| == FromBytes(input[at..at + LenNumber])
  {
    if ParseBatch(input).Ok? {
      var body, afterAgency, afterCount := ParseBatchPieces(input);
      ParseStrConsumes(body);
      var size := FromBytes(body[..LenString]);
      Slices2(input, LenType, LenString, size, LenNumber);
    }
  }

  /** Slicing a slice, as decode_batch does, is slicing the whole. */
  lemma Slices2<T>(s: seq<T>, a: nat, b: nat, c: nat, d: nat)
    requires a + b + c <= |s|
    ensures s[a..][..b] == s[a..a + b]
    ensures s[a..][b + c..] == s[a + b + c..]
    ensures a + b + c + d <= |s| ==> s[a + b + c..][..d] == s[a + b + c..a + b + c + d]
  {
  }

  // ------------------------------------------------- a frame cut short

  /** A reader that only looks at the bytes it consumes: bytes arriving
      after a successful read change nothing but what is left over. */
  ghost predicate Prefixed<T(!new)>(p: seq<byte> -> Result<(T, seq<byte>)>, y: seq<byte>) {
    forall s: seq<byte> {:trigger p(s + y)} :: p(s).Ok? ==> p(s + y) == Ok((p(s).value.0, p(s).value.1 + y))
  }

  lemma StrPrefixed(y: seq<byte>)
    ensures Prefixed(ParseStr, y)
  {
    forall s: seq<byte> | ParseStr(s).Ok?
      ensures ParseStr(s + y) == Ok((ParseStr(s).value.0, ParseStr(s).value.1 + y))
    {
      var size := FromBytes(s[..LenString]);
      assert (s + y)[..LenString] == s[..LenString];
      assert (s + y)[LenString..] == s[LenString..] + y;
      assert (s[LenString..] + y)[..size] == s[LenString..][..size];
      assert (s[LenString..] + y)[size..] == s[LenString..][size..] + y;
    }
  }

  lemma NumberPrefixed(y: seq<byte>)
    ensures Prefixed(ParseNumber, y)
  {
    forall s: seq<byte> | ParseNumber(s).Ok?
      ensures ParseNumber(s + y) == Ok((ParseNumber(s).value.0, ParseNumber(s).value.1 + y))
    {
      assert (s + y)[..LenNumber] == s[..LenNumber];
      assert (s + y)[LenNumber..] == s[LenNumber..] + y;
    }
  }

  lemma {:induction false} ManyPrefixed<T(!new)>(p: seq<byte> -> Result<(T, seq<byte>)>, y: seq<byte>, s: seq<byte>, n: nat)
    requires Prefixed(p, y)
    ensures ParseMany(p, s, n).Ok? ==>
      ParseMany(p, s + y, n) == Ok((ParseMany(p, s, n).value.0, ParseMany(p, s, n).value.1 + y))
  {
    if n > 0 && ParseMany(p, s, n).Ok? {
      ManyPrefixed(p, y, s, n - 1);
      var item := ParseManyLast(p, s, n - 1);
      ParseManyStep(p, s + y, n - 1, ParseMany(p, s, n - 1).value.0, ParseMany(p, s, n - 1).value.1 + y, item.0, item.1 + y);
    }
  }

  lemma FieldsPrefixed<T(!new)>(p: seq<byte> -> Result<(T, seq<byte>)>, y: seq<byte>, s: seq<byte>)
    requires Prefixed(p, y)
    ensures ParseFields(p, s).Ok? ==>
      ParseFields(p, s + y) == Ok((ParseFields(p, s).value.0, ParseFields(p, s).value.1 + y))
  {
  }

  lemma BetPrefixed(y: seq<byte>)
    ensures Prefixed(ParseBet, y)
  {
    StrPrefixed(y);
    forall s: seq<byte> | ParseBet(s).Ok?
      ensures ParseBet(s + y) == Ok((ParseBet(s).value.0, ParseBet(s).value.1 + y))
    {
      FieldsPrefixed(ParseStr, y, s);
    }
  }

  /** The parts a decoded batch was read from, in the order decode_batch
      reads them. */
  lemma ParseBatchPieces(s: seq<byte>) returns (body: seq<byte>, afterAgency: seq<byte>, afterCount: seq<byte>)
    requires ParseBatch(s).Ok?
    ensures s != [] && s[0] < 128 && body == s[LenType..]
    ensures var batch := ParseBatch(s).value.0;
      ParseStr(body) == Ok((batch.agency, afterAgency)) &&
      ParseNumber(afterAgency) == Ok((|batch.data|, afterCount)) &&
      ParseBets(afterCount, |batch.data|) == Ok((batch.data, ParseBatch(s).value.1)) &&
      batch.lastBatch == (s[0] == LastBatch as int)
  {
    body := s[LenType..];
    ParseBatchAt(s);
    var agency := ParseStr(body);
    assert agency.Ok?;
    afterAgency := agency.value.1;
    var count := ParseNumber(afterAgency);
    assert count.Ok?;
    afterCount := count.value.1;
    var bets := ParseBets(afterCount, count.value.0);
    assert bets.Ok?;
    assert ParseBatch(s) == Ok((Batch(agency.value.0, bets.value.0, s[0] == LastBatch as int), bets.value.1));
  }

  lemma PiecesPrefixed(body: seq<byte>, afterAgency: seq<byte>, afterCount: seq<byte>, rest: seq<byte>, y: seq<byte>, agency: string, data: seq<string>)
    requires ParseStr(body) == Ok((agency, afterAgency))
    requires ParseNumber(afterAgency) == Ok((|data|, afterCount))
    requires ParseBets(afterCount, |data|) == Ok((data, rest))
    ensures ParseStr(body + y) == Ok((agency, afterAgency + y))
    ensures ParseNumber(afterAgency + y) == Ok((|data|, afterCount + y))
    ensures ParseBets(afterCount + y, |data|) == Ok((data, rest + y))
  {
    StrPrefixed(y);
    NumberPrefixed(y);
    BetPrefixed(y);
    ManyPrefixed(ParseBet, y, afterCount, |data|);
    assert ParseStr(body + y) == Ok((agency, afterAgency + y));
  }

  /** Bytes arriving after a complete batch do not change what decode_batch
      returns; they stay unread. */
  lemma BatchPrefixed(s: seq<byte>, y: seq<byte>)
    requires ParseBatch(s).Ok?
    ensures ParseBatch(s + y) == Ok((ParseBatch(s).value.0, ParseBatch(s).value.1 + y))
  {
    var batch, rest := ParseBatch(s).value.0, ParseBatch(s).value.1;
    var body, afterAgency, afterCount := ParseBatchPieces(s);
    PiecesPrefixed(body, afterAgency, afterCount, rest, y, batch.agency, batch.data);
    Uncons(s);
    Associate([s[0]], body, y);
    ParseBatchParts(s[0], body + y, afterAgency + y, afterCount + y, rest + y, batch.agency, batch.data);
  }

  /** Input that decode_batch reads to its last byte fails to decode when
      cut short: decode_batch never returns part of a batch. */
  lemma TruncatedBatchFails(s: seq<byte>, k: nat)
    requires ParseBatch(s).Ok? && ParseBatch(s).value.1 == []
    requires k < |s|
    ensures ParseBatch(s[..k]).Err?
  {
    if ParseBatch(s[..k]).Ok? {
      Rejoin(s, k);
      BatchPrefixed(s[..k], s[k..]);
    }
  }

  /** In particular a batch frame cut short anywhere fails to decode. */
  lemma TruncatedFrameFails(agency: string, data: seq<string>, lastBatch: bool, k: nat)
    requires StrFits(agency) && |data| < Pow256(LenNumber)
    requires forall i | 0 <= i < |data| :: WellFormedBet(data[i])
    ensures BatchFrame(agency, data, lastBatch).Ok?
    ensures k < |BatchFrame(agency, data, lastBatch).value| ==>
      ParseBatch(BatchFrame(agency, data, lastBatch).value[..k]).Err?
  {
    BatchRoundTrip(agency, data, lastBatch, []);
    var frame := BatchFrame(agency, data, lastBatch).value;
    assert frame + [] == frame;
    if k < |frame| {
      TruncatedBatchFails(frame, k);
    }
  }

  /** Concatenation regrouped to the right, away from the parsing facts. */
  lemma Regroup<T>(t: seq<T>, a: seq<T>, c: seq<T>, b: seq<T>, rest: seq<T>)
    ensures t + a + c + b + rest == t + (a + (c + (b + rest)))
  {
  }

  lemma Uncons<T>(s: seq<T>)
    requires s != []
    ensures s == [s[0]] + s[1..]
  {
  }

  lemma Associate<T>(a: seq<T>, b: seq<T>, c: seq<T>)
    ensures a + b + c == a + (b + c)
  {
  }

  lemma Rejoin<T>(s: seq<T>, k: nat)
    requires k <= |s|
    ensures s[..k] + s[k..] == s
  {
  }
}
