/** Python string operations the codec relies on: `str.split(sep)`,
    `sep.join(parts)`, `bytes(s, 'latin1')` and `bytes.decode()`. */
module Text {
  import opened Results
  import opened Bytes

  predicate IsAscii(s: string) {
    forall i | 0 <= i < |s| :: s[i] as int < 128
  }

  predicate IsLatin1(s: string) {
    forall i | 0 <= i < |s| :: s[i] as int < 256
  }

  /** `str.split(sep)`: the pieces between separators, never an empty list
      (an empty string splits into [""]), and no piece holds the separator. */
  function Split(s: string, sep: char): (r: seq<string>)
    ensures |r| >= 1
    ensures forall i | 0 <= i < |r| :: sep !in r[i]
  {
    if s == [] then [""]
    else
      var tail := Split(s[1..], sep);
      if s[0] == sep then [""] + tail
      else [[s[0]] + tail[0]] + tail[1..]
  }

  /** `sep.join(parts)`. */
  function Join(parts: seq<string>, sep: char): (r: string)
    ensures |parts| >= 1 ==> parts[0] <= r
  {
    if |parts| == 0 then ""
    else if |parts| == 1 then parts[0]
    else parts[0] + [sep] + Join(parts[1..], sep)
  }

  /** Joining n separator-free pieces puts exactly n - 1 separators in the text. */
  lemma {:induction false} JoinSeparators(parts: seq<string>, sep: char)
    requires forall i | 0 <= i < |parts| :: sep !in parts[i]
    ensures multiset(Join(parts, sep))[sep] == if |parts| == 0 then 0 else |parts| - 1
  {
    if |parts| >= 2 {
      JoinSeparators(parts[1..], sep);
      assert sep !in parts[0];
      assert multiset(parts[0])[sep] == 0;
    } else if |parts| == 1 {
      assert sep !in parts[0];
    }
  }

  /** Joining the pieces of a split gives back the string. */
  lemma {:induction false} JoinSplit(s: string, sep: char)
    ensures Join(Split(s, sep), sep) == s
  {
    if s != [] {
      var tail := Split(s[1..], sep);
      JoinSplit(s[1..], sep);
      if s[0] == sep {
        assert ([""] + tail)[1..] == tail;
      } else if |tail| > 1 {
        var r := [[s[0]] + tail[0]] + tail[1..];
        assert r[1..] == tail[1..];
      }
    }
  }

  lemma {:induction false} SplitPrefix(w: string, t: string, sep: char)
    requires sep !in w
    ensures Split(w + t, sep) == [w + Split(t, sep)[0]] + Split(t, sep)[1..]
  {
    if w != [] {
      assert (w + t)[1..] == w[1..] + t;
      SplitPrefix(w[1..], t, sep);
      assert [w[0]] + (w[1..] + Split(t, sep)[0]) == w + Split(t, sep)[0];
    } else {
      var r := Split(t, sep);
      assert w + t == t && w + r[0] == r[0];
      assert r == [r[0]] + r[1..];
    }
  }

  /** Splitting the join of at least one separator-free piece gives the pieces back. */
  lemma {:induction false} SplitJoin(parts: seq<string>, sep: char)
    requires |parts| >= 1
    requires forall i | 0 <= i < |parts| :: sep !in parts[i]
    ensures Split(Join(parts, sep), sep) == parts
  {
    if |parts| == 1 {
      SplitPrefix(parts[0], "", sep);
      assert parts[0] + "" == parts[0];
    } else {
      var rest := Join(parts[1..], sep);
      SplitJoin(parts[1..], sep);
      assert parts[0] + [sep] + rest == parts[0] + ([sep] + rest);
      SplitPrefix(parts[0], [sep] + rest, sep);
      assert ([sep] + rest)[1..] == rest;
      assert parts[0] + "" == parts[0];
      assert parts == [parts[0]] + parts[1..];
    }
  }

  /** Joining ASCII pieces with an ASCII separator gives ASCII text. */
  lemma {:induction false} JoinAscii(parts: seq<string>, sep: char)
    requires sep as int < 128
    requires forall i | 0 <= i < |parts| :: IsAscii(parts[i])
    ensures IsAscii(Join(parts, sep))
  {
    if |parts| > 1 {
      JoinAscii(parts[1..], sep);
      var tail := Join(parts[1..], sep);
      assert IsAscii(parts[0]);
      forall i | 0 <= i < |parts[0] + [sep] + tail| ensures (parts[0] + [sep] + tail)[i] as int < 128 {
        if i > |parts[0]| {
          assert (parts[0] + [sep] + tail)[i] == tail[i - |parts[0]| - 1];
        }
      }
    }
  }

  /** `bytes(s, 'latin1')`: one byte per character, UnicodeEncodeError (here
      NotLatin1) at the first character above U+00FF. */
  function Latin1(s: string): (r: Result<seq<byte>>)
    ensures r.Ok? <==> IsLatin1(s)
    ensures r.Ok? ==> |r.value| == |s| && forall i | 0 <= i < |s| :: r.value[i] == s[i] as int
    ensures r.Err? ==> r.error == NotLatin1
  {
    if s == [] then Ok([])
    else if s[0] as int >= 256 then Err(NotLatin1)
    else
      var tail :- Latin1(s[1..]);
      Ok([s[0] as int] + tail)
  }

  /** `bytes.decode()` restricted to ASCII: every byte below 128 becomes the
      character with that code; any other byte is refused. */
  function Utf8Decode(bs: seq<byte>): (r: Result<string>)
    ensures r.Ok? <==> forall i | 0 <= i < |bs| :: bs[i] < 128
    ensures r.Ok? ==> |r.value| == |bs| && IsAscii(r.value)
    ensures r.Ok? ==> forall i | 0 <= i < |bs| :: r.value[i] as int == bs[i]
    ensures r.Err? ==> r.error == NotUtf8
  {
    if bs == [] then Ok([])
    else if bs[0] >= 128 then Err(NotUtf8)
    else
      var tail :- Utf8Decode(bs[1..]);
      Ok([bs[0] as char] + tail)
  }

  /** ASCII text survives the encoder's latin-1 and the decoder's UTF-8. */
  lemma Latin1Utf8(s: string)
    requires IsAscii(s)
    ensures Latin1(s).Ok? && Utf8Decode(Latin1(s).value) == Ok(s)
  {
    var d := Utf8Decode(Latin1(s).value);
    assert d.Ok?;
    assert d.value == s;
  }
}
