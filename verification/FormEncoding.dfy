/** Form encoding of Basic credentials (section 2.3.1 of RFC 6749), and the capped reading of
    a response body. */
module FormEncoding {
  import opened Options
  import opened Bytes

  predicate Unreserved(b: Byte) {
    || 65 <= b <= 90 || 97 <= b <= 122 || 48 <= b <= 57
    || b == 45 || b == 46 || b == 95 || b == 126
  }

  const HEX := "0123456789ABCDEF"

  function EncodeByte(b: Byte): string {
    if Unreserved(b) then [b as int as char]
    else if b == 32 then "+"
    else ['%', HEX[b as int / 16], HEX[b as int % 16]]
  }

  function Encode(s: Text): string {
    if s == [] then "" else EncodeByte(s[0]) + Encode(s[1..])
  }

  lemma {:induction false} EncodePlus(s: Text, t: Text)
    ensures Encode(s + t) == Encode(s) + Encode(t)
  {
    hide EncodeByte;
    if s == [] {
      assert s + t == t;
    } else {
      assert (s + t)[1..] == s[1..] + t;
      EncodePlus(s[1..], t);
    }
  }

  lemma EncodeOne(b: Byte)
    ensures Encode([b]) == EncodeByte(b)
  {
    assert EncodeByte(b) + "" == EncodeByte(b);
  }

  method FormUrlEncode(value: Text) returns (out: string)
    ensures out == Encode(value)
  {
    out := "";
    for i := 0 to |value|
      invariant out == Encode(value[..i])
    {
      var b := value[i];
      assert value[..i + 1] == value[..i] + [b];
      EncodePlus(value[..i], [b]);
      EncodeOne(b);
      hide Encode;
      if Unreserved(b) {
        out := out + [b as int as char];
      } else if b == 32 {
        out := out + "+";
      } else {
        out := out + ['%', HEX[b as int / 16], HEX[b as int % 16]];
      }
    }
    assert value[..|value|] == value;
  }

  // ---- decoding ----

  function HexDigit(c: char): Option<int> {
    if '0' <= c <= '9' then Some((c - '0') as int)
    else if 'A' <= c <= 'F' then Some((c - 'A') as int + 10)
    else None
  }

  function Cons(b: Byte, rest: Option<Text>): Option<Text> {
    if rest.None? then None else Some([b] + rest.value)
  }

  /** The inverse; `None` on text that no encoding yields. */
  function Decode(s: string): Option<Text> {
    if s == "" then Some([])
    else if s[0] == '+' then Cons(32, Decode(s[1..]))
    else if s[0] == '%' then
      if |s| < 3 || HexDigit(s[1]).None? || HexDigit(s[2]).None? then None
      else Cons((HexDigit(s[1]).value * 16 + HexDigit(s[2]).value) as Byte, Decode(s[3..]))
    else if s[0] < '\U{80}' && Unreserved(s[0] as int as Byte) then Cons(s[0] as int as Byte, Decode(s[1..]))
    else None
  }

  lemma HexRoundTrip(n: int)
    requires 0 <= n < 16
    ensures HexDigit(HEX[n]) == Some(n)
  {
  }

  lemma DecodeByte(b: Byte, rest: string)
    ensures Decode(EncodeByte(b) + rest) == Cons(b, Decode(rest))
  {
    var e := EncodeByte(b);
    var s := e + rest;
    assert s[|e|..] == rest && forall i :: 0 <= i < |e| ==> s[i] == e[i];
    if !Unreserved(b) && b != 32 {
      HexRoundTrip(b as int / 16);
      HexRoundTrip(b as int % 16);
      assert s[1] == HEX[b as int / 16] && s[2] == HEX[b as int % 16];
      assert HexDigit(s[1]).value * 16 + HexDigit(s[2]).value == b as int;
    } else {
      assert s[1..] == rest;
    }
  }

  /** Decoding undoes encoding, on every byte string. */
  lemma {:induction false} DecodeEncode(s: Text)
    ensures Decode(Encode(s)) == Some(s)
  {
    if s == [] {
    } else {
      DecodeEncode(s[1..]);
      DecodeByte(s[0], Encode(s[1..]));
      assert [s[0]] + s[1..] == s;
    }
  }

  // ---- the shape of what is sent ----

  /** Characters that are sent as they are. */
  predicate Bare(c: char) {
    'a' <= c <= 'z' || 'A' <= c <= 'Z' || '0' <= c <= '9' || c in {'-', '.', '_', '~'}
  }

  /** And plus signs, and the characters of `%XX`. */
  predicate Safe(c: char) {
    c == '+' || c == '%' || Bare(c)
  }

  /** What each byte is sent as: itself if it is bare, a plus sign for a blank, and otherwise its
      two digits, in upper case, after a percent sign. */
  lemma ByteIsSent(b: Byte)
    ensures var e := Encode([b]);
            var c := b as int as char;
            if Bare(c) then e == [c]
            else if c == ' ' then e == "+"
            else
              && |e| == 3 && e[0] == '%'
              && exists h, l :: 0 <= h < 16 && 0 <= l < 16 && b as int == 16 * h + l && IsDigit(e[1], h) && IsDigit(e[2], l)
  {
    EncodeOne(b);
    if !Unreserved(b) && b != 32 {
      var h, l := b as int / 16, b as int % 16;
      DigitIs(h);
      DigitIs(l);
      hide IsDigit;
      assert EncodeByte(b)[1] == HEX[h] && EncodeByte(b)[2] == HEX[l];
    }
  }

  ghost predicate IsDigit(c: char, n: int) {
    if n < 10 then c as int == '0' as int + n else c as int == 'A' as int + n - 10
  }

  lemma DigitIs(n: int)
    requires 0 <= n < 16
    ensures IsDigit(HEX[n], n)
  {
  }

  lemma ByteIsSafe(b: Byte)
    ensures 1 <= |EncodeByte(b)| <= 3
    ensures forall i :: 0 <= i < |EncodeByte(b)| ==> Safe(EncodeByte(b)[i])
  {
    assert forall n :: 0 <= n < 16 ==> Safe(HEX[n]);
  }

  lemma {:induction false} OutputIsSafe(s: Text)
    ensures forall i :: 0 <= i < |Encode(s)| ==> Safe(Encode(s)[i])
    ensures |s| <= |Encode(s)| <= 3 * |s|
  {
    hide Safe, EncodeByte;
    if s == [] {
    } else {
      OutputIsSafe(s[1..]);
      ByteIsSafe(s[0]);
    }
  }

  function Credentials(id: Text, secret: Text): string {
    Encode(id) + ":" + Encode(secret)
  }

  /** A server's reading of the credentials: the parts before and after the first colon. */
  function Parse(s: string): Option<(Text, Text)> {
    var n := ColonAt(s);
    if n == |s| || Decode(s[..n]).None? || Decode(s[n + 1..]).None? then None
    else Some((Decode(s[..n]).value, Decode(s[n + 1..]).value))
  }

  function ColonAt(s: string): (n: nat)
    ensures n <= |s|
    ensures forall i :: 0 <= i < n ==> s[i] != ':'
    ensures n < |s| ==> s[n] == ':'
  {
    if s == "" || s[0] == ':' then 0 else 1 + ColonAt(s[1..])
  }

  /** The credentials hold exactly one colon, whatever the two parts contain, and a server
      reads back exactly the two parts. */
  lemma CredentialsParse(id: Text, secret: Text)
    ensures var s := Credentials(id, secret);
            && (forall i :: 0 <= i < |s| ==> (s[i] == ':' <==> i == |Encode(id)|))
            && Parse(s) == Some((id, secret))
  {
    OutputIsSafe(id);
    OutputIsSafe(secret);
    DecodeEncode(id);
    DecodeEncode(secret);
    var s := Credentials(id, secret);
    var a, b := Encode(id), Encode(secret);
    hide Encode, Decode;
    assert !Safe(':');
    forall i | 0 <= i < |s| ensures s[i] == ':' <==> i == |a| {
      if i < |a| {
        assert s[i] == a[i];
      } else if i > |a| {
        assert s[i] == b[i - |a| - 1];
      }
    }
    assert s[|a|] == ':' && ColonAt(s) == |a|;
    assert s[..|a|] == a && s[|a| + 1..] == b;
  }

  /** Different pairs give different credentials. */
  lemma CredentialsDetermine(id: Text, secret: Text, id': Text, secret': Text)
    requires Credentials(id, secret) == Credentials(id', secret')
    ensures id == id' && secret == secret'
  {
    CredentialsParse(id, secret);
    CredentialsParse(id', secret');
  }

  // ---- the capped body ----

  const MAX_BODY_BYTES: nat := 1048576

  datatype Chunk = Data(bytes: Text) | Broken

  datatype ReadError = TooLarge | ReadFailed

  ghost predicate AllData(chunks: seq<Chunk>) {
    forall i :: 0 <= i < |chunks| ==> chunks[i].Data?
  }

  ghost function Flat(chunks: seq<Chunk>): Text {
    if chunks == [] then []
    else Flat(chunks[..|chunks| - 1]) + if chunks[|chunks| - 1].Data? then chunks[|chunks| - 1].bytes else []
  }

  /** Chunk `i` is the first that cannot be taken in. */
  ghost predicate StopsAt(chunks: seq<Chunk>, i: nat) {
    && i < |chunks| && AllData(chunks[..i]) && |Flat(chunks[..i])| <= MAX_BODY_BYTES
    && (chunks[i].Broken? || |Flat(chunks[..i + 1])| > MAX_BODY_BYTES)
  }

  /** The whole body, if every chunk arrives and the whole fits; otherwise the error of the
      first chunk that fails or would not fit, and nothing past it is read. */
  method ReadCappedBody(chunks: seq<Chunk>) returns (r: Result<Text, ReadError>, taken: nat)
    ensures r.Ok? <==> AllData(chunks) && |Flat(chunks)| <= MAX_BODY_BYTES
    ensures r.Ok? ==> r.value == Flat(chunks) && taken == |chunks|
    ensures r.Err? ==> taken > 0 && StopsAt(chunks, taken - 1)
    ensures r.Err? ==> (r.error == ReadFailed <==> chunks[taken - 1].Broken?)
  {
    var body: Text := [];
    for i := 0 to |chunks|
      invariant AllData(chunks[..i]) && body == Flat(chunks[..i]) && |body| <= MAX_BODY_BYTES
    {
      assert chunks[..i + 1][..i] == chunks[..i];
      FlatPrefix(chunks, i + 1);
      if chunks[i].Broken? {
        return Err(ReadFailed), i + 1;
      }
      if |body| + |chunks[i].bytes| > MAX_BODY_BYTES {
        return Err(TooLarge), i + 1;
      }
      body := body + chunks[i].bytes;
    }
    assert chunks[..|chunks|] == chunks;
    return Ok(body), |chunks|;
  }

  lemma {:induction false} FlatPrefix(chunks: seq<Chunk>, n: nat)
    requires n <= |chunks|
    ensures |Flat(chunks[..n])| <= |Flat(chunks)|
    decreases |chunks|
  {
    if n < |chunks| {
      var m := |chunks| - 1;
      FlatPrefix(chunks[..m], n);
      assert chunks[..m][..n] == chunks[..n];
    } else {
      assert chunks[..n] == chunks;
    }
  }
}
