/** The Base64 alphabet and padding of section 4 of RFC 4648, as used by
    Python's `base64.b64encode` and `base64.b64decode`. */
module Base64 {
  import opened Values

  /** The character that stands for the 6-bit group `n`. */
  function SextetChar(n: int): (c: char)
    requires 0 <= n < 64
    ensures IsAlphabetChar(c)
  {
    if n < 26 then ('A' as int + n) as char
    else if n < 52 then ('a' as int + (n - 26)) as char
    else if n < 62 then ('0' as int + (n - 52)) as char
    else if n == 62 then '+'
    else '/'
  }

  /** The 6-bit group a character stands for, or None outside the alphabet. */
  function CharSextet(c: char): (r: Option<int>)
    ensures r.Some? <==> IsAlphabetChar(c)
    ensures r.Some? ==> 0 <= r.value < 64 && SextetChar(r.value) == c
  {
    if 'A' <= c <= 'Z' then Some(c as int - 'A' as int)
    else if 'a' <= c <= 'z' then Some(c as int - 'a' as int + 26)
    else if '0' <= c <= '9' then Some(c as int - '0' as int + 52)
    else if c == '+' then Some(62)
    else if c == '/' then Some(63)
    else None
  }

  predicate IsAlphabetChar(c: char) {
    'A' <= c <= 'Z' || 'a' <= c <= 'z' || '0' <= c <= '9' || c == '+' || c == '/'
  }

  /** Decoding a character inverts encoding a 6-bit group. */
  lemma SextetRoundTrip(n: int)
    requires 0 <= n < 64
    ensures CharSextet(SextetChar(n)) == Some(n)
  {
  }

  /** The four characters that encode three bytes. */
  function EncodeTriple(x: byte, y: byte, z: byte): (q: string)
    ensures |q| == 4
  {
    [SextetChar(x as int / 4),
     SextetChar((x as int % 4) * 16 + y as int / 16),
     SextetChar((y as int % 16) * 4 + z as int / 64),
     SextetChar(z as int % 64)]
  }

  /** The padded encoding of the bytes of `b`, three bytes to four characters. */
  function Encode(b: seq<byte>): (s: string)
    ensures |s| == 4 * ((|b| + 2) / 3)
    ensures forall i :: 0 <= i < |s| ==> IsAlphabetChar(s[i]) || s[i] == '='
    decreases |b|
  {
    if |b| == 0 then ""
    else if |b| == 1 then
      [SextetChar(b[0] as int / 4), SextetChar((b[0] as int % 4) * 16), '=', '=']
    else if |b| == 2 then
      [SextetChar(b[0] as int / 4),
       SextetChar((b[0] as int % 4) * 16 + b[1] as int / 16),
       SextetChar((b[1] as int % 16) * 4), '=']
    else
      EncodeTriple(b[0], b[1], b[2]) + Encode(b[3..])
  }

  /** The bytes that four 6-bit groups hold; for a padded group only the
      leading bytes are kept by the caller. */
  function Bytes(p: int, q: int, r: int, s: int): (b: seq<byte>)
    requires 0 <= p < 64 && 0 <= q < 64 && 0 <= r < 64 && 0 <= s < 64
    ensures |b| == 3
  {
    [(p * 4 + q / 16) as byte, ((q % 16) * 16 + r / 4) as byte, ((r % 4) * 64 + s) as byte]
  }

  /** Four alphabet characters decoded to three bytes. */
  function DecodeQuad(q: string): (r: Option<seq<byte>>)
    requires |q| == 4
    ensures r.Some? ==> |r.value| == 3
  {
    match (CharSextet(q[0]), CharSextet(q[1]), CharSextet(q[2]), CharSextet(q[3]))
    case (Some(a), Some(b), Some(c), Some(d)) => Some(Bytes(a, b, c, d))
    case _ => None
  }

  /** The last group of four characters, which may end in one or two `=`. */
  function DecodeFinalQuad(q: string): (r: Option<seq<byte>>)
    requires |q| == 4
    ensures r.Some? ==> 1 <= |r.value| <= 3
  {
    if q[2] == '=' && q[3] == '=' then
      match (CharSextet(q[0]), CharSextet(q[1]))
      case (Some(a), Some(b)) => Some(Bytes(a, b, 0, 0)[..1])
      case _ => None
    else if q[3] == '=' then
      match (CharSextet(q[0]), CharSextet(q[1]), CharSextet(q[2]))
      case (Some(a), Some(b), Some(c)) => Some(Bytes(a, b, c, 0)[..2])
      case _ => None
    else
      DecodeQuad(q)
  }

  /** Decoding of a padded Base64 text; None where `b64decode` raises
      (a length that is not a multiple of four, a character outside the
      alphabet, padding anywhere but at the end). */
  function Decode(s: string): (r: Option<seq<byte>>)
    decreases |s|
  {
    if |s| == 0 then Some([])
    else if |s| < 4 then None
    else if |s| == 4 then DecodeFinalQuad(s)
    else
      match DecodeQuad(s[..4])
      case None => None
      case Some(head) =>
        match Decode(s[4..])
        case None => None
        case Some(tail) => Some(head + tail)
  }

  /** Three bytes survive their encoding. */
  lemma TripleRoundTrip(x: byte, y: byte, z: byte)
    ensures DecodeQuad(EncodeTriple(x, y, z)) == Some([x, y, z])
  {
    var p, q, r, s := x as int / 4, (x as int % 4) * 16 + y as int / 16,
                      (y as int % 16) * 4 + z as int / 64, z as int % 64;
    SextetRoundTrip(p); SextetRoundTrip(q); SextetRoundTrip(r); SextetRoundTrip(s);
    assert q / 16 == x as int % 4 && q % 16 == y as int / 16;
    assert r / 4 == y as int % 16 && r % 4 == z as int / 64;
  }

  /** One trailing byte survives its padded encoding. */
  lemma SingleRoundTrip(x: byte)
    ensures Decode(Encode([x])) == Some([x])
  {
    var p, q := x as int / 4, (x as int % 4) * 16;
    SextetRoundTrip(p); SextetRoundTrip(q);
    var e := Encode([x]);
    assert e == [SextetChar(p), SextetChar(q), '=', '='];
    assert q / 16 == x as int % 4;
    assert Decode(e) == DecodeFinalQuad(e);
    assert DecodeFinalQuad(e) == Some(Bytes(p, q, 0, 0)[..1]);
    assert p * 4 + q / 16 == x as int;
    assert Bytes(p, q, 0, 0)[..1] == [x];
  }

  /** Two trailing bytes survive their padded encoding. */
  lemma PairRoundTrip(x: byte, y: byte)
    ensures Decode(Encode([x, y])) == Some([x, y])
  {
    var p, q, r := x as int / 4, (x as int % 4) * 16 + y as int / 16, (y as int % 16) * 4;
    SextetRoundTrip(p); SextetRoundTrip(q); SextetRoundTrip(r);
    var e := Encode([x, y]);
    assert e == [SextetChar(p), SextetChar(q), SextetChar(r), '='];
    assert q / 16 == x as int % 4 && q % 16 == y as int / 16 && r / 4 == y as int % 16;
    assert Decode(e) == DecodeFinalQuad(e);
    assert DecodeFinalQuad(e) == Some(Bytes(p, q, r, 0)[..2]);
    assert p * 4 + q / 16 == x as int;
    assert (q % 16) * 16 + r / 4 == y as int;
    assert Bytes(p, q, r, 0)[..2] == [x, y];
  }

  /** Decoding a final group of four characters with no padding. */
  lemma DecodeLast(t: string)
    requires |t| == 4 && DecodeQuad(t).Some?
    ensures Decode(t) == DecodeQuad(t)
  {
  }

  /** Decoding a text that starts with a full group of four characters. */
  lemma DecodeCons(t: string, rest: string, tail: seq<byte>)
    requires |t| == 4 && DecodeQuad(t).Some?
    requires rest != [] && Decode(rest) == Some(tail)
    ensures Decode(t + rest) == Some(DecodeQuad(t).value + tail)
  {
  }

  /** The encoding of three or more bytes starts with the encoding of the
      first three. */
  lemma EncodeCons(b: seq<byte>)
    requires |b| >= 3
    ensures Encode(b) == EncodeTriple(b[0], b[1], b[2]) + Encode(b[3..])
  {
  }

  /** Exactly three bytes survive their encoding. */
  lemma TripleOnlyRoundTrip(x: byte, y: byte, z: byte)
    ensures Decode(Encode([x, y, z])) == Some([x, y, z])
  {
    var t := EncodeTriple(x, y, z);
    EncodeCons([x, y, z]);
    assert [x, y, z][3..] == [];
    assert Encode([x, y, z]) == t;
    TripleRoundTrip(x, y, z);
    DecodeLast(t);
  }

  /** A sequence of three or more is its first three elements and the rest. */
  lemma SplitThree(b: seq<byte>)
    requires |b| >= 3
    ensures [b[0], b[1], b[2]] + b[3..] == b
  {
  }

  /** Encoding then decoding one group of three leading bytes, given that the
      remaining, non-empty bytes survive. */
  lemma RoundTripStep(b: seq<byte>)
    requires |b| > 3 && Decode(Encode(b[3..])) == Some(b[3..])
    ensures Decode(Encode(b)) == Some(b)
  {
    var t, rest := EncodeTriple(b[0], b[1], b[2]), Encode(b[3..]);
    EncodeCons(b);
    TripleRoundTrip(b[0], b[1], b[2]);
    DecodeCons(t, rest, b[3..]);
    var head := [b[0], b[1], b[2]];
    assert DecodeQuad(t).value == head;
    SplitThree(b);
    calc {
      Decode(Encode(b));
      Decode(t + rest);
      Some(head + b[3..]);
    }
  }

  /** Decoding inverts encoding for every byte sequence. */
  lemma {:induction false} RoundTrip(b: seq<byte>)
    ensures Decode(Encode(b)) == Some(b)
    decreases |b|
  {
    if |b| == 0 {
    } else if |b| == 1 {
      assert b == [b[0]];
      SingleRoundTrip(b[0]);
    } else if |b| == 2 {
      assert b == [b[0], b[1]];
      PairRoundTrip(b[0], b[1]);
    } else if |b| == 3 {
      assert b == [b[0], b[1], b[2]];
      TripleOnlyRoundTrip(b[0], b[1], b[2]);
    } else {
      RoundTrip(b[3..]);
      RoundTripStep(b);
    }
  }
}
