/**
 * Base64url decoding as `base64_decode_safe` in app.py performs it: restore the
 * `=` padding that the mail provider strips, decode with the URL-safe alphabet
 * of section 5 of RFC 4648 as Python's non-strict decoder does, and turn the
 * bytes into text. Any exception gives the empty string. The encoder
 * (sections 4 and 5 of RFC 4648, as `create_message` uses it) is the partner
 * of the decoder in the round-trip lemmas.
 */
module Base64Url {
  import opened Wrappers

  type Byte = b: int | 0 <= b < 256
  type Sextet = v: int | 0 <= v < 64

  /**
   * Bytes to text, UTF-8 with invalid sequences replaced. It is library
   * behaviour that this model does not interpret, so it is a parameter.
   */
  type Utf8Decoder = seq<Byte> -> string

  const PadChar: char := '='

  /** The 64 characters of the URL-safe alphabet. */
  predicate IsAlphabet(c: char) {
    'A' <= c <= 'Z' || 'a' <= c <= 'z' || '0' <= c <= '9' || c == '-' || c == '_'
  }

  function SextetOf(c: char): Sextet
    requires IsAlphabet(c)
  {
    if 'A' <= c <= 'Z' then c as int - 'A' as int
    else if 'a' <= c <= 'z' then c as int - 'a' as int + 26
    else if '0' <= c <= '9' then c as int - '0' as int + 52
    else if c == '-' then 62
    else 63
  }

  function CharOf(v: Sextet): char
  {
    if v < 26 then ('A' as int + v) as char
    else if v < 52 then ('a' as int + v - 26) as char
    else if v < 62 then ('0' as int + v - 52) as char
    else if v == 62 then '-'
    else '_'
  }

  /** The alphabet and the sextets are in one-to-one correspondence. */
  lemma SextetOfCharOf(v: Sextet)
    ensures IsAlphabet(CharOf(v)) && SextetOf(CharOf(v)) == v
  {
  }

  lemma CharOfSextetOf(c: char)
    requires IsAlphabet(c)
    ensures CharOf(SextetOf(c)) == c
  {
  }

  function Pads(n: nat): (r: string)
    ensures |r| == n && forall i | 0 <= i < n :: r[i] == PadChar
  {
    if n == 0 then [] else Pads(n - 1) + [PadChar]
  }

  /**
   * The padding step of `base64_decode_safe`: the shortest extension of `data`
   * by `=` characters whose length is a multiple of four.
   */
  function Padded(data: string): (r: string)
    ensures |r| % 4 == 0
    ensures |data| <= |r| <= |data| + 3
    ensures r[..|data|] == data
    ensures forall i | |data| <= i < |r| :: r[i] == PadChar
  {
    var missing := |data| % 4;
    if missing != 0 then data + Pads(4 - missing) else data
  }


  // ---------------------------------------------------------------------------
  // The decoder: `base64.urlsafe_b64decode`, i.e. `binascii.a2b_base64` in its
  // default, non-strict mode after `-` and `_` are translated to `+` and `/`.

  /**
   * The characters the decoder gives a value: the URL-safe alphabet and the
   * `+` and `/` of the standard alphabet, which carry the same values as `-`
   * and `_`. Every other character except `=` is skipped.
   */
  predicate IsDecodable(c: char) {
    IsAlphabet(c) || c == '+' || c == '/'
  }

  function ValueOf(c: char): Sextet
    requires IsDecodable(c)
  {
    if IsAlphabet(c) then SextetOf(c) else if c == '+' then 62 else 63
  }

  predicate IsAscii(c: char) {
    c as int < 128
  }

  predicate AllAscii(s: string) {
    forall i | 0 <= i < |s| :: IsAscii(s[i])
  }

  /**
   * The decoder between two characters: how many data characters of the
   * current quantum it has seen, the bits of the last one not yet written
   * out, and how many `=` it has seen since the last data character.
   */
  datatype Quad = Quad(pos: nat, left: nat, pads: nat)

  predicate ValidQuad(q: Quad) {
    (q.pos == 0 && q.left == 0)
    || (q.pos == 1 && q.left < 64)
    || (q.pos == 2 && q.left < 16)
    || (q.pos == 3 && q.left < 4)
  }

  const Start: Quad := Quad(0, 0, 0)

  /** The byte completed by the second character of a quantum: 6 bits kept and 2 new. */
  function FirstByte(left: nat, v: Sextet): Byte
    requires left < 64
  {
    left * 4 + v / 16
  }

  /** The byte completed by the third character: 4 bits kept and 4 new. */
  function SecondByte(left: nat, v: Sextet): Byte
    requires left < 16
  {
    left * 16 + v / 4
  }

  /** The byte completed by the fourth character: 2 bits kept and 6 new. */
  function ThirdByte(left: nat, v: Sextet): Byte
    requires left < 4
  {
    left * 64 + v
  }

  /** One data character: the second, third and fourth of a quantum each complete a byte. */
  function Feed(q: Quad, v: Sextet): (r: (Quad, Option<Byte>))
    requires ValidQuad(q)
    ensures ValidQuad(r.0) && r.0.pos == (q.pos + 1) % 4 && r.0.pads == 0
    ensures r.1.Some? <==> q.pos != 0
  {
    if q.pos == 0 then (Quad(1, v, 0), None)
    else if q.pos == 1 then (Quad(2, v % 16, 0), Some(FirstByte(q.left, v)))
    else if q.pos == 2 then (Quad(3, v % 4, 0), Some(SecondByte(q.left, v)))
    else (Start, Some(ThirdByte(q.left, v)))
  }

  /** `prefix` in front of a decoding result; failure stays failure. */
  function Prefix(prefix: seq<Byte>, r: Option<seq<Byte>>): (p: Option<seq<Byte>>)
    ensures p.Some? <==> r.Some?
    ensures r.Some? ==> p.value == prefix + r.value
  {
    match r
    case None => None
    case Some(t) => Some(prefix + t)
  }

  /**
   * `binascii.a2b_base64(s, strict_mode=False)`: skips characters without a
   * value, ignores `=` in the first two positions of a quantum, stops for good
   * once `=` completes a quantum, and fails (`binascii.Error`) when the input
   * ends inside a quantum.
   */
  function A2b(s: string, q: Quad): Option<seq<Byte>>
    requires ValidQuad(q)
    decreases |s|
  {
    if s == [] then
      if q.pos == 0 then Some([]) else None
    else if s[0] == PadChar then
      if q.pos < 2 then A2b(s[1..], q)
      else if q.pos + q.pads + 1 >= 4 then Some([])
      else A2b(s[1..], q.(pads := q.pads + 1))
    else if !IsDecodable(s[0]) then
      A2b(s[1..], q)
    else
      var fed := Feed(q, ValueOf(s[0]));
      var rest := A2b(s[1..], fed.0);
      if fed.1.Some? then Prefix([fed.1.value], rest) else rest
  }

  /** `base64.urlsafe_b64decode` on a `str`: a character outside ASCII raises `ValueError`. */
  function UrlsafeB64Decode(s: string): (r: Option<seq<Byte>>)
    ensures !AllAscii(s) ==> r.None?
    ensures AllAscii(s) ==> r == A2b(s, Start)
  {
    if AllAscii(s) then A2b(s, Start) else None
  }

  /**
   * `base64_decode_safe`: the empty string for an empty (or absent) payload and
   * for a payload that raises; otherwise the decoded text.
   */
  function DecodeSafe(data: string, utf8: Utf8Decoder): (r: string)
    ensures data == [] ==> r == ""
    ensures !AllAscii(data) ==> r == ""
    ensures UrlsafeB64Decode(Padded(data)).None? ==> r == ""
    ensures data != [] && UrlsafeB64Decode(Padded(data)).Some? ==> r == utf8(UrlsafeB64Decode(Padded(data)).value)
  {
    if data == [] then ""
    else
      var padded := Padded(data);
      assert forall i | 0 <= i < |data| :: padded[i] == data[i];
      match UrlsafeB64Decode(padded)
      case None => ""
      case Some(bytes) => utf8(bytes)
  }

  // ---------------------------------------------------------------------------
  // The encoder, `base64.urlsafe_b64encode`, and padding removal.

  function PadCount(n: nat): nat { (3 - n % 3) % 3 }

  /** The four sextets that three bytes are split into. */
  function Sextet0(b0: Byte): Sextet { b0 / 4 }
  function Sextet1(b0: Byte, b1: Byte): Sextet { (b0 % 4) * 16 + b1 / 16 }
  function Sextet2(b1: Byte, b2: Byte): Sextet { (b1 % 16) * 4 + b2 / 64 }
  function Sextet3(b2: Byte): Sextet { b2 % 64 }

  /** The sextets that carry three bytes. */
  function Quantum(b0: Byte, b1: Byte, b2: Byte): seq<Sextet> {
    [Sextet0(b0), Sextet1(b0, b1), Sextet2(b1, b2), Sextet3(b2)]
  }

  /**
   * The sextets of the encoding: four per three bytes, and for a final one or
   * two bytes the two or three sextets that carry them.
   */
  function SextetsOf(b: seq<Byte>): (vs: seq<Sextet>)
    ensures |b| > 0 ==> |vs| > 0
  {
    if |b| == 0 then []
    else if |b| == 1 then Quantum(b[0], 0, 0)[..2]
    else if |b| == 2 then Quantum(b[0], b[1], 0)[..3]
    else Quantum(b[0], b[1], b[2]) + SextetsOf(b[3..])
  }

  /** Each sextet written as its alphabet character. */
  function CharsOf(vs: seq<Sextet>): (s: string)
    ensures |s| == |vs|
  {
    seq(|vs|, i requires 0 <= i < |vs| => CharOf(vs[i]))
  }

  /** The encoding of `b` before padding. */
  function Unpadded(b: seq<Byte>): string {
    CharsOf(SextetsOf(b))
  }

  /** `base64.urlsafe_b64encode`, with its padding. */
  function Encode(b: seq<Byte>): (s: string)
    ensures |s| % 4 == 0
    ensures s == [] <==> b == []
  {
    UnpaddedLength(b);
    Unpadded(b) + Pads(PadCount(|b|))
  }

  /** Removes every trailing `=`, as the mail provider does with payloads. */
  function StripPadding(s: string): (r: string)
    ensures |r| <= |s| && r == s[..|r|]
    ensures r == [] || r[|r| - 1] != PadChar
    ensures forall i | |r| <= i < |s| :: s[i] == PadChar
  {
    if |s| > 0 && s[|s| - 1] == PadChar then StripPadding(s[..|s| - 1]) else s
  }

  // ---------------------------------------------------------------------------
  // Properties.

  /** The bytes that `Feed` writes out from the sextets of three bytes are those bytes. */
  lemma TripleRoundTrip(b0: Byte, b1: Byte, b2: Byte)
    ensures FirstByte(Sextet0(b0), Sextet1(b0, b1)) == b0
    ensures SecondByte(Sextet1(b0, b1) % 16, Sextet2(b1, b2)) == b1
    ensures ThirdByte(Sextet2(b1, b2) % 4, Sextet3(b2)) == b2
  {
    assert Sextet1(b0, b1) / 16 == b0 % 4;
    assert Sextet1(b0, b1) % 16 == b1 / 16;
    assert Sextet2(b1, b2) / 4 == b1 % 16;
    assert Sextet2(b1, b2) % 4 == b2 / 64;
  }

  lemma CharsOfAppend(x: seq<Sextet>, y: seq<Sextet>)
    ensures CharsOf(x + y) == CharsOf(x) + CharsOf(y)
  {
  }

  /** The number of characters that carry the final one or two bytes. */
  function TailLength(n: nat): nat { if n % 3 == 0 then 0 else n % 3 + 1 }

  lemma {:induction false} UnpaddedSize(b: seq<Byte>)
    ensures |Unpadded(b)| == 4 * (|b| / 3) + TailLength(|b|)
    decreases |b|
  {
    if |b| > 2 {
      UnpaddedSize(b[3..]);
      assert |SextetsOf(b)| == 4 + |SextetsOf(b[3..])|;
      assert |b[3..]| / 3 == |b| / 3 - 1;
      assert |b[3..]| % 3 == |b| % 3;
    }
  }

  lemma PadArithmetic(n: nat, u: nat)
    requires u == 4 * (n / 3) + TailLength(n)
    ensures u % 4 == 0 ==> PadCount(n) == 0
    ensures u % 4 != 0 ==> PadCount(n) == 4 - u % 4
    ensures (u + PadCount(n)) % 4 == 0
  {
    var q, r := n / 3, n % 3;
    assert u == 4 * q + TailLength(n);
    assert PadCount(n) == (3 - r) % 3;
    QuadRemainder(q, TailLength(n));
  }

  lemma QuadRemainder(q: nat, c: nat)
    requires c < 4
    ensures (4 * q + c) % 4 == c
  {
  }

  /** The padding count is what makes the encoding a whole number of quanta. */
  lemma UnpaddedLength(b: seq<Byte>)
    ensures |Unpadded(b)| % 4 == 0 ==> PadCount(|b|) == 0
    ensures |Unpadded(b)| % 4 != 0 ==> PadCount(|b|) == 4 - |Unpadded(b)| % 4
    ensures (|Unpadded(b)| + PadCount(|b|)) % 4 == 0
  {
    UnpaddedSize(b);
    PadArithmetic(|b|, |Unpadded(b)|);
  }

  /** Every character of the unpadded encoding is in the alphabet. */
  lemma UnpaddedAlphabet(b: seq<Byte>)
    ensures forall i | 0 <= i < |Unpadded(b)| :: IsAlphabet(Unpadded(b)[i])
  {
    var vs := SextetsOf(b);
    forall i | 0 <= i < |vs| ensures IsAlphabet(CharsOf(vs)[i]) {
      SextetOfCharOf(vs[i]);
    }
  }

  /** The padded encoding of one byte or two bytes is a single padded quantum. */
  lemma EncodeShort(b: seq<Byte>)
    requires 1 <= |b| <= 2
    ensures |b| == 1 ==> Encode(b) == CharsOf(Quantum(b[0], 0, 0)[..2]) + [PadChar, PadChar]
    ensures |b| == 2 ==> Encode(b) == CharsOf(Quantum(b[0], b[1], 0)[..3]) + [PadChar]
  {
    if |b| == 1 {
      assert PadCount(1) == 2;
      assert Pads(2) == [PadChar, PadChar];
    } else {
      assert PadCount(2) == 1;
      assert Pads(1) == [PadChar];
    }
  }

  /** Past the first three bytes, the encoding is one quantum followed by the rest. */
  lemma EncodeLong(b: seq<Byte>)
    requires |b| >= 3
    ensures Encode(b) == CharsOf(Quantum(b[0], b[1], b[2])) + Encode(b[3..])
  {
    assert |b| % 3 == |b[3..]| % 3;
    assert PadCount(|b|) == PadCount(|b[3..]|);
    CharsOfAppend(Quantum(b[0], b[1], b[2]), SextetsOf(b[3..]));
  }


  /** The decoder on one data character: whatever `Feed` writes out, then the rest. */
  lemma A2bData(c: char, t: string, q: Quad)
    requires ValidQuad(q) && IsDecodable(c) && c != PadChar
    ensures var r := Feed(q, ValueOf(c));
      A2b([c] + t, q) == if r.1.Some? then Prefix([r.1.value], A2b(t, r.0)) else A2b(t, r.0)
  {
    assert ([c] + t)[1..] == t;
  }

  lemma PrefixPrefix(x: seq<Byte>, y: seq<Byte>, r: Option<seq<Byte>>)
    ensures Prefix(x, Prefix(y, r)) == Prefix(x + y, r)
  {
    if r.Some? {
      assert x + (y + r.value) == (x + y) + r.value;
    }
  }

  lemma PrefixEmpty(r: Option<seq<Byte>>)
    ensures Prefix([], r) == r
  {
    if r.Some? {
      assert [] + r.value == r.value;
    }
  }

  /** The first character of a quantum is only remembered. */
  lemma StepFirst(v: Sextet, t: string)
    ensures A2b([CharOf(v)] + t, Start) == A2b(t, Quad(1, v, 0))
  {
    SextetOfCharOf(v);
    A2bData(CharOf(v), t, Start);
  }

  /** The second character writes out the first byte. */
  lemma StepSecond(v: Sextet, t: string, l: nat)
    requires l < 64
    ensures A2b([CharOf(v)] + t, Quad(1, l, 0)) == Prefix([FirstByte(l, v)], A2b(t, Quad(2, v % 16, 0)))
  {
    SextetOfCharOf(v);
    A2bData(CharOf(v), t, Quad(1, l, 0));
  }

  /** The third character writes out the second byte. */
  lemma StepThird(v: Sextet, t: string, l: nat)
    requires l < 16
    ensures A2b([CharOf(v)] + t, Quad(2, l, 0)) == Prefix([SecondByte(l, v)], A2b(t, Quad(3, v % 4, 0)))
  {
    SextetOfCharOf(v);
    A2bData(CharOf(v), t, Quad(2, l, 0));
  }

  /** The fourth character writes out the third byte and completes the quantum. */
  lemma StepFourth(v: Sextet, t: string, l: nat)
    requires l < 4
    ensures A2b([CharOf(v)] + t, Quad(3, l, 0)) == Prefix([ThirdByte(l, v)], A2b(t, Start))
  {
    SextetOfCharOf(v);
    A2bData(CharOf(v), t, Quad(3, l, 0));
  }

  /** The second, third and fourth characters of a quantum write out its three bytes. */
  lemma LastThree(v1: Sextet, v2: Sextet, v3: Sextet, t: string, l: nat)
    requires l < 64
    ensures A2b([CharOf(v1)] + ([CharOf(v2)] + ([CharOf(v3)] + t)), Quad(1, l, 0))
      == Prefix([FirstByte(l, v1), SecondByte(v1 % 16, v2), ThirdByte(v2 % 4, v3)], A2b(t, Start))
  {
    var x0, x1, x2 := FirstByte(l, v1), SecondByte(v1 % 16, v2), ThirdByte(v2 % 4, v3);
    var s3 := [CharOf(v3)] + t;
    var s2 := [CharOf(v2)] + s3;
    var r := A2b(t, Start);
    assert A2b(s2, Quad(2, v1 % 16, 0)) == Prefix([x1, x2], r) by {
      StepThird(v2, s3, v1 % 16);
      StepFourth(v3, t, v2 % 4);
      PrefixPrefix([x1], [x2], r);
      assert [x1] + [x2] == [x1, x2];
    }
    StepSecond(v1, s2, l);
    PrefixPrefix([x0], [x1, x2], r);
    assert [x0] + [x1, x2] == [x0, x1, x2];
  }

  /** A quantum of four data characters writes out three bytes and returns to the start. */
  lemma FourSextets(v0: Sextet, v1: Sextet, v2: Sextet, v3: Sextet, t: string)
    ensures A2b([CharOf(v0)] + ([CharOf(v1)] + ([CharOf(v2)] + ([CharOf(v3)] + t))), Start)
      == Prefix([FirstByte(v0, v1), SecondByte(v1 % 16, v2), ThirdByte(v2 % 4, v3)], A2b(t, Start))
  {
    StepFirst(v0, [CharOf(v1)] + ([CharOf(v2)] + ([CharOf(v3)] + t)));
    LastThree(v1, v2, v3, t, v0);
  }

  /** Three data characters then `=` write out two bytes, and the `=` ends decoding. */
  lemma ThreeSextetsPad(v0: Sextet, v1: Sextet, v2: Sextet, t: string)
    ensures A2b([CharOf(v0)] + ([CharOf(v1)] + ([CharOf(v2)] + ([PadChar] + t))), Start)
      == Some([FirstByte(v0, v1), SecondByte(v1 % 16, v2)])
  {
    var q1, q2, q3 := Quad(1, v0, 0), Quad(2, v1 % 16, 0), Quad(3, v2 % 4, 0);
    var x0, x1 := FirstByte(v0, v1), SecondByte(v1 % 16, v2);
    var s3 := [PadChar] + t;
    var s2 := [CharOf(v2)] + s3;
    var s1 := [CharOf(v1)] + s2;
    assert A2b(s3, q3) == Some([]) by { assert s3[0] == PadChar; }
    assert A2b(s2, q2) == Some([x1]) by { StepThird(v2, s3, v1 % 16); assert [x1] + [] == [x1]; }
    assert A2b(s1, q1) == Some([x0, x1]) by { StepSecond(v1, s2, v0); assert [x0] + [x1] == [x0, x1]; }
    StepFirst(v0, s1);
  }

  /** Two data characters then `==` write out one byte, and the second `=` ends decoding. */
  lemma TwoSextetsPads(v0: Sextet, v1: Sextet, t: string)
    ensures A2b([CharOf(v0)] + ([CharOf(v1)] + ([PadChar] + ([PadChar] + t))), Start) == Some([FirstByte(v0, v1)])
  {
    var q1, q2 := Quad(1, v0, 0), Quad(2, v1 % 16, 0);
    var x0 := FirstByte(v0, v1);
    var s3 := [PadChar] + t;
    var s2 := [PadChar] + s3;
    var s1 := [CharOf(v1)] + s2;
    assert A2b(s3, q2.(pads := 1)) == Some([]) by { assert s3[0] == PadChar; }
    assert A2b(s2, q2) == Some([]) by { assert s2[0] == PadChar && s2[1..] == s3; }
    assert A2b(s1, q1) == Some([x0]) by { StepSecond(v1, s2, v0); assert [x0] + [] == [x0]; }
    StepFirst(v0, s1);
  }

  /** The characters of one quantum, and of its first three and first two sextets. */
  lemma QuantumChars(b0: Byte, b1: Byte, b2: Byte)
    ensures var c0, c1 := CharOf(Sextet0(b0)), CharOf(Sextet1(b0, b1));
      var c2, c3 := CharOf(Sextet2(b1, b2)), CharOf(Sextet3(b2));
      && CharsOf(Quantum(b0, b1, b2)) == [c0, c1, c2, c3]
      && CharsOf(Quantum(b0, b1, b2)[..3]) == [c0, c1, c2]
      && CharsOf(Quantum(b0, b1, b2)[..2]) == [c0, c1]
  {
  }

  /** A full quantum of an encoding decodes to its three bytes, and decoding carries on after it. */
  lemma QuantumRoundTrip(b0: Byte, b1: Byte, b2: Byte, t: string)
    ensures A2b(CharsOf(Quantum(b0, b1, b2)) + t, Start) == Prefix([b0, b1, b2], A2b(t, Start))
  {
    var v0, v1, v2, v3 := Sextet0(b0), Sextet1(b0, b1), Sextet2(b1, b2), Sextet3(b2);
    var c0, c1, c2, c3 := CharOf(v0), CharOf(v1), CharOf(v2), CharOf(v3);
    assert CharsOf(Quantum(b0, b1, b2)) + t == [c0] + ([c1] + ([c2] + ([c3] + t))) by {
      QuantumChars(b0, b1, b2);
    }
    assert A2b([c0] + ([c1] + ([c2] + ([c3] + t))), Start) == Prefix([b0, b1, b2], A2b(t, Start)) by {
      TripleRoundTrip(b0, b1, b2);
      FourSextets(v0, v1, v2, v3, t);
    }
  }

  /** Two bytes encode as `xxx=`, which decodes to them and ends decoding. */
  lemma QuantumRoundTripTwo(b0: Byte, b1: Byte, t: string)
    ensures A2b(CharsOf(Quantum(b0, b1, 0)[..3]) + [PadChar] + t, Start) == Some([b0, b1])
  {
    var v0, v1, v2 := Sextet0(b0), Sextet1(b0, b1), Sextet2(b1, 0);
    var c0, c1, c2 := CharOf(v0), CharOf(v1), CharOf(v2);
    assert CharsOf(Quantum(b0, b1, 0)[..3]) + [PadChar] + t == [c0] + ([c1] + ([c2] + ([PadChar] + t))) by {
      QuantumChars(b0, b1, 0);
    }
    assert A2b([c0] + ([c1] + ([c2] + ([PadChar] + t))), Start) == Some([b0, b1]) by {
      TripleRoundTrip(b0, b1, 0);
      ThreeSextetsPad(v0, v1, v2, t);
    }
  }

  /** One byte encodes as `xx==`, which decodes to it and ends decoding. */
  lemma QuantumRoundTripOne(b0: Byte, t: string)
    ensures A2b(CharsOf(Quantum(b0, 0, 0)[..2]) + [PadChar, PadChar] + t, Start) == Some([b0])
  {
    var v0, v1 := Sextet0(b0), Sextet1(b0, 0);
    var c0, c1 := CharOf(v0), CharOf(v1);
    assert CharsOf(Quantum(b0, 0, 0)[..2]) + [PadChar, PadChar] + t == [c0] + ([c1] + ([PadChar] + ([PadChar] + t))) by {
      QuantumChars(b0, 0, 0);
    }
    assert A2b([c0] + ([c1] + ([PadChar] + ([PadChar] + t))), Start) == Some([b0]) by {
      TripleRoundTrip(b0, 0, 0);
      TwoSextetsPads(v0, v1, t);
    }
  }

  /**
   * Decoding an encoding followed by anything. An encoding of whole quanta is
   * written out and decoding goes on into what follows; an encoding that ends
   * in `=` ends decoding there, so what follows is ignored.
   */
  lemma {:induction false} DecodeEncodeThen(b: seq<Byte>, t: string)
    ensures |b| % 3 == 0 ==> A2b(Encode(b) + t, Start) == Prefix(b, A2b(t, Start))
    ensures |b| % 3 != 0 ==> A2b(Encode(b) + t, Start) == Some(b)
    decreases |b|
  {
    if |b| == 0 {
      DecodeEncodeEmpty(t);
    } else if |b| == 1 {
      DecodeEncodeOne(b, t);
    } else if |b| == 2 {
      DecodeEncodeTwo(b, t);
    } else {
      DecodeEncodeThen(b[3..], t);
      DecodeEncodeStep(b, t);
    }
  }

  lemma DecodeEncodeEmpty(t: string)
    ensures A2b(Encode([]) + t, Start) == Prefix([], A2b(t, Start))
  {
    assert Encode([]) + t == t;
    PrefixEmpty(A2b(t, Start));
  }

  lemma DecodeEncodeOne(b: seq<Byte>, t: string)
    requires |b| == 1
    ensures A2b(Encode(b) + t, Start) == Some(b)
  {
    assert Encode(b) + t == CharsOf(Quantum(b[0], 0, 0)[..2]) + [PadChar, PadChar] + t by { EncodeShort(b); }
    QuantumRoundTripOne(b[0], t);
    assert b == [b[0]];
  }

  lemma DecodeEncodeTwo(b: seq<Byte>, t: string)
    requires |b| == 2
    ensures A2b(Encode(b) + t, Start) == Some(b)
  {
    assert Encode(b) + t == CharsOf(Quantum(b[0], b[1], 0)[..3]) + [PadChar] + t by { EncodeShort(b); }
    QuantumRoundTripTwo(b[0], b[1], t);
    assert b == [b[0], b[1]];
  }

  /** The inductive step: a full leading quantum in front of the rest of the encoding. */
  lemma DecodeEncodeStep(b: seq<Byte>, t: string)
    requires |b| >= 3
    requires |b| % 3 == 0 ==> A2b(Encode(b[3..]) + t, Start) == Prefix(b[3..], A2b(t, Start))
    requires |b| % 3 != 0 ==> A2b(Encode(b[3..]) + t, Start) == Some(b[3..])
    ensures |b| % 3 == 0 ==> A2b(Encode(b) + t, Start) == Prefix(b, A2b(t, Start))
    ensures |b| % 3 != 0 ==> A2b(Encode(b) + t, Start) == Some(b)
  {
    var h := [b[0], b[1], b[2]];
    assert b == h + b[3..];
    var q := CharsOf(Quantum(b[0], b[1], b[2]));
    var rest := Encode(b[3..]) + t;
    assert Encode(b) + t == q + rest by {
      EncodeLong(b);
    }
    assert A2b(q + rest, Start) == Prefix(h, A2b(rest, Start)) by {
      QuantumRoundTrip(b[0], b[1], b[2], rest);
    }
    PrefixPrefix(h, b[3..], A2b(t, Start));
  }

  /** Decoding a padded encoding gives back the original bytes. */
  lemma DecodeEncode(b: seq<Byte>)
    ensures A2b(Encode(b), Start) == Some(b)
  {
    DecodeEncodeThen(b, []);
    assert Encode(b) + [] == Encode(b);
    assert b + [] == b;
  }

  /** Every character of an encoding is ASCII. */
  lemma EncodeAscii(b: seq<Byte>)
    ensures AllAscii(Encode(b))
  {
    UnpaddedAlphabet(b);
    var u := Unpadded(b);
    assert forall i | 0 <= i < |u| :: IsAscii(Encode(b)[i]);
  }

  lemma AsciiAppend(x: string, y: string)
    ensures AllAscii(x + y) <==> AllAscii(x) && AllAscii(y)
  {
    if AllAscii(x) && AllAscii(y) {
      forall i | 0 <= i < |x + y| ensures IsAscii((x + y)[i]) {
        if i >= |x| { assert (x + y)[i] == y[i - |x|]; }
      }
    }
    if AllAscii(x + y) {
      forall i | 0 <= i < |x| ensures IsAscii(x[i]) {
        assert (x + y)[i] == x[i];
      }
      forall i | 0 <= i < |y| ensures IsAscii(y[i]) {
        assert (x + y)[|x| + i] == y[i];
      }
    }
  }

  /** `base64_decode_safe` of ASCII data whose padded form decodes to `b` is the text of `b`. */
  lemma DecodeSafeOf(d: string, b: seq<Byte>, utf8: Utf8Decoder)
    requires d != [] && AllAscii(d) && A2b(Padded(d), Start) == Some(b)
    ensures DecodeSafe(d, utf8) == utf8(b)
  {
    var p := Padded(d);
    forall i | 0 <= i < |p| ensures IsAscii(p[i]) {
      if i < |d| { assert p[i] == d[i]; }
    }
  }

  /** Stripping the padding of an encoding leaves the unpadded encoding. */
  lemma {:induction false} StripPads(s: string, n: nat)
    requires s == [] || s[|s| - 1] != PadChar
    ensures StripPadding(s + Pads(n)) == s
    decreases n
  {
    if n > 0 {
      assert (s + Pads(n))[..|s| + n - 1] == s + Pads(n - 1);
      StripPads(s, n - 1);
    } else {
      assert s + Pads(0) == s;
    }
  }

  lemma StripEncode(b: seq<Byte>)
    ensures StripPadding(Encode(b)) == Unpadded(b)
  {
    var u := Unpadded(b);
    UnpaddedAlphabet(b);
    if u != [] {
      assert IsAlphabet(u[|u| - 1]);
    }
    StripPads(u, PadCount(|b|));
  }

  lemma PaddedUnpadded(b: seq<Byte>)
    ensures Padded(Unpadded(b)) == Encode(b)
  {
    UnpaddedLength(b);
    if |Unpadded(b)| % 4 == 0 {
      assert Unpadded(b) + Pads(0) == Unpadded(b);
    }
  }

  /**
   * The round trip the source depends on: a payload produced by
   * `urlsafe_b64encode`, with its `=` stripped, has its padding restored and
   * decodes back to the same bytes.
   */
  lemma StrippedEncodingRoundTrip(b: seq<Byte>)
    ensures Padded(StripPadding(Encode(b))) == Encode(b)
    ensures UrlsafeB64Decode(Padded(StripPadding(Encode(b)))) == Some(b)
  {
    StripEncode(b);
    PaddedUnpadded(b);
    DecodeEncode(b);
    EncodeAscii(b);
  }

  /** So `DecodeSafe` inverts the encoder on stripped and on padded payloads. */
  lemma DecodeSafeRoundTrip(b: seq<Byte>, utf8: Utf8Decoder)
    ensures DecodeSafe(StripPadding(Encode(b)), utf8) == (if b == [] then "" else utf8(b))
    ensures DecodeSafe(Encode(b), utf8) == (if b == [] then "" else utf8(b))
  {
    var e := Encode(b);
    var stripped := StripPadding(e);
    if b == [] {
      assert e == [] by { assert Pads(0) == []; }
    } else {
      assert A2b(Padded(e), Start) == Some(b) by {
        assert Padded(e) == e;
        DecodeEncode(b);
      }
      assert AllAscii(e) && AllAscii(stripped) by {
        EncodeAscii(b);
        assert e == stripped + e[|stripped|..];
        AsciiAppend(stripped, e[|stripped|..]);
      }
      assert |stripped| > 0 by { StripEncode(b); }
      DecodeSafeOf(e, b, utf8);
      assert Padded(stripped) == e by { StrippedEncodingRoundTrip(b); }
      DecodeSafeOf(stripped, b, utf8);
    }
  }

  // ---------------------------------------------------------------------------
  // What the non-strict decoder does with other input.

  /** `=` at the start of a quantum is ignored: padding alone decodes to no bytes. */
  lemma {:induction false} PadsAtStart(n: nat)
    ensures A2b(Pads(n), Start) == Some([])
    decreases n
  {
    if n > 0 {
      assert Pads(n)[1..] == Pads(n - 1);
      PadsAtStart(n - 1);
    }
  }

  /** After one data character of a quantum, `=` is ignored too, and the input ends inside the quantum. */
  lemma {:induction false} PadsAfterOne(n: nat, q: Quad)
    requires ValidQuad(q) && q.pos == 1
    ensures A2b(Pads(n), q).None?
    decreases n
  {
    if n > 0 {
      assert Pads(n)[1..] == Pads(n - 1);
      PadsAfterOne(n - 1, q);
    }
  }

  /** Encodings decode to their bytes whatever padding follows them. */
  lemma EncodeThenPads(b: seq<Byte>, n: nat)
    ensures A2b(Encode(b) + Pads(n), Start) == Some(b)
  {
    DecodeEncodeThen(b, Pads(n));
    PadsAtStart(n);
    assert b + [] == b;
  }

  /** A character that has no value and is not `=` is skipped wherever it stands. */
  lemma {:induction false} A2bSkips(x: string, c: char, y: string, q: Quad)
    requires ValidQuad(q) && c != PadChar && !IsDecodable(c)
    ensures A2b(x + [c] + y, q) == A2b(x + y, q)
    decreases |x|
  {
    if x == [] {
      assert x + [c] + y == [c] + y && ([c] + y)[1..] == y;
      assert x + y == y;
    } else {
      assert (x + [c] + y)[0] == x[0] && (x + y)[0] == x[0];
      assert (x + [c] + y)[1..] == x[1..] + [c] + y;
      assert (x + y)[1..] == x[1..] + y;
      forall q' | ValidQuad(q') ensures A2b(x[1..] + [c] + y, q') == A2b(x[1..] + y, q') {
        A2bSkips(x[1..], c, y, q');
      }
    }
  }

  /** Data characters that leave one over in the last quantum never decode, whatever `=` follow. */
  lemma {:induction false} OneOverFails(s: string, q: Quad, n: nat)
    requires ValidQuad(q) && (q.pos + |s|) % 4 == 1
    requires forall i | 0 <= i < |s| :: IsDecodable(s[i]) && s[i] != PadChar
    ensures A2b(s + Pads(n), q).None?
    decreases |s|
  {
    if s == [] {
      assert s + Pads(n) == Pads(n);
      PadsAfterOne(n, q);
    } else {
      var r := Feed(q, ValueOf(s[0]));
      assert s + Pads(n) == [s[0]] + (s[1..] + Pads(n));
      OneOverFails(s[1..], r.0, n);
      A2bData(s[0], s[1..] + Pads(n), q);
    }
  }

  /**
   * `base64_decode_safe` gives the empty string for a payload of characters
   * that all carry a value (no `=`, nothing skipped), whose length is one more than a multiple of 4: the restored
   * padding is ignored and `a2b_base64` raises on the character left over.
   */
  lemma DecodeSafeBadLength(data: string, utf8: Utf8Decoder)
    requires forall i | 0 <= i < |data| :: IsDecodable(data[i])
    requires |data| % 4 == 1
    ensures DecodeSafe(data, utf8) == ""
  {
    assert Padded(data) == data + Pads(3);
    OneOverFails(data, Start, 3);
  }

  /** A string that continues `e` with nothing but `=` is `e` followed by padding. */
  lemma PadsAfter(e: string, p: string)
    requires |e| <= |p| && p[..|e|] == e
    requires forall i | |e| <= i < |p| :: p[i] == PadChar
    ensures p == e + Pads(|p| - |e|)
  {
    var r := e + Pads(|p| - |e|);
    forall i | 0 <= i < |p| ensures p[i] == r[i] {
      if i < |e| { assert p[i] == p[..|e|][i]; }
    }
  }

  /** Padding a string of whole quanta followed by `=`s adds `=`s up to the next quantum. */
  lemma PaddedAfterPads(e: string, n: nat)
    requires |e| % 4 == 0
    ensures Padded(e + Pads(n)) == e + Pads(n + (4 - n % 4) % 4)
  {
    var p := Padded(e + Pads(n));
    var r := e + Pads(n + (4 - n % 4) % 4);
    assert |(e + Pads(n))| % 4 == n % 4;
    forall i | 0 <= i < |p| ensures p[i] == r[i] {
      if i < |e| {
        assert p[i] == (e + Pads(n))[i];
      } else if i < |e| + n {
        assert p[i] == (e + Pads(n))[i];
      }
    }
  }

  /** A payload that is an encoding with more `=` after it decodes to the encoded bytes. */
  lemma DecodeSafeExcessPadding(b: seq<Byte>, n: nat, utf8: Utf8Decoder)
    requires b != []
    ensures DecodeSafe(Encode(b) + Pads(n), utf8) == utf8(b)
  {
    var e := Encode(b);
    var d := e + Pads(n);
    var k := n + (4 - n % 4) % 4;
    assert A2b(Padded(d), Start) == Some(b) by {
      PaddedAfterPads(e, n);
      EncodeThenPads(b, k);
    }
    assert AllAscii(d) by {
      EncodeAscii(b);
      AsciiAppend(e, Pads(n));
    }
    DecodeSafeOf(d, b, utf8);
  }

  /**
   * A payload that is an encoding with one ASCII character of no value
   * inserted anywhere decodes to the encoded bytes: the character is skipped.
   */
  lemma DecodeSafeSkipsForeign(b: seq<Byte>, i: nat, c: char, utf8: Utf8Decoder)
    requires b != [] && i <= |Encode(b)|
    requires IsAscii(c) && c != PadChar && !IsDecodable(c)
    ensures DecodeSafe(Encode(b)[..i] + [c] + Encode(b)[i..], utf8) == utf8(b)
  {
    var e := Encode(b);
    var d := e[..i] + [c] + e[i..];
    assert A2b(Padded(d), Start) == Some(b) by {
      assert |d| % 4 == 1;
      assert Padded(d) == e[..i] + [c] + (e[i..] + Pads(3));
      A2bSkips(e[..i], c, e[i..] + Pads(3), Start);
      assert e[..i] + (e[i..] + Pads(3)) == e + Pads(3);
      EncodeThenPads(b, 3);
    }
    assert AllAscii(d) by {
      EncodeAscii(b);
      assert e == e[..i] + e[i..];
      AsciiAppend(e[..i], e[i..]);
      AsciiAppend(e[..i], [c]);
      AsciiAppend(e[..i] + [c], e[i..]);
    }
    DecodeSafeOf(d, b, utf8);
  }

  /**
   * A payload that continues after an encoding that ends in `=` decodes to
   * the bytes before the `=`: decoding stops there.
   */
  lemma DecodeSafeStopsAtPadding(b: seq<Byte>, t: string, utf8: Utf8Decoder)
    requires |b| % 3 != 0 && |t| % 4 == 0
    requires AllAscii(t)
    ensures DecodeSafe(Encode(b) + t, utf8) == utf8(b)
  {
    var e := Encode(b);
    var d := e + t;
    assert A2b(Padded(d), Start) == Some(b) by {
      assert Padded(d) == d;
      DecodeEncodeThen(b, t);
    }
    assert AllAscii(d) by {
      EncodeAscii(b);
      AsciiAppend(e, t);
    }
    assert |b| > 0;
    DecodeSafeOf(d, b, utf8);
  }
}
