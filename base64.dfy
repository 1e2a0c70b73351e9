/** The base64 encoding of section 4 of RFC 4648 (standard alphabet, `=`
    padding), as PHP's `base64_encode` produces it, with a decoder used to
    show that no information is lost. */
module Base64 {
  import opened Php

  type Byte = x: int | 0 <= x < 256
  type Sextet = x: int | 0 <= x < 64

  /** The 64 characters of the alphabet: A-Z, a-z, 0-9, '+', '/'. */
  predicate IsAlphabetChar(c: char) {
    ('A' <= c <= 'Z') || ('a' <= c <= 'z') || ('0' <= c <= '9') || c == '+' || c == '/'
  }

  function DecodeChar(c: char): (n: Sextet)
    requires IsAlphabetChar(c)
  {
    if 'A' <= c <= 'Z' then c as int - 'A' as int
    else if 'a' <= c <= 'z' then c as int - 'a' as int + 26
    else if '0' <= c <= '9' then c as int - '0' as int + 52
    else if c == '+' then 62
    else 63
  }

  /** Table 1 of the RFC. */
  function EncodeChar(n: Sextet): (c: char)
    ensures IsAlphabetChar(c)
  {
    if n < 26 then ('A' as int + n) as char
    else if n < 52 then ('a' as int + (n - 26)) as char
    else if n < 62 then ('0' as int + (n - 52)) as char
    else if n == 62 then '+'
    else '/'
  }

  /** `DecodeChar` inverts the table. */
  lemma CharRoundTrip(n: Sextet)
    ensures DecodeChar(EncodeChar(n)) == n
  {
  }

  /** A full 24-bit group: four characters, no padding. */
  function EncodeGroup(b0: Byte, b1: Byte, b2: Byte): string {
    [EncodeChar(b0 / 4), EncodeChar((b0 % 4) * 16 + b1 / 16), EncodeChar((b1 % 16) * 4 + b2 / 64), EncodeChar(b2 % 64)]
  }

  /** A final group of 16 bits: three characters and one '='. */
  function EncodePair(b0: Byte, b1: Byte): string {
    [EncodeChar(b0 / 4), EncodeChar((b0 % 4) * 16 + b1 / 16), EncodeChar((b1 % 16) * 4), '=']
  }

  /** A final group of 8 bits: two characters and "==". */
  function EncodeSingle(b0: Byte): string {
    [EncodeChar(b0 / 4), EncodeChar((b0 % 4) * 16), '=', '=']
  }

  /** The number of four-character quanta that encode `n` bytes. */
  function Quanta(n: nat): nat {
    if n >= 3 then Quanta(n - 3) + 1 else if n == 0 then 0 else 1
  }

  /** The number of '=' that end the encoding of `n` bytes. */
  function Padding(n: nat): nat {
    if n >= 3 then Padding(n - 3) else if n == 0 then 0 else 3 - n
  }

  /** Section 4 of the RFC: ceil(n / 3) quanta, and 2 or 1 '=' when a final
      group holds 8 or 16 bits. */
  lemma {:induction false} QuantaAndPadding(n: nat)
    ensures Quanta(n) == (n + 2) / 3
    ensures Padding(n) == if n % 3 == 0 then 0 else 3 - n % 3
    decreases n
  {
    if n >= 3 {
      QuantaAndPadding(n - 3);
    }
  }

  function Encode(bytes: seq<Byte>): (s: string)
    ensures |s| == 4 * Quanta(|bytes|)
    decreases |bytes|
  {
    if |bytes| >= 3 then EncodeGroup(bytes[0], bytes[1], bytes[2]) + Encode(bytes[3..])
    else if |bytes| == 2 then EncodePair(bytes[0], bytes[1])
    else if |bytes| == 1 then EncodeSingle(bytes[0])
    else []
  }

  /** A quantum of four alphabet characters that is not the last one. */
  function DecodeGroup(q: string): (r: Option<seq<Byte>>)
    requires |q| == 4
  {
    if IsAlphabetChar(q[0]) && IsAlphabetChar(q[1]) && IsAlphabetChar(q[2]) && IsAlphabetChar(q[3]) then
      var n0, n1, n2, n3 := DecodeChar(q[0]), DecodeChar(q[1]), DecodeChar(q[2]), DecodeChar(q[3]);
      Some([n0 * 4 + n1 / 16, (n1 % 16) * 16 + n2 / 4, (n2 % 4) * 64 + n3])
    else None
  }

  /** The last quantum, which may end in one or two '='. */
  function DecodeFinal(q: string): (r: Option<seq<Byte>>)
    requires |q| == 4
  {
    if q[3] != '=' then DecodeGroup(q)
    else if q[2] != '=' then
      if IsAlphabetChar(q[0]) && IsAlphabetChar(q[1]) && IsAlphabetChar(q[2]) then
        var n0, n1, n2 := DecodeChar(q[0]), DecodeChar(q[1]), DecodeChar(q[2]);
        Some([n0 * 4 + n1 / 16, (n1 % 16) * 16 + n2 / 4])
      else None
    else if IsAlphabetChar(q[0]) && IsAlphabetChar(q[1]) then
      var n0, n1 := DecodeChar(q[0]), DecodeChar(q[1]);
      Some([n0 * 4 + n1 / 16])
    else None
  }

  function Decode(s: string): (r: Option<seq<Byte>>)
    decreases |s|
  {
    if |s| == 0 then Some([])
    else if |s| < 4 then None
    else if |s| == 4 then DecodeFinal(s)
    else
      match DecodeGroup(s[..4])
      case None => None
      case Some(head) =>
        match Decode(s[4..])
        case None => None
        case Some(tail) => Some(head + tail)
  }

  /** Re-assembling the sextets of one group gives its bytes back. */
  lemma SextetArithmetic(b0: Byte, b1: Byte, b2: Byte)
    ensures ((b0 % 4) * 16 + b1 / 16) / 16 == b0 % 4
    ensures ((b0 % 4) * 16 + b1 / 16) % 16 == b1 / 16
    ensures ((b1 % 16) * 4 + b2 / 64) / 4 == b1 % 16
    ensures ((b1 % 16) * 4 + b2 / 64) % 4 == b2 / 64
    ensures (b0 / 4) * 4 + b0 % 4 == b0
    ensures (b1 / 16) * 16 + b1 % 16 == b1
    ensures (b2 / 64) * 64 + b2 % 64 == b2
  {
  }

  lemma GroupRoundTrip(b0: Byte, b1: Byte, b2: Byte)
    ensures DecodeGroup(EncodeGroup(b0, b1, b2)) == Some([b0, b1, b2])
    ensures DecodeFinal(EncodeGroup(b0, b1, b2)) == Some([b0, b1, b2])
  {
    var q := EncodeGroup(b0, b1, b2);
    var n0, n1, n2, n3 := b0 / 4, (b0 % 4) * 16 + b1 / 16, (b1 % 16) * 4 + b2 / 64, b2 % 64;
    CharRoundTrip(n0); CharRoundTrip(n1); CharRoundTrip(n2); CharRoundTrip(n3);
    assert DecodeChar(q[0]) == n0 && DecodeChar(q[1]) == n1 && DecodeChar(q[2]) == n2 && DecodeChar(q[3]) == n3;
    SextetArithmetic(b0, b1, b2);
    assert n0 * 4 + n1 / 16 == b0;
    assert (n1 % 16) * 16 + n2 / 4 == b1;
    assert (n2 % 4) * 64 + n3 == b2;
  }

  lemma PairRoundTrip(b0: Byte, b1: Byte)
    ensures DecodeFinal(EncodePair(b0, b1)) == Some([b0, b1])
  {
    var q := EncodePair(b0, b1);
    var n0, n1, n2 := b0 / 4, (b0 % 4) * 16 + b1 / 16, (b1 % 16) * 4;
    CharRoundTrip(n0); CharRoundTrip(n1); CharRoundTrip(n2);
    assert DecodeChar(q[0]) == n0 && DecodeChar(q[1]) == n1 && DecodeChar(q[2]) == n2;
    SextetArithmetic(b0, b1, 0);
    assert n0 * 4 + n1 / 16 == b0;
    assert (n1 % 16) * 16 + n2 / 4 == b1;
  }

  lemma SingleRoundTrip(b0: Byte)
    ensures DecodeFinal(EncodeSingle(b0)) == Some([b0])
  {
    var q := EncodeSingle(b0);
    var n0, n1 := b0 / 4, (b0 % 4) * 16;
    CharRoundTrip(n0); CharRoundTrip(n1);
    assert DecodeChar(q[0]) == n0 && DecodeChar(q[1]) == n1;
    SextetArithmetic(b0, 0, 0);
    assert n0 * 4 + n1 / 16 == b0;
  }

  /** A quantum followed by more input decodes as that quantum, then the rest. */
  lemma DecodeLeadingQuantum(head: string, rest: string)
    requires |head| == 4 && |rest| > 0
    ensures Decode(head + rest) ==
      match DecodeGroup(head)
      case None => None
      case Some(h) =>
        match Decode(rest)
        case None => None
        case Some(t) => Some(h + t)
  {
    assert (head + rest)[..4] == head;
    assert (head + rest)[4..] == rest;
  }

  lemma SplitFirstGroup(bytes: seq<Byte>)
    requires |bytes| >= 3
    ensures bytes == [bytes[0], bytes[1], bytes[2]] + bytes[3..]
    ensures |bytes| == 3 ==> bytes == [bytes[0], bytes[1], bytes[2]]
  {
  }

  /** Decoding an encoding gives the bytes back. */
  lemma {:induction false} DecodeEncode(bytes: seq<Byte>)
    ensures Decode(Encode(bytes)) == Some(bytes)
    decreases |bytes|
  {
    if |bytes| >= 3 {
      var head := EncodeGroup(bytes[0], bytes[1], bytes[2]);
      var tail := bytes[3..];
      var rest := Encode(tail);
      assert Encode(bytes) == head + rest;
      GroupRoundTrip(bytes[0], bytes[1], bytes[2]);
      SplitFirstGroup(bytes);
      if tail == [] {
        assert head + rest == head;
        assert Decode(head) == DecodeFinal(head);
      } else {
        DecodeEncode(tail);
        DecodeLeadingQuantum(head, rest);
      }
    } else if |bytes| == 2 {
      PairRoundTrip(bytes[0], bytes[1]);
      assert bytes == [bytes[0], bytes[1]];
    } else if |bytes| == 1 {
      SingleRoundTrip(bytes[0]);
      assert bytes == [bytes[0]];
    }
  }

  /** Every character is from the alphabet except the final padding, which
      has `Padding(|bytes|)` '=' characters. */
  lemma {:induction false} EncodeShape(bytes: seq<Byte>)
    ensures var s := Encode(bytes);
      && Padding(|bytes|) <= |s|
      && (forall i :: 0 <= i < |s| - Padding(|bytes|) ==> IsAlphabetChar(s[i]))
      && (forall i :: |s| - Padding(|bytes|) <= i < |s| ==> s[i] == '=')
    decreases |bytes|
  {
    if |bytes| >= 3 {
      var head := EncodeGroup(bytes[0], bytes[1], bytes[2]);
      var rest := Encode(bytes[3..]);
      EncodeShape(bytes[3..]);
      assert Padding(|bytes|) == Padding(|bytes[3..]|);
      var s := Encode(bytes);
      assert s == head + rest;
      forall i | 0 <= i < |s| - Padding(|bytes|)
        ensures IsAlphabetChar(s[i])
      {
        if i >= 4 {
          assert s[i] == rest[i - 4];
        }
      }
      forall i | |s| - Padding(|bytes|) <= i < |s|
        ensures s[i] == '='
      {
        assert s[i] == rest[i - 4];
      }
    }
  }

  /** The test vectors of section 10 of RFC 4648 for "f", "fo", "foo" and
      "foobar" (bytes 102 111 111 98 97 114). */
  lemma Rfc4648VectorF()
    ensures Encode([102]) == "Zg=="
  {
    assert EncodeChar(25) == 'Z' && EncodeChar(32) == 'g';
    assert Encode([102]) == EncodeSingle(102);
  }

  lemma Rfc4648VectorFo()
    ensures Encode([102, 111]) == "Zm8="
  {
    assert EncodeChar(25) == 'Z' && EncodeChar(38) == 'm' && EncodeChar(60) == '8';
    assert Encode([102, 111]) == EncodePair(102, 111);
  }

  lemma EncodeOneGroup(b0: Byte, b1: Byte, b2: Byte)
    ensures Encode([b0, b1, b2]) == EncodeGroup(b0, b1, b2)
  {
    assert [b0, b1, b2][3..] == [];
  }

  lemma Rfc4648VectorFoo()
    ensures Encode([102, 111, 111]) == "Zm9v"
  {
    EncodeOneGroup(102, 111, 111);
    var q := EncodeGroup(102, 111, 111);
    assert q[0] == EncodeChar(25) == 'Z';
    assert q[1] == EncodeChar(38) == 'm';
    assert q[2] == EncodeChar(61) == '9';
    assert q[3] == EncodeChar(47) == 'v';
  }

  lemma Rfc4648VectorFoobar()
    ensures Encode([102, 111, 111, 98, 97, 114]) == "Zm9vYmFy"
  {
    var foobar: seq<Byte> := [102, 111, 111, 98, 97, 114];
    assert foobar[3..] == [98, 97, 114];
    assert Encode(foobar) == EncodeGroup(102, 111, 111) + Encode([98, 97, 114]);
    Rfc4648VectorFoo();
    EncodeOneGroup(102, 111, 111);
    EncodeOneGroup(98, 97, 114);
    var q := EncodeGroup(98, 97, 114);
    assert q[0] == EncodeChar(24) == 'Y';
    assert q[1] == EncodeChar(38) == 'm';
    assert q[2] == EncodeChar(5) == 'F';
    assert q[3] == EncodeChar(50) == 'y';
  }

  /** What `base64_encode(random_bytes(32))` looks like: 44 characters, 43
      from the alphabet and one final '='. */
  lemma ThirtyTwoBytes(bytes: seq<Byte>)
    requires |bytes| == 32
    ensures |Encode(bytes)| == 44
    ensures forall i :: 0 <= i < 43 ==> IsAlphabetChar(Encode(bytes)[i])
    ensures Encode(bytes)[43] == '='
  {
    assert Quanta(32) == 11 && Padding(32) == 1;
    EncodeShape(bytes);
  }
}
