/** Percent-encoding of file contents for ignition data URLs
    (internal/releases/ignition.go), held against a decoder for section 2.1 of
    RFC 3986; the unreserved characters are those of section 2.3. */
module DataUrl {
  import opened Digests
  import opened Numbers
  import opened Seqs

  const PERCENT: Byte := 37

  predicate IsUnreserved(c: Byte) {
    || 65 <= c <= 90 || 97 <= c <= 122 || 48 <= c <= 57
    || c == 45 || c == 95 || c == 46 || c == 126
  }

  function HexDigit(n: Byte): Byte
    requires n < 16
  {
    if n < 10 then 48 + n else 65 + n - 10
  }

  function EncodeByte(c: Byte): Bytes {
    if IsUnreserved(c) then [c] else [PERCENT, HexDigit(c / 16), HexDigit(c % 16)]
  }

  function Encoded(s: Bytes): Bytes {
    if s == [] then [] else Encoded(s[..|s|-1]) + EncodeByte(s[|s|-1])
  }

  method UrlEncode(s: Bytes) returns (result: Bytes)
    ensures result == Encoded(s)
  {
    result := [];
    for i := 0 to |s|
      invariant result == Encoded(s[..i])
    {
      var c := s[i];
      assert s[..i+1][..i] == s[..i];
      if IsUnreserved(c) {
        result := result + [c];
      } else {
        result := result + [PERCENT];
        result := result + [HexDigit(c / 16)];
        result := result + [HexDigit(c % 16)];
      }
    }
    assert s[..|s|] == s;
  }

  /** A reader of percent-encoded text. */
  function Decode(s: Bytes): Option<Bytes> {
    if s == [] then Some([])
    else if s[0] != PERCENT then
      match Decode(s[1..]) case None => None case Some(r) => Some([s[0]] + r)
    else if |s| < 3 then None
    else match (HexValue(s[1]), HexValue(s[2]), Decode(s[3..]))
      case (Some(a), Some(b), Some(r)) => Some([16 * a + b] + r)
      case _ => None
  }

  lemma DecodeOne(c: Byte, rest: Bytes)
    requires Decode(rest).Some?
    ensures Decode(EncodeByte(c) + rest) == Some([c] + Decode(rest).value)
  {
    var s := EncodeByte(c) + rest;
    if IsUnreserved(c) {
      assert s[1..] == rest;
    } else {
      assert s[3..] == rest;
      assert HexValue(HexDigit(c / 16)) == Some(c / 16) && HexValue(HexDigit(c % 16)) == Some(c % 16);
    }
  }

  lemma {:induction false} DecodeMore(s: Bytes, rest: Bytes)
    requires Decode(rest).Some?
    ensures Decode(Encoded(s) + rest) == Some(s + Decode(rest).value)
  {
    if s == [] {
      assert Encoded(s) + rest == rest && s + Decode(rest).value == Decode(rest).value;
    } else {
      var init, c := s[..|s|-1], s[|s|-1];
      DecodeOne(c, rest);
      DecodeMore(init, EncodeByte(c) + rest);
      Assoc(Encoded(init), EncodeByte(c), rest);
      Assoc(init, [c], Decode(rest).value);
      assert s == init + [c];
      hide Decode, EncodeByte;
    }
  }

  /** Every content comes back. */
  lemma RoundTrip(s: Bytes)
    ensures Decode(Encoded(s)) == Some(s)
  {
    DecodeMore(s, []);
    assert Encoded(s) + [] == Encoded(s) && s + [] == s;
  }

  /** The text has unreserved characters and percent signs only. */
  lemma {:induction false} OnlySafe(s: Bytes)
    ensures forall i :: 0 <= i < |Encoded(s)| ==> IsUnreserved(Encoded(s)[i]) || Encoded(s)[i] == PERCENT
  {
    if s != [] {
      OnlySafe(s[..|s|-1]);
    }
  }

  /** The unreserved characters of section 2.3 of RFC 3986, and they alone, stand
      for themselves; any other byte is a percent sign and two digits. */
  lemma EncodedByte(c: Byte)
    ensures IsUnreserved(c) <==> var x := c as char;
      'A' <= x <= 'Z' || 'a' <= x <= 'z' || '0' <= x <= '9' || x == '-' || x == '_' || x == '.' || x == '~'
    ensures EncodeByte(c) == if IsUnreserved(c) then [c] else ['%' as int as Byte, EncodeByte(c)[1], EncodeByte(c)[2]]
    ensures !IsUnreserved(c) ==>
      HexValue(EncodeByte(c)[1]) == Some(c / 16) && HexValue(EncodeByte(c)[2]) == Some(c % 16)
    ensures !IsUnreserved(c) ==> forall i :: 1 <= i < 3 ==>
      '0' <= EncodeByte(c)[i] as char <= '9' || 'A' <= EncodeByte(c)[i] as char <= 'F'
  {
  }

  lemma Examples()
    ensures EncodeByte(' ' as int as Byte) == ['%' as int as Byte, '2' as int as Byte, '0' as int as Byte]
    ensures EncodeByte('\n' as int as Byte) == ['%' as int as Byte, '0' as int as Byte, 'A' as int as Byte]
    ensures EncodeByte('#' as int as Byte) == ['%' as int as Byte, '2' as int as Byte, '3' as int as Byte]
  {
  }
}
