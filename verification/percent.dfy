/**
  Percent-decoding as `urllib.parse.unquote` performs it on a URL, at the
  level of single octets (section 2.1 of RFC 3986): a `%` followed by two
  hexadecimal digits, in either case, becomes the character whose code is
  that octet; every other character, including a `%` that does not start a
  well-formed triplet, is kept literally. Triplets are recognised left to
  right and never overlap, so the output of one triplet is not re-read.
 */
module PercentDecoding {

  predicate IsHexDigit(c: char)
  {
    '0' <= c <= '9' || 'a' <= c <= 'f' || 'A' <= c <= 'F'
  }

  function HexValue(c: char): (v: nat)
    requires IsHexDigit(c)
    ensures v < 16
  {
    if '0' <= c <= '9' then c as int - '0' as int
    else if 'a' <= c <= 'f' then c as int - 'a' as int + 10
    else c as int - 'A' as int + 10
  }

  /** A well-formed percent-encoded triplet starts at index `i` of `s`. */
  predicate TripletAt(s: string, i: nat)
  {
    i + 2 < |s| && s[i] == '%' && IsHexDigit(s[i + 1]) && IsHexDigit(s[i + 2])
  }

  /** The character a triplet `%` `hi` `lo` stands for. */
  function OctetChar(hi: char, lo: char): (c: char)
    requires IsHexDigit(hi) && IsHexDigit(lo)
    ensures c as int == 16 * HexValue(hi) + HexValue(lo)
  {
    (16 * HexValue(hi) + HexValue(lo)) as char
  }

  /** Python's `unquote(s)`, one octet per triplet. */
  function Decode(s: string): (r: string)
    ensures |r| <= |s|
    decreases |s|
  {
    if |s| == 0 then []
    else if TripletAt(s, 0) then [OctetChar(s[1], s[2])] + Decode(s[3..])
    else [s[0]] + Decode(s[1..])
  }

  /** Text without a well-formed triplet decodes to itself. */
  lemma {:induction false} DecodePlainText(s: string)
    requires forall i :: 0 <= i < |s| ==> !TripletAt(s, i)
    ensures Decode(s) == s
    decreases |s|
  {
    if |s| > 0 {
      assert !TripletAt(s, 0);
      forall i | 0 <= i < |s[1..]|
        ensures !TripletAt(s[1..], i)
      {
        assert !TripletAt(s, i + 1);
      }
      DecodePlainText(s[1..]);
      assert s == [s[0]] + s[1..];
    }
  }

  /**
    Decoding is not idempotent in general: an encoded `%` followed by hex
    digits decodes to a new triplet, which a second pass decodes again.
   */
  lemma DecodeTwiceDiffers()
    ensures Decode("%2541") == "%41"
    ensures Decode(Decode("%2541")) == "A"
  {
  }

  /** The unreserved characters of section 2.3 of RFC 3986, never percent-encoded. */
  predicate Unreserved(c: char)
  {
    'A' <= c <= 'Z' || 'a' <= c <= 'z' || '0' <= c <= '9' || c == '-' || c == '.' || c == '_' || c == '~'
  }

  /** Upper-case hexadecimal digit for `n`. */
  function HexDigit(n: nat): (c: char)
    requires n < 16
    ensures IsHexDigit(c) && HexValue(c) == n
  {
    if n < 10 then ('0' as int + n) as char else ('A' as int + n - 10) as char
  }

  /** Every character of `s` fits in one octet. */
  predicate IsOctetText(s: string)
  {
    forall i :: 0 <= i < |s| ==> s[i] as int < 256
  }

  /** Percent-encoding of one octet-sized character: unreserved characters stay, all others become `%HH`. */
  function EncodeChar(c: char): (r: string)
    requires c as int < 256
    ensures Unreserved(c) ==> r == [c]
    ensures !Unreserved(c) ==> |r| == 3 && TripletAt(r, 0) && OctetChar(r[1], r[2]) == c
  {
    if Unreserved(c) then [c]
    else ['%', HexDigit(c as int / 16), HexDigit(c as int % 16)]
  }

  /**
    Percent-encoding of octet text, the reference encoder against which the
    decoder is checked. The result carries no double quote, so the
    `sha256Hash":"` marker can only appear in a URL in encoded form.
   */
  function Encode(s: string): (r: string)
    requires IsOctetText(s)
    ensures forall i :: 0 <= i < |r| ==> r[i] != '"'
    decreases |s|
  {
    if |s| == 0 then []
    else EncodeChar(s[0]) + Encode(s[1..])
  }

  /** Decoding undoes encoding: `unquote(quote(s)) == s` for octet text. */
  lemma {:induction false} DecodeEncode(s: string)
    requires IsOctetText(s)
    ensures Decode(Encode(s)) == s
    decreases |s|
  {
    if |s| > 0 {
      var head := EncodeChar(s[0]);
      var tail := Encode(s[1..]);
      DecodeEncode(s[1..]);
      assert Encode(s) == head + tail;
      if Unreserved(s[0]) {
        assert (head + tail)[0] == s[0];
        assert !TripletAt(head + tail, 0);
        assert (head + tail)[1..] == tail;
      } else {
        assert TripletAt(head + tail, 0);
        assert (head + tail)[3..] == tail;
      }
      assert s == [s[0]] + s[1..];
    }
  }
}
