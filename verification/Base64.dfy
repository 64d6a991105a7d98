/**
 The `ab2b64`/`b642ab` helpers of the crypto service. `ab2b64` writes each byte as the
 character with that code and hands the string to `btoa`; `b642ab` runs `atob` and reads
 the character codes back as bytes. Since every character involved has a code below 256,
 the pair is base64 (section 4 of RFC 4648) straight over bytes: `Encode` is `btoa`,
 `Decode` is `atob`, which applies the forgiving-base64 decode of the HTML standard
 (ASCII whitespace ignored, padding optional, leftover bits discarded).
 */
module Base64 {
  import opened Wrappers
  import Ascii

  type uint8 = x: int | 0 <= x < 256
  type uint6 = x: int | 0 <= x < 64

  /** `atob` throws a DOMException named InvalidCharacterError on malformed input. */
  datatype DecodeError = InvalidCharacter

  /** The 64-character alphabet of section 4 of RFC 4648, indexed by sextet value. */
  const Alphabet: string := Ascii.Upper + Ascii.Lower + Ascii.Digits + "+/"

  const Pad: char := '='

  predicate IsAlphabetChar(c: char) {
    Ascii.IsAlphanumeric(c) || c == '+' || c == '/'
  }

  /** ASCII whitespace as the HTML standard defines it: TAB, LF, FF, CR and SPACE. */
  predicate IsAsciiWhitespace(c: char) {
    c == '\t' || c == '\n' || c == '\U{000C}' || c == '\r' || c == ' '
  }

  /** The character that stands for sextet `v`. */
  function CharOf(v: uint6): (c: char)
    ensures IsAlphabetChar(c)
  {
    if v < 26 then ('A' as int + v) as char
    else if v < 52 then ('a' as int + (v - 26)) as char
    else if v < 62 then ('0' as int + (v - 52)) as char
    else if v == 62 then '+'
    else '/'
  }

  /** The sextet an alphabet character stands for; the inverse of `CharOf`. */
  function SextetOf(c: char): uint6
    requires IsAlphabetChar(c)
  {
    if 'A' <= c <= 'Z' then c as int - 'A' as int
    else if 'a' <= c <= 'z' then c as int - 'a' as int + 26
    else if '0' <= c <= '9' then c as int - '0' as int + 52
    else if c == '+' then 62
    else 63
  }

  lemma SextetOfCharOf(v: uint6)
    ensures SextetOf(CharOf(v)) == v
  {
  }

  lemma CharOfSextetOf(c: char)
    requires IsAlphabetChar(c)
    ensures CharOf(SextetOf(c)) == c
  {
  }

  /** `CharOf` reads the RFC 4648 table. */
  lemma CharOfIsTableEntry(v: uint6)
    ensures CharOf(v) == Alphabet[v]
  {
    Ascii.ClassesInCodeOrder();
  }

  /** Membership in the alphabet string and the range test agree. */
  lemma AlphabetMembership(c: char)
    ensures c in Alphabet <==> IsAlphabetChar(c)
  {
    if c in Alphabet {
      var v :| 0 <= v < |Alphabet| && Alphabet[v] == c;
      CharOfIsTableEntry(v);
    }
    if IsAlphabetChar(c) {
      CharOfSextetOf(c);
      CharOfIsTableEntry(SextetOf(c));
    }
  }

  /** The sextets of `b`, most significant bits first: four per three bytes, and two or three
      for a final group of one or two bytes whose missing low bits are zero. */
  function Sextets(b: seq<uint8>): (v: seq<uint6>)
    ensures |v| == (4 * |b| + 2) / 3
    decreases |b|
  {
    if |b| == 0 then []
    else if |b| == 1 then [b[0] / 4, (b[0] % 4) * 16]
    else if |b| == 2 then [b[0] / 4, (b[0] % 4) * 16 + b[1] / 16, (b[1] % 16) * 4]
    else
      GroupLengths(|b|);
      [b[0] / 4, (b[0] % 4) * 16 + b[1] / 16, (b[1] % 16) * 4 + b[2] / 64, b[2] % 64]
      + Sextets(b[3..])
  }

  /** Peeling one group off: three bytes are four sextets. */
  lemma GroupLengths(n: int)
    requires n >= 3
    ensures (4 * (n - 3) + 2) / 3 + 4 == (4 * n + 2) / 3
  {
    assert 4 * n + 2 == (4 * (n - 3) + 2) + 3 * 4;
  }

  /** Peeling one group off: four sextets are three bytes, and the residue mod 4 stays. */
  lemma SextetGroupLengths(n: int)
    requires n >= 4
    ensures (3 * (n - 4)) / 4 + 3 == (3 * n) / 4
    ensures (n - 4) % 4 == n % 4
  {
    assert 3 * n == 3 * (n - 4) + 4 * 3;
  }

  /** The bytes packed in a run of sextets; the bits of an incomplete final byte are dropped. */
  function FromSextets(v: seq<uint6>): (b: seq<uint8>)
    requires |v| % 4 != 1
    ensures |b| == (3 * |v|) / 4
    decreases |v|
  {
    if |v| == 0 then []
    else
      var first: uint8 := v[0] as int * 4 + v[1] as int / 16;
      if |v| == 2 then [first]
      else
        var second: uint8 := (v[1] as int % 16) * 16 + v[2] as int / 4;
        if |v| == 3 then [first, second]
        else
          SextetGroupLengths(|v|);
          [first, second, (v[2] as int % 4) * 64 + v[3] as int] + FromSextets(v[4..])
  }

  /** Base64 without the trailing padding. */
  function Unpadded(b: seq<uint8>): (s: string)
    ensures |s| == (4 * |b| + 2) / 3
    ensures forall i :: 0 <= i < |s| ==> IsAlphabetChar(s[i])
  {
    var v := Sextets(b);
    seq(|v|, i requires 0 <= i < |v| => CharOf(v[i]))
  }

  /** The `=` characters that complete the last group to four characters. */
  function Padding(n: nat): string {
    if n % 3 == 1 then "==" else if n % 3 == 2 then "=" else ""
  }

  lemma EncodedLength(n: nat)
    ensures (4 * n + 2) / 3 + |Padding(n)| == 4 * ((n + 2) / 3)
    ensures (4 * ((n + 2) / 3)) % 4 == 0
  {
    var q, r := n / 3, n % 3;
    assert n == 3 * q + r;
    if r == 0 {
      assert 4 * n + 2 == 3 * (4 * q) + 2;
      assert n + 2 == 3 * q + 2;
    } else if r == 1 {
      assert 4 * n + 2 == 3 * (4 * q + 2);
      assert n + 2 == 3 * (q + 1);
    } else {
      assert 4 * n + 2 == 3 * (4 * q + 3) + 1;
      assert n + 2 == 3 * (q + 1) + 1;
    }
  }

  /** `btoa` applied to the byte string of `b`, as `ab2b64` does. */
  function Encode(b: seq<uint8>): (s: string)
    ensures |s| == 4 * ((|b| + 2) / 3)
    ensures forall i :: 0 <= i < |s| ==> s[i] in Alphabet || s[i] == Pad
    ensures forall i :: 0 <= i < |s| && s[i] == Pad ==> |s| - 2 <= i
  {
    var u := Unpadded(b);
    var n := |b|;
    EncodedLength(n);
    forall i | 0 <= i < |u|
      ensures u[i] in Alphabet
    {
      AlphabetMembership(u[i]);
    }
    u + Padding(n)
  }

  /** The input with its ASCII whitespace removed. */
  function StripWhitespace(s: string): (t: string)
    ensures |t| <= |s|
  {
    if |s| == 0 then ""
    else if IsAsciiWhitespace(s[0]) then StripWhitespace(s[1..])
    else [s[0]] + StripWhitespace(s[1..])
  }

  /** One or two trailing `=` removed; applied only when the length is a multiple of four. */
  function StripPadding(t: string): (u: string)
    ensures |t| - 2 <= |u| <= |t|
  {
    if 2 <= |t| && t[|t| - 1] == Pad && t[|t| - 2] == Pad then t[..|t| - 2]
    else if 1 <= |t| && t[|t| - 1] == Pad then t[..|t| - 1]
    else t
  }

  predicate AllAlphabet(u: string) {
    forall i :: 0 <= i < |u| ==> IsAlphabetChar(u[i])
  }

  /** The bytes of a padding-free run of alphabet characters. */
  function DecodeUnpadded(u: string): (b: seq<uint8>)
    requires AllAlphabet(u)
    requires |u| % 4 != 1
    ensures |b| == (3 * |u|) / 4
  {
    FromSextets(seq(|u|, i requires 0 <= i < |u| => SextetOf(u[i])))
  }

  /** A character `atob` rejects wherever it stands. */
  predicate IsForeign(c: char) {
    !IsAlphabetChar(c) && !IsAsciiWhitespace(c) && c != Pad
  }

  predicate HasForeign(s: string) {
    exists i :: 0 <= i < |s| && IsForeign(s[i])
  }

  lemma {:induction false} ForeignSurvivesWhitespace(s: string)
    ensures HasForeign(s) ==> HasForeign(StripWhitespace(s))
    decreases |s|
  {
    if |s| > 0 && HasForeign(s) {
      var t := StripWhitespace(s[1..]);
      if IsForeign(s[0]) {
        assert StripWhitespace(s)[0] == s[0];
      } else {
        var i :| 0 <= i < |s| && IsForeign(s[i]);
        assert IsForeign(s[1..][i - 1]);
        ForeignSurvivesWhitespace(s[1..]);
        var j :| 0 <= j < |t| && IsForeign(t[j]);
        if IsAsciiWhitespace(s[0]) {
          assert StripWhitespace(s) == t;
        } else {
          assert StripWhitespace(s)[j + 1] == t[j];
        }
      }
    }
  }

  lemma ForeignSurvivesPadding(t: string)
    ensures HasForeign(t) ==> HasForeign(StripPadding(t))
  {
    if HasForeign(t) {
      var i :| 0 <= i < |t| && IsForeign(t[i]);
      assert StripPadding(t)[i] == t[i];
    }
  }

  /** `atob` read back into bytes, as `b642ab` does. */
  function Decode(s: string): (r: Result<seq<uint8>, DecodeError>)
    ensures HasForeign(s) ==> r == Failure(InvalidCharacter)
    ensures |StripWhitespace(s)| % 4 == 1 ==> r == Failure(InvalidCharacter)
    ensures StripWhitespace(s) == "" ==> r == Success([])
  {
    var t := StripWhitespace(s);
    var u := if |t| % 4 == 0 then StripPadding(t) else t;
    ForeignSurvivesWhitespace(s);
    ForeignSurvivesPadding(t);
    if |u| % 4 == 1 || !AllAlphabet(u) then Failure(InvalidCharacter)
    else Success(DecodeUnpadded(u))
  }

  /** The three bytes of one group survive the trip through four sextets. */
  lemma GroupRoundTrip(x: uint8, y: uint8, z: uint8)
    ensures var v0, v1, v2, v3 := x / 4, (x % 4) * 16 + y / 16, (y % 16) * 4 + z / 64, z % 64;
            [v0 * 4 + v1 / 16, (v1 % 16) * 16 + v2 / 4, (v2 % 4) * 64 + v3] == [x, y, z]
  {
    assert ((x % 4) * 16 + y / 16) / 16 == x % 4;
    assert ((x % 4) * 16 + y / 16) % 16 == y / 16;
    assert ((y % 16) * 4 + z / 64) / 4 == y % 16;
    assert ((y % 16) * 4 + z / 64) % 4 == z / 64;
  }

  lemma SingleFromSextets(x: uint8)
    ensures FromSextets([x / 4, (x % 4) * 16]) == [x]
  {
    var v: seq<uint6> := [x / 4, (x % 4) * 16];
    assert FromSextets(v) == [v[0] as int * 4 + v[1] as int / 16];
  }

  /** A final group of one byte comes back from its two sextets. */
  lemma OneByteRoundTrip(b: seq<uint8>)
    requires |b| == 1
    ensures FromSextets(Sextets(b)) == b
  {
    assert Sextets(b) == [b[0] / 4, (b[0] % 4) * 16];
    SingleFromSextets(b[0]);
    assert b == [b[0]];
  }

  lemma PairFromSextets(x: uint8, y: uint8)
    ensures FromSextets([x / 4, (x % 4) * 16 + y / 16, (y % 16) * 4]) == [x, y]
  {
    var v: seq<uint6> := [x / 4, (x % 4) * 16 + y / 16, (y % 16) * 4];
    assert ((x % 4) * 16 + y / 16) / 16 == x % 4;
    assert ((x % 4) * 16 + y / 16) % 16 == y / 16;
    assert FromSextets(v) == [v[0] as int * 4 + v[1] as int / 16, (v[1] as int % 16) * 16 + v[2] as int / 4];
  }

  /** A final group of two bytes comes back from its three sextets. */
  lemma TwoBytesRoundTrip(b: seq<uint8>)
    requires |b| == 2
    ensures FromSextets(Sextets(b)) == b
  {
    assert Sextets(b) == [b[0] / 4, (b[0] % 4) * 16 + b[1] / 16, (b[1] % 16) * 4];
    PairFromSextets(b[0], b[1]);
    assert b == [b[0], b[1]];
  }

  /** A full group of three bytes comes back from its four sextets, ahead of the rest. */
  lemma FullGroupRoundTrip(b: seq<uint8>)
    requires |b| >= 3
    requires |Sextets(b[3..])| % 4 != 1
    ensures |Sextets(b)| % 4 != 1 && FromSextets(Sextets(b)) == b[..3] + FromSextets(Sextets(b[3..]))
  {
    var v := Sextets(b);
    assert v[4..] == Sextets(b[3..]);
    GroupRoundTrip(b[0], b[1], b[2]);
    assert b[..3] == [b[0], b[1], b[2]];
  }

  lemma {:induction false} SextetsRoundTrip(b: seq<uint8>)
    ensures |Sextets(b)| % 4 != 1 && FromSextets(Sextets(b)) == b
    decreases |b|
  {
    if |b| == 1 {
      OneByteRoundTrip(b);
    } else if |b| == 2 {
      TwoBytesRoundTrip(b);
    } else if |b| >= 3 {
      SextetsRoundTrip(b[3..]);
      FullGroupRoundTrip(b);
      assert b == b[..3] + b[3..];
    }
  }

  lemma DecodeUnpaddedRoundTrip(b: seq<uint8>)
    ensures AllAlphabet(Unpadded(b)) && |Unpadded(b)| % 4 != 1 && DecodeUnpadded(Unpadded(b)) == b
  {
    var v, u := Sextets(b), Unpadded(b);
    SextetsRoundTrip(b);
    var w := seq(|u|, i requires 0 <= i < |u| => SextetOf(u[i]));
    forall i | 0 <= i < |v|
      ensures w[i] == v[i]
    {
      SextetOfCharOf(v[i]);
    }
    assert w == v;
  }

  lemma {:induction false} StripWhitespaceKeepsClean(s: string)
    requires forall i :: 0 <= i < |s| ==> !IsAsciiWhitespace(s[i])
    ensures StripWhitespace(s) == s
    decreases |s|
  {
    if |s| > 0 {
      StripWhitespaceKeepsClean(s[1..]);
      assert s == [s[0]] + s[1..];
    }
  }

  /** Removing the padding of an encoding leaves its unpadded form. */
  lemma StripPaddingOfEncode(b: seq<uint8>)
    ensures StripPadding(Encode(b)) == Unpadded(b)
  {
    var u, t := Unpadded(b), Encode(b);
    assert t == u + Padding(|b|);
    if |b| % 3 == 1 {
      assert t[..|t| - 2] == u;
    } else if |b| % 3 == 2 {
      assert |u| >= 1 && IsAlphabetChar(u[|u| - 1]);
      assert t[..|t| - 1] == u;
    } else {
      assert t == u;
      if |u| >= 1 {
        assert IsAlphabetChar(u[|u| - 1]);
      }
    }
  }

  /** `b642ab(ab2b64(b)) == b` for every byte sequence. */
  lemma {:induction false} DecodeEncode(b: seq<uint8>)
    ensures Decode(Encode(b)) == Success(b)
  {
    var s := Encode(b);
    forall i | 0 <= i < |s|
      ensures !IsAsciiWhitespace(s[i])
    {
      if s[i] != Pad {
        AlphabetMembership(s[i]);
      }
    }
    StripWhitespaceKeepsClean(s);
    EncodedLength(|b|);
    StripPaddingOfEncode(b);
    DecodeUnpaddedRoundTrip(b);
    var u := Unpadded(b);
    assert |s| % 4 == 0;
    assert StripWhitespace(s) == s;
    assert StripPadding(s) == u;
    assert !(|u| % 4 == 1 || !AllAlphabet(u));
    assert Decode(s) == Success(DecodeUnpadded(u));
  }

  /** Distinct byte sequences never share an encoding. */
  lemma EncodeInjective(a: seq<uint8>, b: seq<uint8>)
    requires Encode(a) == Encode(b)
    ensures a == b
  {
    DecodeEncode(a);
    DecodeEncode(b);
  }
}
