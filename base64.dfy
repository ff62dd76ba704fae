/**
 * The browser's `btoa` and `atob` on Latin-1 strings.
 *
 * `btoa` turns each character (code point below 256) into one byte and
 * writes the bytes in the base64 alphabet of section 4 of RFC 4648, with '='
 * padding.  `atob` is the "forgiving-base64 decode" of the WHATWG Infra
 * standard: ASCII whitespace is dropped, one or two trailing '=' are dropped
 * when the length is a multiple of four, a length of 1 modulo 4 or any
 * character outside the alphabet is a failure, and leftover bits of a
 * final partial group are discarded.  Failures of either function are
 * `None` here (the browser throws an InvalidCharacterError).
 */
module Base64 {
  import opened Wrappers

  type Byte = b: int | 0 <= b < 256
  type Sextet = k: int | 0 <= k < 64

  // ---------------------------------------------------------------------
  // The alphabet of section 4 of RFC 4648

  function AlphabetChar(k: Sextet): (c: char)
  {
    if k < 26 then ('A' as int + k) as char
    else if k < 52 then ('a' as int + (k - 26)) as char
    else if k < 62 then ('0' as int + (k - 52)) as char
    else if k == 62 then '+'
    else '/'
  }

  predicate IsAlphabetChar(c: char)
  {
    'A' <= c <= 'Z' || 'a' <= c <= 'z' || '0' <= c <= '9' || c == '+' || c == '/'
  }

  function AlphabetIndex(c: char): (k: Sextet)
    requires IsAlphabetChar(c)
    ensures AlphabetChar(k) == c
  {
    if 'A' <= c <= 'Z' then c as int - 'A' as int
    else if 'a' <= c <= 'z' then c as int - 'a' as int + 26
    else if '0' <= c <= '9' then c as int - '0' as int + 52
    else if c == '+' then 62
    else 63
  }

  /** The alphabet is a bijection between sextets and its 64 characters. */
  lemma AlphabetRoundTrip(k: Sextet)
    ensures IsAlphabetChar(AlphabetChar(k))
    ensures AlphabetIndex(AlphabetChar(k)) == k
  {
  }

  predicate AllAlphabet(s: string)
  {
    forall i :: 0 <= i < |s| ==> IsAlphabetChar(s[i])
  }

  // ---------------------------------------------------------------------
  // Encoding (RFC 4648, section 4)

  /** Four characters for three bytes. */
  function EncodeGroup(b0: Byte, b1: Byte, b2: Byte): (s: string)
    ensures |s| == 4 && AllAlphabet(s)
  {
    AlphabetRoundTrip(b0 / 4);
    AlphabetRoundTrip((b0 % 4) * 16 + b1 / 16);
    AlphabetRoundTrip((b1 % 16) * 4 + b2 / 64);
    AlphabetRoundTrip(b2 % 64);
    [AlphabetChar(b0 / 4), AlphabetChar((b0 % 4) * 16 + b1 / 16),
     AlphabetChar((b1 % 16) * 4 + b2 / 64), AlphabetChar(b2 % 64)]
  }

  /** The alphabet characters of the encoding, before padding. */
  function EncodeUnpadded(b: seq<Byte>): (s: string)
    ensures AllAlphabet(s)
    ensures |s| == 4 * (|b| / 3) + (if |b| % 3 == 0 then 0 else |b| % 3 + 1)
  {
    if |b| == 0 then []
    else if |b| == 1 then
      AlphabetRoundTrip(b[0] / 4);
      AlphabetRoundTrip((b[0] % 4) * 16);
      [AlphabetChar(b[0] / 4), AlphabetChar((b[0] % 4) * 16)]
    else if |b| == 2 then
      AlphabetRoundTrip(b[0] / 4);
      AlphabetRoundTrip((b[0] % 4) * 16 + b[1] / 16);
      AlphabetRoundTrip((b[1] % 16) * 4);
      [AlphabetChar(b[0] / 4), AlphabetChar((b[0] % 4) * 16 + b[1] / 16), AlphabetChar((b[1] % 16) * 4)]
    else EncodeGroup(b[0], b[1], b[2]) + EncodeUnpadded(b[3..])
  }

  /** The '=' characters that complete the last group. */
  function Padding(n: nat): string
  {
    if n % 3 == 1 then "==" else if n % 3 == 2 then "=" else ""
  }

  /** Base64 with padding: always a multiple of four characters. */
  function EncodeBytes(b: seq<Byte>): (s: string)
    ensures |s| == 4 * ((|b| + 2) / 3)
  {
    EncodeUnpadded(b) + Padding(|b|)
  }

  /** The first three bytes always encode to the first four characters. */
  lemma EncodeBytesGroup(b: seq<Byte>)
    requires |b| >= 3
    ensures EncodeBytes(b) == EncodeGroup(b[0], b[1], b[2]) + EncodeBytes(b[3..])
  {
    assert Padding(|b|) == Padding(|b[3..]|);
  }

  // ---------------------------------------------------------------------
  // Forgiving decode

  predicate IsAsciiWhitespace(c: char)
  {
    c == '\t' || c == '\n' || c as int == 12 || c == '\r' || c == ' '
  }

  function RemoveWhitespace(s: string): (t: string)
    ensures |t| <= |s|
    ensures forall i :: 0 <= i < |t| ==> !IsAsciiWhitespace(t[i])
  {
    if s == [] then []
    else if IsAsciiWhitespace(s[0]) then RemoveWhitespace(s[1..])
    else [s[0]] + RemoveWhitespace(s[1..])
  }

  /** One or two trailing '=' are dropped when the length is a multiple of four. */
  function StripPadding(s: string): (t: string)
    ensures t <= s
  {
    if |s| % 4 != 0 then s
    else if |s| >= 2 && s[|s| - 2..] == "==" then s[..|s| - 2]
    else if |s| >= 1 && s[|s| - 1] == '=' then s[..|s| - 1]
    else s
  }

  /** Bytes of a run of alphabet characters; a trailing partial group of 2 or 3 characters gives 1 or 2 bytes. */
  function DecodeSextets(t: string): (b: seq<Byte>)
    requires AllAlphabet(t) && |t| % 4 != 1
    ensures |b| == 3 * (|t| / 4) + (if |t| % 4 == 0 then 0 else |t| % 4 - 1)
  {
    if |t| == 0 then []
    else if |t| == 2 then
      var c0, c1 := AlphabetIndex(t[0]), AlphabetIndex(t[1]);
      [c0 * 4 + c1 / 16]
    else if |t| == 3 then
      var c0, c1, c2 := AlphabetIndex(t[0]), AlphabetIndex(t[1]), AlphabetIndex(t[2]);
      [c0 * 4 + c1 / 16, (c1 % 16) * 16 + c2 / 4]
    else DecodeGroup(t[..4]) + DecodeSextets(t[4..])
  }

  /** Three bytes for four alphabet characters. */
  function DecodeGroup(g: string): (b: seq<Byte>)
    requires |g| == 4 && AllAlphabet(g)
    ensures |b| == 3
  {
    var c0, c1, c2, c3 := AlphabetIndex(g[0]), AlphabetIndex(g[1]), AlphabetIndex(g[2]), AlphabetIndex(g[3]);
    [c0 * 4 + c1 / 16, (c1 % 16) * 16 + c2 / 4, (c2 % 4) * 64 + c3]
  }

  function DecodeBytes(s: string): (r: Option<seq<Byte>>)
  {
    var t := StripPadding(RemoveWhitespace(s));
    if |t| % 4 == 1 || !AllAlphabet(t) then None
    else Some(DecodeSextets(t))
  }

  // ---------------------------------------------------------------------
  // Round trip on bytes

  lemma GroupRoundTrip(b0: Byte, b1: Byte, b2: Byte)
    ensures DecodeGroup(EncodeGroup(b0, b1, b2)) == [b0, b1, b2]
  {
    AlphabetRoundTrip(b0 / 4);
    AlphabetRoundTrip((b0 % 4) * 16 + b1 / 16);
    AlphabetRoundTrip((b1 % 16) * 4 + b2 / 64);
    AlphabetRoundTrip(b2 % 64);
    var e := EncodeGroup(b0, b1, b2);
    assert AlphabetIndex(e[0]) == b0 / 4 && AlphabetIndex(e[1]) == (b0 % 4) * 16 + b1 / 16;
    assert AlphabetIndex(e[2]) == (b1 % 16) * 4 + b2 / 64 && AlphabetIndex(e[3]) == b2 % 64;
    SextetSplits(b0, b1, b2);
  }

  /** Regrouping 8-bit bytes into 6-bit sextets and back. */
  lemma SextetSplits(b0: Byte, b1: Byte, b2: Byte)
    ensures (b0 / 4) * 4 + ((b0 % 4) * 16 + b1 / 16) / 16 == b0
    ensures (((b0 % 4) * 16 + b1 / 16) % 16) * 16 + ((b1 % 16) * 4 + b2 / 64) / 4 == b1
    ensures (((b1 % 16) * 4 + b2 / 64) % 4) * 64 + b2 % 64 == b2
  {
  }

  /** Decoding the alphabet characters of an encoding gives the bytes back. */
  lemma {:induction false} UnpaddedRoundTrip(b: seq<Byte>)
    ensures |EncodeUnpadded(b)| % 4 != 1
    ensures DecodeSextets(EncodeUnpadded(b)) == b
    decreases |b|
  {
    if 1 <= |b| <= 2 {
      ShortRoundTrip(b);
    } else if |b| >= 3 {
      UnpaddedRoundTrip(b[3..]);
      GroupStep(b);
    }
  }

  /** One full group in front of a tail that already round-trips. */
  lemma GroupStep(b: seq<Byte>)
    requires |b| >= 3
    requires |EncodeUnpadded(b[3..])| % 4 != 1
    requires DecodeSextets(EncodeUnpadded(b[3..])) == b[3..]
    ensures |EncodeUnpadded(b)| % 4 != 1
    ensures DecodeSextets(EncodeUnpadded(b)) == b
  {
    var g, rest := EncodeGroup(b[0], b[1], b[2]), EncodeUnpadded(b[3..]);
    GroupRoundTrip(b[0], b[1], b[2]);
    assert EncodeUnpadded(b) == g + rest;
    DecodeSextetsCons(g, rest);
    assert b == [b[0], b[1], b[2]] + b[3..];
  }

  /** A leading full group decodes separately from the rest. */
  lemma DecodeSextetsCons(g: string, rest: string)
    requires |g| == 4 && AllAlphabet(g) && AllAlphabet(rest) && |rest| % 4 != 1
    ensures AllAlphabet(g + rest) && |g + rest| % 4 != 1
    ensures DecodeSextets(g + rest) == DecodeGroup(g) + DecodeSextets(rest)
  {
    var t := g + rest;
    assert forall i :: 0 <= i < |t| ==> IsAlphabetChar(t[i]) by {
      forall i | 0 <= i < |t| ensures IsAlphabetChar(t[i]) {
        if i < 4 { assert t[i] == g[i]; } else { assert t[i] == rest[i - 4]; }
      }
    }
    assert t[..4] == g && t[4..] == rest;
  }

  /** The final partial group of one or two bytes. */
  lemma ShortRoundTrip(b: seq<Byte>)
    requires 1 <= |b| <= 2
    ensures |EncodeUnpadded(b)| % 4 != 1
    ensures DecodeSextets(EncodeUnpadded(b)) == b
  {
    AlphabetRoundTrip(b[0] / 4);
    if |b| == 1 {
      AlphabetRoundTrip((b[0] % 4) * 16);
    } else {
      AlphabetRoundTrip((b[0] % 4) * 16 + b[1] / 16);
      AlphabetRoundTrip((b[1] % 16) * 4);
    }
  }

  lemma {:induction false} RemoveWhitespaceKeeps(s: string)
    requires forall i :: 0 <= i < |s| ==> !IsAsciiWhitespace(s[i])
    ensures RemoveWhitespace(s) == s
  {
    if s != [] {
      RemoveWhitespaceKeeps(s[1..]);
    }
  }

  /** The padding is exactly what the decoder strips. */
  lemma StripEncoded(b: seq<Byte>)
    ensures StripPadding(EncodeBytes(b)) == EncodeUnpadded(b)
  {
    var u := EncodeUnpadded(b);
    var q, r := |b| / 3, |b| % 3;
    assert |u| == 4 * q + (if r == 0 then 0 else r + 1);
    FourTimesPlusMod(q, if r == 0 then 0 else r + 1);
    if |b| % 3 == 1 {
      StripTwo(u);
    } else if |b| % 3 == 2 {
      StripOne(u);
    } else {
      StripNone(u);
    }
  }

  lemma FourTimesPlusMod(q: int, r: int)
    requires 0 <= r < 4
    ensures (4 * q + r) % 4 == r
  {
  }

  lemma StripTwo(u: string)
    requires |u| % 4 == 2
    ensures StripPadding(u + "==") == u
  {
    var s := u + "==";
    assert s[|s| - 2..] == "==";
    assert s[..|s| - 2] == u;
  }

  lemma StripOne(u: string)
    requires |u| % 4 == 3 && AllAlphabet(u)
    ensures StripPadding(u + "=") == u
  {
    var s := u + "=";
    assert s[|s| - 2] == u[|u| - 1];
    assert s[|s| - 2..] != "==";
    assert s[..|s| - 1] == u;
  }

  lemma StripNone(u: string)
    requires |u| % 4 == 0 && AllAlphabet(u)
    ensures StripPadding(u + "") == u
  {
    var s := u + "";
    assert s == u;
    if |s| >= 1 {
      assert IsAlphabetChar(s[|s| - 1]);
    }
    if |s| >= 2 {
      assert s[|s| - 2..][1] == s[|s| - 1];
    }
  }

  /** `DecodeBytes` inverts `EncodeBytes`. */
  lemma DecodeEncode(b: seq<Byte>)
    ensures DecodeBytes(EncodeBytes(b)) == Some(b)
  {
    var s := EncodeBytes(b);
    var u := EncodeUnpadded(b);
    assert forall i :: 0 <= i < |s| ==> !IsAsciiWhitespace(s[i]) by {
      forall i | 0 <= i < |s| ensures !IsAsciiWhitespace(s[i]) {
        if i < |u| { assert s[i] == u[i]; }
      }
    }
    RemoveWhitespaceKeeps(s);
    StripEncoded(b);
    UnpaddedRoundTrip(b);
  }

  // ---------------------------------------------------------------------
  // btoa and atob on strings

  predicate IsLatin1(s: string)
  {
    forall i :: 0 <= i < |s| ==> s[i] as int < 256
  }

  function ToBytes(s: string): (b: seq<Byte>)
    requires IsLatin1(s)
    ensures |b| == |s| && forall i :: 0 <= i < |s| ==> b[i] == s[i] as int
  {
    seq(|s|, i requires 0 <= i < |s| => s[i] as int)
  }

  function FromBytes(b: seq<Byte>): (s: string)
    ensures |s| == |b| && IsLatin1(s)
    ensures forall i :: 0 <= i < |b| ==> s[i] as int == b[i]
  {
    seq(|b|, i requires 0 <= i < |b| => b[i] as char)
  }

  /** A concatenation is Latin-1 exactly when both parts are. */
  lemma Latin1Concat(s: string, t: string)
    ensures IsLatin1(s + t) <==> IsLatin1(s) && IsLatin1(t)
  {
    var u := s + t;
    assert forall i :: 0 <= i < |s| ==> u[i] == s[i];
    assert forall i :: 0 <= i < |t| ==> u[|s| + i] == t[i];
    if IsLatin1(s) && IsLatin1(t) {
      forall i | 0 <= i < |u| ensures u[i] as int < 256 {
        if i >= |s| {
          assert u[i] == t[i - |s|];
        }
      }
    }
  }

  /** Bytes of a concatenation. */
  lemma ToBytesConcat(s: string, t: string)
    requires IsLatin1(s) && IsLatin1(t)
    ensures IsLatin1(s + t) && ToBytes(s + t) == ToBytes(s) + ToBytes(t)
  {
    assert forall i :: 0 <= i < |s + t| ==> (s + t)[i] as int < 256 by {
      forall i | 0 <= i < |s + t| ensures (s + t)[i] as int < 256 {
        if i < |s| { assert (s + t)[i] == s[i]; } else { assert (s + t)[i] == t[i - |s|]; }
      }
    }
  }

  /** `btoa`: fails on a character above U+00FF. */
  function Btoa(s: string): (r: Option<string>)
    ensures r.Some? <==> IsLatin1(s)
  {
    if IsLatin1(s) then Some(EncodeBytes(ToBytes(s))) else None
  }

  /** `atob`: the forgiving decode, read back as a Latin-1 string. */
  function Atob(s: string): (r: Option<string>)
    ensures r.Some? <==> DecodeBytes(s).Some?
    ensures r.Some? ==> IsLatin1(r.value) && |r.value| == |DecodeBytes(s).value|
  {
    match DecodeBytes(s)
    case None => None
    case Some(b) => Some(FromBytes(b))
  }

  /** `atob(btoa(s)) == s` for every Latin-1 string. */
  lemma AtobBtoa(s: string)
    requires IsLatin1(s)
    ensures Btoa(s).Some? && Atob(Btoa(s).value) == Some(s)
  {
    DecodeEncode(ToBytes(s));
    assert FromBytes(ToBytes(s)) == s;
  }

  /** `btoa` never maps two Latin-1 strings to the same text. */
  lemma BtoaInjective(s: string, s': string)
    requires IsLatin1(s) && IsLatin1(s')
    requires Btoa(s) == Btoa(s')
    ensures s == s'
  {
    AtobBtoa(s);
    AtobBtoa(s');
  }

  /** `btoa` text consists of alphabet characters followed by at most two '='. */
  lemma BtoaAlphabet(s: string)
    requires IsLatin1(s)
    ensures forall i :: 0 <= i < |Btoa(s).value| ==> IsAlphabetChar(Btoa(s).value[i]) || Btoa(s).value[i] == '='
  {
    var u := EncodeUnpadded(ToBytes(s));
    var e := Btoa(s).value;
    forall i | 0 <= i < |e| ensures IsAlphabetChar(e[i]) || e[i] == '=' {
      if i < |u| { assert e[i] == u[i]; }
    }
  }

  // ---------------------------------------------------------------------
  // Failures of the forgiving decode

  lemma {:induction false} RemoveWhitespaceKeepsChar(s: string, i: int)
    requires 0 <= i < |s| && !IsAsciiWhitespace(s[i])
    ensures s[i] in RemoveWhitespace(s)
  {
    if i > 0 {
      RemoveWhitespaceKeepsChar(s[1..], i - 1);
    }
  }

  /** A character that is neither in the alphabet, nor whitespace, nor '=' makes `atob` fail. */
  lemma AtobRejectsForeignChar(s: string, i: int)
    requires 0 <= i < |s|
    requires !IsAlphabetChar(s[i]) && !IsAsciiWhitespace(s[i]) && s[i] != '='
    ensures Atob(s) == None
  {
    var w := RemoveWhitespace(s);
    RemoveWhitespaceKeepsChar(s, i);
    var t := StripPadding(w);
    var j :| 0 <= j < |w| && w[j] == s[i];
    StripPaddingKeeps(w, j);
    assert !IsAlphabetChar(t[j]);
  }

  /** Stripping padding only removes '=' characters. */
  lemma StripPaddingKeeps(w: string, j: int)
    requires 0 <= j < |w| && w[j] != '='
    ensures j < |StripPadding(w)| && StripPadding(w)[j] == w[j]
  {
  }

  /** A single character is never valid base64. */
  lemma AtobRejectsLengthOne(c: char)
    requires !IsAsciiWhitespace(c)
    ensures Atob([c]) == None
  {
    assert RemoveWhitespace([c]) == [c] by { RemoveWhitespaceKeeps([c]); }
  }
}
