/**
 * `atob` as the HTML standard defines it (the "forgiving-base64 decode" of
 * the Infra standard), over the alphabet of section 4 of RFC 4648, and the
 * RFC's padded encoder as its inverse.
 */
module Base64 {
  import opened Wrappers

  newtype byte = x: int | 0 <= x < 256

  /** ASCII whitespace of the Infra standard: TAB, LF, FF, CR and SPACE. */
  predicate IsAsciiWhitespace(c: char) {
    c == '\t' || c == '\n' || c == '\U{000C}' || c == '\r' || c == ' '
  }

  function RemoveAsciiWhitespace(s: string): (r: string)
    ensures forall i :: 0 <= i < |r| ==> !IsAsciiWhitespace(r[i])
    ensures (forall i :: 0 <= i < |s| ==> !IsAsciiWhitespace(s[i])) ==> r == s
  {
    if s == [] then []
    else (if IsAsciiWhitespace(s[0]) then [] else [s[0]]) + RemoveAsciiWhitespace(s[1..])
  }

  predicate IsBase64Char(c: char) {
    'A' <= c <= 'Z' || 'a' <= c <= 'z' || '0' <= c <= '9' || c == '+' || c == '/'
  }

  predicate AllBase64(s: string) {
    forall i :: 0 <= i < |s| ==> IsBase64Char(s[i])
  }

  /** The 6-bit value of an alphabet character (table 1 of RFC 4648); only used on alphabet characters. */
  function CharValue(c: char): (v: nat)
    ensures v < 64
  {
    if 'A' <= c <= 'Z' then c as int - 'A' as int
    else if 'a' <= c <= 'z' then c as int - 'a' as int + 26
    else if '0' <= c <= '9' then c as int - '0' as int + 52
    else if c == '+' then 62
    else if c == '/' then 63
    else 0
  }

  /** The alphabet character of a 6-bit value. */
  function Alphabet(v: nat): (c: char)
    requires v < 64
    ensures IsBase64Char(c) && CharValue(c) == v
  {
    if v < 26 then ('A' as int + v) as char
    else if v < 52 then ('a' as int + v - 26) as char
    else if v < 62 then ('0' as int + v - 52) as char
    else if v == 62 then '+'
    else '/'
  }

  /** When the length is a multiple of four, one or two trailing '=' are dropped. */
  function StripPadding(d: string): string {
    if |d| % 4 != 0 then d
    else if |d| >= 2 && d[|d| - 2..] == "==" then d[..|d| - 2]
    else if |d| >= 1 && d[|d| - 1] == '=' then d[..|d| - 1]
    else d
  }

  /** The 6-bit values of a string's characters. */
  function Sextets(d: string): (vs: seq<nat>)
    ensures |vs| == |d| && forall i :: 0 <= i < |d| ==> vs[i] == CharValue(d[i])
  {
    seq(|d|, i requires 0 <= i < |d| => CharValue(d[i]))
  }

  predicate AllSextets(vs: seq<nat>) {
    forall i :: 0 <= i < |vs| ==> vs[i] < 64
  }

  function Byte0(a: nat, b: nat): byte requires a < 64 && b < 64 { (a * 4 + b / 16) as byte }
  function Byte1(b: nat, c: nat): byte requires b < 64 && c < 64 { ((b % 16) * 16 + c / 4) as byte }
  function Byte2(c: nat, d: nat): byte requires c < 64 && d < 64 { ((c % 4) * 64 + d) as byte }

  /**
   * Four sextets give three bytes; a final two or three give one or two
   * (the spare bits are dropped). Only used on lengths that are not 1
   * modulo 4.
   */
  function DecodeSextets(vs: seq<nat>): (r: seq<byte>)
    requires AllSextets(vs)
  {
    if |vs| <= 1 then []
    else if |vs| == 2 then [Byte0(vs[0], vs[1])]
    else if |vs| == 3 then [Byte0(vs[0], vs[1]), Byte1(vs[1], vs[2])]
    else [Byte0(vs[0], vs[1]), Byte1(vs[1], vs[2]), Byte2(vs[2], vs[3])] + DecodeSextets(vs[4..])
  }

  /** A "binary string": one character per byte, with that byte as its code. */
  function BinaryString(b: seq<byte>): (r: string)
    ensures |r| == |b| && forall i :: 0 <= i < |r| ==> r[i] as int == b[i] as int
  {
    seq(|b|, i requires 0 <= i < |b| => (b[i] as int) as char)
  }

  /** `atob(s)`; `None` is the InvalidCharacterError it throws. */
  function Atob(s: string): (r: Option<string>)
    ensures r.Some? ==> forall i :: 0 <= i < |r.value| ==> r.value[i] as int < 256
  {
    var d0 := RemoveAsciiWhitespace(s);
    var d := StripPadding(d0);
    if |d| % 4 == 1 then None
    else if !AllBase64(d) then None
    else Some(BinaryString(DecodeSextets(Sextets(d))))
  }

  // ----- the encoder of section 4 of RFC 4648, as the decoder's partner -----

  /** Three bytes as four sextets; a final one or two bytes as two or three. */
  function EncodeSextets(b: seq<byte>): (vs: seq<nat>)
    ensures AllSextets(vs)
  {
    if |b| == 0 then []
    else
      var x := b[0] as nat;
      if |b| == 1 then [x / 4, (x % 4) * 16]
      else
        var y := b[1] as nat;
        if |b| == 2 then [x / 4, (x % 4) * 16 + y / 16, (y % 16) * 4]
        else
          var z := b[2] as nat;
          var g, rest := [x / 4, (x % 4) * 16 + y / 16, (y % 16) * 4 + z / 64, z % 64], EncodeSextets(b[3..]);
          assert forall i :: 4 <= i < |g + rest| ==> (g + rest)[i] == rest[i - 4];
          g + rest
  }

  /** The alphabet characters of sextets. */
  function Chars(vs: seq<nat>): (s: string)
    requires AllSextets(vs)
    ensures |s| == |vs| && AllBase64(s)
  {
    seq(|vs|, i requires 0 <= i < |vs| => Alphabet(vs[i]))
  }

  function EncodeNoPad(b: seq<byte>): (r: string)
    ensures AllBase64(r)
  {
    Chars(EncodeSextets(b))
  }

  function Padding(b: seq<byte>): string {
    if |b| % 3 == 1 then "==" else if |b| % 3 == 2 then "=" else ""
  }

  /** Base 64 encoding with padding. */
  function Encode(b: seq<byte>): string {
    EncodeNoPad(b) + Padding(b)
  }

  /** Reading the characters back gives the sextets. */
  lemma SextetsOfChars(vs: seq<nat>)
    requires AllSextets(vs)
    ensures Sextets(Chars(vs)) == vs
  {
    var s := Chars(vs);
    forall i | 0 <= i < |vs|
      ensures Sextets(s)[i] == vs[i]
    {
      assert s[i] == Alphabet(vs[i]);
    }
  }

  /** Four characters per full group, plus two or three for a final one or two bytes. */
  lemma {:induction false} EncodeSextetsLength(b: seq<byte>)
    ensures |EncodeSextets(b)| % 4 == (if |b| % 3 == 0 then 0 else |b| % 3 + 1)
  {
    if |b| >= 3 {
      EncodeSextetsLength(b[3..]);
      assert |EncodeSextets(b)| == |EncodeSextets(b[3..])| + 4;
      GroupRemainders(|EncodeSextets(b[3..])|, |b[3..]|);
    }
  }

  /** A full group changes neither remainder. */
  lemma GroupRemainders(m: nat, n: nat)
    ensures (m + 4) % 4 == m % 4 && (n + 3) % 3 == n % 3
  {
  }

  lemma DecodeGroup(x: nat, y: nat, z: nat)
    requires x < 256 && y < 256 && z < 256
    ensures Byte0(x / 4, (x % 4) * 16 + y / 16) as nat == x
    ensures Byte1((x % 4) * 16 + y / 16, (y % 16) * 4 + z / 64) as nat == y
    ensures Byte2((y % 16) * 4 + z / 64, z % 64) as nat == z
  {
  }

  lemma DecodeTail(x: nat, y: nat)
    requires x < 256 && y < 256
    ensures Byte0(x / 4, (x % 4) * 16) as nat == x
    ensures Byte0(x / 4, (x % 4) * 16 + y / 16) as nat == x
    ensures Byte1((x % 4) * 16 + y / 16, (y % 16) * 4) as nat == y
  {
  }

  /** The first four sextets decode on their own. */
  lemma DecodeSextetsGroup(g: seq<nat>, rest: seq<nat>)
    requires |g| == 4 && AllSextets(g) && AllSextets(rest)
    ensures AllSextets(g + rest)
    ensures DecodeSextets(g + rest) == [Byte0(g[0], g[1]), Byte1(g[1], g[2]), Byte2(g[2], g[3])] + DecodeSextets(rest)
  {
    var e := g + rest;
    assert forall i :: 0 <= i < |e| ==> e[i] == (if i < 4 then g[i] else rest[i - 4]);
    assert e[4..] == rest;
  }

  /** One or two bytes come back from their two or three sextets. */
  lemma {:induction false} DecodeEncodeShort(b: seq<byte>)
    requires |b| < 3
    ensures DecodeSextets(EncodeSextets(b)) == b
  {
    if |b| == 1 {
      var x := b[0] as nat;
      var vs := [x / 4, (x % 4) * 16];
      assert EncodeSextets(b) == vs;
      DecodeTail(x, 0);
      assert DecodeSextets(vs) == [Byte0(vs[0], vs[1])];
      assert Byte0(vs[0], vs[1]) == b[0];
    } else if |b| == 2 {
      var x, y := b[0] as nat, b[1] as nat;
      var vs := [x / 4, (x % 4) * 16 + y / 16, (y % 16) * 4];
      assert EncodeSextets(b) == vs;
      DecodeTail(x, y);
      assert DecodeSextets(vs) == [Byte0(vs[0], vs[1]), Byte1(vs[1], vs[2])];
      assert Byte0(vs[0], vs[1]) == b[0] && Byte1(vs[1], vs[2]) == b[1];
    }
  }

  /** A full first group comes back, given that the rest does. */
  lemma {:induction false} DecodeEncodeGroup(b: seq<byte>)
    requires |b| >= 3 && DecodeSextets(EncodeSextets(b[3..])) == b[3..]
    ensures DecodeSextets(EncodeSextets(b)) == b
  {
    var x, y, z := b[0] as nat, b[1] as nat, b[2] as nat;
    var g := [x / 4, (x % 4) * 16 + y / 16, (y % 16) * 4 + z / 64, z % 64];
    var rest := EncodeSextets(b[3..]);
    assert EncodeSextets(b) == g + rest;
    DecodeSextetsGroup(g, rest);
    DecodeGroup(x, y, z);
    assert [b[0], b[1], b[2]] + b[3..] == b;
  }

  /** Decoding the encoder's sextets gives the bytes back. */
  lemma {:induction false} DecodeEncodeSextets(b: seq<byte>)
    ensures DecodeSextets(EncodeSextets(b)) == b
  {
    if |b| >= 3 {
      DecodeEncodeSextets(b[3..]);
      DecodeEncodeGroup(b);
    } else {
      DecodeEncodeShort(b);
    }
  }

  /** Decoding the unpadded encoding gives the bytes back. */
  lemma DecodeEncodeNoPad(b: seq<byte>)
    ensures DecodeSextets(Sextets(EncodeNoPad(b))) == b
  {
    SextetsOfChars(EncodeSextets(b));
    DecodeEncodeSextets(b);
  }

  /** Alphabet characters followed by padding hold no ASCII whitespace. */
  lemma PaddedHasNoWhitespace(n: string, pad: string)
    requires AllBase64(n) && (pad == "" || pad == "=" || pad == "==")
    ensures RemoveAsciiWhitespace(n + pad) == n + pad
  {
    var e := n + pad;
    forall i | 0 <= i < |e| ensures !IsAsciiWhitespace(e[i]) {
      if i < |n| { assert e[i] == n[i] && IsBase64Char(n[i]); }
      else { assert e[i] == pad[i - |n|]; }
    }
  }

  lemma EncodeHasNoWhitespace(b: seq<byte>)
    ensures RemoveAsciiWhitespace(Encode(b)) == Encode(b)
  {
    PaddedHasNoWhitespace(EncodeNoPad(b), Padding(b));
  }

  lemma LengthPlusPadding(m: nat, k: nat)
    requires m % 4 + k == 4
    ensures (m + k) % 4 == 0
  {
    assert m + k == (m / 4) * 4 + 4;
  }

  lemma StripPaddingOf(n: string, pad: string)
    requires AllBase64(n)
    requires pad == "" || pad == "=" || pad == "=="
    requires pad == "" ==> |n| % 4 == 0
    requires pad == "=" ==> |n| % 4 == 3
    requires pad == "==" ==> |n| % 4 == 2
    ensures StripPadding(n + pad) == n
  {
    var e := n + pad;
    if pad == "" {
      assert e == n;
      if |n| >= 1 {
        assert IsBase64Char(n[|n| - 1]);
        if |n| >= 2 { assert e[|e| - 2..][1] == n[|n| - 1]; }
      }
    } else if pad == "==" {
      LengthPlusPadding(|n|, 2);
      assert e[|e| - 2..] == "==";
      assert e[..|e| - 2] == n;
    } else {
      LengthPlusPadding(|n|, 1);
      assert IsBase64Char(n[|n| - 1]);
      assert e[|e| - 2..][0] == n[|n| - 1];
      assert e[..|e| - 1] == n;
    }
  }

  lemma StripPaddingOfEncode(b: seq<byte>)
    ensures StripPadding(Encode(b)) == EncodeNoPad(b)
  {
    EncodeSextetsLength(b);
    StripPaddingOf(EncodeNoPad(b), Padding(b));
  }

  /** atob inverts the padded encoding: the round trip of RFC 4648 section 4. */
  lemma AtobEncode(b: seq<byte>)
    ensures Atob(Encode(b)) == Some(BinaryString(b))
  {
    EncodeHasNoWhitespace(b);
    StripPaddingOfEncode(b);
    EncodeSextetsLength(b);
    DecodeEncodeNoPad(b);
  }

  /** The padded encoding uses only the alphabet and '=', and is empty only for no bytes. */
  lemma EncodeChars(b: seq<byte>)
    ensures forall i :: 0 <= i < |Encode(b)| ==> IsBase64Char(Encode(b)[i]) || Encode(b)[i] == '='
    ensures |Encode(b)| == 0 <==> |b| == 0
  {
    var n, pad := EncodeNoPad(b), Padding(b);
    forall i | 0 <= i < |n + pad| ensures IsBase64Char((n + pad)[i]) || (n + pad)[i] == '=' {
      if i < |n| { assert (n + pad)[i] == n[i]; } else { assert (n + pad)[i] == pad[i - |n|]; }
    }
    EncodeSextetsLength(b);
  }
}
