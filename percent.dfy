/** Percent-decoding as Python's `urllib.parse.unquote(s)` performs it, with its defaults
    `encoding="utf-8"` and `errors="replace"`: each maximal run of ASCII characters is turned
    into bytes (`%` followed by two hexadecimal digits gives one byte, as section 2.1 of
    RFC 3986 defines; any other ASCII character gives its own code), the bytes are decoded as
    UTF-8, and non-ASCII characters are kept as they are. */
module Percent {

  type Byte = b: int | 0 <= b < 256

  /** U+FFFD, which the decoder puts in place of each maximal ill-formed subsequence. */
  const Replacement: char := '\U{FFFD}'

  predicate IsContinuation(b: Byte) {
    0x80 <= b <= 0xBF
  }

  /** The first character of `bs` as a UTF-8 decoder with replacement reads it, and how many
      bytes it consumed. A lead byte whose sequence breaks off consumes the well-formed bytes
      seen so far and yields one U+FFFD (the "maximal subpart" practice of the Unicode
      Standard, chapter 3, which CPython follows). */
  function DecodeStep(bs: seq<Byte>): (r: (char, nat))
    requires bs != []
    ensures 1 <= r.1 <= |bs| && r.1 <= 4
    ensures bs[0] < 0x80 ==> r == (bs[0] as char, 1)
    ensures r.0 != Replacement ==> r.1 == 1 || IsContinuation(bs[r.1 - 1])
  {
    var b0: int := bs[0];
    var b1: int := if |bs| >= 2 then bs[1] else 0;
    var b2: int := if |bs| >= 3 then bs[2] else 0;
    var b3: int := if |bs| >= 4 then bs[3] else 0;
    if b0 < 0x80 then (b0 as char, 1)
    else if 0xC2 <= b0 <= 0xDF then
      if |bs| >= 2 && IsContinuation(bs[1]) then
        (((b0 - 0xC0) * 64 + (b1 - 0x80)) as char, 2)
      else (Replacement, 1)
    else if 0xE0 <= b0 <= 0xEF then
      var lo := if b0 == 0xE0 then 0xA0 else 0x80;
      var hi := if b0 == 0xED then 0x9F else 0xBF;
      if !(|bs| >= 2 && lo <= bs[1] <= hi) then (Replacement, 1)
      else if !(|bs| >= 3 && IsContinuation(bs[2])) then (Replacement, 2)
      else (((b0 - 0xE0) * 4096 + (b1 - 0x80) * 64 + (b2 - 0x80)) as char, 3)
    else if 0xF0 <= b0 <= 0xF4 then
      var lo := if b0 == 0xF0 then 0x90 else 0x80;
      var hi := if b0 == 0xF4 then 0x8F else 0xBF;
      if !(|bs| >= 2 && lo <= bs[1] <= hi) then (Replacement, 1)
      else if !(|bs| >= 3 && IsContinuation(bs[2])) then (Replacement, 2)
      else if !(|bs| >= 4 && IsContinuation(bs[3])) then (Replacement, 3)
      else (((b0 - 0xF0) * 262144 + (b1 - 0x80) * 4096 + (b2 - 0x80) * 64 + (b3 - 0x80)) as char, 4)
    else (Replacement, 1)
  }

  /** `bytes(bs).decode("utf-8", "replace")`. */
  function Decode(bs: seq<Byte>): (s: string)
    ensures |s| <= |bs|
    decreases |bs|
  {
    if bs == [] then []
    else
      var step := DecodeStep(bs);
      [step.0] + Decode(bs[step.1..])
  }

  /** The UTF-8 encoding of one character. */
  function EncodeChar(c: char): (bs: seq<Byte>)
    ensures 1 <= |bs| <= 4
  {
    var n := c as int;
    if n < 0x80 then [n]
    else if n < 0x800 then [0xC0 + n / 64, 0x80 + n % 64]
    else if n < 0x10000 then [0xE0 + n / 4096, 0x80 + (n / 64) % 64, 0x80 + n % 64]
    else [0xF0 + n / 262144, 0x80 + (n / 4096) % 64, 0x80 + (n / 64) % 64, 0x80 + n % 64]
  }

  /** `s.encode("utf-8")`. */
  function Encode(s: string): seq<Byte>
  {
    if s == [] then [] else EncodeChar(s[0]) + Encode(s[1..])
  }

  /** The decoder reads a two-byte encoding back. */
  lemma DecodeStepOfTwo(c: char, rest: seq<Byte>)
    requires 0x80 <= c as int < 0x800
    ensures DecodeStep(EncodeChar(c) + rest) == (c, 2)
  {
    var n := c as int;
    var q, r0 := n / 64, n % 64;
    assert n == q * 64 + r0;
    var bs := EncodeChar(c) + rest;
    assert bs[0] == 0xC0 + q && bs[1] == 0x80 + r0;
    assert 2 <= q < 32;
  }

  /** The decoder reads a three-byte encoding back; the bounds on the second byte hold since
      the character is at least U+0800 and is not a surrogate. */
  lemma DecodeStepOfThree(c: char, rest: seq<Byte>)
    requires 0x800 <= c as int < 0x10000
    ensures DecodeStep(EncodeChar(c) + rest) == (c, 3)
  {
    var n := c as int;
    var q1, r0 := n / 64, n % 64;
    var q2, r1 := q1 / 64, q1 % 64;
    assert n == q1 * 64 + r0 && q1 == q2 * 64 + r1;
    assert n / 4096 == q2;
    var bs := EncodeChar(c) + rest;
    assert bs[0] == 0xE0 + q2 && bs[1] == 0x80 + r1 && bs[2] == 0x80 + r0;
    assert q2 == 0 ==> r1 >= 0x20;
    assert q2 == 13 ==> r1 < 0x20;
    assert q2 * 4096 + r1 * 64 + r0 == n;
  }

  /** The decoder reads a four-byte encoding back. */
  lemma DecodeStepOfFour(c: char, rest: seq<Byte>)
    requires 0x10000 <= c as int
    ensures DecodeStep(EncodeChar(c) + rest) == (c, 4)
  {
    var n := c as int;
    var q1, r0 := n / 64, n % 64;
    var q2, r1 := q1 / 64, q1 % 64;
    var q3, r2 := q2 / 64, q2 % 64;
    assert n == q1 * 64 + r0 && q1 == q2 * 64 + r1 && q2 == q3 * 64 + r2;
    assert n / 4096 == q2 && n / 262144 == q3;
    var bs := EncodeChar(c) + rest;
    assert bs[0] == 0xF0 + q3 && bs[1] == 0x80 + r2 && bs[2] == 0x80 + r1 && bs[3] == 0x80 + r0;
    assert q3 * 262144 + r2 * 4096 + r1 * 64 + r0 == n;
    assert 0 <= r0 < 64 && 0 <= r1 < 64 && 0 <= r2 < 64;
    assert 0x10000 <= n <= 0x10FFFF;
    assert q3 * 262144 <= n < q3 * 262144 + 262144;
    assert q3 <= 4;
    assert q3 == 0 ==> r2 >= 0x10;
    assert q3 == 4 ==> r2 < 0x10;
  }

  /** The decoder reads the encoding of `c` back as `c`, consuming exactly its bytes. */
  lemma DecodeStepOfEncoded(c: char, rest: seq<Byte>)
    ensures DecodeStep(EncodeChar(c) + rest) == (c, |EncodeChar(c)|)
  {
    var n := c as int;
    if n < 0x80 {
      assert (EncodeChar(c) + rest)[0] == n;
    } else if n < 0x800 {
      DecodeStepOfTwo(c, rest);
    } else if n < 0x10000 {
      DecodeStepOfThree(c, rest);
    } else {
      DecodeStepOfFour(c, rest);
    }
  }

  /** Decoding inverts encoding. */
  lemma {:induction false} DecodeEncode(s: string)
    ensures Decode(Encode(s)) == s
  {
    if s != [] {
      var e := EncodeChar(s[0]);
      DecodeStepOfEncoded(s[0], Encode(s[1..]));
      assert (e + Encode(s[1..]))[|e|..] == Encode(s[1..]);
      DecodeEncode(s[1..]);
    }
  }

  predicate IsHex(c: char) {
    '0' <= c <= '9' || 'a' <= c <= 'f' || 'A' <= c <= 'F'
  }

  function HexValue(c: char): (v: nat)
    requires IsHex(c)
    ensures v < 16
  {
    if '0' <= c <= '9' then c as int - '0' as int
    else if 'a' <= c <= 'f' then c as int - 'a' as int + 10
    else c as int - 'A' as int + 10
  }

  /** The upper-case hexadecimal digit of `v`. */
  function HexDigit(v: nat): (c: char)
    requires v < 16
    ensures IsHex(c) && HexValue(c) == v
  {
    if v < 10 then ('0' as int + v) as char else ('A' as int + v - 10) as char
  }

  /** Decodes `s`, given the bytes `pending` of the ASCII run read so far. */
  function UnquoteRun(s: string, pending: seq<Byte>): string
    decreases |s|
  {
    if s == [] then Decode(pending)
    else if s[0] as int >= 0x80 then Decode(pending) + [s[0]] + UnquoteRun(s[1..], [])
    else if s[0] == '%' && |s| >= 3 && IsHex(s[1]) && IsHex(s[2]) then
      UnquoteRun(s[3..], pending + [HexValue(s[1]) * 16 + HexValue(s[2])])
    else UnquoteRun(s[1..], pending + [s[0] as int])
  }

  /** `urllib.parse.unquote(s)`: never longer than `s`. */
  function Unquote(s: string): (r: string)
    ensures |r| <= |s|
  {
    UnquoteRunShorter(s, []);
    UnquoteRun(s, [])
  }

  /** Decoding adds at most one character per pending byte or character read. */
  lemma {:induction false} UnquoteRunShorter(s: string, pending: seq<Byte>)
    ensures |UnquoteRun(s, pending)| <= |pending| + |s|
    decreases |s|
  {
    if s == [] {
    } else if s[0] as int >= 0x80 {
      UnquoteRunShorter(s[1..], []);
    } else if s[0] == '%' && |s| >= 3 && IsHex(s[1]) && IsHex(s[2]) {
      UnquoteRunShorter(s[3..], pending + [HexValue(s[1]) * 16 + HexValue(s[2])]);
    } else {
      UnquoteRunShorter(s[1..], pending + [s[0] as int]);
    }
  }

  /** Percent-encodes every byte of the UTF-8 form of `s`: each byte becomes `%HH`. */
  function PercentEncode(s: string): (e: string)
    ensures forall i :: 0 <= i < |e| ==> e[i] == '%' || IsHex(e[i])
  {
    Escape(Encode(s))
  }

  function Escape(bs: seq<Byte>): (e: string)
    ensures forall i :: 0 <= i < |e| ==> e[i] == '%' || IsHex(e[i])
  {
    if bs == [] then []
    else ['%', HexDigit(bs[0] / 16), HexDigit(bs[0] % 16)] + Escape(bs[1..])
  }

  /** Reading an escaped byte string adds exactly those bytes to the pending run. */
  lemma {:induction false} UnquoteRunEscape(bs: seq<Byte>, rest: string, pending: seq<Byte>)
    ensures UnquoteRun(Escape(bs) + rest, pending) == UnquoteRun(rest, pending + bs)
  {
    if bs == [] {
      assert Escape(bs) + rest == rest;
      assert pending + bs == pending;
    } else {
      var s := Escape(bs) + rest;
      var b := bs[0];
      assert s[0] == '%' && s[1] == HexDigit(b / 16) && s[2] == HexDigit(b % 16);
      assert s[3..] == Escape(bs[1..]) + rest;
      assert HexValue(s[1]) * 16 + HexValue(s[2]) == b;
      UnquoteRunEscape(bs[1..], rest, pending + [b]);
      assert pending + [b] + bs[1..] == pending + bs;
    }
  }

  /** Decoding a percent-encoded string gives the string back. */
  lemma UnquotePercentEncode(s: string)
    ensures Unquote(PercentEncode(s)) == s
  {
    var bs := Encode(s);
    UnquoteRunEscape(bs, [], []);
    assert Escape(bs) + [] == PercentEncode(s);
    assert [] + bs == bs;
    assert UnquoteRun([], bs) == Decode(bs);
    DecodeEncode(s);
  }

  /** A character a URL path segment may carry unescaped here: ASCII, and neither `%` nor `/`. */
  predicate SegmentChar(c: char) {
    c as int < 0x80 && c != '%' && c != '/'
  }

  /** A path segment for `name` in which the characters marked in `literal` are written as
      they are (they must be segment characters), and every other character is replaced by
      the `%HH` escapes of all the bytes of its UTF-8 form. */
  function MixedEncode(name: string, literal: seq<bool>): (e: string)
    requires |literal| == |name|
    requires forall i :: 0 <= i < |name| && literal[i] ==> SegmentChar(name[i])
    ensures '/' !in e
  {
    if name == [] then []
    else
      var piece := Piece(name[0], literal[0]);
      piece + MixedEncode(name[1..], literal[1..])
  }

  /** One character of a mixed segment: itself, or the escapes of its bytes. */
  function Piece(c: char, literal: bool): (e: string)
    requires literal ==> SegmentChar(c)
    ensures '/' !in e
  {
    if literal then [c]
    else
      var e := Escape(EncodeChar(c));
      assert forall i :: 0 <= i < |e| ==> e[i] != '/';
      e
  }

  /** Reading one piece adds the UTF-8 bytes of its character to the pending run. */
  lemma UnquoteRunPiece(c: char, literal: bool, rest: string, pending: seq<Byte>)
    requires literal ==> SegmentChar(c)
    ensures UnquoteRun(Piece(c, literal) + rest, pending) == UnquoteRun(rest, pending + EncodeChar(c))
  {
    if literal {
      var s := [c] + rest;
      assert s[0] == c && s[1..] == rest;
      assert EncodeChar(c) == [c as int];
    } else {
      UnquoteRunEscape(EncodeChar(c), rest, pending);
    }
  }

  /** Reading a mixed segment adds the UTF-8 bytes of its name to the pending run. */
  lemma {:induction false} UnquoteRunMixed(name: string, literal: seq<bool>, rest: string, pending: seq<Byte>)
    requires |literal| == |name|
    requires forall i :: 0 <= i < |name| && literal[i] ==> SegmentChar(name[i])
    ensures UnquoteRun(MixedEncode(name, literal) + rest, pending) == UnquoteRun(rest, pending + Encode(name))
    decreases |name|
  {
    if name == [] {
      assert MixedEncode(name, literal) + rest == rest;
      assert pending + Encode(name) == pending;
    } else {
      var c := name[0];
      var tail := MixedEncode(name[1..], literal[1..]) + rest;
      var p := pending + EncodeChar(c);
      assert MixedEncode(name, literal) + rest == Piece(c, literal[0]) + tail;
      UnquoteRunPiece(c, literal[0], tail, pending);
      UnquoteRunMixed(name[1..], literal[1..], rest, p);
      assert p + Encode(name[1..]) == pending + Encode(name);
    }
  }

  /** `unquote` gives back the name of a mixed segment. */
  lemma UnquoteMixed(name: string, literal: seq<bool>)
    requires |literal| == |name|
    requires forall i :: 0 <= i < |name| && literal[i] ==> SegmentChar(name[i])
    ensures Unquote(MixedEncode(name, literal)) == name
  {
    UnquoteRunMixed(name, literal, [], []);
    assert MixedEncode(name, literal) + [] == MixedEncode(name, literal);
    assert [] + Encode(name) == Encode(name);
    DecodeEncode(name);
  }

  /** The characters whose codes `bs` holds. */
  function AsChars(bs: seq<Byte>): (s: string)
    requires forall i :: 0 <= i < |bs| ==> bs[i] < 0x80
    ensures |s| == |bs| && forall i :: 0 <= i < |bs| ==> s[i] as int == bs[i]
  {
    if bs == [] then [] else [bs[0] as char] + AsChars(bs[1..])
  }

  /** ASCII bytes decode to the characters with those codes. */
  lemma {:induction false} DecodeAscii(bs: seq<Byte>)
    requires forall i :: 0 <= i < |bs| ==> bs[i] < 0x80
    ensures Decode(bs) == AsChars(bs)
  {
    if bs != [] {
      DecodeAscii(bs[1..]);
    }
  }

  /** Without `%`, decoding changes nothing (CPython's fast path returns the string as is). */
  lemma {:induction false} UnquoteRunPlain(s: string, pending: seq<Byte>)
    requires '%' !in s
    requires forall i :: 0 <= i < |pending| ==> pending[i] < 0x80
    ensures UnquoteRun(s, pending) == AsChars(pending) + s
    decreases |s|
  {
    DecodeAscii(pending);
    if s != [] {
      if s[0] as int >= 0x80 {
        UnquoteRunPlain(s[1..], []);
        assert AsChars([]) == [];
      } else {
        var p := pending + [s[0] as int];
        UnquoteRunPlain(s[1..], p);
        assert AsChars(p) == AsChars(pending) + [s[0]] by {
          var a := AsChars(p);
          var b := AsChars(pending) + [s[0]];
          assert |a| == |b|;
          forall i | 0 <= i < |a| ensures a[i] == b[i] {
            assert a[i] as int == b[i] as int;
          }
        }
      }
    }
  }

  lemma UnquoteWithoutPercent(s: string)
    requires '%' !in s
    ensures Unquote(s) == s
  {
    UnquoteRunPlain(s, []);
    assert AsChars([]) == [];
  }
}
