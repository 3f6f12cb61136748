/** UTF-8 decoding as Go's unicode/utf8 package performs it on the bytes of a
    string.  Go strings are byte sequences that need not be valid UTF-8: every
    byte that does not start a well-formed encoding decodes to RuneError with
    width 1, so decoding never fails and always makes progress. */
module Utf8 {

  /** One byte of a Go string. */
  type byte = b: int | 0 <= b < 0x100

  /** The replacement character U+FFFD that Go returns for an invalid encoding. */
  const RuneError: int := 0xFFFD

  /** Bytes below RuneSelf are ASCII and encode themselves. */
  const RuneSelf: int := 0x80

  /** Go's UTFMax: no encoding is longer than four bytes. */
  const UtfMax: nat := 4

  predicate IsContinuation(b: byte) {
    0x80 <= b <= 0xBF
  }

  /** Go's utf8.RuneStart (b & 0xC0 != 0x80). */
  predicate IsRuneStart(b: byte) {
    !IsContinuation(b)
  }

  /** The (rune, width) pair Go returns for bytes that do not decode. */
  predicate IsError(d: (int, nat)) {
    d == (RuneError, 1)
  }

  /** Go's utf8.DecodeRune on a non-empty byte sequence: the first rune and the
      number of bytes it takes.  The accepted second-byte ranges exclude overlong
      forms (E0, F0), surrogates (ED) and code points above U+10FFFF (F4). */
  function DecodeRune(s: seq<byte>): (d: (int, nat))
    requires |s| > 0
    ensures 1 <= d.1 <= UtfMax && d.1 <= |s|
    ensures s[0] < RuneSelf ==> d == (s[0], 1)
    ensures s[0] >= RuneSelf ==> d.0 >= RuneSelf
    ensures d.1 == 1 && s[0] >= RuneSelf ==> IsError(d)
    ensures d.1 > 1 ==> 0xC2 <= s[0] && forall k :: 1 <= k < d.1 ==> IsContinuation(s[k])
    ensures !IsError(d) ==> IsRuneStart(s[0])
  {
    var b0 := s[0];
    if b0 < RuneSelf then
      (b0, 1)
    else if 0xC2 <= b0 <= 0xDF then
      if 2 <= |s| && IsContinuation(s[1]) then
        ((b0 - 0xC0) * 64 + (s[1] - 0x80), 2)
      else
        (RuneError, 1)
    else if 0xE0 <= b0 <= 0xEF then
      var lo := if b0 == 0xE0 then 0xA0 else 0x80;
      var hi := if b0 == 0xED then 0x9F else 0xBF;
      if 3 <= |s| && lo <= s[1] <= hi && IsContinuation(s[2]) then
        (((b0 - 0xE0) * 64 + (s[1] - 0x80)) * 64 + (s[2] - 0x80), 3)
      else
        (RuneError, 1)
    else if 0xF0 <= b0 <= 0xF4 then
      var lo := if b0 == 0xF0 then 0x90 else 0x80;
      var hi := if b0 == 0xF4 then 0x8F else 0xBF;
      if 4 <= |s| && lo <= s[1] <= hi && IsContinuation(s[2]) && IsContinuation(s[3]) then
        ((((b0 - 0xF0) * 64 + (s[1] - 0x80)) * 64 + (s[2] - 0x80)) * 64 + (s[3] - 0x80), 4)
      else
        (RuneError, 1)
    else
      (RuneError, 1)
  }

  /** A well-formed encoding decodes the same whatever follows it. */
  lemma DecodeRuneAppend(u: seq<byte>, v: seq<byte>)
    requires |u| > 0 && !IsError(DecodeRune(u))
    ensures DecodeRune(u + v) == DecodeRune(u)
  {
    var w := u + v;
    assert w[..|u|] == u;
    assert forall k :: 0 <= k < |u| ==> w[k] == u[k];
  }

  /** Cutting bytes off the end either leaves the first rune alone or makes it
      undecodable. */
  lemma DecodeRunePrefix(s: seq<byte>, m: nat)
    requires 1 <= m <= |s|
    ensures DecodeRune(s[..m]) == DecodeRune(s) || IsError(DecodeRune(s[..m]))
  {
    var p := s[..m];
    assert forall k :: 0 <= k < m ==> p[k] == s[k];
  }

  /** Keeping at least the bytes of a well-formed first rune keeps that rune. */
  lemma DecodeRuneTake(s: seq<byte>, m: nat)
    requires |s| > 0 && !IsError(DecodeRune(s)) && DecodeRune(s).1 <= m <= |s|
    ensures DecodeRune(s[..m]) == DecodeRune(s)
  {
    var p := s[..m];
    assert forall k :: 0 <= k < m ==> p[k] == s[k];
  }

  /** Go's utf8.ValidRune: a Unicode scalar value, that is a code point up to
      U+10FFFF that is not a surrogate. */
  predicate ValidRune(r: int) {
    0 <= r < 0xD800 || 0xDFFF < r <= 0x10FFFF
  }

  /** Go's utf8.EncodeRune: the shortest encoding of r, with U+FFFD in place of
      a value that is not a valid rune. */
  function EncodeRune(r: int): (e: seq<byte>)
    ensures 1 <= |e| <= UtfMax
  {
    if 0 <= r < 0x80 then [r]
    else if 0x80 <= r <= 0x7FF then [0xC0 + r / 64, 0x80 + r % 64]
    else
      var c := if ValidRune(r) then r else RuneError;
      if c <= 0xFFFF then [0xE0 + c / 4096, 0x80 + c / 64 % 64, 0x80 + c % 64]
      else [0xF0 + c / 262144, 0x80 + c / 4096 % 64, 0x80 + c / 64 % 64, 0x80 + c % 64]
  }

  /** The value of a two-byte encoding, and the bytes that encode it. */
  lemma Decode2(b0: int, b1: int, r: int)
    requires 0xC2 <= b0 <= 0xDF && 0x80 <= b1 <= 0xBF && r == (b0 - 0xC0) * 64 + (b1 - 0x80)
    ensures 0x80 <= r <= 0x7FF && r / 64 == b0 - 0xC0 && r % 64 == b1 - 0x80
  {
  }

  /** The value of a three-byte encoding, and the bytes that encode it. */
  lemma Decode3(b0: int, b1: int, b2: int, r: int)
    requires 0xE0 <= b0 <= 0xEF && 0x80 <= b1 <= 0xBF && 0x80 <= b2 <= 0xBF
    requires r == ((b0 - 0xE0) * 64 + (b1 - 0x80)) * 64 + (b2 - 0x80)
    ensures r / 4096 == b0 - 0xE0 && r / 64 % 64 == b1 - 0x80 && r % 64 == b2 - 0x80
    ensures 0 <= r <= 0xFFFF
  {
  }

  /** The value of a four-byte encoding, and the bytes that encode it. */
  lemma Decode4(b0: int, b1: int, b2: int, b3: int, r: int)
    requires 0xF0 <= b0 <= 0xF4 && 0x80 <= b1 <= 0xBF && 0x80 <= b2 <= 0xBF && 0x80 <= b3 <= 0xBF
    requires r == (((b0 - 0xF0) * 64 + (b1 - 0x80)) * 64 + (b2 - 0x80)) * 64 + (b3 - 0x80)
    ensures r / 262144 == b0 - 0xF0 && r / 4096 % 64 == b1 - 0x80
    ensures r / 64 % 64 == b2 - 0x80 && r % 64 == b3 - 0x80
  {
  }

  /** What a well-formed encoding decodes to is a valid rune, and the bytes
      DecodeRune consumed are exactly EncodeRune of it: DecodeRune never
      accepts an overlong form, a surrogate or a value above U+10FFFF. */
  lemma DecodeEncode(s: seq<byte>)
    requires |s| > 0 && !IsError(DecodeRune(s))
    ensures ValidRune(DecodeRune(s).0)
    ensures s[..DecodeRune(s).1] == EncodeRune(DecodeRune(s).0)
  {
    var w := DecodeRune(s).1;
    if s[0] < RuneSelf {
      assert s[..1] == [s[0]];
    } else if w == 2 {
      DecodeEncode2(s);
    } else if w == 3 {
      DecodeEncode3(s);
    } else {
      DecodeEncode4(s);
    }
  }

  lemma DecodeEncode2(s: seq<byte>)
    requires |s| > 0 && DecodeRune(s).1 == 2
    ensures ValidRune(DecodeRune(s).0) && s[..2] == EncodeRune(DecodeRune(s).0)
  {
    var r := DecodeRune(s).0;
    Decode2(s[0], s[1], r);
    assert s[..2] == [s[0], s[1]];
  }

  lemma DecodeEncode3(s: seq<byte>)
    requires |s| > 0 && DecodeRune(s).1 == 3
    ensures ValidRune(DecodeRune(s).0) && s[..3] == EncodeRune(DecodeRune(s).0)
  {
    var r := DecodeRune(s).0;
    assert 0xE0 <= s[0] <= 0xEF;
    Decode3(s[0], s[1], s[2], r);
    assert 0x800 <= r < 0xD800 || 0xDFFF < r;
    assert s[..3] == [s[0], s[1], s[2]];
  }

  lemma DecodeEncode4(s: seq<byte>)
    requires |s| > 0 && DecodeRune(s).1 == 4
    ensures ValidRune(DecodeRune(s).0) && s[..4] == EncodeRune(DecodeRune(s).0)
  {
    var r := DecodeRune(s).0;
    assert 0xF0 <= s[0] <= 0xF4;
    Decode4(s[0], s[1], s[2], s[3], r);
    assert 0x10000 <= r <= 0x10FFFF;
    assert s[..4] == [s[0], s[1], s[2], s[3]];
  }

  /** Every valid rune, encoded and followed by anything, decodes back to
      itself with the width of its encoding. */
  lemma EncodeDecode(r: int, rest: seq<byte>)
    requires ValidRune(r)
    ensures DecodeRune(EncodeRune(r) + rest) == (r, |EncodeRune(r)|)
  {
    if r < 0x80 {
      assert (EncodeRune(r) + rest)[0] == r;
    } else if r <= 0x7FF {
      EncodeDecode2(r, rest);
    } else if r <= 0xFFFF {
      EncodeDecode3(r, rest);
    } else {
      EncodeDecode4(r, rest);
    }
  }

  lemma EncodeDecode2(r: int, rest: seq<byte>)
    requires 0x80 <= r <= 0x7FF
    ensures DecodeRune(EncodeRune(r) + rest) == (r, 2)
  {
    var b0, b1 := 0xC0 + r / 64, 0x80 + r % 64;
    assert EncodeRune(r) == [b0, b1];
    var s := EncodeRune(r) + rest;
    assert s[0] == b0 && s[1] == b1;
  }

  lemma EncodeDecode3(r: int, rest: seq<byte>)
    requires 0x800 <= r <= 0xFFFF && ValidRune(r)
    ensures DecodeRune(EncodeRune(r) + rest) == (r, 3)
  {
    var q, b2 := r / 64, 0x80 + r % 64;
    var b0, b1 := 0xE0 + q / 64, 0x80 + q % 64;
    assert r == q * 64 + (b2 - 0x80);
    assert q == (b0 - 0xE0) * 64 + (b1 - 0x80);
    assert r / 4096 == q / 64;
    assert EncodeRune(r) == [b0, b1, b2];
    var s := EncodeRune(r) + rest;
    assert s[0] == b0 && s[1] == b1 && s[2] == b2;
  }

  lemma EncodeDecode4(r: int, rest: seq<byte>)
    requires 0x10000 <= r <= 0x10FFFF
    ensures DecodeRune(EncodeRune(r) + rest) == (r, 4)
  {
    var q1, b3 := r / 64, 0x80 + r % 64;
    var q2, b2 := q1 / 64, 0x80 + q1 % 64;
    var b0, b1 := 0xF0 + q2 / 64, 0x80 + q2 % 64;
    assert r == q1 * 64 + (b3 - 0x80);
    assert q1 == q2 * 64 + (b2 - 0x80);
    assert q2 == (b0 - 0xF0) * 64 + (b1 - 0x80);
    assert r / 4096 == q2 && r / 262144 == q2 / 64;
    assert EncodeRune(r) == [b0, b1, b2, b3];
    var s := EncodeRune(r) + rest;
    assert s[0] == b0 && s[1] == b1 && s[2] == b2 && s[3] == b3;
  }

  /** The largest index i with lim <= i <= from at which s[i] may start an
      encoding, or lim - 1 when there is none (the backward scan inside Go's
      DecodeLastRune). */
  function FindRuneStart(s: seq<byte>, from: int, lim: nat): (i: int)
    requires lim - 1 <= from < |s|
    ensures lim - 1 <= i <= from
    ensures i >= lim ==> IsRuneStart(s[i])
    ensures forall k :: i < k <= from ==> !IsRuneStart(s[k])
    decreases from - lim + 1
  {
    if from < lim then from
    else if IsRuneStart(s[from]) then from
    else FindRuneStart(s, from - 1, lim)
  }

  /** Go's utf8.DecodeLastRune on a non-empty byte sequence: the last rune and
      its width.  The result is either the error marker or exactly what decoding
      forward from the start of that last rune gives. */
  function DecodeLastRune(s: seq<byte>): (d: (int, nat))
    requires |s| > 0
    ensures 1 <= d.1 <= |s|
    ensures IsError(d) || DecodeRune(s[|s| - d.1..]) == d
  {
    var end := |s|;
    if s[end - 1] < RuneSelf then
      (s[end - 1], 1)
    else
      var lim := if end >= UtfMax then end - UtfMax else 0;
      var found := FindRuneStart(s, end - 2, lim);
      var start := if found < 0 then 0 else found;
      var d := DecodeRune(s[start..]);
      if start + d.1 != end then (RuneError, 1) else d
  }

  /** Decoding backwards finds a well-formed final encoding v whatever comes
      before it: DecodeLastRune gives RuneError only for an invalid ending. */
  lemma DecodeLastRuneWellFormed(u: seq<byte>, v: seq<byte>)
    requires |v| > 0 && !IsError(DecodeRune(v)) && DecodeRune(v).1 == |v|
    ensures DecodeLastRune(u + v) == DecodeRune(v)
  {
    var s := u + v;
    var k := |u|;
    assert s[k..] == v;
    assert s[|s| - 1] == v[|v| - 1];
    if v[|v| - 1] >= RuneSelf {
      assert |v| > 1;
      forall j | k < j < |s| ensures !IsRuneStart(s[j]) {
        assert s[j] == v[j - k];
      }
      var lim := if |s| >= UtfMax then |s| - UtfMax else 0;
      assert s[k] == v[0];
      RuneStartFound(s, |s| - 2, lim, k);
    }
  }

  /** The backward scan stops at the one rune start k in its range after which
      no byte starts a rune. */
  lemma RuneStartFound(s: seq<byte>, from: int, lim: nat, k: nat)
    requires lim <= k <= from < |s| && IsRuneStart(s[k])
    requires forall j :: k < j <= from ==> !IsRuneStart(s[j])
    ensures FindRuneStart(s, from, lim) == k
  {
  }

  /** A valid rune encoded at the end of any text decodes back from there. */
  lemma DecodeLastRuneEncoded(u: seq<byte>, r: int)
    requires ValidRune(r)
    ensures DecodeLastRune(u + EncodeRune(r)) == (r, |EncodeRune(r)|)
  {
    EncodeDecode(r, []);
    assert EncodeRune(r) + [] == EncodeRune(r);
    DecodeLastRuneWellFormed(u, EncodeRune(r));
  }

  /** Go's utf8.RuneCount: how many runes a range loop over s visits. */
  function RuneCount(s: seq<byte>): (n: nat)
    ensures n <= |s|
    ensures |s| <= UtfMax * n
    ensures n == 0 <==> s == []
    decreases |s|
  {
    if s == [] then 0 else 1 + RuneCount(s[DecodeRune(s).1..])
  }

  predicate IsAscii(s: seq<byte>) {
    forall i :: 0 <= i < |s| ==> s[i] < RuneSelf
  }

  /** In ASCII text every byte is a rune of its own. */
  lemma {:induction false} RuneCountAscii(s: seq<byte>)
    requires IsAscii(s)
    ensures RuneCount(s) == |s|
  {
    if s != [] {
      assert IsAscii(s[1..]) by {
        forall i | 0 <= i < |s[1..]| ensures s[1..][i] < RuneSelf {
          assert s[1..][i] == s[i + 1];
        }
      }
      RuneCountAscii(s[1..]);
    }
  }
}
