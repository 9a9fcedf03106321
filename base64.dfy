/**
 * Base64 as PHP's `base64_decode($s, true)` reads it: the alphabet of
 * section 4 of RFC 4648, blanks (space, tab, line feed, carriage return)
 * skipped, any other character outside the alphabet rejected, the `=`
 * padding optional but, when present, correct and last. Trailing bits of a
 * short final group are dropped, as PHP does. The encoder is the partner
 * of the decoder: decoding an encoding gives the bytes back.
 */
module Base64 {
  import opened Wrappers
  import opened Strings

  type sextet = x: int | 0 <= x < 64

  /** A character of the alphabet of section 4 of RFC 4648. */
  predicate IsSymbol(c: char) {
    ('A' <= c <= 'Z') || ('a' <= c <= 'z') || ('0' <= c <= '9') || c == '+' || c == '/'
  }

  /** The characters PHP's decoder skips over, even in strict mode. */
  predicate IsBlank(c: char) {
    c == ' ' || c == '\t' || c == '\n' || c == '\r'
  }

  /** The value of an alphabet character; the decoder passes it nothing else. */
  function SymbolValue(c: char): sextet {
    if 'A' <= c <= 'Z' then c as int - 'A' as int
    else if 'a' <= c <= 'z' then c as int - 'a' as int + 26
    else if '0' <= c <= '9' then c as int - '0' as int + 52
    else if c == '+' then 62
    else 63
  }

  function Symbol(v: sextet): (c: char) {
    if v < 26 then ('A' as int + v) as char
    else if v < 52 then ('a' as int + v - 26) as char
    else if v < 62 then ('0' as int + v - 52) as char
    else if v == 62 then '+'
    else '/'
  }

  /** `Symbol` and `SymbolValue` are inverse on the alphabet. */
  lemma SymbolDecodes(v: sextet)
    ensures IsSymbol(Symbol(v)) && SymbolValue(Symbol(v)) == v
  {
  }

  /** The input with the skipped blanks taken out. */
  function RemoveBlanks(s: string): (r: string)
    ensures forall c :: c in r <==> c in s && !IsBlank(c)
  {
    if |s| == 0 then ""
    else if IsBlank(s[0]) then RemoveBlanks(s[1..])
    else [s[0]] + RemoveBlanks(s[1..])
  }

  /** The length of the longest prefix of `s` made of alphabet characters. */
  function SymbolRun(s: string): (n: nat)
    ensures n <= |s|
    ensures forall i :: 0 <= i < n ==> IsSymbol(s[i])
    ensures n < |s| ==> !IsSymbol(s[n])
  {
    if |s| > 0 && IsSymbol(s[0]) then 1 + SymbolRun(s[1..]) else 0
  }

  predicate AllPad(s: string) {
    forall i :: 0 <= i < |s| ==> s[i] == '='
  }

  /**
   * Decodes alphabet characters, four to three bytes; a final group of two
   * or three characters gives one or two bytes. The strict checks reject a
   * lone final character before decoding, so it gives nothing here.
   */
  function DecodeSymbols(s: string): (r: seq<byte>)
    decreases |s|
  {
    if |s| <= 1 then []
    else if |s| == 2 then [Byte0(SymbolValue(s[0]), SymbolValue(s[1]))]
    else if |s| == 3 then
      [Byte0(SymbolValue(s[0]), SymbolValue(s[1])), Byte1(SymbolValue(s[1]), SymbolValue(s[2]))]
    else
      [Byte0(SymbolValue(s[0]), SymbolValue(s[1])),
       Byte1(SymbolValue(s[1]), SymbolValue(s[2])),
       Byte2(SymbolValue(s[2]), SymbolValue(s[3]))] + DecodeSymbols(s[4..])
  }

  function Byte0(v0: sextet, v1: sextet): byte { v0 * 4 + v1 / 16 }
  function Byte1(v1: sextet, v2: sextet): byte { (v1 % 16) * 16 + v2 / 4 }
  function Byte2(v2: sextet, v3: sextet): byte { (v2 % 4) * 64 + v3 }

  /**
   * PHP's strict checks on the group structure: a lone final character is
   * an error, and padding, when present, is one or two `=` completing a
   * group of four.
   */
  predicate PaddingOk(n: nat, pad: nat) {
    n % 4 != 1 && (pad > 0 ==> pad <= 2 && (n + pad) % 4 == 0)
  }

  /**
   * PHP `base64_decode($s, true)`: `None` stands for its `false`. It fails
   * on any character that is neither in the alphabet, nor `=`, nor a
   * skipped blank.
   */
  function DecodeStrict(s: string): (r: Option<seq<byte>>)
    ensures r.Some? ==> forall c :: c in s ==> IsSymbol(c) || c == '=' || IsBlank(c)
  {
    var t := RemoveBlanks(s);
    var n := SymbolRun(t);
    if AllPad(t[n..]) && PaddingOk(n, |t| - n) then
      assert forall k :: 0 <= k < |t| ==> IsSymbol(t[k]) || t[k] == '=' by {
        forall k | n <= k < |t| ensures t[k] == '=' {
          assert t[n..][k - n] == t[k];
        }
      }
      Some(DecodeSymbols(t[..n]))
    else None
  }

  function Sextet0(b0: byte): sextet { b0 / 4 }
  function Sextet1(b0: byte, b1: byte): sextet { (b0 % 4) * 16 + b1 / 16 }
  function Sextet2(b1: byte, b2: byte): sextet { (b1 % 16) * 4 + b2 / 64 }
  function Sextet3(b2: byte): sextet { b2 % 64 }

  /** The alphabet characters of the encoding of `b`, without padding. */
  function EncodeSymbols(b: seq<byte>): (s: string)
    decreases |b|
  {
    if |b| == 0 then ""
    else if |b| == 1 then [Symbol(Sextet0(b[0])), Symbol(Sextet1(b[0], 0))]
    else if |b| == 2 then
      [Symbol(Sextet0(b[0])), Symbol(Sextet1(b[0], b[1])), Symbol(Sextet2(b[1], 0))]
    else
      [Symbol(Sextet0(b[0])), Symbol(Sextet1(b[0], b[1])),
       Symbol(Sextet2(b[1], b[2])), Symbol(Sextet3(b[2]))] + EncodeSymbols(b[3..])
  }

  /** The encoding is made of alphabet characters, and a short final group has two or three of them. */
  lemma {:induction false} EncodeSymbolsShape(b: seq<byte>)
    ensures forall i :: 0 <= i < |EncodeSymbols(b)| ==> IsSymbol(EncodeSymbols(b)[i])
    ensures |EncodeSymbols(b)| % 4 == (if |b| % 3 == 0 then 0 else |b| % 3 + 1)
    decreases |b|
  {
    if |b| >= 3 {
      EncodeSymbolsShape(b[3..]);
      EncodeGroupShape(b);
    } else if |b| > 0 {
      SymbolDecodes(Sextet0(b[0]));
      SymbolDecodes(Sextet1(b[0], if |b| == 2 then b[1] else 0));
      if |b| == 2 {
        SymbolDecodes(Sextet2(b[1], 0));
      }
    }
  }

  lemma EncodeGroupShape(b: seq<byte>)
    requires |b| >= 3
    requires forall i :: 0 <= i < |EncodeSymbols(b[3..])| ==> IsSymbol(EncodeSymbols(b[3..])[i])
    requires |EncodeSymbols(b[3..])| % 4 == (if |b[3..]| % 3 == 0 then 0 else |b[3..]| % 3 + 1)
    ensures forall i :: 0 <= i < |EncodeSymbols(b)| ==> IsSymbol(EncodeSymbols(b)[i])
    ensures |EncodeSymbols(b)| % 4 == (if |b| % 3 == 0 then 0 else |b| % 3 + 1)
  {
    var v0, v1, v2, v3 := Sextet0(b[0]), Sextet1(b[0], b[1]), Sextet2(b[1], b[2]), Sextet3(b[2]);
    SymbolDecodes(v0);
    SymbolDecodes(v1);
    SymbolDecodes(v2);
    SymbolDecodes(v3);
    var h := [Symbol(v0), Symbol(v1), Symbol(v2), Symbol(v3)];
    assert EncodeSymbols(b) == h + EncodeSymbols(b[3..]);
    GroupShape(h, EncodeSymbols(b[3..]), |b|);
  }

  lemma GroupShape(h: string, t: string, n: nat)
    requires n >= 3 && |h| == 4
    requires forall i :: 0 <= i < |h| ==> IsSymbol(h[i])
    requires forall i :: 0 <= i < |t| ==> IsSymbol(t[i])
    requires |t| % 4 == (if (n - 3) % 3 == 0 then 0 else (n - 3) % 3 + 1)
    ensures forall i :: 0 <= i < |h + t| ==> IsSymbol((h + t)[i])
    ensures |h + t| % 4 == (if n % 3 == 0 then 0 else n % 3 + 1)
  {
    AppendSymbols(h, t);
    Periodic((n - 3) as nat, |t|);
  }

  lemma Periodic(n: nat, m: nat)
    ensures (n + 3) % 3 == n % 3 && (m + 4) % 4 == m % 4
  {
  }

  lemma AppendSymbols(h: string, t: string)
    requires forall i :: 0 <= i < |h| ==> IsSymbol(h[i])
    requires forall i :: 0 <= i < |t| ==> IsSymbol(t[i])
    ensures forall i :: 0 <= i < |h + t| ==> IsSymbol((h + t)[i])
  {
    forall i | 0 <= i < |h + t| ensures IsSymbol((h + t)[i]) {
      if i < |h| { assert (h + t)[i] == h[i]; } else { assert (h + t)[i] == t[i - |h|]; }
    }
  }

  /** The `=` characters that complete the encoding of `n` bytes to a multiple of four. */
  function Padding(n: nat): (p: string)
    ensures AllPad(p) && |p| == (3 - n % 3) % 3
  {
    if n % 3 == 0 then "" else if n % 3 == 1 then "==" else "="
  }

  /** The padded encoding of section 4 of RFC 4648. */
  function Encode(b: seq<byte>): string {
    EncodeSymbols(b) + Padding(|b|)
  }

  lemma GroupRoundTrip(b0: byte, b1: byte, b2: byte)
    ensures Byte0(Sextet0(b0), Sextet1(b0, b1)) == b0
    ensures Byte1(Sextet1(b0, b1), Sextet2(b1, b2)) == b1
    ensures Byte2(Sextet2(b1, b2), Sextet3(b2)) == b2
  {
  }

  lemma DecodeEncodeOne(b0: byte)
    ensures DecodeSymbols(EncodeSymbols([b0])) == [b0]
  {
    var v0, v1 := Sextet0(b0), Sextet1(b0, 0);
    SymbolDecodes(v0);
    SymbolDecodes(v1);
    var s := EncodeSymbols([b0]);
    assert s == [Symbol(v0), Symbol(v1)];
    assert SymbolValue(s[0]) == v0 && SymbolValue(s[1]) == v1;
    assert DecodeSymbols(s) == [Byte0(v0, v1)];
    GroupRoundTrip(b0, 0, 0);
  }

  lemma DecodeEncodeTwo(b0: byte, b1: byte)
    ensures DecodeSymbols(EncodeSymbols([b0, b1])) == [b0, b1]
  {
    var v0, v1, v2 := Sextet0(b0), Sextet1(b0, b1), Sextet2(b1, 0);
    SymbolDecodes(v0);
    SymbolDecodes(v1);
    SymbolDecodes(v2);
    var s := EncodeSymbols([b0, b1]);
    assert s == [Symbol(v0), Symbol(v1), Symbol(v2)];
    assert SymbolValue(s[0]) == v0 && SymbolValue(s[1]) == v1 && SymbolValue(s[2]) == v2;
    assert DecodeSymbols(s) == [Byte0(v0, v1), Byte1(v1, v2)];
    GroupRoundTrip(b0, b1, 0);
  }

  lemma DecodeEncodeShort(b: seq<byte>)
    requires 1 <= |b| <= 2
    ensures DecodeSymbols(EncodeSymbols(b)) == b
  {
    if |b| == 1 {
      assert [b[0]] == b;
      DecodeEncodeOne(b[0]);
    } else {
      assert [b[0], b[1]] == b;
      DecodeEncodeTwo(b[0], b[1]);
    }
  }

  lemma DecodeQuad(c0: char, c1: char, c2: char, c3: char, rest: string, x0: byte, x1: byte, x2: byte)
    requires Byte0(SymbolValue(c0), SymbolValue(c1)) == x0
    requires Byte1(SymbolValue(c1), SymbolValue(c2)) == x1
    requires Byte2(SymbolValue(c2), SymbolValue(c3)) == x2
    ensures DecodeSymbols([c0, c1, c2, c3] + rest) == [x0, x1, x2] + DecodeSymbols(rest)
  {
    var s := [c0, c1, c2, c3] + rest;
    assert s[4..] == rest;
  }

  lemma DecodeEncodeGroup(b: seq<byte>)
    requires |b| >= 3
    requires DecodeSymbols(EncodeSymbols(b[3..])) == b[3..]
    ensures DecodeSymbols(EncodeSymbols(b)) == b
  {
    var v0, v1, v2, v3 := Sextet0(b[0]), Sextet1(b[0], b[1]), Sextet2(b[1], b[2]), Sextet3(b[2]);
    var h := [Symbol(v0), Symbol(v1), Symbol(v2), Symbol(v3)];
    var rest := EncodeSymbols(b[3..]);
    assert EncodeSymbols(b) == h + rest;
    assert DecodeSymbols(h + rest) == [b[0], b[1], b[2]] + DecodeSymbols(rest) by {
      SymbolDecodes(v0);
      SymbolDecodes(v1);
      SymbolDecodes(v2);
      SymbolDecodes(v3);
      GroupRoundTrip(b[0], b[1], b[2]);
      DecodeQuad(Symbol(v0), Symbol(v1), Symbol(v2), Symbol(v3), rest, b[0], b[1], b[2]);
    }
    Reassemble(b);
  }

  lemma Reassemble<T>(b: seq<T>)
    requires |b| >= 3
    ensures [b[0], b[1], b[2]] + b[3..] == b
  {
  }

  lemma {:induction false} DecodeEncodeSymbols(b: seq<byte>)
    ensures DecodeSymbols(EncodeSymbols(b)) == b
    decreases |b|
  {
    if |b| == 1 || |b| == 2 {
      DecodeEncodeShort(b);
    } else if |b| >= 3 {
      DecodeEncodeSymbols(b[3..]);
      DecodeEncodeGroup(b);
    }
  }

  lemma {:induction false} RemoveBlanksNone(s: string)
    requires forall i :: 0 <= i < |s| ==> !IsBlank(s[i])
    ensures RemoveBlanks(s) == s
  {
    if |s| > 0 {
      RemoveBlanksNone(s[1..]);
    }
  }

  lemma {:induction false} SymbolRunBeforePad(s: string, p: string)
    requires forall i :: 0 <= i < |s| ==> IsSymbol(s[i])
    requires AllPad(p)
    ensures SymbolRun(s + p) == |s|
  {
    if |s| > 0 {
      assert (s + p)[1..] == s[1..] + p;
      SymbolRunBeforePad(s[1..], p);
    } else if |p| > 0 {
      assert (s + p)[0] == '=';
    }
  }

  lemma PaddingCompletes(n: nat, m: nat, k: nat)
    requires m % 4 == (if n % 3 == 0 then 0 else n % 3 + 1)
    requires k == (3 - n % 3) % 3
    ensures PaddingOk(m, k)
  {
    var q := m / 4;
    assert m == 4 * q + m % 4;
    if n % 3 == 1 {
      assert m + k == 4 * (q + 1);
    } else if n % 3 == 2 {
      assert m + k == 4 * (q + 1);
    }
  }

  lemma EncodingPadded(b: seq<byte>)
    ensures PaddingOk(|EncodeSymbols(b)|, |Padding(|b|)|)
  {
    EncodeSymbolsShape(b);
    PaddingCompletes(|b|, |EncodeSymbols(b)|, |Padding(|b|)|);
  }

  lemma NoBlanksInEncoding(s: string, p: string)
    requires forall i :: 0 <= i < |s| ==> IsSymbol(s[i])
    requires AllPad(p)
    ensures RemoveBlanks(s + p) == s + p
  {
    var t := s + p;
    forall i | 0 <= i < |t| ensures !IsBlank(t[i]) {
      if i < |s| { assert IsSymbol(s[i]); } else { assert t[i] == p[i - |s|]; }
    }
    RemoveBlanksNone(t);
  }

  lemma SplitAt<T>(s: seq<T>, p: seq<T>)
    ensures (s + p)[|s|..] == p && (s + p)[..|s|] == s
  {
  }

  /** Decoding the encoding of any byte string gives it back. */
  lemma DecodeEncode(b: seq<byte>)
    ensures DecodeStrict(Encode(b)) == Some(b)
  {
    var s := EncodeSymbols(b);
    var p := Padding(|b|);
    assert PaddingOk(|s|, |p|) by { EncodingPadded(b); }
    EncodeSymbolsShape(b);
    assert RemoveBlanks(s + p) == s + p by { NoBlanksInEncoding(s, p); }
    assert SymbolRun(s + p) == |s| by { SymbolRunBeforePad(s, p); }
    assert DecodeSymbols(s) == b by { DecodeEncodeSymbols(b); }
    SplitAt(s, p);
  }
}
