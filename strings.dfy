/**
 * String helpers shared by the models of the PHP code. PHP strings are byte
 * strings; here a `string` stands for one, each `char` standing for one byte.
 */
module Strings {
  import opened Wrappers

  type byte = x: int | 0 <= x < 256

  predicate StartsWith<T(==)>(s: seq<T>, p: seq<T>) {
    |p| <= |s| && s[..|p|] == p
  }

  predicate EndsWith<T(==)>(s: seq<T>, p: seq<T>) {
    |p| <= |s| && s[|s| - |p|..] == p
  }

  /** `p` occurs in `s` starting at position `j`. */
  predicate OccursAt(s: string, p: string, j: int) {
    0 <= j && j + |p| <= |s| && s[j..j + |p|] == p
  }

  /** PHP `strpos($s, $p)`: the first position at which `p` occurs, if any. */
  function IndexOf(s: string, p: string): (r: Option<nat>)
    requires |p| > 0
    ensures r.Some? ==> r.value + |p| <= |s|
    decreases |s|
  {
    if |s| < |p| then None
    else if s[..|p|] == p then Some(0)
    else
      match IndexOf(s[1..], p)
      case None => None
      case Some(i) => Some(i + 1)
  }

  /** PHP `strpos($s, $p) !== false`. */
  predicate Contains(s: string, p: string)
    requires |p| > 0
  {
    IndexOf(s, p).Some?
  }

  /** `strpos` finds the first occurrence of `p`, and reports none only when there is none. */
  lemma {:induction false} IndexOfFinds(s: string, p: string)
    requires |p| > 0
    ensures var r := IndexOf(s, p);
      (r.Some? ==> OccursAt(s, p, r.value) && forall j :: 0 <= j < r.value ==> !OccursAt(s, p, j))
      && (r.None? ==> forall j :: !OccursAt(s, p, j))
    decreases |s|
  {
    if |s| >= |p| && s[..|p|] != p {
      IndexOfFinds(s[1..], p);
      forall j | 0 < j ensures OccursAt(s, p, j) <==> OccursAt(s[1..], p, j - 1) {
        OccursShifted(s, p, j);
      }
      assert !OccursAt(s, p, 0);
      match IndexOf(s[1..], p)
      case None =>
        assert IndexOf(s, p) == None;
      case Some(i) =>
        assert IndexOf(s, p) == Some(i + 1);
    }
  }

  lemma OccursShifted(s: string, p: string, j: int)
    requires |s| > 0 && 0 < j
    ensures OccursAt(s, p, j) <==> OccursAt(s[1..], p, j - 1)
  {
    if j + |p| <= |s| {
      assert s[1..][j - 1..j - 1 + |p|] == s[j..j + |p|];
    }
  }

  /** A first occurrence is what `strpos` reports. */
  lemma IndexOfAt(s: string, p: string, i: nat)
    requires |p| > 0 && OccursAt(s, p, i)
    requires forall j :: 0 <= j < i ==> !OccursAt(s, p, j)
    ensures IndexOf(s, p) == Some(i)
  {
    IndexOfFinds(s, p);
  }

  /** What precedes the first occurrence of `p` does not contain `p`. */
  lemma BeforeFirstFree(s: string, p: string, f: nat)
    requires |p| > 0 && IndexOf(s, p) == Some(f)
    ensures !Contains(s[..f], p)
  {
    var u := s[..f];
    IndexOfFinds(s, p);
    ContainsIffOccurs(u, p);
    forall j | OccursAt(u, p, j) ensures OccursAt(s, p, j) {
      assert s[j..j + |p|] == u[j..j + |p|];
    }
  }

  /** Without any occurrence, there is none at `j` in particular. */
  lemma NotContainsAt(s: string, p: string, j: int)
    requires |p| > 0 && !Contains(s, p)
    ensures !OccursAt(s, p, j)
  {
    IndexOfFinds(s, p);
  }

  /** `Contains` holds exactly when `p` occurs somewhere in `s`. */
  lemma ContainsIffOccurs(s: string, p: string)
    requires |p| > 0
    ensures Contains(s, p) <==> exists j :: OccursAt(s, p, j)
  {
    IndexOfFinds(s, p);
  }

  /** PHP's truthiness of a string: everything except "" and "0" is true. */
  predicate Truthy(s: string) {
    s != "" && s != "0"
  }

  /** PHP truthiness of a string-or-null value. */
  predicate TruthyOpt(s: Option<string>) {
    s.Some? && Truthy(s.value)
  }

  /** PHP `explode($sep, $s)`: the pieces of `s` between occurrences of `sep`. */
  function Split(s: string, sep: char): (parts: seq<string>)
    ensures |parts| >= 1
  {
    if |s| == 0 then [""]
    else
      var rest := Split(s[1..], sep);
      if s[0] == sep then [""] + rest else [[s[0]] + rest[0]] + rest[1..]
  }

  /** PHP `implode($sep, $parts)`. */
  function Join(sep: string, parts: seq<string>): string {
    if |parts| == 0 then ""
    else if |parts| == 1 then parts[0]
    else parts[0] + sep + Join(sep, parts[1..])
  }

  /** No piece of a split contains the separator. */
  lemma {:induction false} SplitPiecesFree(s: string, sep: char)
    ensures forall i :: 0 <= i < |Split(s, sep)| ==> sep !in Split(s, sep)[i]
  {
    if |s| > 0 {
      SplitPiecesFree(s[1..], sep);
    }
  }

  /** A string without the separator splits into itself alone. */
  lemma {:induction false} SplitWhole(s: string, sep: char)
    requires sep !in s
    ensures Split(s, sep) == [s]
  {
    if |s| > 0 {
      SplitWhole(s[1..], sep);
      assert s == [s[0]] + s[1..];
    }
  }

  /** Splitting and joining back with the same separator gives the string back. */
  lemma {:induction false} JoinSplit(s: string, sep: char)
    ensures Join([sep], Split(s, sep)) == s
  {
    if |s| > 0 {
      var rest := Split(s[1..], sep);
      JoinSplit(s[1..], sep);
      if s[0] == sep {
        assert Split(s, sep) == [""] + rest;
        assert ([""] + rest)[1..] == rest;
      } else {
        var parts := Split(s, sep);
        assert parts == [[s[0]] + rest[0]] + rest[1..];
        if |rest| > 1 {
          assert parts[1..] == rest[1..];
        }
      }
    }
  }

  /** Splitting `pre + sep + last` splits `pre` and adds `last` as a piece. */
  lemma {:induction false} SplitPrefix(pre: string, sep: char, last: string)
    requires sep !in last
    ensures Split(pre + [sep] + last, sep) == Split(pre, sep) + [last]
  {
    var s := pre + [sep] + last;
    if |pre| == 0 {
      assert s[1..] == last;
      SplitWhole(last, sep);
    } else {
      assert s[1..] == pre[1..] + [sep] + last;
      SplitPrefix(pre[1..], sep, last);
      var r := Split(pre[1..], sep);
      if pre[0] != sep {
        assert (r + [last])[1..] == r[1..] + [last];
      }
    }
  }

  /** Whatever precedes a separator, the last two pieces of `m + x + sep + last` are `x` and `last`. */
  lemma LastTwoPieces(m: string, x: string, last: string, sep: char)
    requires sep !in x && sep !in last
    requires m == [] || m[|m| - 1] == sep
    ensures var parts := Split(m + x + [sep] + last, sep);
      |parts| >= 2 && parts[|parts| - 2] == x && parts[|parts| - 1] == last
  {
    SplitPrefix(m + x, sep, last);
    if m == [] {
      assert m + x == x;
      SplitWhole(x, sep);
    } else {
      assert m + x == m[..|m| - 1] + [sep] + x;
      SplitPrefix(m[..|m| - 1], sep, x);
    }
  }

  lemma Regroup<T>(a: seq<T>, b: seq<T>, c: seq<T>, d: seq<T>)
    ensures a + (b + c + d) == a + b + c + d
  {
  }

  /** Behind a common head, two texts free of `q` and each followed by `q` are the same text. */
  lemma DelimitedEqual(h: string, a: string, b: string, x: string, y: string, q: char)
    requires q !in a && q !in b
    requires |x| > 0 && x[0] == q && |y| > 0 && y[0] == q
    requires h + a + x == h + b + y
    ensures a == b && x == y
  {
    var e := h + a + x;
    assert e[|h| + |a|] == q && e[|h| + |b|] == q;
    assert forall n :: |h| <= n < |h| + |b| ==> e[n] == b[n - |h|];
    assert forall n :: |h| <= n < |h| + |a| ==> e[n] == a[n - |h|];
    assert a == e[|h|..|h| + |a|] == b;
    assert x == e[|h| + |a|..] == y;
  }

  /** Between a common head and a common tail, equal texts have equal middles. */
  lemma MiddleEqual(h: string, a: string, b: string, t: string)
    requires h + a + t == h + b + t
    ensures a == b
  {
    var e := h + a + t;
    assert a == e[|h|..|h| + |a|] == b;
  }

  /** PHP `ltrim($s, $c)`: drop every leading `c`. */
  function TrimLeft(s: string, c: char): (r: string)
    ensures |r| <= |s|
  {
    if |s| > 0 && s[0] == c then TrimLeft(s[1..], c) else s
  }

  /** `ltrim` keeps a suffix, removes only `c`s, and all of the leading ones. */
  lemma {:induction false} TrimLeftRemoves(s: string, c: char)
    ensures var r := TrimLeft(s, c);
      s[|s| - |r|..] == r && (|r| > 0 ==> r[0] != c) && forall i :: 0 <= i < |s| - |r| ==> s[i] == c
  {
    if |s| > 0 && s[0] == c {
      TrimLeftRemoves(s[1..], c);
      assert s[1..][|s| - 1 - |TrimLeft(s, c)|..] == s[|s| - |TrimLeft(s, c)|..];
    }
  }

  /** Leading `c`s are all taken from the front part when the back part does not start with `c`. */
  lemma {:induction false} TrimLeftConcat(x: string, y: string, c: char)
    requires |y| > 0 && y[0] != c
    ensures TrimLeft(x + y, c) == TrimLeft(x, c) + y
  {
    if |x| > 0 && x[0] == c {
      assert (x + y)[1..] == x[1..] + y;
      TrimLeftConcat(x[1..], y, c);
    }
  }

  /** PHP `rtrim($s, $c)`: drop every trailing `c`. */
  function TrimRight(s: string, c: char): (r: string)
    ensures |r| <= |s|
  {
    if |s| > 0 && s[|s| - 1] == c then TrimRight(s[..|s| - 1], c) else s
  }

  /** `rtrim` keeps a prefix, removes only `c`s, and all of the trailing ones. */
  lemma {:induction false} TrimRightRemoves(s: string, c: char)
    ensures var r := TrimRight(s, c);
      s[..|r|] == r && (|r| > 0 ==> r[|r| - 1] != c) && forall i :: |r| <= i < |s| ==> s[i] == c
  {
    if |s| > 0 && s[|s| - 1] == c {
      TrimRightRemoves(s[..|s| - 1], c);
    }
  }

  lemma TrimRightNone(s: string, c: char)
    requires |s| > 0 && s[|s| - 1] != c
    ensures TrimRight(s, c) == s
  {
  }

  /** PHP `trim($s, $c)`. */
  function Trim(s: string, c: char): string {
    TrimRight(TrimLeft(s, c), c)
  }

  /**
   * Trimming `front + tail`, where `tail` neither starts nor ends with `c`,
   * keeps `tail` whole behind what is left of `front`: nothing, or a run
   * ending in `c` when `front` ends in `c`.
   */
  lemma TrimBeforeTail(front: string, tail: string, c: char) returns (m: string)
    requires |front| > 0 && front[|front| - 1] == c
    requires |tail| > 0 && tail[0] != c && tail[|tail| - 1] != c
    ensures m == [] || m[|m| - 1] == c
    ensures Trim(front + tail, c) == m + tail
  {
    m := TrimLeft(front, c);
    assert m == [] || m[|m| - 1] == c by {
      TrimLeftRemoves(front, c);
      if |m| > 0 {
        assert m[|m| - 1] == front[|front| - 1];
      }
    }
    TrimLeftConcat(front, tail, c);
    assert (m + tail)[|m + tail| - 1] == tail[|tail| - 1];
    TrimRightNone(m + tail, c);
  }

  /** Once trimmed of `sep` and split on it, `pre + sep + x + sep + last` ends with the pieces `x` and `last`. */
  lemma LastTwoOfTrimmed(pre: string, x: string, last: string, sep: char)
    requires |x| > 0 && sep !in x && |last| > 0 && sep !in last
    ensures var parts := Split(Trim(pre + [sep] + x + [sep] + last, sep), sep);
      |parts| >= 2 && parts[|parts| - 2] == x && parts[|parts| - 1] == last
  {
    var front, tail := pre + [sep], x + [sep] + last;
    Regroup(pre + [sep], x, [sep], last);
    assert tail[|tail| - 1] == last[|last| - 1];
    var m := TrimBeforeTail(front, tail, sep);
    Regroup(m, x, [sep], last);
    LastTwoPieces(m, x, last, sep);
  }

  /** PHP `chr` applied to each byte: the string whose characters are the given bytes. */
  function Latin1(bs: seq<byte>): (s: string)
    ensures |s| == |bs|
  {
    seq(|bs|, i requires 0 <= i < |bs| => bs[i] as char)
  }

  /** The decimal digit for `d`. */
  function Digit(d: nat): char
    requires d < 10
  {
    ('0' as int + d) as char
  }

  /** The value of a decimal digit. */
  function DigitValue(c: char): int {
    c as int - '0' as int
  }

  predicate IsDigit(c: char) {
    '0' <= c <= '9'
  }

  /** PHP `sprintf('%d', $n)` for a non-negative `n`. */
  function Decimal(n: nat): (s: string)
    ensures |s| > 0
    ensures forall i :: 0 <= i < |s| ==> IsDigit(s[i])
  {
    if n < 10 then [Digit(n)] else Decimal(n / 10) + [Digit(n % 10)]
  }

  /** The number a string of decimal digits denotes. */
  function DecimalValue(s: string): int {
    if |s| == 0 then 0 else DecimalValue(s[..|s| - 1]) * 10 + DigitValue(s[|s| - 1])
  }

  /** Reading back a formatted number gives the number. */
  lemma {:induction false} DecimalRoundTrip(n: nat)
    ensures DecimalValue(Decimal(n)) == n
  {
    if n >= 10 {
      DecimalRoundTrip(n / 10);
      var s := Decimal(n);
      assert s[..|s| - 1] == Decimal(n / 10);
    }
  }

  /** Formatting is injective. */
  lemma DecimalInjective(m: nat, n: nat)
    requires Decimal(m) == Decimal(n)
    ensures m == n
  {
    DecimalRoundTrip(m);
    DecimalRoundTrip(n);
  }
}
