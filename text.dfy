// Text operations the packaging scripts and the tools rely on: Python's
// str.split / str.join / str.replace / str.zfill / str(n), and the lower-case
// hexadecimal rendering of C's printf.
module Text {

  predicate StartsWith(s: string, p: string) {
    |p| <= |s| && s[..|p|] == p
  }

  predicate EndsWith(s: string, p: string) {
    |p| <= |s| && s[|s| - |p|..] == p
  }

  /** p occurs in s starting at index i. */
  predicate OccursAt(s: string, p: string, i: int) {
    0 <= i <= |s| - |p| && s[i..i + |p|] == p
  }

  /** p occurs somewhere in s. */
  ghost predicate Contains(s: string, p: string) {
    exists i :: OccursAt(s, p, i)
  }

  /** Python's sep.join(pieces). */
  function Join(pieces: seq<string>, sep: string): string {
    if |pieces| == 0 then ""
    else if |pieces| == 1 then pieces[0]
    else pieces[0] + sep + Join(pieces[1..], sep)
  }

  /** Python's s.split(sep) for a non-empty separator: the pieces between
      the non-overlapping occurrences of sep, found left to right. */
  function Split(s: string, sep: string): (r: seq<string>)
    requires |sep| > 0
    ensures |r| >= 1
    decreases |s|
  {
    if |s| < |sep| then [s]
    else if s[..|sep|] == sep then [""] + Split(s[|sep|..], sep)
    else
      var rest := Split(s[1..], sep);
      [[s[0]] + rest[0]] + rest[1..]
  }

  /** Python's s.replace(p, r) for a non-empty p: every non-overlapping
      occurrence of p, found left to right, becomes r. */
  function ReplaceAll(s: string, p: string, r: string): string
    requires |p| > 0
    decreases |s|
  {
    if |s| < |p| then s
    else if s[..|p|] == p then r + ReplaceAll(s[|p|..], p, r)
    else [s[0]] + ReplaceAll(s[1..], p, r)
  }

  lemma JoinConsHead(c: char, head: string, tail: seq<string>, sep: string)
    ensures Join([[c] + head] + tail, sep) == [c] + Join([head] + tail, sep)
  {
    if |tail| > 0 {
      assert ([[c] + head] + tail)[1..] == tail;
      assert ([head] + tail)[1..] == tail;
    }
  }

  lemma JoinEmptyHead(tail: seq<string>, sep: string)
    requires |tail| >= 1
    ensures Join([""] + tail, sep) == sep + Join(tail, sep)
  {
    assert ([""] + tail)[1..] == tail;
  }

  /** Splitting on sep and joining with sep gives the text back. */
  lemma {:induction false} JoinSplit(s: string, sep: string)
    requires |sep| > 0
    ensures Join(Split(s, sep), sep) == s
    decreases |s|
  {
    if |s| < |sep| {
    } else if s[..|sep|] == sep {
      JoinSplit(s[|sep|..], sep);
      JoinEmptyHead(Split(s[|sep|..], sep), sep);
      assert s == sep + s[|sep|..];
    } else {
      var rest := Split(s[1..], sep);
      JoinSplit(s[1..], sep);
      JoinConsHead(s[0], rest[0], rest[1..], sep);
      assert [rest[0]] + rest[1..] == rest;
      assert s == [s[0]] + s[1..];
    }
  }

  /** Replacing p by r is splitting on p and joining with r: every
      occurrence is replaced, the text between occurrences is kept. */
  lemma {:induction false} ReplaceAllIsSplitJoin(s: string, p: string, r: string)
    requires |p| > 0
    ensures ReplaceAll(s, p, r) == Join(Split(s, p), r)
    decreases |s|
  {
    if |s| < |p| {
    } else if s[..|p|] == p {
      ReplaceAllIsSplitJoin(s[|p|..], p, r);
      JoinEmptyHead(Split(s[|p|..], p), r);
    } else {
      var rest := Split(s[1..], p);
      ReplaceAllIsSplitJoin(s[1..], p, r);
      JoinConsHead(s[0], rest[0], rest[1..], r);
      assert [rest[0]] + rest[1..] == rest;
    }
  }

  /** Text without an occurrence of p is one piece, and replacing p in it
      changes nothing. */
  lemma {:induction false} AbsentPatternIsNoOp(s: string, p: string, r: string)
    requires |p| > 0 && !Contains(s, p)
    ensures Split(s, p) == [s]
    ensures ReplaceAll(s, p, r) == s
    decreases |s|
  {
    if |s| >= |p| {
      assert s[0..0 + |p|] == s[..|p|];
      assert !OccursAt(s, p, 0);
      assert !Contains(s[1..], p) by {
        forall i
          ensures !OccursAt(s[1..], p, i)
        {
          if 0 <= i <= |s| - 1 - |p| {
            assert !OccursAt(s, p, i + 1);
            assert s[1..][i..i + |p|] == s[i + 1..i + 1 + |p|];
          }
        }
      }
      AbsentPatternIsNoOp(s[1..], p, r);
      assert [s[0]] + s[1..] == s;
    }
  }

  /** No piece produced by Split still contains the separator. */
  lemma {:induction false} SplitPiecesFree(s: string, sep: string)
    requires |sep| > 0
    ensures forall k :: 0 <= k < |Split(s, sep)| ==> !Contains(Split(s, sep)[k], sep)
    ensures StartsWith(s, Split(s, sep)[0])
    decreases |s|
  {
    if |s| < |sep| {
    } else if s[..|sep|] == sep {
      SplitPiecesFree(s[|sep|..], sep);
    } else {
      var rest := Split(s[1..], sep);
      SplitPiecesFree(s[1..], sep);
      var head := [s[0]] + rest[0];
      assert head == s[..|head|];
      assert !Contains(head, sep) by {
        forall i
          ensures !OccursAt(head, sep, i)
        {
          if i == 0 && |sep| <= |head| {
            assert head[..|sep|] == s[..|sep|];
          } else if 0 < i <= |head| - |sep| {
            assert !OccursAt(rest[0], sep, i - 1);
            assert head[i..i + |sep|] == rest[0][i - 1..i - 1 + |sep|];
          }
        }
      }
      assert Split(s, sep) == [head] + rest[1..];
    }
  }

  /** A text lacking one of p's characters does not contain p. */
  lemma MissingCharNotContained(s: string, p: string, m: nat)
    requires m < |p| && p[m] !in s
    ensures !Contains(s, p)
  {
    forall i
      ensures !OccursAt(s, p, i)
    {
      if 0 <= i <= |s| - |p| {
        assert s[i..i + |p|][m] == s[i + m];
      }
    }
  }

  /** Joining a list of at least two pieces puts the separator after the first. */
  lemma JoinCons(head: string, tail: seq<string>, sep: string)
    requires |tail| >= 1
    ensures Join([head] + tail, sep) == head + sep + Join(tail, sep)
  {
    assert ([head] + tail)[1..] == tail;
  }

  /** Joining two non-empty lists one after the other puts one separator between them. */
  lemma {:induction false} JoinAppend(a: seq<string>, b: seq<string>, sep: string)
    requires |a| >= 1 && |b| >= 1
    ensures Join(a + b, sep) == Join(a, sep) + sep + Join(b, sep)
    decreases |a|
  {
    if |a| == 1 {
      JoinCons(a[0], b, sep);
      assert a + b == [a[0]] + b;
    } else {
      JoinAppend(a[1..], b, sep);
      assert a + b == [a[0]] + (a[1..] + b);
      JoinCons(a[0], a[1..] + b, sep);
      JoinCons(a[0], a[1..], sep);
      assert [a[0]] + a[1..] == a;
    }
  }

  /** Splitting a + c + b on the one-character separator c, when a lacks c,
      gives a followed by the pieces of b. */
  lemma {:induction false} SplitAfterPiece(a: string, c: char, b: string)
    requires c !in a
    ensures Split(a + [c] + b, [c]) == [a] + Split(b, [c])
    decreases |a|
  {
    var s := a + [c] + b;
    if |a| == 0 {
      assert s[..1] == [c];
      assert s[1..] == b;
    } else {
      assert s[0] == a[0] && a[0] != c;
      assert s[..1] != [c];
      assert s[1..] == a[1..] + [c] + b;
      SplitAfterPiece(a[1..], c, b);
      assert [a[0]] + a[1..] == a;
    }
  }

  /** Splitting on c undoes joining with c when no piece holds c. */
  lemma {:induction false} SplitJoin(pieces: seq<string>, c: char)
    requires |pieces| >= 1
    requires forall k :: 0 <= k < |pieces| ==> c !in pieces[k]
    ensures Split(Join(pieces, [c]), [c]) == pieces
    decreases |pieces|
  {
    if |pieces| == 1 {
      MissingCharNotContained(pieces[0], [c], 0);
      AbsentPatternIsNoOp(pieces[0], [c], "");
    } else {
      SplitJoin(pieces[1..], c);
      SplitAfterPiece(pieces[0], c, Join(pieces[1..], [c]));
      assert [pieces[0]] + pieces[1..] == pieces;
    }
  }

  /** Replacing a pattern without the character c works on both sides of a c independently. */
  lemma {:induction false} ReplaceAllAcross(a: string, c: char, b: string, p: string, r: string)
    requires |p| > 0 && c !in p
    ensures ReplaceAll(a + [c] + b, p, r) == ReplaceAll(a, p, r) + [c] + ReplaceAll(b, p, r)
    decreases |a|
  {
    var s := a + [c] + b;
    if |a| < |p| {
      ReplaceAllAcrossShort(a, c, b, p, r);
    } else if a[..|p|] == p {
      assert s[..|p|] == p;
      assert s[|p|..] == a[|p|..] + [c] + b;
      ReplaceAllAcross(a[|p|..], c, b, p, r);
    } else {
      assert s[..|p|] == a[..|p|];
      assert s[1..] == a[1..] + [c] + b;
      ReplaceAllAcross(a[1..], c, b, p, r);
    }
  }

  /** The case of ReplaceAllAcross where a is shorter than the pattern: no
      occurrence starts inside a. */
  lemma {:induction false} ReplaceAllAcrossShort(a: string, c: char, b: string, p: string, r: string)
    requires |p| > 0 && c !in p && |a| < |p|
    ensures ReplaceAll(a + [c] + b, p, r) == a + [c] + ReplaceAll(b, p, r)
    decreases |a|
  {
    var s := a + [c] + b;
    if |s| < |p| {
      assert ReplaceAll(b, p, r) == b;
    } else {
      assert s[..|p|] != p by {
        assert s[..|p|][|a|] == c;
      }
      assert ReplaceAll(s, p, r) == [s[0]] + ReplaceAll(s[1..], p, r);
      if |a| == 0 {
        assert s[0] == c && s[1..] == b;
      } else {
        assert s[1..] == a[1..] + [c] + b;
        ReplaceAllAcrossShort(a[1..], c, b, p, r);
        assert s[0] == a[0] && [a[0]] + a[1..] == a;
      }
    }
  }

  /** A text that is exactly the pattern becomes exactly the replacement. */
  lemma ReplaceWhole(p: string, r: string)
    requires |p| > 0
    ensures ReplaceAll(p, p, r) == r
  {
    assert p[..|p|] == p;
    assert p[|p|..] == "";
  }

  /** Replacing never brings in a character that neither the text nor the replacement has. */
  lemma {:induction false} ReplaceAllKeepsCharOut(s: string, p: string, r: string, c: char)
    requires |p| > 0 && c !in s && c !in r
    ensures c !in ReplaceAll(s, p, r)
    decreases |s|
  {
    if |s| >= |p| {
      if s[..|p|] == p {
        ReplaceAllKeepsCharOut(s[|p|..], p, r, c);
      } else {
        ReplaceAllKeepsCharOut(s[1..], p, r, c);
      }
    }
  }

  // ---------------------------------------------------------------------
  // Decimal text

  function DigitChar(d: nat): char
    requires d < 10
  {
    "0123456789"[d]
  }

  /** Python's str(n) for a non-negative integer. */
  function NatToString(n: nat): (r: string)
    ensures |r| >= 1
    ensures forall k :: 0 <= k < |r| ==> '0' <= r[k] <= '9'
    decreases n
  {
    if n < 10 then [DigitChar(n)] else NatToString(n / 10) + [DigitChar(n % 10)]
  }

  /** The value of a non-empty string of decimal digits. */
  function DecimalValue(s: string): nat
    requires forall k :: 0 <= k < |s| ==> '0' <= s[k] <= '9'
  {
    if |s| == 0 then 0 else DecimalValue(s[..|s| - 1]) * 10 + (s[|s| - 1] as int - '0' as int)
  }

  lemma {:induction false} NatToStringValue(n: nat)
    ensures DecimalValue(NatToString(n)) == n
    decreases n
  {
    if n < 10 {
      DigitCharValue(n);
    } else {
      NatToStringValue(n / 10);
      var s := NatToString(n);
      assert s[..|s| - 1] == NatToString(n / 10);
      DigitCharValue(n % 10);
      assert DecimalValue(s) == DecimalValue(s[..|s| - 1]) * 10 + n % 10;
    }
  }

  lemma DigitCharValue(d: nat)
    requires d < 10
    ensures DigitChar(d) as int - '0' as int == d
  {
  }

  /** Python's s.zfill(width) for a string of digits: '0's on the left up to width. */
  function ZFill(s: string, width: nat): (r: string)
    ensures |r| == if |s| < width then width else |s|
    ensures EndsWith(r, s)
  {
    if |s| < width then seq(width - |s|, _ => '0') + s else s
  }

  // ---------------------------------------------------------------------
  // Hexadecimal text

  function HexDigit(d: nat): char
    requires d < 16
  {
    "0123456789abcdef"[d]
  }

  /** The value of a hexadecimal digit, in either case; none for other characters. */
  function HexDigitValue(c: char): (r: int)
    ensures -1 <= r < 16
  {
    if '0' <= c <= '9' then c as int - '0' as int
    else if 'a' <= c <= 'f' then c as int - 'a' as int + 10
    else if 'A' <= c <= 'F' then c as int - 'A' as int + 10
    else -1
  }

  predicate IsHexDigit(c: char) {
    HexDigitValue(c) >= 0
  }

  /** The hexadecimal digits are exactly the decimal digits and the letters
      a to f in either case. */
  lemma HexDigitChars(c: char)
    ensures IsHexDigit(c) <==> c in "0123456789abcdefABCDEF"
  {
  }

  lemma HexDigitRoundTrip(d: nat)
    requires d < 16
    ensures HexDigitValue(HexDigit(d)) == d
  {
  }

  /** The low `width` hexadecimal digits of v, most significant first. */
  function HexFixed(v: nat, width: nat): (r: string)
    ensures |r| == width
    ensures forall k :: 0 <= k < |r| ==> IsHexDigit(r[k])
  {
    if width == 0 then "" else HexFixed(v / 16, width - 1) + [HexDigit(v % 16)]
  }

  /** The number of hexadecimal digits printf uses for v without padding (at least one). */
  function HexLength(v: nat): (n: nat)
    ensures n >= 1
  {
    if v < 16 then 1 else 1 + HexLength(v / 16)
  }

  function Pow16(n: nat): (r: nat)
    ensures r >= 1
  {
    if n == 0 then 1 else 16 * Pow16(n - 1)
  }

  /** C's printf("%0*x", width, v): lower-case hexadecimal, zero-padded to width. */
  function HexPadded(v: nat, width: nat): (r: string)
  {
    HexFixed(v, if HexLength(v) < width then width else HexLength(v))
  }

  /** The value of a string of hexadecimal digits. */
  function HexValue(s: string): nat
    requires forall k :: 0 <= k < |s| ==> IsHexDigit(s[k])
  {
    if |s| == 0 then 0
    else
      assert IsHexDigit(s[|s| - 1]);
      HexValue(s[..|s| - 1]) * 16 + HexDigitValue(s[|s| - 1])
  }

  /** Reading back width hexadecimal digits gives v when v is below 16^width. */
  lemma {:induction false} HexFixedValue(v: nat, width: nat)
    requires v < Pow16(width)
    ensures HexValue(HexFixed(v, width)) == v
    decreases width
  {
    if width > 0 {
      var s := HexFixed(v, width);
      assert s[..|s| - 1] == HexFixed(v / 16, width - 1);
      HexFixedValue(v / 16, width - 1);
      HexDigitRoundTrip(v % 16);
    }
  }

  /** A value below 16^width survives the zero-padded rendering, in exactly width digits. */
  lemma HexPaddedValue(v: nat, width: nat)
    requires width >= 1 && v < Pow16(width)
    ensures HexPadded(v, width) == HexFixed(v, width)
    ensures |HexPadded(v, width)| == width
    ensures HexValue(HexPadded(v, width)) == v
  {
    HexLengthBound(v, width);
    HexFixedValue(v, width);
  }

  lemma {:induction false} HexLengthBound(v: nat, width: nat)
    requires width >= 1 && v < Pow16(width)
    ensures HexLength(v) <= width
    decreases width
  {
    if v >= 16 {
      HexLengthBound(v / 16, width - 1);
    }
  }
}
