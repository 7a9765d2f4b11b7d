/**
 * The pieces of the JavaScript string library the event-search views rely on:
 * `String.prototype.split` with a non-empty string separator and its inverse
 * `Array.prototype.join`, `String.prototype.trim`, and the decimal text of a
 * non-negative integer (`Number.prototype.toString`).
 */
module Strings {

  /** `sep` occurs nowhere in `s`. */
  predicate Free(s: string, sep: string)
  {
    forall i :: 0 <= i <= |s| ==> !(sep <= s[i..])
  }

  /** `Array.prototype.join`: the pieces with `sep` between neighbours. */
  function Join(parts: seq<string>, sep: string): string
    requires |parts| > 0
    decreases |parts|
  {
    if |parts| == 1 then parts[0] else parts[0] + sep + Join(parts[1..], sep)
  }

  /**
   * `s.split(sep)`: scans left to right and cuts at every occurrence of `sep`
   * that does not overlap an earlier cut. The empty string gives one empty piece,
   * and a separator at either end gives an empty piece there.
   */
  function Split(s: string, sep: string): (parts: seq<string>)
    requires |sep| > 0
    ensures |parts| > 0
    ensures Join(parts, sep) == s
    decreases |s|
  {
    if s == [] then [[]]
    else if sep <= s then
      var rest := Split(s[|sep|..], sep);
      assert s == sep + s[|sep|..];
      assert ([[]] + rest)[1..] == rest;
      [[]] + rest
    else
      var rest := Split(s[1..], sep);
      var parts := [[s[0]] + rest[0]] + rest[1..];
      assert s == [s[0]] + s[1..];
      assert parts[1..] == rest[1..];
      assert |rest| > 1 ==> Join(rest, sep) == rest[0] + sep + Join(rest[1..], sep);
      parts
  }

  lemma {:induction false} JoinStartsWithHead(parts: seq<string>, sep: string)
    requires |parts| > 0
    ensures parts[0] <= Join(parts, sep)
  {
  }

  /** No piece produced by `Split` contains the separator. */
  lemma {:induction false} SplitPiecesFree(s: string, sep: string)
    requires |sep| > 0
    ensures forall k :: 0 <= k < |Split(s, sep)| ==> Free(Split(s, sep)[k], sep)
    decreases |s|
  {
    var empty: string := [];
    assert Free(empty, sep) by {
      forall i | 0 <= i <= 0 ensures !(sep <= empty[i..]) { }
    }
    if s == [] {
    } else if sep <= s {
      SplitPiecesFree(s[|sep|..], sep);
    } else {
      var rest := Split(s[1..], sep);
      SplitPiecesFree(s[1..], sep);
      var head := [s[0]] + rest[0];
      JoinStartsWithHead(rest, sep);
      assert head <= s;
      assert Free(head, sep) by {
        forall i | 0 <= i <= |head| ensures !(sep <= head[i..]) {
          if i > 0 {
            assert head[i..] == rest[0][i - 1..];
          }
        }
      }
    }
  }

  /** Splitting on a one-character separator gives one more piece than there are separators. */
  lemma {:induction false} SplitCount(s: string, c: char)
    ensures |Split(s, [c])| == 1 + multiset(s)[c]
    decreases |s|
  {
    if s != [] {
      assert s == [s[0]] + s[1..];
      SplitCount(s[1..], c);
      if [c] <= s {
        assert s[1..] == s[|[c]|..];
      }
    }
  }

  /** `Split` undoes `Join` for pieces that do not contain a one-character separator. */
  lemma {:induction false} SplitJoin(parts: seq<string>, c: char)
    requires |parts| > 0
    requires forall k :: 0 <= k < |parts| ==> c !in parts[k]
    ensures Split(Join(parts, [c]), [c]) == parts
    decreases |parts|, |parts[0]|
  {
    var s := Join(parts, [c]);
    if parts[0] == [] {
      if |parts| == 1 {
      } else {
        assert s == [c] + Join(parts[1..], [c]);
        assert [c] <= s;
        assert s[|[c]|..] == Join(parts[1..], [c]);
        SplitJoin(parts[1..], c);
        assert [[]] + parts[1..] == parts;
      }
    } else {
      var p0 := parts[0];
      var shorter := [p0[1..]] + parts[1..];
      assert shorter[1..] == parts[1..];
      assert Join(shorter, [c]) == s[1..] by {
        if |parts| > 1 {
          assert s == p0 + [c] + Join(parts[1..], [c]);
          assert p0 == [p0[0]] + p0[1..];
        }
      }
      assert s[0] == p0[0];
      assert p0 == [p0[0]] + p0[1..];
      assert p0[0] in p0;
      assert !([c] <= s);
      SplitJoin(shorter, c);
      assert [[s[0]] + p0[1..]] + parts[1..] == parts;
    }
  }

  /** The characters `String.prototype.trim` removes: ECMAScript WhiteSpace and LineTerminator. */
  predicate IsWhitespace(ch: char): (w: bool)
    ensures w ==> !('0' <= ch <= '9') && ch !in ",.+-<"
  {
    || ch == ' ' || ch == '\t' || ch == '\n' || ch == '\r'
    || ch == '\U{000B}' || ch == '\U{000C}' || ch == '\U{00A0}' || ch == '\U{1680}'
    || ('\U{2000}' <= ch <= '\U{200A}')
    || ch == '\U{2028}' || ch == '\U{2029}' || ch == '\U{202F}' || ch == '\U{205F}'
    || ch == '\U{3000}' || ch == '\U{FEFF}'
  }

  /** `s` with its leading whitespace removed. */
  function TrimStart(s: string): (r: string)
    ensures |r| <= |s| && r == s[|s| - |r|..]
    ensures forall i :: 0 <= i < |s| - |r| ==> IsWhitespace(s[i])
    ensures r != [] ==> !IsWhitespace(r[0])
  {
    if s != [] && IsWhitespace(s[0]) then TrimStart(s[1..]) else s
  }

  /** `s` with its trailing whitespace removed. */
  function TrimEnd(s: string): (r: string)
    ensures |r| <= |s| && r == s[..|r|]
    ensures forall i :: |r| <= i < |s| ==> IsWhitespace(s[i])
    ensures r != [] ==> !IsWhitespace(r[|r| - 1])
  {
    if s != [] && IsWhitespace(s[|s| - 1]) then TrimEnd(s[..|s| - 1]) else s
  }

  /** `s.trim()`: the infix of `s` left once whitespace is removed from both ends. */
  function Trim(s: string): (r: string)
    ensures |r| <= |s|
    ensures r != [] ==> !IsWhitespace(r[0]) && !IsWhitespace(r[|r| - 1])
    ensures r == [] <==> forall i :: 0 <= i < |s| ==> IsWhitespace(s[i])
  {
    var t := TrimStart(s);
    assert forall i :: |s| - |t| <= i < |s| ==> s[i] == t[i - (|s| - |t|)];
    TrimEnd(t)
  }

  /** `r` occurs in `s` starting at position `a`. */
  predicate InfixAt(r: string, s: string, a: int)
  {
    0 <= a && a + |r| <= |s| && r == s[a..a + |r|]
  }

  /** `r` occurs in `s` at position `a`, and everything before and after that occurrence is whitespace. */
  predicate TrimmedAt(r: string, s: string, a: int)
  {
    && InfixAt(r, s, a)
    && (forall i :: 0 <= i < a ==> IsWhitespace(s[i]))
    && (forall i :: a + |r| <= i < |s| ==> IsWhitespace(s[i]))
  }

  /**
   * The trimmed text is a contiguous piece of the original, and everything cut
   * off before and after it is whitespace.
   */
  lemma TrimInfix(s: string)
    ensures exists a :: TrimmedAt(Trim(s), s, a)
  {
    var t := TrimStart(s);
    var r := TrimEnd(t);
    var a := |s| - |t|;
    assert t == s[a..] && r == t[..|r|];
    assert InfixAt(r, s, a) by {
      assert s[a..][..|r|] == s[a..a + |r|];
    }
    forall i | a + |r| <= i < |s| ensures IsWhitespace(s[i]) {
      assert s[i] == t[i - a];
    }
    assert TrimmedAt(r, s, a);
    assert Trim(s) == r;
  }

  /** A string with no whitespace at either end is its own trim; in particular trimming twice changes nothing. */
  lemma TrimFixed(s: string)
    requires s != [] ==> !IsWhitespace(s[0]) && !IsWhitespace(s[|s| - 1])
    ensures Trim(s) == s
    ensures Trim(Trim(s)) == Trim(s)
  {
  }

  /** The decimal digit character for `d`. */
  function DigitChar(d: nat): (ch: char)
    requires d < 10
    ensures '0' <= ch <= '9'
    ensures ch as int - '0' as int == d
  {
    ((('0' as int) + d) as char)
  }

  predicate AllDigits(s: string)
  {
    forall i :: 0 <= i < |s| ==> '0' <= s[i] <= '9'
  }

  /** A separator that starts with a non-digit never occurs in a string of digits. */
  lemma DigitsFree(s: string, sep: string)
    requires AllDigits(s) && sep != [] && !('0' <= sep[0] <= '9')
    ensures Free(s, sep)
  {
    forall i | 0 <= i <= |s| ensures !(sep <= s[i..]) {
      if i < |s| {
        assert s[i..][0] == s[i];
      }
    }
  }

  /** `n.toString()` for a non-negative integer: decimal digits without leading zeros. */
  function DecimalString(n: nat): (s: string)
    ensures |s| > 0 && AllDigits(s)
    ensures n > 0 ==> s[0] != '0'
    ensures n == 0 ==> s == "0"
  {
    if n < 10 then [DigitChar(n)] else DecimalString(n / 10) + [DigitChar(n % 10)]
  }

  /** The number a string of decimal digits denotes. */
  function DecimalValue(s: string): nat
    requires AllDigits(s)
  {
    if s == [] then 0 else 10 * DecimalValue(s[..|s| - 1]) + ((s[|s| - 1] as int) - ('0' as int))
  }

  /** Reading back the decimal text of `n` gives `n`. */
  lemma {:induction false} DecimalRoundTrip(n: nat)
    ensures DecimalValue(DecimalString(n)) == n
  {
    if n >= 10 {
      DecimalRoundTrip(n / 10);
      var s := DecimalString(n);
      assert s[..|s| - 1] == DecimalString(n / 10);
    }
  }
}
