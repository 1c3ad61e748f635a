/**
 * The pieces of Java and Spring string behaviour the flow depends on:
 * nullable strings, Character.isWhitespace, StringUtils.hasText,
 * String.length (UTF-16 code units), the truncating remainder operator
 * and String.join with a newline delimiter.
 */
module JavaText {
  import opened Wrappers

  /** A Java String reference; None is null. */
  type JString = Option<string>

  /**
   * Character.isWhitespace: the Unicode space, line and paragraph separators
   * other than the no-break spaces U+00A0, U+2007 and U+202F, plus the
   * control characters U+0009-U+000D and U+001C-U+001F.
   */
  predicate IsJavaWhitespace(c: char) {
    ('\U{9}' <= c <= '\U{D}') || ('\U{1C}' <= c <= '\U{1F}') || c == ' '
    || c == '\U{1680}' || ('\U{2000}' <= c <= '\U{2006}') || ('\U{2008}' <= c <= '\U{200A}')
    || c == '\U{2028}' || c == '\U{2029}' || c == '\U{205F}' || c == '\U{3000}'
  }

  /** StringUtils.hasText: not null and holding at least one non-whitespace character. */
  predicate HasText(s: JString) {
    s.Some? && exists i | 0 <= i < |s.value| :: !IsJavaWhitespace(s.value[i])
  }

  /**
   * Java's whitespace includes tab, newline, the ideographic space and the
   * em space, but not the no-break spaces, so a lone no-break space has text.
   */
  lemma WhitespaceExamples()
    ensures IsJavaWhitespace('\t') && IsJavaWhitespace('\n') && IsJavaWhitespace('\U{3000}')
    ensures IsJavaWhitespace('\U{2003}') && IsJavaWhitespace('\U{1F}')
    ensures !IsJavaWhitespace('\U{A0}') && !IsJavaWhitespace('\U{2007}') && !IsJavaWhitespace('\U{202F}')
    ensures !IsJavaWhitespace('\U{200B}') && !IsJavaWhitespace('x')
    ensures !HasText(None) && !HasText(Some("")) && !HasText(Some(" \t\n"))
    ensures HasText(Some("\U{A0}")) && HasText(Some(" x "))
  {
    assert !IsJavaWhitespace(" \t\n"[0]) ==> false;
    assert !IsJavaWhitespace("\U{A0}"[0]);
    assert !IsJavaWhitespace(" x "[1]);
  }

  /** A concatenation has text exactly when one of its parts has. */
  lemma HasTextConcat(s: string, t: string)
    ensures HasText(Some(s + t)) <==> HasText(Some(s)) || HasText(Some(t))
  {
    if HasText(Some(s + t)) {
      var i :| 0 <= i < |s + t| && !IsJavaWhitespace((s + t)[i]);
      if i < |s| {
        assert !IsJavaWhitespace(s[i]);
      } else {
        assert !IsJavaWhitespace(t[i - |s|]);
      }
    }
    if HasText(Some(s)) {
      var i :| 0 <= i < |s| && !IsJavaWhitespace(s[i]);
      assert (s + t)[i] == s[i];
    }
    if HasText(Some(t)) {
      var i :| 0 <= i < |t| && !IsJavaWhitespace(t[i]);
      assert (s + t)[|s| + i] == t[i];
    }
  }

  /**
   * String.length(): the number of UTF-16 code units, so a code point
   * outside the Basic Multilingual Plane counts twice.
   */
  function Utf16Length(s: string): (n: nat)
    ensures |s| <= n <= 2 * |s|
    ensures n == |s| <==> forall i | 0 <= i < |s| :: s[i] <= '\U{FFFF}'
    ensures |s| == 1 ==> n == if s[0] <= '\U{FFFF}' then 1 else 2
  {
    if s == [] then 0
    else Utf16Length(s[..|s| - 1]) + (if s[|s| - 1] <= '\U{FFFF}' then 1 else 2)
  }

  /** The length of a concatenation is the sum of the lengths, so each code point adds its own one or two units. */
  lemma {:induction false} Utf16LengthConcat(a: string, b: string)
    ensures Utf16Length(a + b) == Utf16Length(a) + Utf16Length(b)
  {
    if b != [] {
      var ab := a + b;
      assert ab[..|ab| - 1] == a + b[..|b| - 1];
      assert ab[|ab| - 1] == b[|b| - 1];
      Utf16LengthConcat(a, b[..|b| - 1]);
    } else {
      assert a + b == a;
    }
  }

  function Abs(x: int): nat {
    if x < 0 then -x else x
  }

  /** Java's integer division, which rounds toward zero. */
  function JavaDiv(a: int, b: int): int
    requires b != 0
  {
    var q := Abs(a) / Abs(b);
    if (a >= 0) == (b > 0) then q else -q
  }

  /**
   * Java's `%`: the remainder of the truncating division, which takes
   * the sign of the dividend (Dafny's own `%` is never negative).
   */
  function JavaRem(a: int, b: int): (r: int)
    requires b != 0
    ensures a == b * JavaDiv(a, b) + r
    ensures Abs(r) < Abs(b)
    ensures a > 0 ==> r >= 0
    ensures a < 0 ==> r <= 0
  {
    var m := Abs(a) % Abs(b);
    DivisionByMagnitude(a, b);
    if a >= 0 then m else -m
  }

  lemma DivisionByMagnitude(a: int, b: int)
    requires b != 0
    ensures a >= 0 ==> a == b * JavaDiv(a, b) + Abs(a) % Abs(b)
    ensures a < 0 ==> a == b * JavaDiv(a, b) - Abs(a) % Abs(b)
  {
    var q, m := Abs(a) / Abs(b), Abs(a) % Abs(b);
    assert Abs(a) == Abs(b) * q + m;
    if b > 0 {
      assert Abs(b) * q == b * q;
    } else {
      assert Abs(b) * q == b * -q;
    }
  }

  /** String.join("\n", lines). */
  function JoinWithNewline(lines: seq<string>): (s: string)
    ensures |lines| >= 1 ==> lines[0] <= s
    ensures |lines| >= 2 ==> '\n' in s
  {
    if |lines| == 0 then ""
    else if |lines| == 1 then lines[0]
    else lines[0] + "\n" + JoinWithNewline(lines[1..])
  }

  /**
   * The inverse of JoinWithNewline: the pieces of s between newline
   * characters, empty pieces included.
   */
  function SplitAtNewlines(s: string): (pieces: seq<string>)
    ensures |pieces| >= 1
    ensures forall i | 0 <= i < |pieces| :: '\n' !in pieces[i]
  {
    if s == [] then [""]
    else
      var rest := SplitAtNewlines(s[1..]);
      if s[0] == '\n' then [""] + rest
      else [[s[0]] + rest[0]] + rest[1..]
  }

  /** Joining the pieces between newlines gives back the text. */
  lemma {:induction false} JoinSplit(s: string)
    ensures JoinWithNewline(SplitAtNewlines(s)) == s
  {
    if s != [] {
      JoinSplit(s[1..]);
      var rest := SplitAtNewlines(s[1..]);
      if s[0] == '\n' {
        assert ([""] + rest)[1..] == rest;
        assert s == "\n" + s[1..];
      } else if |rest| == 1 {
        assert s == [s[0]] + s[1..];
      } else {
        var pieces := [[s[0]] + rest[0]] + rest[1..];
        assert pieces[1..] == rest[1..];
        assert JoinWithNewline(rest) == rest[0] + "\n" + JoinWithNewline(rest[1..]);
        assert s == [s[0]] + s[1..];
      }
    }
  }

  lemma {:induction false} SplitWithoutNewline(a: string)
    requires '\n' !in a
    ensures SplitAtNewlines(a) == [a]
  {
    if a != [] {
      assert '\n' !in a[1..] by {
        forall k | 0 <= k < |a[1..]| ensures a[1..][k] != '\n' {
          assert a[1..][k] == a[k + 1];
        }
      }
      SplitWithoutNewline(a[1..]);
      assert a == [a[0]] + a[1..];
    }
  }

  lemma {:induction false} SplitAfterLine(a: string, t: string)
    requires '\n' !in a
    ensures SplitAtNewlines(a + "\n" + t) == [a] + SplitAtNewlines(t)
  {
    if a == [] {
      assert a + "\n" + t == "\n" + t;
      assert ("\n" + t)[1..] == t;
    } else {
      assert '\n' !in a[1..] by {
        forall k | 0 <= k < |a[1..]| ensures a[1..][k] != '\n' {
          assert a[1..][k] == a[k + 1];
        }
      }
      SplitAfterLine(a[1..], t);
      assert (a + "\n" + t)[1..] == a[1..] + "\n" + t;
      assert (a + "\n" + t)[0] == a[0];
      assert a == [a[0]] + a[1..];
    }
  }

  /**
   * Lines that hold no newline (as Files.readAllLines returns them) are
   * recovered from their join by splitting at newlines.
   */
  lemma {:induction false} SplitJoin(lines: seq<string>)
    requires |lines| >= 1
    requires forall i | 0 <= i < |lines| :: '\n' !in lines[i]
    ensures SplitAtNewlines(JoinWithNewline(lines)) == lines
  {
    if |lines| == 1 {
      SplitWithoutNewline(lines[0]);
    } else {
      SplitJoin(lines[1..]);
      SplitAfterLine(lines[0], JoinWithNewline(lines[1..]));
      assert lines == [lines[0]] + lines[1..];
    }
  }
}
