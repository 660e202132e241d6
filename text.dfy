/**
 * Strings as sequences of Unicode scalar values: Rust's `str::trim`, the
 * ordering Rust's `String` and SQLite's BINARY collation both use (code point
 * order, which is also the byte order of UTF-8), and zero-padded decimal
 * numerals as `format!("{:04}")` and chrono's `%Y`, `%m`, `%d` print them.
 */
module Text {

  /** Unicode's White_Space property, which `char::is_whitespace` tests. */
  predicate IsWhitespace(c: char)
  {
    ('\U{0009}' <= c <= '\U{000D}') || c == ' ' || c == '\U{0085}' || c == '\U{00A0}'
    || c == '\U{1680}' || ('\U{2000}' <= c <= '\U{200A}') || c == '\U{2028}' || c == '\U{2029}'
    || c == '\U{202F}' || c == '\U{205F}' || c == '\U{3000}'
  }

  /** Every character is white space (the empty string included). */
  predicate IsBlank(s: string)
  {
    forall i :: 0 <= i < |s| ==> IsWhitespace(s[i])
  }

  /** `str::trim_start`: the suffix left after dropping leading white space. */
  function TrimStart(s: string): (r: string)
    ensures |r| <= |s| && r == s[|s| - |r|..]
    ensures IsBlank(s[..|s| - |r|])
    ensures r != [] ==> !IsWhitespace(r[0])
  {
    if s != [] && IsWhitespace(s[0]) then
      var r := TrimStart(s[1..]);
      assert s[1..][..|s| - 1 - |r|] == s[1..|s| - |r|];
      r
    else
      s
  }

  /** `str::trim_end`: the prefix left after dropping trailing white space. */
  function TrimEnd(s: string): (r: string)
    ensures |r| <= |s| && r == s[..|r|]
    ensures IsBlank(s[|r|..])
    ensures r != [] ==> !IsWhitespace(r[|r| - 1])
  {
    if s != [] && IsWhitespace(s[|s| - 1]) then
      var r := TrimEnd(s[..|s| - 1]);
      assert s[|r|..] == s[..|s| - 1][|r|..] + [s[|s| - 1]];
      r
    else
      s
  }

  /** `str::trim` */
  function Trim(s: string): string
  {
    TrimEnd(TrimStart(s))
  }

  /** A trimmed string is empty exactly when the input is all white space. */
  lemma {:induction false} TrimEmptyIffBlank(s: string)
    ensures Trim(s) == [] <==> IsBlank(s)
  {
    var t := TrimStart(s);
    if t == [] {
      assert s[..|s| - |t|] == s;
    } else {
      assert !IsWhitespace(t[0]);
      assert t[0] == t[0..][0];
      assert s[|s| - |t|] == t[0];
    }
  }

  /** The trimmed string has no white space at either end, so trimming twice changes nothing. */
  lemma {:induction false} TrimIdempotent(s: string)
    ensures Trim(Trim(s)) == Trim(s)
  {
    var t := Trim(s);
    var u := TrimStart(s);
    if t != [] {
      assert t == u[..|t|];
      assert t[0] == u[0];
      assert !IsWhitespace(t[0]) && !IsWhitespace(t[|t| - 1]);
    }
  }

  // ----- ordering -----

  /** Lexicographic order by code point: a prefix comes first. */
  predicate StrLe(a: string, b: string)
    decreases |a|
  {
    |a| == 0 || (|b| > 0 && (a[0] < b[0] || (a[0] == b[0] && StrLe(a[1..], b[1..]))))
  }

  predicate StrLt(a: string, b: string)
  {
    StrLe(a, b) && a != b
  }

  lemma {:induction false} StrLeTotal(a: string, b: string)
    ensures StrLe(a, b) || StrLe(b, a)
    decreases |a|
  {
    if |a| > 0 && |b| > 0 && a[0] == b[0] {
      StrLeTotal(a[1..], b[1..]);
    }
  }

  lemma {:induction false} StrLeTrans(a: string, b: string, c: string)
    requires StrLe(a, b) && StrLe(b, c)
    ensures StrLe(a, c)
    decreases |a|
  {
    if |a| > 0 && a[0] == b[0] && b[0] == c[0] {
      StrLeTrans(a[1..], b[1..], c[1..]);
    }
  }

  lemma {:induction false} StrLeAntisym(a: string, b: string)
    requires StrLe(a, b) && StrLe(b, a)
    ensures a == b
    decreases |a|
  {
    if |a| > 0 {
      StrLeAntisym(a[1..], b[1..]);
      assert a == [a[0]] + a[1..] && b == [b[0]] + b[1..];
    }
  }

  /** For strings of one length, comparing `x + u` with `y + v` decides on `x` and `y` first. */
  lemma {:induction false} StrLeConcat(x: string, u: string, y: string, v: string)
    requires |x| == |y|
    ensures StrLe(x + u, y + v) <==> StrLt(x, y) || (x == y && StrLe(u, v))
    decreases |x|
  {
    if |x| > 0 {
      assert (x + u)[0] == x[0] && (y + v)[0] == y[0];
      assert (x + u)[1..] == x[1..] + u && (y + v)[1..] == y[1..] + v;
      StrLeConcat(x[1..], u, y[1..], v);
      if x[0] == y[0] {
        assert x == [x[0]] + x[1..] && y == [y[0]] + y[1..];
        assert (x[1..] == y[1..]) == (x == y);
      } else {
        assert x != y;
      }
    } else {
      assert x + u == u && y + v == v;
    }
  }

  // ----- decimal numerals -----

  predicate IsDigit(c: char)
  {
    '0' <= c <= '9'
  }

  predicate AllDigits(s: string)
  {
    forall i :: 0 <= i < |s| ==> IsDigit(s[i])
  }

  function DigitChar(d: nat): (c: char)
    requires d < 10
    ensures IsDigit(c) && DigitValue(c) == d
  {
    (48 + d) as char
  }

  function DigitValue(c: char): nat
    requires IsDigit(c)
  {
    (c as int - 48) as nat
  }

  function Pow10(w: nat): (p: nat)
    ensures p >= 1
  {
    if w == 0 then 1 else 10 * Pow10(w - 1)
  }

  /**
   * The decimal numeral of `n`, zero-padded on the left to at least `width`
   * characters (`format!("{:0width$}", n)`); width 0 and 1 give the plain numeral.
   */
  function Pad(n: nat, width: nat): (r: string)
    ensures |r| >= 1 && |r| >= width && AllDigits(r)
    decreases n, width
  {
    if n < 10 && width <= 1 then [DigitChar(n)]
    else Pad(n / 10, if width == 0 then 0 else width - 1) + [DigitChar(n % 10)]
  }

  /** Decimal value of a digit string; the empty string is 0. */
  function DecimalValue(s: string): nat
    requires AllDigits(s)
  {
    if s == [] then 0 else 10 * DecimalValue(s[..|s| - 1]) + DigitValue(s[|s| - 1])
  }

  /** Reading a padded numeral back gives the number. */
  lemma {:induction false} PadValue(n: nat, width: nat)
    ensures DecimalValue(Pad(n, width)) == n
    decreases n, width
  {
    var r := Pad(n, width);
    if !(n < 10 && width <= 1) {
      var w' := if width == 0 then 0 else width - 1;
      PadValue(n / 10, w');
      assert r[..|r| - 1] == Pad(n / 10, w');
    }
  }

  /** A number below 10^width takes exactly `width` characters. */
  lemma {:induction false} PadLength(n: nat, width: nat)
    requires width >= 1 && n < Pow10(width)
    ensures |Pad(n, width)| == width
    decreases width
  {
    if !(n < 10 && width <= 1) {
      assert n / 10 < Pow10(width - 1);
      PadLength(n / 10, width - 1);
    }
  }

  /** Padded numerals of one width sort as the numbers do. */
  lemma {:induction false} PadOrder(a: nat, b: nat, width: nat)
    requires width >= 1 && a < Pow10(width) && b < Pow10(width)
    ensures StrLt(Pad(a, width), Pad(b, width)) <==> a < b
    decreases width
  {
    if width == 1 {
      assert Pad(a, 1) == [DigitChar(a)] && Pad(b, 1) == [DigitChar(b)];
      assert StrLe(Pad(a, 1), Pad(b, 1)) <==> a <= b;
    } else {
      assert a / 10 < Pow10(width - 1) && b / 10 < Pow10(width - 1);
      PadLength(a / 10, width - 1);
      PadLength(b / 10, width - 1);
      PadOrder(a / 10, b / 10, width - 1);
      var x, y := Pad(a / 10, width - 1), Pad(b / 10, width - 1);
      var u, v := [DigitChar(a % 10)], [DigitChar(b % 10)];
      StrLeConcat(x, u, y, v);
      PadInjective(a / 10, b / 10, width - 1);
      assert (x == y) == (a / 10 == b / 10);
      assert StrLe(u, v) <==> a % 10 <= b % 10;
      assert (x + u == y + v) == (a == b) by {
        if x + u == y + v {
          assert x == (x + u)[..|x|] && y == (y + v)[..|y|];
          assert u[0] == (x + u)[|x|] && v[0] == (y + v)[|y|];
        }
      }
    }
  }

  /** Distinct numbers have distinct numerals. */
  lemma {:induction false} PadInjective(a: nat, b: nat, width: nat)
    ensures Pad(a, width) == Pad(b, width) <==> a == b
  {
    PadValue(a, width);
    PadValue(b, width);
  }

  /** The last `n` characters, or the whole string when it is shorter (`&s[s.len().saturating_sub(n)..]`). */
  function LastChars(s: string, n: nat): (r: string)
    ensures |r| == if |s| < n then |s| else n
    ensures s == s[..|s| - |r|] + r
  {
    var start := if |s| < n then 0 else |s| - n;
    s[start..]
  }
}
