/** Python's ordering of `str` values, `list.index` and `str.join`. */
module Strings {
  import opened Outcomes

  /** Python's `a <= b` on strings: compare code point by code point; a proper prefix comes first. */
  predicate StrLe(a: string, b: string)
    decreases |a|
  {
    |a| == 0 || (|b| > 0 && (a[0] < b[0] || (a[0] == b[0] && StrLe(a[1..], b[1..]))))
  }

  /** Python's `a < b` on strings. */
  predicate StrLt(a: string, b: string) {
    StrLe(a, b) && a != b
  }

  lemma {:induction false} StrLeReflexive(a: string)
    ensures StrLe(a, a)
  {
    if |a| > 0 {
      StrLeReflexive(a[1..]);
    }
  }

  lemma {:induction false} StrLeTotal(a: string, b: string)
    ensures StrLe(a, b) || StrLe(b, a)
  {
    if |a| > 0 && |b| > 0 && a[0] == b[0] {
      StrLeTotal(a[1..], b[1..]);
    }
  }

  lemma {:induction false} StrLeAntisymmetric(a: string, b: string)
    requires StrLe(a, b) && StrLe(b, a)
    ensures a == b
  {
    if |a| > 0 {
      StrLeAntisymmetric(a[1..], b[1..]);
      assert a == [a[0]] + a[1..] && b == [b[0]] + b[1..];
    }
  }

  lemma {:induction false} StrLeTransitive(a: string, b: string, c: string)
    requires StrLe(a, b) && StrLe(b, c)
    ensures StrLe(a, c)
  {
    if |a| > 0 && a[0] == b[0] && b[0] == c[0] {
      StrLeTransitive(a[1..], b[1..], c[1..]);
    }
  }

  /** `k` is the position of the first occurrence of `x` in `s`. */
  ghost predicate FirstAt<T>(s: seq<T>, x: T, k: int) {
    0 <= k < |s| && s[k] == x && x !in s[..k]
  }

  /** Python's `s.index(x)`: the first position of `x` in `s`, or None where `list.index` raises. */
  function IndexOf<T(==)>(s: seq<T>, x: T): (r: Option<nat>)
    ensures r.None? <==> x !in s
    ensures r.Some? ==> FirstAt(s, x, r.value)
  {
    if |s| == 0 then None
    else if s[0] == x then Some(0)
    else match IndexOf(s[1..], x)
      case None => None
      case Some(i) =>
        assert s[..i + 1] == [s[0]] + s[1..][..i];
        Some(i + 1)
  }

  /** Python's `sep.join(parts)`. */
  function Join(sep: string, parts: seq<string>): string {
    if |parts| == 0 then ""
    else if |parts| == 1 then parts[0]
    else parts[0] + sep + Join(sep, parts[1..])
  }

  /** Joining two non-empty lists puts exactly one separator between their joins. */
  lemma {:induction false} JoinAppend(sep: string, a: seq<string>, b: seq<string>)
    requires |a| > 0 && |b| > 0
    ensures Join(sep, a + b) == Join(sep, a) + sep + Join(sep, b)
  {
    if |a| == 1 {
      assert (a + b)[1..] == b;
    } else {
      assert (a + b)[1..] == a[1..] + b;
      JoinAppend(sep, a[1..], b);
    }
  }

  /** The digit of value `d` in lower-case hexadecimal. */
  function HexDigit(d: nat): char
    requires d < 16
  {
    if d < 10 then ('0' as int + d) as char else ('a' as int + d - 10) as char
  }

  /** The value of a lower-case hexadecimal digit; 0 for any other character. */
  function HexValue(c: char): (v: nat)
    ensures v < 16
  {
    if '0' <= c <= '9' then c as int - '0' as int
    else if 'a' <= c <= 'f' then c as int - 'a' as int + 10
    else 0
  }

  /** The lower-case hexadecimal digits of `n`, without leading zeros. */
  function HexDigits(n: nat): string
    decreases n
  {
    if n < 16 then [HexDigit(n)] else HexDigits(n / 16) + [HexDigit(n % 16)]
  }

  /** C's `%02x`: the hexadecimal digits of `n`, padded with zeros to at least two. */
  function Hex2(n: nat): (s: string)
    ensures |s| >= 2
    ensures n < 256 ==> |s| == 2 && HexValue(s[0]) * 16 + HexValue(s[1]) == n
  {
    if n < 16 then "0" + HexDigits(n) else
      assert n >= 256 || HexDigits(n) == [HexDigit(n / 16), HexDigit(n % 16)];
      HexDigits(n)
  }

  /** A character `repr` may write as itself: printable ASCII. */
  predicate Printable(c: char) {
    32 <= c as int < 127
  }

  /** The quote Python 2's `repr` puts around a string. */
  function ReprQuote(s: string): (q: char)
    ensures q == '"' <==> '\'' in s && '"' !in s
    ensures q == '"' || q == '\''
  {
    if '\'' in s && '"' !in s then '"' else '\''
  }

  /** How `repr` writes one character between quotes `q`. */
  function EscapeChar(c: char, q: char): (e: string)
    ensures |e| >= 1
    ensures e == [c] <==> Printable(c) && c != q && c != '\\'
  {
    if c == q || c == '\\' then ['\\', c]
    else if c == '\t' then "\\t"
    else if c == '\n' then "\\n"
    else if c == '\r' then "\\r"
    else if !Printable(c) then "\\x" + Hex2(c as int)
    else [c]
  }

  /** The characters of `s` as `repr` writes them between quotes `q`. */
  function Escaped(s: string, q: char): string {
    if |s| == 0 then "" else EscapeChar(s[0], q) + Escaped(s[1..], q)
  }

  /** Python 2's `repr` of a string. */
  function PyRepr(s: string): (r: string)
    ensures |r| >= |s| + 2
    ensures r[0] == ReprQuote(s) && r[|r| - 1] == ReprQuote(s)
  {
    EscapedLength(s, ReprQuote(s));
    [ReprQuote(s)] + Escaped(s, ReprQuote(s)) + [ReprQuote(s)]
  }

  lemma {:induction false} EscapedLength(s: string, q: char)
    ensures |Escaped(s, q)| >= |s|
  {
    if |s| > 0 {
      EscapedLength(s[1..], q);
    }
  }

  /** A string of printable characters without `'` or a backslash is shown as itself in `'` quotes. */
  lemma PlainRepr(s: string)
    requires forall i :: 0 <= i < |s| ==> Printable(s[i]) && s[i] != '\'' && s[i] != '\\'
    ensures PyRepr(s) == "'" + s + "'"
  {
    assert '\'' !in s;
    EscapedPlain(s, '\'');
  }

  lemma {:induction false} EscapedPlain(s: string, q: char)
    requires forall i :: 0 <= i < |s| ==> Printable(s[i]) && s[i] != q && s[i] != '\\'
    ensures Escaped(s, q) == s
  {
    if |s| > 0 {
      EscapedPlain(s[1..], q);
      assert s == [s[0]] + s[1..];
    }
  }

  /** A printable string holding `'` but no `"` or backslash is shown as itself in `"` quotes. */
  lemma ApostropheRepr(s: string)
    requires '\'' in s && '"' !in s
    requires forall i :: 0 <= i < |s| ==> Printable(s[i]) && s[i] != '\\'
    ensures PyRepr(s) == "\"" + s + "\""
  {
    EscapedPlain(s, '"');
  }

  /** Reads back what `Escaped` writes: a backslash escape, or one character as itself. */
  function Unescape(t: string): string
    decreases |t|
  {
    if |t| == 0 then ""
    else if t[0] == '\\' && |t| >= 2 then
      if t[1] == 't' then "\t" + Unescape(t[2..])
      else if t[1] == 'n' then "\n" + Unescape(t[2..])
      else if t[1] == 'r' then "\r" + Unescape(t[2..])
      else if t[1] == 'x' && |t| >= 4 then [(HexValue(t[2]) * 16 + HexValue(t[3])) as char] + Unescape(t[4..])
      else [t[1]] + Unescape(t[2..])
    else [t[0]] + Unescape(t[1..])
  }

  /** Reading back one written character, of a byte string, gives that character. */
  lemma UnescapeStep(c: char, q: char, t: string)
    requires c as int < 256 && (q == '"' || q == '\'')
    ensures Unescape(EscapeChar(c, q) + t) == [c] + Unescape(t)
  {
    var w := EscapeChar(c, q) + t;
    if c == q || c == '\\' {
      assert w[2..] == t;
    } else if c == '\t' || c == '\n' || c == '\r' {
      assert w[2..] == t;
    } else if !Printable(c) {
      assert w[..4] == "\\x" + Hex2(c as int) && w[4..] == t;
    } else {
      assert w[1..] == t;
    }
  }

  /** Reading back the written characters of a byte string gives the string. */
  lemma {:induction false} UnescapeEscaped(s: string, q: char)
    requires forall i :: 0 <= i < |s| ==> s[i] as int < 256
    requires q == '"' || q == '\''
    ensures Unescape(Escaped(s, q)) == s
  {
    if |s| > 0 {
      UnescapeEscaped(s[1..], q);
      UnescapeStep(s[0], q, Escaped(s[1..], q));
      assert s == [s[0]] + s[1..];
    }
  }

  /** For a byte string, what `repr` writes between its quotes reads back as the string. */
  lemma ReprRoundTrip(s: string)
    requires forall i :: 0 <= i < |s| ==> s[i] as int < 256
    ensures var r := PyRepr(s); Unescape(r[1..|r| - 1]) == s
  {
    var r := PyRepr(s);
    assert r[1..|r| - 1] == Escaped(s, ReprQuote(s));
    UnescapeEscaped(s, ReprQuote(s));
  }
}
