/**
 * The few Python `str` operations the analyzer relies on, over `seq<char>`:
 * `count`, `split` and `join` with a one-character separator, `strip`,
 * `isdigit`, `startswith` and the decimal rendering of integers used by
 * f-strings. Whitespace is the ASCII part of what `str.isspace` accepts.
 */
module Text {

  /** Python `s.count(c)` for a one-character `c`. */
  function Count(s: string, c: char): (n: nat)
    ensures n <= |s|
    ensures n == 0 <==> c !in s
  {
    if s == [] then 0 else (if s[0] == c then 1 else 0) + Count(s[1..], c)
  }

  lemma {:induction false} CountAppend(a: string, b: string, c: char)
    ensures Count(a + b, c) == Count(a, c) + Count(b, c)
  {
    if a == [] {
      assert a + b == b;
    } else {
      assert (a + b)[1..] == a[1..] + b;
      CountAppend(a[1..], b, c);
    }
  }

  /** Splitting `s` at `k` splits its count. */
  lemma CountSplitAt(s: string, k: nat, c: char)
    requires k <= |s|
    ensures Count(s, c) == Count(s[..k], c) + Count(s[k..], c)
  {
    assert s == s[..k] + s[k..];
    CountAppend(s[..k], s[k..], c);
  }

  /** A prefix holds no more occurrences than the whole. */
  lemma CountPrefixLe(s: string, k: nat, c: char)
    requires k <= |s|
    ensures Count(s[..k], c) <= Count(s, c)
  {
    CountSplitAt(s, k, c);
  }

  /** Python `s.split(sep)` for a one-character separator: never empty, no part holds `sep`. */
  function Split(s: string, sep: char): (parts: seq<string>)
    ensures |parts| == Count(s, sep) + 1
    ensures forall i :: 0 <= i < |parts| ==> sep !in parts[i]
  {
    if s == [] then [""]
    else
      var rest := Split(s[1..], sep);
      if s[0] == sep then [""] + rest
      else [[s[0]] + rest[0]] + rest[1..]
  }

  /** Python `sep.join(parts)`. */
  function Join(parts: seq<string>, sep: char): string
  {
    if |parts| == 0 then ""
    else if |parts| == 1 then parts[0]
    else parts[0] + [sep] + Join(parts[1..], sep)
  }

  /** Joining the parts of a split gives back the original text. */
  lemma {:induction false} JoinSplit(s: string, sep: char)
    ensures Join(Split(s, sep), sep) == s
  {
    if s != [] {
      var rest := Split(s[1..], sep);
      JoinSplit(s[1..], sep);
      if s[0] == sep {
        assert Split(s, sep) == [""] + rest;
        assert ([""] + rest)[1..] == rest;
      } else if |rest| == 1 {
        assert Split(s, sep) == [[s[0]] + rest[0]];
      } else {
        var parts := [[s[0]] + rest[0]] + rest[1..];
        assert Split(s, sep) == parts;
        assert parts[1..] == rest[1..];
        assert Join(rest, sep) == rest[0] + [sep] + Join(rest[1..], sep);
      }
    }
  }

  /** Splitting a join of separator-free parts gives back the parts. */
  lemma {:induction false} SplitJoin(parts: seq<string>, sep: char)
    requires |parts| >= 1
    requires forall i :: 0 <= i < |parts| ==> sep !in parts[i]
    ensures Split(Join(parts, sep), sep) == parts
  {
    if |parts| == 1 {
      SplitNoSep(parts[0], sep);
    } else {
      SplitJoin(parts[1..], sep);
      SplitAround(parts[0], Join(parts[1..], sep), sep);
      assert [parts[0]] + parts[1..] == parts;
    }
  }

  lemma {:induction false} SplitNoSep(s: string, sep: char)
    requires sep !in s
    ensures Split(s, sep) == [s]
  {
    if s != [] {
      assert s[0] != sep && sep !in s[1..];
      SplitNoSep(s[1..], sep);
      assert [s[0]] + s[1..] == s;
    }
  }

  lemma {:induction false} SplitAround(a: string, b: string, sep: char)
    requires sep !in a
    ensures Split(a + [sep] + b, sep) == [a] + Split(b, sep)
  {
    if a == [] {
      assert a + [sep] + b == [sep] + b;
      assert ([sep] + b)[1..] == b;
    } else {
      assert (a + [sep] + b)[1..] == a[1..] + [sep] + b;
      SplitAround(a[1..], b, sep);
      assert [a[0]] + a[1..] == a;
    }
  }

  /** Python `s.split(sep)[0]`: the text before the first `sep`. */
  function BeforeFirst(s: string, sep: char): string
  {
    Split(s, sep)[0]
  }

  /** Python `s.split(sep)[-1]`: the text after the last `sep`. */
  function AfterLast(s: string, sep: char): string
  {
    var parts := Split(s, sep);
    parts[|parts| - 1]
  }

  /** `BeforeFirst` is the longest prefix without `sep`, and `sep` follows it when present. */
  lemma {:induction false} BeforeFirstIsPrefix(s: string, sep: char)
    ensures |BeforeFirst(s, sep)| <= |s|
    ensures BeforeFirst(s, sep) == s[..|BeforeFirst(s, sep)|]
    ensures sep in s ==> |BeforeFirst(s, sep)| < |s| && s[|BeforeFirst(s, sep)|] == sep
  {
    if s != [] && s[0] != sep {
      BeforeFirstIsPrefix(s[1..], sep);
      assert sep in s ==> sep in s[1..];
    }
  }

  /** When `sep` first occurs at `k`, the text before it is `s[..k]`. */
  lemma BeforeFirstAt(s: string, sep: char, k: nat)
    requires k < |s| && s[k] == sep && sep !in s[..k]
    ensures BeforeFirst(s, sep) == s[..k]
  {
    BeforeFirstIsPrefix(s, sep);
    assert sep !in BeforeFirst(s, sep);
  }

  /** The characters `str.isspace` accepts below U+0080. */
  predicate IsSpace(c: char)
  {
    c == ' ' || c == '\t' || c == '\n' || c == '\r' ||
    c as int == 0x0B || c as int == 0x0C || (0x1C <= c as int <= 0x1F)
  }

  predicate AllSpace(s: string)
  {
    forall i :: 0 <= i < |s| ==> IsSpace(s[i])
  }

  /** Python `s.lstrip()`: drops the leading whitespace and nothing else. */
  function StripLeft(s: string): (r: string)
    ensures |r| <= |s| && r == s[|s| - |r|..]
    ensures AllSpace(s[..|s| - |r|])
    ensures r != [] ==> !IsSpace(r[0])
  {
    if s != [] && IsSpace(s[0]) then StripLeft(s[1..]) else s
  }

  /** Python `s.rstrip()`: drops the trailing whitespace and nothing else. */
  function StripRight(s: string): (r: string)
    ensures |r| <= |s| && r == s[..|r|]
    ensures AllSpace(s[|r|..])
    ensures r != [] ==> !IsSpace(r[|r| - 1])
  {
    if s != [] && IsSpace(s[|s| - 1]) then StripRight(s[..|s| - 1]) else s
  }

  /** Python `s.strip()`: the middle of `s` with whitespace removed from both ends. */
  function Strip(s: string): (r: string)
    ensures |r| <= |s|
    ensures r != [] ==> !IsSpace(r[0]) && !IsSpace(r[|r| - 1])
  {
    StripRight(StripLeft(s))
  }

  /** Stripping text that is padded by whitespace only returns what was padded. */
  lemma StripPadded(w1: string, x: string, w2: string)
    requires AllSpace(w1) && AllSpace(w2)
    requires x != [] && !IsSpace(x[0]) && !IsSpace(x[|x| - 1])
    ensures Strip(w1 + x + w2) == x
  {
    assert w1 + x + w2 == w1 + (x + w2);
    assert (x + w2)[0] == x[0];
    StripLeftPadded(w1, x + w2);
    StripRightPadded(x, w2);
  }

  lemma {:induction false} StripLeftPadded(w: string, y: string)
    requires AllSpace(w)
    requires y != [] && !IsSpace(y[0])
    ensures StripLeft(w + y) == y
  {
    if w != [] {
      assert (w + y)[1..] == w[1..] + y;
      StripLeftPadded(w[1..], y);
    } else {
      assert w + y == y;
    }
  }

  lemma {:induction false} StripRightPadded(y: string, w: string)
    requires AllSpace(w)
    requires y != [] && !IsSpace(y[|y| - 1])
    ensures StripRight(y + w) == y
  {
    if w != [] {
      var n := |y + w|;
      assert (y + w)[..n - 1] == y + w[..|w| - 1];
      StripRightPadded(y, w[..|w| - 1]);
    } else {
      assert y + w == y;
    }
  }

  predicate IsDigit(c: char)
  {
    '0' <= c <= '9'
  }

  /** Python `s.isdigit()` restricted to ASCII digits: false on the empty string. */
  predicate IsDigits(s: string)
  {
    |s| > 0 && forall i :: 0 <= i < |s| ==> IsDigit(s[i])
  }

  /** Python `s.startswith(p)`. */
  predicate StartsWith(s: string, p: string)
  {
    |p| <= |s| && s[..|p|] == p
  }

  function DigitChar(d: nat): (c: char)
    requires d < 10
    ensures IsDigit(c)
  {
    ('0' as int + d) as char
  }

  /** The decimal rendering of `n`, as `str(n)` or an f-string gives it. */
  function NatToString(n: nat): (r: string)
    ensures IsDigits(r)
  {
    if n < 10 then [DigitChar(n)] else NatToString(n / 10) + [DigitChar(n % 10)]
  }

  /** The decimal rendering of an integer, with a leading `-` when negative. */
  function IntToString(i: int): string
  {
    if i < 0 then "-" + NatToString(-i) else NatToString(i)
  }
}
