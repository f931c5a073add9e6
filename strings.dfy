/**
 * The handful of Python `str` operations the music librarian relies on:
 * `strip`, `lower`, `startswith`/`endswith`, `split`, `rfind`, and the
 * decimal `int()`/`str()` conversions used for MP4 track numbers.
 */
module Strings {
  import opened Wrappers

  /** Python's `str.isspace()`: exactly the code points that `str.strip()` removes. */
  predicate IsSpace(c: char)
  {
    || ('\U{0009}' <= c <= '\U{000D}')
    || ('\U{001C}' <= c <= '\U{0020}')
    || c == '\U{0085}' || c == '\U{00A0}' || c == '\U{1680}'
    || ('\U{2000}' <= c <= '\U{200A}')
    || c == '\U{2028}' || c == '\U{2029}' || c == '\U{202F}' || c == '\U{205F}'
    || c == '\U{3000}'
  }

  /** `s.lstrip()`: drops leading whitespace and nothing else. */
  function LStrip(s: string): string
  {
    if |s| > 0 && IsSpace(s[0]) then LStrip(s[1..]) else s
  }

  lemma {:induction false} LStripSpec(s: string)
    ensures var r := LStrip(s);
      && |r| <= |s| && r == s[|s| - |r|..]
      && (r == [] || !IsSpace(r[0]))
      && forall k :: 0 <= k < |s| - |r| ==> IsSpace(s[k])
  {
    if |s| > 0 && IsSpace(s[0]) {
      LStripSpec(s[1..]);
    }
  }

  /** `s.rstrip()`: drops trailing whitespace and nothing else. */
  function RStrip(s: string): string
  {
    if |s| > 0 && IsSpace(s[|s| - 1]) then RStrip(s[..|s| - 1]) else s
  }

  lemma {:induction false} RStripSpec(s: string)
    ensures var r := RStrip(s);
      && |r| <= |s| && r == s[..|r|]
      && (r == [] || !IsSpace(r[|r| - 1]))
      && forall k :: |r| <= k < |s| ==> IsSpace(s[k])
  {
    if |s| > 0 && IsSpace(s[|s| - 1]) {
      RStripSpec(s[..|s| - 1]);
    }
  }

  /** `s.strip()` with no argument. */
  function Strip(s: string): (r: string)
  {
    RStrip(LStrip(s))
  }

  /** Every character of the stripped text is a character of the text. */
  lemma StripInside(s: string, k: nat)
    requires k < |Strip(s)|
    ensures exists j :: 0 <= j < |s| && s[j] == Strip(s)[k]
  {
    var l := LStrip(s);
    LStripSpec(s);
    RStripSpec(l);
    assert Strip(s)[k] == l[k] == s[|s| - |l| + k];
  }

  /** A string without whitespace is its own strip. */
  lemma StripNoSpace(s: string)
    requires forall k :: 0 <= k < |s| ==> !IsSpace(s[k])
    ensures Strip(s) == s
  {
    LStripSpec(s);
    RStripSpec(s);
  }

  /** A metadata dictionary: field name to value. */
  type Fields = map<string, string>

  /** `s.lower()` restricted to ASCII letters. */
  function LowerChar(c: char): char
  {
    if 'A' <= c <= 'Z' then (c as int + 32) as char else c
  }

  function Lower(s: string): (r: string)
    ensures |r| == |s|
  {
    seq(|s|, i requires 0 <= i < |s| => LowerChar(s[i]))
  }

  /** Lower-casing twice is lower-casing once. */
  lemma LowerIdempotent(s: string)
    ensures Lower(Lower(s)) == Lower(s)
  {
    forall k | 0 <= k < |s| ensures Lower(Lower(s))[k] == Lower(s)[k] {
      var c := s[k];
      assert LowerChar(LowerChar(c)) == LowerChar(c);
    }
  }

  predicate StartsWith(s: string, prefix: string)
  {
    |prefix| <= |s| && s[..|prefix|] == prefix
  }

  predicate EndsWith(s: string, suffix: string)
  {
    |suffix| <= |s| && s[|s| - |suffix|..] == suffix
  }

  /** `s.rfind(c)`: the last index of `c`, or -1. */
  function RFind(s: string, c: char): (r: int)
    ensures -1 <= r < |s|
    ensures r == -1 <==> c !in s
    ensures r >= 0 ==> s[r] == c && forall k :: r < k < |s| ==> s[k] != c
  {
    if |s| == 0 then -1
    else if s[|s| - 1] == c then |s| - 1
    else RFind(s[..|s| - 1], c)
  }

  /**
   * `s.split(sep)` for a one-character separator: the pieces between
   * separators, read one character at a time. There is always one piece more
   * than there are separators.
   */
  function Split(s: string, sep: char): (r: seq<string>)
    ensures |r| >= 1
    decreases |s|
  {
    if s == [] then [""]
    else
      var rest := Split(s[1..], sep);
      if s[0] == sep then [""] + rest
      else [[s[0]] + rest[0]] + rest[1..]
  }

  /** No piece holds the separator. */
  lemma {:induction false} SplitSpec(s: string, sep: char)
    ensures forall k :: 0 <= k < |Split(s, sep)| ==> sep !in Split(s, sep)[k]
    decreases |s|
  {
    if s != [] {
      SplitSpec(s[1..], sep);
      var rest := Split(s[1..], sep);
      if s[0] != sep {
        var r := Split(s, sep);
        forall k | 0 <= k < |r| ensures sep !in r[k] {
          if k == 0 {
            assert r[0] == [s[0]] + rest[0];
          } else {
            assert r[k] == rest[k];
          }
        }
      }
    }
  }

  /** `sep.join(parts)`. */
  function Join(parts: seq<string>, sep: char): string
  {
    if |parts| == 0 then ""
    else if |parts| == 1 then parts[0]
    else parts[0] + [sep] + Join(parts[1..], sep)
  }

  /** Prepending a character to the first piece prepends it to the joined text. */
  lemma JoinConsFirst(c: char, parts: seq<string>, sep: char)
    requires |parts| >= 1
    ensures Join([[c] + parts[0]] + parts[1..], sep) == [c] + Join(parts, sep)
  {
    var q := [[c] + parts[0]] + parts[1..];
    assert q[1..] == parts[1..];
  }

  /** Splitting and re-joining gives the string back. */
  lemma {:induction false} JoinSplit(s: string, sep: char)
    ensures Join(Split(s, sep), sep) == s
    decreases |s|
  {
    if s != [] {
      var rest := Split(s[1..], sep);
      JoinSplit(s[1..], sep);
      if s[0] == sep {
        assert ([""] + rest)[1..] == rest;
        assert s == [sep] + s[1..];
      } else {
        JoinConsFirst(s[0], rest, sep);
        assert s == [s[0]] + s[1..];
      }
    }
  }

  /** Text without the separator glues onto the first piece of what follows it. */
  lemma {:induction false} SplitNoSepPrefix(a: string, b: string, sep: char)
    requires sep !in a
    ensures Split(a + b, sep) == [a + Split(b, sep)[0]] + Split(b, sep)[1..]
    decreases |a|
  {
    if a != [] {
      assert (a + b)[1..] == a[1..] + b;
      assert (a + b)[0] == a[0];
      SplitNoSepPrefix(a[1..], b, sep);
      assert [a[0]] + (a[1..] + Split(b, sep)[0]) == a + Split(b, sep)[0];
    } else {
      assert a + b == b;
      var r := Split(b, sep);
      assert a + r[0] == r[0];
      assert r == [r[0]] + r[1..];
    }
  }

  /** Joining pieces that do not hold the separator and splitting again gives the pieces back. */
  lemma {:induction false} SplitJoin(parts: seq<string>, sep: char)
    requires |parts| >= 1
    requires forall k :: 0 <= k < |parts| ==> sep !in parts[k]
    ensures Split(Join(parts, sep), sep) == parts
  {
    if |parts| == 1 {
      SplitNoSepPrefix(parts[0], "", sep);
      assert parts[0] + "" == parts[0];
    } else {
      var j := Join(parts[1..], sep);
      SplitJoin(parts[1..], sep);
      assert Split([sep] + j, sep) == [""] + parts[1..] by {
        assert ([sep] + j)[1..] == j;
      }
      assert Join(parts, sep) == parts[0] + ([sep] + j);
      SplitNoSepPrefix(parts[0], [sep] + j, sep);
      assert parts[0] + "" == parts[0];
      assert parts == [parts[0]] + parts[1..];
    }
  }

  /** A trailing separator adds one empty piece at the end. */
  lemma {:induction false} SplitTrailingSep(s: string, sep: char)
    ensures Split(s + [sep], sep) == Split(s, sep) + [""]
    decreases |s|
  {
    if s == [] {
      assert [sep][1..] == [];
    } else {
      assert (s + [sep])[1..] == s[1..] + [sep];
      SplitTrailingSep(s[1..], sep);
    }
  }

  /** Index of the first occurrence of `c` (what `split(c, 1)` cuts at). */
  function IndexOf(s: string, c: char): (r: nat)
    requires c in s
    ensures r < |s| && s[r] == c
    ensures forall k :: 0 <= k < r ==> s[k] != c
  {
    if s[0] == c then 0 else 1 + IndexOf(s[1..], c)
  }

  /** The first position holding `c` is what IndexOf finds. */
  lemma IndexOfFirst(s: string, c: char, i: nat)
    requires i < |s| && s[i] == c
    requires forall k :: 0 <= k < i ==> s[k] != c
    ensures IndexOf(s, c) == i
  {
  }

  // ---------------------------------------------------------------------
  // Decimal integers: `int(text)` and `str(n)`.
  // ---------------------------------------------------------------------

  predicate IsDigit(c: char)
  {
    '0' <= c <= '9'
  }

  predicate AllDigits(s: string)
  {
    forall k :: 0 <= k < |s| ==> IsDigit(s[k])
  }

  /** The value of a string of decimal digits. */
  function DigitsValue(s: string): nat
    requires AllDigits(s)
  {
    if |s| == 0 then 0
    else 10 * DigitsValue(s[..|s| - 1]) + (s[|s| - 1] as int - '0' as int)
  }

  /** `str(n)` for a natural number: shortest decimal form, no leading zero. */
  function NatToString(n: nat): (r: string)
    ensures |r| >= 1 && AllDigits(r)
    ensures |r| > 1 ==> r[0] != '0'
  {
    if n < 10 then [('0' as int + n) as char]
    else NatToString(n / 10) + [('0' as int + n % 10) as char]
  }

  /** `str(i)` for any integer. */
  function IntToString(i: int): string
  {
    if i < 0 then "-" + NatToString(-i) else NatToString(i)
  }

  /**
   * The whitespace `int()` skips around the digits: every `str.isspace`
   * character except the ASCII separators U+001C..U+001F, which `int()`
   * rejects although `str.strip()` removes them.
   */
  predicate IsIntSpace(c: char)
  {
    IsSpace(c) && !('\U{001C}' <= c <= '\U{001F}')
  }

  /** Drops leading `int()` whitespace. */
  function LTrimInt(s: string): string
  {
    if |s| > 0 && IsIntSpace(s[0]) then LTrimInt(s[1..]) else s
  }

  lemma {:induction false} LTrimIntSpec(s: string)
    ensures var r := LTrimInt(s);
      && |r| <= |s| && r == s[|s| - |r|..]
      && (r == [] || !IsIntSpace(r[0]))
      && forall k :: 0 <= k < |s| - |r| ==> IsIntSpace(s[k])
  {
    if |s| > 0 && IsIntSpace(s[0]) {
      LTrimIntSpec(s[1..]);
    }
  }

  /** Drops trailing `int()` whitespace. */
  function RTrimInt(s: string): string
  {
    if |s| > 0 && IsIntSpace(s[|s| - 1]) then RTrimInt(s[..|s| - 1]) else s
  }

  lemma {:induction false} RTrimIntSpec(s: string)
    ensures var r := RTrimInt(s);
      && |r| <= |s| && r == s[..|r|]
      && (r == [] || !IsIntSpace(r[|r| - 1]))
      && forall k :: |r| <= k < |s| ==> IsIntSpace(s[k])
  {
    if |s| > 0 && IsIntSpace(s[|s| - 1]) {
      RTrimIntSpec(s[..|s| - 1]);
    }
  }

  /**
   * Python's default limit on the digits of an int/str conversion
   * (`sys.get_int_max_str_digits()`): `int()` raises ValueError for more
   * digits than this, leading zeros included, and `str(n)` raises it for
   * `abs(n) >= 10 ** 4300`.
   */
  const MaxStrDigits: nat := 4300

  /**
   * `int(text)` for base-10 text: surrounding whitespace, an optional sign,
   * then one to MaxStrDigits ASCII digits. Anything else is the ValueError case.
   */
  function ParseInt(text: string): Option<int>
  {
    ParseSignedDigits(RTrimInt(LTrimInt(text)))
  }

  /** An optional sign followed by one or more ASCII digits, and nothing else. */
  function ParseSignedDigits(t: string): Option<int>
  {
    if |t| > 1 && (t[0] == '-' || t[0] == '+') && AllDigits(t[1..]) then
      if |t| - 1 > MaxStrDigits then None
      else
        var v: int := DigitsValue(t[1..]);
        Some(if t[0] == '-' then -v else v)
    else if |t| > 0 && AllDigits(t) then
      if |t| > MaxStrDigits then None else Some(DigitsValue(t))
    else
      None
  }

  lemma {:induction false} DigitsValueOfNatToString(n: nat)
    ensures DigitsValue(NatToString(n)) == n
  {
    var s := NatToString(n);
    if n >= 10 {
      DigitsValueOfNatToString(n / 10);
      assert s[..|s| - 1] == NatToString(n / 10);
    }
  }

  /** Text made of up to MaxStrDigits digits parses to its value. */
  lemma ParseIntOfDigits(d: string)
    requires 1 <= |d| <= MaxStrDigits && AllDigits(d)
    ensures ParseInt(d) == Some(DigitsValue(d) as int)
  {
    TrimIntNoop(d);
  }

  /** A minus sign followed by up to MaxStrDigits digits parses to the negated value. */
  lemma ParseIntOfNegativeDigits(d: string)
    requires 1 <= |d| <= MaxStrDigits && AllDigits(d)
    ensures ParseInt("-" + d) == Some(-(DigitsValue(d) as int))
  {
    SignedTrimNoop('-', d);
    NegativeDigitsValue(d);
    assert "-" + d == ['-'] + d;
  }

  lemma NegativeDigitsValue(d: string)
    requires 1 <= |d| <= MaxStrDigits && AllDigits(d)
    ensures ParseSignedDigits(['-'] + d) == Some(-(DigitsValue(d) as int))
  {
    var s := ['-'] + d;
    assert s[0] == '-' && s[1..] == d;
  }

  lemma LastOfAppend(a: string, d: string)
    requires d != []
    ensures (a + d)[|a + d| - 1] == d[|d| - 1]
  {
  }

  /** Digits are not `int()` whitespace, so a run of digits is not trimmed. */
  lemma TrimIntNoop(d: string)
    requires |d| >= 1 && AllDigits(d)
    ensures RTrimInt(LTrimInt(d)) == d
  {
    assert IsDigit(d[0]);
    assert LTrimInt(d) == d;
    assert IsDigit(d[|d| - 1]);
  }

  /** A sign followed by digits is not trimmed either. */
  lemma SignedTrimNoop(c: char, d: string)
    requires c == '-' || c == '+'
    requires |d| >= 1 && AllDigits(d)
    ensures RTrimInt(LTrimInt([c] + d)) == [c] + d
  {
    var s := [c] + d;
    LastOfAppend([c], d);
    assert IsDigit(s[|s| - 1]);
    assert LTrimInt(s) == s;
  }

  /**
   * `int(str(i)) == i` for every integer `str` can format, that is, with at
   * most MaxStrDigits digits.
   */
  lemma IntToStringRoundTrip(i: int)
    requires |NatToString(if i < 0 then -i else i)| <= MaxStrDigits
    ensures ParseInt(IntToString(i)) == Some(i)
  {
    var n: nat := if i < 0 then -i else i;
    var d := NatToString(n);
    DigitsValueOfNatToString(n);
    if i < 0 {
      ParseIntOfNegativeDigits(d);
    } else {
      ParseIntOfDigits(d);
    }
  }

  /** More than MaxStrDigits digits, signed or not, make `int()` raise. */
  lemma ParseIntRejectsLongDigits(d: string)
    requires |d| > MaxStrDigits && AllDigits(d)
    ensures ParseInt(d) == None && ParseInt("-" + d) == None
  {
    TrimIntNoop(d);
    var s := ['-'] + d;
    SignedTrimNoop('-', d);
    assert s[1..] == d;
    assert "-" + d == s;
  }

  function Pow10(k: nat): (r: nat)
    ensures r >= 1
  {
    if k == 0 then 1 else 10 * Pow10(k - 1)
  }

  /** A number below `10 ** k` prints in at most `k` digits. */
  lemma {:induction false} NatToStringLength(n: nat, k: nat)
    requires 1 <= k && n < Pow10(k)
    ensures |NatToString(n)| <= k
  {
    if n >= 10 {
      NatToStringLength(n / 10, k - 1);
    }
  }

  /** The value of a digit string needs no more digits than the string has. */
  lemma {:induction false} DigitsValueLength(d: string)
    requires |d| >= 1 && AllDigits(d)
    ensures |NatToString(DigitsValue(d))| <= |d|
  {
    if |d| > 1 {
      var init := d[..|d| - 1];
      assert AllDigits(init) by {
        forall k | 0 <= k < |init| ensures IsDigit(init[k]) { assert init[k] == d[k]; }
      }
      DigitsValueLength(init);
      var v := DigitsValue(init);
      var x := DigitsValue(d);
      assert x == 10 * v + (d[|d| - 1] as int - '0' as int);
      if x >= 10 {
        assert x / 10 == v;
      }
    }
  }

  /** Whatever `int()` returns, `str()` can format again. */
  lemma ParseIntFits(text: string)
    ensures match ParseInt(text)
      case Some(n) => |NatToString(if n < 0 then -n else n)| <= MaxStrDigits
      case None => true
  {
    var t := RTrimInt(LTrimInt(text));
    if |t| > 1 && (t[0] == '-' || t[0] == '+') && AllDigits(t[1..]) {
      if |t| - 1 <= MaxStrDigits {
        DigitsValueLength(t[1..]);
      }
    } else if |t| > 0 && AllDigits(t) {
      if |t| <= MaxStrDigits {
        DigitsValueLength(t);
      }
    }
  }

  /** `int()` skips a leading space. */
  lemma ParseIntSkipsSpace(t: string)
    ensures ParseInt(" " + t) == ParseInt(t)
  {
    assert (" " + t)[1..] == t;
  }

  /** `int()` rejects text that starts with one of the separators U+001C..U+001F. */
  lemma ParseIntRejectsSeparator(c: char, t: string)
    requires '\U{001C}' <= c <= '\U{001F}'
    ensures ParseInt([c] + t) == None
  {
    var s := [c] + t;
    assert !IsIntSpace(s[0]);
    assert LTrimInt(s) == s;
    var r := RTrimInt(s);
    RTrimIntSpec(s);
    assert r == [] || r[0] == c;
    NoSignNoDigit(r);
  }

  /** Text that does not start with a sign or a digit is no integer. */
  lemma NoSignNoDigit(t: string)
    requires t == [] || (t[0] != '-' && t[0] != '+' && !IsDigit(t[0]))
    ensures ParseSignedDigits(t) == None
  {
  }
}
