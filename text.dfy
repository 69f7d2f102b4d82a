/**
 * The java.lang.String operations the dispatcher relies on: `isBlank`,
 * `trim`, `toUpperCase` and the decimal rendering of a `long` in string
 * concatenation.
 */
module Text {

  /** `Character.isWhitespace`: the Unicode space, line and paragraph
      separators except the no-break spaces, plus U+0009..U+000D and
      U+001C..U+001F. */
  predicate IsWhitespace(c: char)
  {
    || c == ' '
    || ('\t' <= c <= '\r')
    || ('\U{1C}' <= c <= '\U{1F}')
    || c == '\U{1680}'
    || ('\U{2000}' <= c <= '\U{2006}')
    || ('\U{2008}' <= c <= '\U{200A}')
    || c == '\U{2028}' || c == '\U{2029}'
    || c == '\U{205F}' || c == '\U{3000}'
  }

  /** `String.isBlank`: empty or whitespace only. */
  predicate IsBlank(s: string)
    ensures !IsBlank(s) <==> exists i :: 0 <= i < |s| && !IsWhitespace(s[i])
  {
    forall i :: 0 <= i < |s| ==> IsWhitespace(s[i])
  }

  /** The characters `String.trim` strips: code points up to U+0020. */
  predicate IsTrimmable(c: char)
  {
    c <= ' '
  }

  predicate AllTrimmable(s: string)
  {
    forall i :: 0 <= i < |s| ==> IsTrimmable(s[i])
  }

  /** `trim`'s left half: the suffix left after dropping leading trimmable characters. */
  function TrimStart(s: string): (r: string)
    ensures |r| <= |s| && r == s[|s| - |r|..]
    ensures AllTrimmable(s[..|s| - |r|])
    ensures r != [] ==> !IsTrimmable(r[0])
    decreases |s|
  {
    if s != [] && IsTrimmable(s[0]) then TrimStart(s[1..]) else s
  }

  /** `trim`'s right half: the prefix left after dropping trailing trimmable characters. */
  function TrimEnd(s: string): (r: string)
    ensures |r| <= |s| && r == s[..|r|]
    ensures AllTrimmable(s[|r|..])
    ensures r != [] ==> !IsTrimmable(r[|r| - 1])
    decreases |s|
  {
    if s != [] && IsTrimmable(s[|s| - 1]) then
      var r := TrimEnd(s[..|s| - 1]);
      assert s[|r|..] == s[..|s| - 1][|r|..] + [s[|s| - 1]];
      r
    else s
  }

  /** `String.trim`: the part of `s` between its leading and its trailing run of trimmable characters. */
  function Trim(s: string): (r: string)
    ensures |r| <= |s|
    ensures r != [] ==> !IsTrimmable(r[0]) && !IsTrimmable(r[|r| - 1])
  {
    TrimEnd(TrimStart(s))
  }

  /**
   * What `trim` keeps: a slice of `s` with only trimmable characters before
   * and after it (with the endpoints in Trim's contract, the longest such).
   */
  lemma TrimContents(s: string)
    ensures exists i, j :: 0 <= i <= j <= |s| && Trim(s) == s[i..j] && AllTrimmable(s[..i]) && AllTrimmable(s[j..])
  {
    var rest := TrimStart(s);
    PrefixOfSuffix(s, |s| - |rest|, rest, TrimEnd(rest));
  }

  /** `trim` leaves nothing exactly when every character is trimmable. */
  lemma TrimEmpty(s: string)
    ensures Trim(s) == [] <==> AllTrimmable(s)
  {
    TrimContents(s);
    var i, j :| 0 <= i <= j <= |s| && Trim(s) == s[i..j] && AllTrimmable(s[..i]) && AllTrimmable(s[j..]);
    if Trim(s) == [] {
      forall k | 0 <= k < |s| ensures IsTrimmable(s[k]) {
        if k < i {
          assert s[k] == s[..i][k];
        } else {
          assert s[k] == s[j..][k - j];
        }
      }
    }
  }

  /** A prefix of a suffix of `s`, with trimmable characters before and after it, is a slice of `s` between two trimmable runs. */
  lemma PrefixOfSuffix(s: string, i: int, rest: string, r: string)
    requires 0 <= i <= |s| && rest == s[i..] && AllTrimmable(s[..i])
    requires |r| <= |rest| && r == rest[..|r|] && AllTrimmable(rest[|r|..])
    ensures exists a, b :: 0 <= a <= b <= |s| && r == s[a..b] && AllTrimmable(s[..a]) && AllTrimmable(s[b..])
  {
    assert rest[..|r|] == s[i..i + |r|];
    assert rest[|r|..] == s[i + |r|..];
  }

  /**
   * `Character`-level upper-case mapping used by `String.toUpperCase` (the
   * default locale, taken to be one without the Turkish, Azeri or Lithuanian
   * rules), restricted to the characters whose upper case is plain ASCII:
   * a..z, the dotless i, the long s, the sharp s and the Latin ligatures
   * U+FB00..U+FB06. Every other character is kept as it is.
   */
  function UpperOf(c: char): string
  {
    if 'a' <= c <= 'z' then [(c as int - 32) as char]
    else if c == '\U{DF}' then "SS"
    else if c == '\U{131}' then "I"
    else if c == '\U{17F}' then "S"
    else if c == '\U{FB00}' then "FF"
    else if c == '\U{FB01}' then "FI"
    else if c == '\U{FB02}' then "FL"
    else if c == '\U{FB03}' then "FFI"
    else if c == '\U{FB04}' then "FFL"
    else if c == '\U{FB05}' || c == '\U{FB06}' then "ST"
    else [c]
  }

  /** `String.toUpperCase`. */
  function ToUpper(s: string): (r: string)
    ensures |r| >= |s|
    decreases |s|
  {
    if s == [] then [] else UpperOf(s[0]) + ToUpper(s[1..])
  }

  /** The ASCII lower-case partner of an upper-case letter. */
  function LowerOf(c: char): char
  {
    if 'A' <= c <= 'Z' then (c as int + 32) as char else c
  }

  predicate IsUpperAscii(s: string)
  {
    forall i :: 0 <= i < |s| ==> 'A' <= s[i] <= 'Z'
  }

  /** w spells `name` with any mix of upper and lower case. */
  predicate IsCaseVariant(w: string, name: string)
  {
    |w| == |name| && forall i :: 0 <= i < |w| ==> w[i] == name[i] || w[i] == LowerOf(name[i])
  }

  /** `toUpperCase` works character by character, so it distributes over concatenation. */
  lemma {:induction false} ToUpperAppend(a: string, b: string)
    ensures ToUpper(a + b) == ToUpper(a) + ToUpper(b)
    decreases |a|
  {
    if a == [] {
      assert a + b == b;
    } else {
      assert (a + b)[0] == a[0];
      assert (a + b)[1..] == a[1..] + b;
      ToUpperAppend(a[1..], b);
    }
  }

  /** Where no character expands (as U+00DF expands to "SS"), upper-casing maps the text character by character. */
  lemma {:induction false} ToUpperPerChar(s: string)
    requires forall i :: 0 <= i < |s| ==> |UpperOf(s[i])| == 1
    ensures |ToUpper(s)| == |s|
    ensures forall i :: 0 <= i < |s| ==> ToUpper(s)[i] == UpperOf(s[i])[0]
    decreases |s|
  {
    if s != [] {
      assert forall i :: 0 <= i < |s[1..]| ==> |UpperOf(s[1..][i])| == 1 by {
        forall i | 0 <= i < |s[1..]| ensures |UpperOf(s[1..][i])| == 1 {
          assert s[1..][i] == s[i + 1];
        }
      }
      ToUpperPerChar(s[1..]);
      forall i | 0 <= i < |s| ensures ToUpper(s)[i] == UpperOf(s[i])[0] {
        if i > 0 {
          assert ToUpper(s)[i] == ToUpper(s[1..])[i - 1];
          assert s[1..][i - 1] == s[i];
        }
      }
    }
  }

  /** Characters up to U+0020 have no upper case. */
  lemma {:induction false} ToUpperKeepsTrimmable(s: string)
    requires AllTrimmable(s)
    ensures ToUpper(s) == s
    decreases |s|
  {
    if s != [] {
      assert IsTrimmable(s[0]);
      ToUpperKeepsTrimmable(s[1..]);
    }
  }

  /** Any case variant of an upper-case ASCII word upper-cases to that word. */
  lemma {:induction false} ToUpperOfCaseVariant(w: string, name: string)
    requires IsUpperAscii(name) && IsCaseVariant(w, name)
    ensures ToUpper(w) == name
    decreases |w|
  {
    if w != [] {
      assert 'A' <= name[0] <= 'Z';
      assert UpperOf(w[0]) == [name[0]];
      assert IsUpperAscii(name[1..]);
      assert IsCaseVariant(w[1..], name[1..]) by {
        forall i | 0 <= i < |w[1..]|
          ensures w[1..][i] == name[1..][i] || w[1..][i] == LowerOf(name[1..][i])
        {
          assert w[1..][i] == w[i + 1] && name[1..][i] == name[i + 1];
        }
      }
      ToUpperOfCaseVariant(w[1..], name[1..]);
      assert name == [name[0]] + name[1..];
    }
  }

  /** `trim` removes exactly the padding around a word that starts and ends with a visible character. */
  lemma {:induction false} TrimPadded(pre: string, x: string, post: string)
    requires AllTrimmable(pre) && AllTrimmable(post)
    requires x != [] && !IsTrimmable(x[0]) && !IsTrimmable(x[|x| - 1])
    ensures Trim(pre + x + post) == x
  {
    var y := x + post;
    assert pre + x + post == pre + y;
    assert y[0] == x[0];
    TrimStartPadded(pre, y);
    TrimEndPadded(x, post);
  }

  lemma {:induction false} TrimStartPadded(pre: string, y: string)
    requires AllTrimmable(pre)
    requires y != [] && !IsTrimmable(y[0])
    ensures TrimStart(pre + y) == y
    decreases |pre|
  {
    if pre == [] {
      assert pre + y == y;
    } else {
      assert (pre + y)[0] == pre[0];
      assert (pre + y)[1..] == pre[1..] + y;
      TrimStartPadded(pre[1..], y);
    }
  }

  lemma {:induction false} TrimEndPadded(x: string, post: string)
    requires AllTrimmable(post)
    requires x != [] && !IsTrimmable(x[|x| - 1])
    ensures TrimEnd(x + post) == x
    decreases |post|
  {
    if post == [] {
      assert x + post == x;
    } else {
      var s := x + post;
      assert s[|s| - 1] == post[|post| - 1];
      assert s[..|s| - 1] == x + post[..|post| - 1];
      TrimEndPadded(x, post[..|post| - 1]);
    }
  }

  function DigitChar(d: int): char
    requires 0 <= d <= 9
  {
    ('0' as int + d) as char
  }

  /** True when every character is a decimal digit. */
  predicate AllDigits(s: string)
  {
    forall i :: 0 <= i < |s| ==> '0' <= s[i] <= '9'
  }

  /** The number a run of decimal digits spells, most significant first. */
  function DigitsValue(s: string): nat
    requires AllDigits(s)
    decreases |s|
  {
    if s == [] then 0
    else DigitsValue(s[..|s| - 1]) * 10 + (s[|s| - 1] as int - '0' as int)
  }

  /** The decimal digits of a natural number, most significant first, without leading zeros. */
  function NatText(n: nat): (r: string)
    ensures |r| >= 1 && AllDigits(r)
    ensures (n == 0) == (r == "0")
    ensures |r| > 1 ==> r[0] != '0'
    ensures DigitsValue(r) == n
    decreases n
  {
    if n < 10 then
      [DigitChar(n)]
    else
      var r := NatText(n / 10) + [DigitChar(n % 10)];
      assert r[..|r| - 1] == NatText(n / 10);
      r
  }

  /** How Java renders a `long` in string concatenation. */
  function DecimalText(n: int): (r: string)
    ensures n >= 0 ==> |r| >= 1 && AllDigits(r) && DigitsValue(r) == n
    ensures n < 0 ==> |r| >= 2 && r[0] == '-' && AllDigits(r[1..]) && DigitsValue(r[1..]) == -n
    ensures |r| > 1 && r[0] != '-' ==> r[0] != '0'
    ensures n < 0 && |r| > 2 ==> r[1] != '0'
  {
    if n < 0 then
      assert ("-" + NatText(-n))[1..] == NatText(-n);
      "-" + NatText(-n)
    else NatText(n)
  }
}
