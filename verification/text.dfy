/**
 * Character classes and the PHP string built-ins the helpers rely on
 * (`strtolower`, `implode`, `explode`, `substr`, `trim`, integer-to-string
 * conversion), stated over `string = seq<char>`.
 *
 * Case conversion and the PCRE classes are the ASCII ones: PCRE without the
 * `u` modifier matches `[A-Z]`, `[[:upper:]]`, `\d`, `\w` and `\s` on ASCII only.
 */
module Text {
  import opened Wrappers

  predicate IsUpper(c: char) { 'A' <= c <= 'Z' }
  predicate IsLower(c: char) { 'a' <= c <= 'z' }
  predicate IsDigit(c: char) { '0' <= c <= '9' }
  predicate IsAlpha(c: char) { IsUpper(c) || IsLower(c) }
  predicate IsAlnum(c: char) { IsAlpha(c) || IsDigit(c) }

  /** Every character is a decimal digit (the empty string included). */
  predicate AllDigits(t: string)
  {
    forall k :: 0 <= k < |t| ==> IsDigit(t[k])
  }

  /** PCRE `\w`; `\W` is its complement. */
  predicate IsWordChar(c: char) { IsAlnum(c) || c == '_' }

  /** PCRE `\s`: space, tab, line feed, vertical tab, form feed, carriage return. */
  predicate IsSpace(c: char)
  {
    c == ' ' || c == '\t' || c == '\n' || c == '\U{000B}' || c == '\U{000C}' || c == '\r'
  }

  /** The characters `trim` strips when given no character list. */
  const PhpTrimChars: set<char> := {' ', '\t', '\n', '\r', '\0', '\U{000B}'}

  function LowerChar(c: char): (r: char)
    ensures !IsUpper(r)
  {
    if IsUpper(c) then (c as int + 32) as char else c
  }

  function UpperChar(c: char): (r: char)
    ensures !IsLower(r)
  {
    if IsLower(c) then (c as int - 32) as char else c
  }

  /** `strtolower` / `mb_strtolower` on ASCII letters. */
  function Lower(s: string): (r: string)
    ensures |r| == |s|
    ensures forall i :: 0 <= i < |s| ==> r[i] == LowerChar(s[i])
  {
    seq(|s|, i requires 0 <= i < |s| => LowerChar(s[i]))
  }

  /** `strtoupper` / `mb_strtoupper` on ASCII letters. */
  function Upper(s: string): (r: string)
    ensures |r| == |s|
    ensures forall i :: 0 <= i < |s| ==> r[i] == UpperChar(s[i])
  {
    seq(|s|, i requires 0 <= i < |s| => UpperChar(s[i]))
  }

  lemma LowerConcat(a: string, b: string)
    ensures Lower(a + b) == Lower(a) + Lower(b)
  {
  }

  predicate HasNoUpper(s: string) { forall i :: 0 <= i < |s| ==> !IsUpper(s[i]) }

  predicate StartsWith(s: string, p: string) { |p| <= |s| && s[..|p|] == p }

  predicate EndsWith(s: string, p: string) { |p| <= |s| && s[|s| - |p|..] == p }

  /** `p` occurs in `s` at position `i`. */
  predicate OccursAt(s: string, p: string, i: int)
  {
    0 <= i && i + |p| <= |s| && s[i..i + |p|] == p
  }

  lemma OccursAtChar(s: string, p: string, i: int, k: int)
    requires OccursAt(s, p, i)
    requires 0 <= k < |p|
    ensures s[i + k] == p[k]
  {
    assert s[i..i + |p|][k] == s[i + k];
  }

  /**
   * The part of a subject a regex ending in `$` must match: PCRE's `$`
   * (without the D modifier) also matches before one final line feed. Every
   * pattern of this kind in the helpers ends in a token that cannot match a
   * line feed, so the match ends exactly where this body ends.
   */
  function DollarBody(s: string): (r: string)
    ensures r == s || (|s| > 0 && s[|s| - 1] == '\n' && r == s[..|s| - 1])
  {
    if |s| > 0 && s[|s| - 1] == '\n' then s[..|s| - 1] else s
  }

  predicate NoLineFeed(s: string) { '\n' !in s }

  /** `implode(sep, parts)`. */
  function Join(sep: string, parts: seq<string>): string
  {
    if |parts| == 0 then ""
    else if |parts| == 1 then parts[0]
    else parts[0] + sep + Join(sep, parts[1..])
  }

  lemma JoinAppend(sep: string, parts: seq<string>, p: string)
    requires |parts| > 0
    ensures Join(sep, parts + [p]) == Join(sep, parts) + sep + p
  {
    if |parts| == 1 {
      assert parts + [p] == [parts[0], p];
    } else {
      assert (parts + [p])[1..] == parts[1..] + [p];
      JoinAppend(sep, parts[1..], p);
    }
  }

  /** `implode('', parts)`. */
  function Concat(parts: seq<string>): string
  {
    if |parts| == 0 then "" else parts[0] + Concat(parts[1..])
  }

  lemma {:induction false} ConcatAppend(parts: seq<string>, p: string)
    ensures Concat(parts + [p]) == Concat(parts) + p
  {
    if |parts| > 0 {
      assert (parts + [p])[1..] == parts[1..] + [p];
      ConcatAppend(parts[1..], p);
    } else {
      assert parts + [p] == [p];
    }
  }

  /** `ucfirst`. */
  function UcFirst(s: string): (r: string)
    ensures |r| == |s|
  {
    if |s| == 0 then "" else [UpperChar(s[0])] + s[1..]
  }

  /** `array_map('strtolower', parts)`. */
  function LowerAll(parts: seq<string>): (r: seq<string>)
    ensures |r| == |parts|
    ensures forall i :: 0 <= i < |parts| ==> r[i] == Lower(parts[i])
  {
    seq(|parts|, i requires 0 <= i < |parts| => Lower(parts[i]))
  }

  /** `array_map('ucfirst', parts)`. */
  function UcFirstAll(parts: seq<string>): (r: seq<string>)
    ensures |r| == |parts|
    ensures forall i :: 0 <= i < |parts| ==> r[i] == UcFirst(parts[i])
  {
    seq(|parts|, i requires 0 <= i < |parts| => UcFirst(parts[i]))
  }

  /** Lower-casing a join is joining the lower-cased pieces. */
  lemma {:induction false} LowerJoin(sep: string, parts: seq<string>)
    ensures Lower(Join(sep, parts)) == Join(Lower(sep), LowerAll(parts))
  {
    if |parts| > 1 {
      LowerJoin(sep, parts[1..]);
      assert LowerAll(parts)[1..] == LowerAll(parts[1..]);
      LowerConcat(parts[0] + sep, Join(sep, parts[1..]));
      LowerConcat(parts[0], sep);
    }
  }

  /** `explode(d, s)` for a one-character delimiter. */
  function Explode(d: char, s: string): (r: seq<string>)
    ensures |r| >= 1
    ensures forall i :: 0 <= i < |r| ==> d !in r[i]
  {
    if |s| == 0 then [""]
    else
      var rest := Explode(d, s[1..]);
      if s[0] == d then [""] + rest
      else [[s[0]] + rest[0]] + rest[1..]
  }

  /** Joining the pieces of `explode` with the delimiter gives the subject back. */
  lemma {:induction false} JoinExplode(d: char, s: string)
    ensures Join([d], Explode(d, s)) == s
  {
    if |s| > 0 {
      var rest := Explode(d, s[1..]);
      JoinExplode(d, s[1..]);
      if s[0] == d {
        assert Explode(d, s) == [""] + rest;
        assert ([""] + rest)[1..] == rest;
      } else {
        var r := [[s[0]] + rest[0]] + rest[1..];
        assert Explode(d, s) == r;
        if |rest| == 1 {
          assert s == [s[0]] + s[1..];
        } else {
          assert r[1..] == rest[1..];
          assert Join([d], rest) == rest[0] + [d] + Join([d], rest[1..]);
          assert s == [s[0]] + s[1..];
        }
      }
    }
  }

  /** Exploding a join of delimiter-free pieces gives the pieces back. */
  lemma {:induction false} ExplodeJoin(d: char, parts: seq<string>)
    requires |parts| >= 1
    requires forall i :: 0 <= i < |parts| ==> d !in parts[i]
    ensures Explode(d, Join([d], parts)) == parts
  {
    if |parts| == 1 {
      ExplodeFree(d, parts[0]);
    } else {
      ExplodeJoin(d, parts[1..]);
      ExplodeGlue(d, parts[0], Join([d], parts[1..]));
      assert [parts[0]] + parts[1..] == parts;
    }
  }

  lemma {:induction false} ExplodeFree(d: char, s: string)
    requires d !in s
    ensures Explode(d, s) == [s]
  {
    if |s| > 0 {
      ExplodeFree(d, s[1..]);
      assert [s[0]] + s[1..] == s;
    }
  }

  lemma {:induction false} ExplodeGlue(d: char, p: string, rest: string)
    requires d !in p
    ensures Explode(d, p + [d] + rest) == [p] + Explode(d, rest)
  {
    if |p| == 0 {
      assert p + [d] + rest == [d] + rest;
      assert ([d] + rest)[1..] == rest;
    } else {
      assert (p + [d] + rest)[1..] == p[1..] + [d] + rest;
      ExplodeGlue(d, p[1..], rest);
      assert [p[0]] + p[1..] == p;
    }
  }

  /**
   * `substr(s, start, length)` / `mb_substr` as PHP 8 defines it: a negative
   * start counts from the end (clamped to 0), a start past the end gives `""`,
   * a negative length leaves out that many characters at the end.
   */
  function Substr(s: string, start: int, length: Option<int>): (r: string)
    ensures |r| <= |s|
    ensures forall i :: 0 <= i < |r| ==> r[i] in s
  {
    var f := if start < 0 then (if -start > |s| then 0 else |s| + start) else start;
    if f > |s| then ""
    else
      match length
      case None => s[f..]
      case Some(l) =>
        if l < 0 then (if -l > |s| - f then "" else s[f..|s| + l])
        else if l > |s| - f then s[f..]
        else s[f..f + l]
  }

  lemma SubstrPrefix(s: string, n: nat)
    ensures Substr(s, 0, Some(n)) == if n <= |s| then s[..n] else s
  {
  }

  function TrimLeft(s: string, cs: set<char>): (r: string)
    ensures |r| <= |s| && r == s[|s| - |r|..]
    ensures |r| > 0 ==> r[0] !in cs
    ensures forall i :: 0 <= i < |s| - |r| ==> s[i] in cs
  {
    if |s| > 0 && s[0] in cs then TrimLeft(s[1..], cs) else s
  }

  function TrimRight(s: string, cs: set<char>): (r: string)
    ensures |r| <= |s| && r == s[..|r|]
    ensures |r| > 0 ==> r[|r| - 1] !in cs
    ensures forall i :: |r| <= i < |s| ==> s[i] in cs
  {
    if |s| > 0 && s[|s| - 1] in cs then TrimRight(s[..|s| - 1], cs) else s
  }

  /** `trim(s, charlist)` for a character list without `..` ranges. */
  function Trim(s: string, cs: set<char>): string
  {
    TrimRight(TrimLeft(s, cs), cs)
  }

  lemma TrimFree(s: string, cs: set<char>)
    requires |s| > 0 ==> s[0] !in cs && s[|s| - 1] !in cs
    ensures Trim(s, cs) == s
  {
  }

  function DigitChar(d: nat): char
    requires d < 10
  {
    ('0' as int + d) as char
  }

  /** The decimal digits of `n`, most significant first, as `(string)$n`. */
  function NatToDecimal(n: nat): (r: string)
    ensures |r| >= 1
    ensures forall i :: 0 <= i < |r| ==> IsDigit(r[i])
    ensures |r| == 1 <==> n < 10
    ensures r[0] == '0' <==> n == 0
  {
    if n < 10 then [DigitChar(n)] else NatToDecimal(n / 10) + [DigitChar(n % 10)]
  }

  /** `(string)$i` for an integer. */
  function IntToDecimal(i: int): (r: string)
    ensures |r| >= 1
  {
    if i < 0 then "-" + NatToDecimal(-i) else NatToDecimal(i)
  }

  /** The value of a string of decimal digits. */
  function DecimalValue(s: string): nat
    requires forall i :: 0 <= i < |s| ==> IsDigit(s[i])
  {
    if |s| == 0 then 0
    else
      assert IsDigit(s[|s| - 1]);
      DecimalValue(s[..|s| - 1]) * 10 + (s[|s| - 1] as int - '0' as int)
  }

  lemma {:induction false} DecimalRoundTrip(n: nat)
    ensures DecimalValue(NatToDecimal(n)) == n
  {
    if n >= 10 {
      var s := NatToDecimal(n);
      assert s[..|s| - 1] == NatToDecimal(n / 10);
      DecimalRoundTrip(n / 10);
    }
  }

  /** `str_repeat(c, n)`. */
  function Repeat(c: char, n: nat): (r: string)
    ensures |r| == n
    ensures forall i :: 0 <= i < n ==> r[i] == c
  {
    if n == 0 then "" else [c] + Repeat(c, n - 1)
  }
}
