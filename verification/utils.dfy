/**
 * The string and number formatters of the general utility class: Russian
 * plural forms, positional numerals over an arbitrary alphabet, URL
 * absolutisation, word masking, initials, the `rgb()` contrast colour,
 * the version-4 UUID layout and line splitting.
 *
 * The random draws of the UUID generator are parameters. Multibyte string
 * functions are modelled on characters, and their case mappings on ASCII.
 */
module Utils {
  import opened Wrappers
  import opened Text

  // ---------------------------------------------------------------------
  // PHP integer arithmetic

  /** PHP `%`: the remainder takes the sign of the dividend. */
  function PhpRem(a: int, b: int): (r: int)
    requires b > 0
    ensures a >= 0 ==> r == a % b
    ensures -b < r < b
    ensures a < 0 ==> r <= 0
  {
    if a >= 0 then a % b else -((-a) % b)
  }

  // ---------------------------------------------------------------------
  // pluralForm

  /** The forms the index table `[2, 0, 1, 1, 1, 2]` assigns to the last digits 0..5. */
  const PluralTable: seq<nat> := [2, 0, 1, 1, 1, 2]

  /**
   * The title index `pluralForm` picks. A negative number not divisible by
   * ten has a negative last digit, which is not a key of the table: PHP reads
   * `null` (with a warning) and `$titles[null]` is missing too.
   */
  function PluralIndex(n: int): (r: Option<nat>)
    ensures r.Some? ==> r.value <= 2
    ensures r.None? <==> n < 0 && n % 10 != 0
  {
    var r100 := PhpRem(n, 100);
    if r100 > 4 && r100 < 20 then Some(2)
    else
      var k := if PhpRem(n, 10) < 5 then PhpRem(n, 10) else 5;
      if k < 0 then None else Some(PluralTable[k])
  }

  /** `$titles[$i]` in a string context: `''` (with a warning) for a missing key. */
  function Title(titles: seq<string>, i: nat): string
  {
    if i < |titles| then titles[i] else ""
  }

  /** `pluralForm`: the number, a space and the chosen title (`''` where PHP finds none). */
  function PluralForm(n: int, titles: seq<string>): (r: string)
    ensures n >= 0 && |titles| >= 3 ==> r == NatToDecimal(n) + " " + titles[PluralIndex(n).value]
    ensures n >= 0 && PluralIndex(n).value >= |titles| ==> r == NatToDecimal(n) + " "
    ensures n < 0 ==> r == "-" + NatToDecimal(-n) + " " + (if n % 10 == 0 && |titles| >= 3 then titles[2] else "")
  {
    IntToDecimal(n) + " " + (match PluralIndex(n) case Some(i) => Title(titles, i) case None => "")
  }

  /**
   * The rule of Russian grammar the table encodes: the singular after a last
   * digit 1 except in 11, the paucal after 2..4 except in 12..14, and the
   * plural of the genitive otherwise.
   */
  lemma PluralRussianRule(n: nat)
    ensures n % 10 == 1 && n % 100 != 11 ==> PluralIndex(n) == Some(0)
    ensures 2 <= n % 10 <= 4 && !(12 <= n % 100 <= 14) ==> PluralIndex(n) == Some(1)
    ensures !(n % 10 == 1 && n % 100 != 11) && !(2 <= n % 10 <= 4 && !(12 <= n % 100 <= 14))
      ==> PluralIndex(n) == Some(2)
  {
    var h := n % 100;
    LastDigitOfLastTwo(n);
    if h < 10 {
      assert n % 10 == h;
    } else if h < 20 {
      assert n % 10 == h - 10;
    }
  }

  /** The last digit of a number is the last digit of its last two digits. */
  lemma LastDigitOfLastTwo(n: nat)
    ensures n % 10 == (n % 100) % 10
  {
    var a := n / 100;
    var h := n % 100;
    assert n == 10 * (10 * a + h / 10) + h % 10;
  }

  lemma PluralFormExamples()
    ensures PluralForm(1, ["день", "дня", "дней"]) == "1 день"
    ensures PluralForm(3, ["день", "дня", "дней"]) == "3 дня"
    ensures PluralForm(11, ["день", "дня", "дней"]) == "11 дней"
    ensures PluralForm(21, ["день", "дня", "дней"]) == "21 день"
  {
    PluralRussianRule(1);
    PluralRussianRule(3);
    PluralRussianRule(11);
    PluralRussianRule(21);
    assert NatToDecimal(11) == NatToDecimal(1) + [DigitChar(1)];
    assert NatToDecimal(21) == NatToDecimal(2) + [DigitChar(1)];
  }

  /** Titles missing from a short list read as `''`. */
  lemma PluralFormShortTitles()
    ensures PluralForm(5, ["день", "дня"]) == "5 "
    ensures PluralForm(1, ["день"]) == "1 день"
  {
    PluralRussianRule(5);
    PluralRussianRule(1);
  }

  // ---------------------------------------------------------------------
  // DecToPos

  lemma DivFacts(n: nat, q: nat)
    requires q >= 2 && n >= q
    ensures 1 <= n / q < n
    ensures (n / q) * q + n % q == n
  {
  }

  /** The base-`q` digits of `n`, most significant first, without leading zeros. */
  function Digits(n: nat, q: nat): (ds: seq<nat>)
    requires q >= 2
    ensures |ds| >= 1
    ensures forall i :: 0 <= i < |ds| ==> ds[i] < q
    ensures n > 0 ==> ds[0] != 0
    ensures |ds| == 1 <==> n < q
  {
    if n < q then [n]
    else
      DivFacts(n, q);
      Digits(n / q, q) + [n % q]
  }

  /** The number a digit sequence denotes in base `q`. */
  function DigitsValue(ds: seq<nat>, q: nat): nat
  {
    if |ds| == 0 then 0 else DigitsValue(ds[..|ds| - 1], q) * q + ds[|ds| - 1]
  }

  lemma {:induction false} DigitsRoundTrip(n: nat, q: nat)
    requires q >= 2
    ensures DigitsValue(Digits(n, q), q) == n
  {
    if n >= q {
      DivFacts(n, q);
      var ds := Digits(n, q);
      assert ds[..|ds| - 1] == Digits(n / q, q);
      DigitsRoundTrip(n / q, q);
    }
  }

  /** The digits spelled with the alphabet's characters. */
  function Spell(ds: seq<nat>, alphabet: string): (r: string)
    requires forall i :: 0 <= i < |ds| ==> ds[i] < |alphabet|
    ensures |r| == |ds|
    ensures forall i :: 0 <= i < |ds| ==> r[i] == alphabet[ds[i]]
  {
    seq(|ds|, i requires 0 <= i < |ds| => alphabet[ds[i]])
  }

  /**
   * `DecToPos`: the loop of the source, taking the remainder as the next digit
   * from the right and the floor of the quotient as the rest. A negative
   * number stops after one digit; PHP's negative string offset counts from
   * the end, which is the Euclidean remainder here. The alphabet must have
   * two characters at least: with one the loop never ends and with none
   * PHP throws on the division.
   */
  method DecToPos(n: int, alphabet: string) returns (r: string)
    requires |alphabet| >= 2
    ensures n >= 0 ==> r == Spell(Digits(n, |alphabet|), alphabet)
    ensures n < 0 ==> r == [alphabet[n % |alphabet|]]
  {
    var q := |alphabet|;
    var m := n;
    r := "";
    while true
      invariant n >= 0 ==> m >= 0 && Spell(Digits(m, q), alphabet) + r == Spell(Digits(n, q), alphabet)
      invariant n < 0 ==> m == n && r == ""
      decreases if m < 0 then 0 else m
    {
      var i := PhpRem(m, q);
      var c := PhpCharAt(alphabet, i);
      PhpRemOffset(m, q);
      if m >= q {
        SpellStep(m, alphabet);
      } else if m >= 0 {
        SpellLast(m, alphabet);
      } else {
        FloorNegative(m, q);
      }
      m := m / q;
      r := [c] + r;
      if m < 1 {
        break;
      }
    }
  }

  /** `$s[$i]`: a negative offset counts from the end of the string. */
  function PhpCharAt(s: string, i: int): (c: char)
    requires -|s| <= i < |s|
    ensures c == s[i % |s|]
  {
    if i >= 0 then s[i] else s[|s| + i]
  }

  lemma PhpRemOffset(a: int, b: int)
    requires b > 0
    ensures PhpRem(a, b) % b == a % b
  {
    if a < 0 {
      var k := (-a) % b;
      var t := (-a) / b;
      assert -a == t * b + k;
      if k == 0 {
        NegRemZero(a, b, t);
      } else {
        NegRemPositive(a, b, t, k);
      }
    }
  }

  lemma NegRemZero(a: int, b: int, t: int)
    requires b > 0 && -a == t * b
    ensures a % b == 0
  {
    assert a == (-t) * b + 0;
    ModUnique(a, b, -t, 0);
  }

  lemma NegRemPositive(a: int, b: int, t: int, k: int)
    requires b > 0 && 0 < k < b && -a == t * b + k
    ensures a % b == (-k) % b
  {
    assert a == (-t - 1) * b + (b - k);
    ModUnique(a, b, -t - 1, b - k);
    ModUnique(-k, b, -1, b - k);
  }

  /** The Euclidean remainder is the only one in `0..b-1`. */
  lemma ModUnique(a: int, b: int, x: int, r: int)
    requires b > 0 && 0 <= r < b && a == x * b + r
    ensures a % b == r
  {
    var y := a / b - x;
    assert y * b == r - a % b;
    assert y >= 1 ==> y * b >= b;
    assert y <= -1 ==> y * b <= -b;
  }

  lemma FloorNegative(m: int, q: nat)
    requires m < 0 && q >= 2
    ensures m / q < 0
  {
  }

  lemma SpellStep(m: nat, alphabet: string)
    requires |alphabet| >= 2 && m >= |alphabet|
    ensures 1 <= m / |alphabet| < m
    ensures Spell(Digits(m, |alphabet|), alphabet)
      == Spell(Digits(m / |alphabet|, |alphabet|), alphabet) + [alphabet[m % |alphabet|]]
  {
    var q := |alphabet|;
    DivFacts(m, q);
    assert Digits(m, q) == Digits(m / q, q) + [m % q];
  }

  lemma SpellLast(m: nat, alphabet: string)
    requires 2 <= |alphabet| && m < |alphabet|
    ensures m / |alphabet| == 0
    ensures Spell(Digits(m, |alphabet|), alphabet) == [alphabet[m]]
  {
  }

  /** The position of `c` in a duplicate-free alphabet. */
  function IndexIn(c: char, alphabet: string): (i: nat)
    requires c in alphabet
    ensures i < |alphabet| && alphabet[i] == c
  {
    if alphabet[0] == c then 0 else 1 + IndexIn(c, alphabet[1..])
  }

  predicate Distinct(alphabet: string)
  {
    forall i, j :: 0 <= i < j < |alphabet| ==> alphabet[i] != alphabet[j]
  }

  /** Reading a numeral back: the inverse of `DecToPos` for a duplicate-free alphabet. */
  function PosToDec(s: string, alphabet: string): nat
    requires forall i :: 0 <= i < |s| ==> s[i] in alphabet
  {
    if |s| == 0 then 0
    else PosToDec(s[..|s| - 1], alphabet) * |alphabet| + IndexIn(s[|s| - 1], alphabet)
  }

  lemma {:induction false} PosToDecSpell(ds: seq<nat>, alphabet: string)
    requires Distinct(alphabet)
    requires forall i :: 0 <= i < |ds| ==> ds[i] < |alphabet|
    ensures PosToDec(Spell(ds, alphabet), alphabet) == DigitsValue(ds, |alphabet|)
  {
    if |ds| > 0 {
      var s := Spell(ds, alphabet);
      assert s[..|s| - 1] == Spell(ds[..|ds| - 1], alphabet);
      PosToDecSpell(ds[..|ds| - 1], alphabet);
      assert IndexIn(s[|s| - 1], alphabet) == ds[|ds| - 1];
    }
  }

  /**
   * For `n >= 0` the numeral uses only alphabet characters, reads back as `n`
   * in base `|alphabet|`, and starts with the zero character only for `n = 0`.
   */
  lemma DecToPosSpec(n: nat, alphabet: string)
    requires |alphabet| >= 2 && Distinct(alphabet)
    ensures var r := Spell(Digits(n, |alphabet|), alphabet);
      |r| >= 1 && (forall i :: 0 <= i < |r| ==> r[i] in alphabet)
      && PosToDec(r, alphabet) == n
      && (r[0] == alphabet[0] <==> n == 0)
  {
    var ds := Digits(n, |alphabet|);
    PosToDecSpell(ds, alphabet);
    DigitsRoundTrip(n, |alphabet|);
    if n > 0 {
      assert ds[0] != 0;
    }
  }

  method DecToPosExample() returns (r: string)
    ensures r == "ba"
  {
    r := DecToPos(2, "ab");
    assert Digits(2, 2) == [1, 0];
  }

  // ---------------------------------------------------------------------
  // setAbsoluteUrl

  /** `setAbsoluteUrl`: prefixes `/` unless the URL is empty or already starts with it. */
  function SetAbsoluteUrl(url: string): (r: string)
    ensures r == "" <==> url == ""
    ensures r != "" ==> r[0] == '/'
    ensures |url| > 0 && url[0] == '/' ==> r == url
    ensures EndsWith(r, url)
  {
    if url == "" || url[0] == '/' then url else "/" + url
  }

  lemma SetAbsoluteUrlIdempotent(url: string)
    ensures SetAbsoluteUrl(SetAbsoluteUrl(url)) == SetAbsoluteUrl(url)
  {
  }

  // ---------------------------------------------------------------------
  // MaskString

  /** The class `[\s.@\-:()\/]` the input is split on. */
  predicate IsMaskDelimiter(c: char)
  {
    IsSpace(c) || c == '.' || c == '@' || c == '-' || c == ':' || c == '(' || c == ')' || c == '/'
  }

  predicate MaskFree(w: string)
  {
    forall k :: 0 <= k < |w| ==> !IsMaskDelimiter(w[k])
  }

  /** `preg_split` on that class: every delimiter ends a piece, and empty pieces are kept. */
  function SplitMask(s: string): (r: seq<string>)
    ensures |r| >= 1
    ensures forall i :: 0 <= i < |r| ==> MaskFree(r[i])
  {
    if |s| == 0 then [""]
    else
      var rest := SplitMask(s[1..]);
      if IsMaskDelimiter(s[0]) then [""] + rest
      else [[s[0]] + rest[0]] + rest[1..]
  }

  /** The subject with every delimiter replaced by a space. */
  function Blank(s: string): (r: string)
    ensures |r| == |s|
    ensures forall i :: 0 <= i < |s| ==> r[i] == if IsMaskDelimiter(s[i]) then ' ' else s[i]
  {
    seq(|s|, i requires 0 <= i < |s| => if IsMaskDelimiter(s[i]) then ' ' else s[i])
  }

  /** Gluing the pieces back with spaces gives the subject with its delimiters blanked. */
  lemma {:induction false} SplitMaskJoin(s: string)
    ensures Join(" ", SplitMask(s)) == Blank(s)
  {
    if |s| > 0 {
      var rest := SplitMask(s[1..]);
      SplitMaskJoin(s[1..]);
      assert Blank(s) == [Blank(s)[0]] + Blank(s[1..]);
      if IsMaskDelimiter(s[0]) {
        assert ([""] + rest)[1..] == rest;
      } else {
        var r := [[s[0]] + rest[0]] + rest[1..];
        if |rest| > 1 {
          assert r[1..] == rest[1..];
          assert Join(" ", rest) == rest[0] + " " + Join(" ", rest[1..]);
        }
      }
    }
  }

  /**
   * One masked word: a word no longer than `unmasked` stays, a longer one keeps
   * `unmasked` characters at each end with stars between, a single star when
   * the two ends overlap.
   */
  function MaskWord(w: string, unmasked: int): (r: string)
    ensures |w| <= unmasked ==> r == w
    ensures 0 <= unmasked < |w| ==> StartsWith(r, w[..unmasked]) && EndsWith(r, w[|w| - unmasked..])
    ensures 0 <= unmasked && 2 * unmasked <= |w| ==>
      |r| == |w| && forall i :: unmasked <= i < |w| - unmasked ==> r[i] == '*'
    ensures 0 <= unmasked < |w| < 2 * unmasked ==> r == w[..unmasked] + "*" + w[|w| - unmasked..]
    ensures forall i :: 0 <= i < |r| ==> r[i] == '*' || r[i] in w
  {
    if |w| <= unmasked then w else MaskLong(w, unmasked)
  }

  /** The masking of a word longer than `unmasked`: both ends, stars between. */
  function MaskLong(w: string, unmasked: int): (r: string)
    requires unmasked < |w|
    ensures 0 <= unmasked ==> StartsWith(r, w[..unmasked]) && EndsWith(r, w[|w| - unmasked..])
    ensures 0 <= unmasked && 2 * unmasked <= |w| ==>
      |r| == |w| && forall i :: unmasked <= i < |w| - unmasked ==> r[i] == '*'
    ensures 0 <= unmasked && |w| < 2 * unmasked ==> r == w[..unmasked] + "*" + w[|w| - unmasked..]
    ensures forall i :: 0 <= i < |r| ==> r[i] == '*' || r[i] in w
  {
    var n := |w|;
    var stars := if n < 2 * unmasked then "*" else Repeat('*', n - 2 * unmasked);
    var a := Substr(w, 0, Some(unmasked));
    var b := Substr(w, n - unmasked, Some(unmasked));
    MaskEnds(w, unmasked);
    StarsOrFrom(a, stars, b, w);
    ThreeParts(a, stars, b);
    a + stars + b
  }

  /** For `0 <= u < |w|`, the two `substr` calls take the first and the last `u` characters. */
  lemma MaskEnds(w: string, u: int)
    requires u < |w|
    ensures 0 <= u ==> Substr(w, 0, Some(u)) == w[..u]
    ensures 0 <= u ==> Substr(w, |w| - u, Some(u)) == w[|w| - u..]
  {
  }

  /** Where the three pieces sit in their concatenation. */
  lemma ThreeParts(a: string, m: string, b: string)
    ensures StartsWith(a + m + b, a) && EndsWith(a + m + b, b)
    ensures forall i :: |a| <= i < |a| + |m| ==> (a + m + b)[i] == m[i - |a|]
  {
    var r := a + m + b;
    assert r[..|a|] == a;
    assert r[|r| - |b|..] == b;
  }

  lemma StarsOrFrom(a: string, stars: string, b: string, w: string)
    requires forall i :: 0 <= i < |a| ==> a[i] in w
    requires forall i :: 0 <= i < |stars| ==> stars[i] == '*'
    requires forall i :: 0 <= i < |b| ==> b[i] in w
    ensures forall i :: 0 <= i < |a + stars + b| ==> (a + stars + b)[i] == '*' || (a + stars + b)[i] in w
  {
    var r := a + stars + b;
    forall i | 0 <= i < |r|
      ensures r[i] == '*' || r[i] in w
    {
      if i < |a| {
        assert r[i] == a[i];
      } else if i < |a| + |stars| {
        assert r[i] == stars[i - |a|];
      } else {
        assert r[i] == b[i - |a| - |stars|];
      }
    }
  }

  function MaskAll(ws: seq<string>, unmasked: int): (r: seq<string>)
    ensures |r| == |ws|
    ensures forall i :: 0 <= i < |ws| ==> r[i] == MaskWord(ws[i], unmasked)
  {
    seq(|ws|, i requires 0 <= i < |ws| => MaskWord(ws[i], unmasked))
  }

  /** `MaskString`: the masked pieces joined by single spaces. */
  function MaskString(input: string, unmasked: int): (r: string)
  {
    Join(" ", MaskAll(SplitMask(input), unmasked))
  }

  /** Splitting the output on spaces gives back exactly the masked pieces, in order. */
  lemma MaskStringWords(input: string, unmasked: int)
    ensures Explode(' ', MaskString(input, unmasked)) == MaskAll(SplitMask(input), unmasked)
  {
    var ps := SplitMask(input);
    var ms := MaskAll(ps, unmasked);
    forall i | 0 <= i < |ms|
      ensures ' ' !in ms[i]
    {
      assert MaskFree(ps[i]);
      assert ' ' !in ps[i];
      assert forall k :: 0 <= k < |ms[i]| ==> ms[i][k] != ' ';
    }
    ExplodeJoin(' ', ms);
  }

  /** With nothing long enough to mask, the output is the input with its delimiters blanked. */
  lemma MaskStringShortWords(input: string, unmasked: int)
    requires unmasked >= |input|
    ensures MaskString(input, unmasked) == Blank(input)
  {
    var ps := SplitMask(input);
    SplitMaskJoin(input);
    SplitMaskShort(input);
    assert MaskAll(ps, unmasked) == ps;
  }

  lemma {:induction false} SplitMaskShort(s: string)
    ensures forall i :: 0 <= i < |SplitMask(s)| ==> |SplitMask(s)[i]| <= |s|
  {
    if |s| > 0 {
      SplitMaskShort(s[1..]);
    }
  }

  /** A word of exactly twice `unmasked` characters has an empty middle and stays as it is. */
  lemma MaskWordExact(w: string, unmasked: int)
    requires 0 < unmasked && |w| == 2 * unmasked
    ensures MaskWord(w, unmasked) == w
  {
    var r := MaskWord(w, unmasked);
    assert r == w[..unmasked] + w[unmasked..];
  }

  lemma MaskStringExample()
    ensures MaskString("secret", 2) == "se**et"
  {
    SecretSplit();
    SecretMasked();
    assert MaskAll(["secret"], 2) == ["se**et"];
  }

  lemma SecretSplit()
    ensures SplitMask("secret") == ["secret"]
  {
    assert forall k :: 0 <= k < |"secret"| ==> !IsMaskDelimiter("secret"[k]);
    SplitMaskNone("secret");
  }

  lemma SecretMasked()
    ensures MaskWord("secret", 2) == "se**et"
  {
    assert MaskWord("secret", 2) == "se" + "**" + "et";
  }

  lemma {:induction false} SplitMaskNone(s: string)
    requires MaskFree(s)
    ensures SplitMask(s) == [s]
  {
    if |s| > 0 {
      SplitMaskNone(s[1..]);
      assert [s[0]] + s[1..] == s;
    }
  }

  // ---------------------------------------------------------------------
  // ShortifyString

  /**
   * `ShortifyString`: without a space, the first character; otherwise the
   * upper-cased first characters of the first two space-separated pieces.
   * `explode` never returns an empty list here, so the `'?'` branches are dead.
   */
  function ShortifyString(input: string): (r: string)
    ensures |r| <= 2
    ensures ' ' !in input ==> r == (if |input| == 0 then "" else input[..1])
    ensures ' ' in input ==> forall i :: 0 <= i < |r| ==> !IsLower(r[i])
  {
    var ws := Explode(' ', input);
    if |ws| == 1 then
      JoinExplode(' ', input);
      assert input == ws[0];
      Substr(input, 0, Some(1))
    else
      assert ' ' in input by {
        if ' ' !in input {
          ExplodeFree(' ', input);
        }
      }
      Upper(Substr(ws[0], 0, Some(1)) + Substr(ws[1], 0, Some(1)))
  }

  function Initial(w: string): string
  {
    if |w| == 0 then "" else w[..1]
  }

  /** Two or more words give the initials of the first two. */
  lemma ShortifyInitials(a: string, b: string, rest: string)
    requires ' ' !in a && ' ' !in b
    ensures ShortifyString(a + " " + b) == Upper(Initial(a) + Initial(b))
    ensures ShortifyString(a + " " + b + " " + rest) == Upper(Initial(a) + Initial(b))
  {
    ExplodeGlue(' ', a, b);
    ExplodeFree(' ', b);
    assert a + " " + b == a + [' '] + b;
    ExplodeGlue(' ', b, rest);
    assert a + " " + b + " " + rest == a + [' '] + (b + [' '] + rest);
    ExplodeGlue(' ', a, b + [' '] + rest);
  }

  // ---------------------------------------------------------------------
  // RGBToArray, RGBContrast, RGBColorContrast

  /** The end of the run of `\s` characters starting at `i`. */
  function SpaceEnd(s: string, i: nat): (j: nat)
    requires i <= |s|
    ensures i <= j <= |s|
    ensures forall k :: i <= k < j ==> IsSpace(s[k])
    ensures j < |s| ==> !IsSpace(s[j])
    decreases |s| - i
  {
    if i < |s| && IsSpace(s[i]) then SpaceEnd(s, i + 1) else i
  }

  /** The end of the run of `\d` characters starting at `i`. */
  function DigitEnd(s: string, i: nat): (j: nat)
    requires i <= |s|
    ensures i <= j <= |s|
    ensures forall k :: i <= k < j ==> IsDigit(s[k])
    ensures j < |s| ==> !IsDigit(s[j])
    decreases |s| - i
  {
    if i < |s| && IsDigit(s[i]) then DigitEnd(s, i + 1) else i
  }

  /**
   * A digit string the channel alternation `25[0-5]|2[0-4]\d|1\d{2}|\d\d?`
   * matches completely: one or two digits, or three digits from 100 to 255.
   */
  predicate ValidChannel(t: string)
  {
    AllDigits(t)
    && (|t| == 1 || |t| == 2 || (|t| == 3 && (t[0] == '1' || t[0] == '2') && DecimalValue(t) <= 255))
  }

  /** The captured groups: three channels and the alpha part when present. */
  datatype RgbMatch = RgbMatch(red: string, green: string, blue: string, alpha: Option<string>)

  /**
   * A channel starting at `i` and the position after it. The channel is
   * always followed by a space, a comma or a parenthesis, never by a digit,
   * so the alternation has to take the whole digit run.
   */
  function ChannelAt(s: string, i: nat): (r: Option<nat>)
    requires i <= |s|
    ensures r.Some? ==> i < r.value <= |s| && ValidChannel(s[i..r.value])
    ensures r.Some? ==> r.value == |s| || !IsDigit(s[r.value])
  {
    var j := DigitEnd(s, i);
    if ValidChannel(s[i..j]) then Some(j) else None
  }

  /** `\s*,\s*` starting at `i`, and the position after it. */
  function CommaAt(s: string, i: nat): (r: Option<nat>)
    requires i <= |s|
    ensures r.Some? ==> i < r.value <= |s|
  {
    var j := SpaceEnd(s, i);
    if j < |s| && s[j] == ',' then Some(SpaceEnd(s, j + 1)) else None
  }

  /** `\s*(?:,\s*([01]\.?\d*?))?\)` starting at `i` and reaching the end of `s`. */
  function TailAt(s: string, i: nat): (r: Option<Option<string>>)
    requires i <= |s|
  {
    var j := SpaceEnd(s, i);
    if j < |s| && s[j] == ',' then
      var a := SpaceEnd(s, j + 1);
      if a < |s| && (s[a] == '0' || s[a] == '1') then
        var b := if a + 1 < |s| && s[a + 1] == '.' then a + 2 else a + 1;
        var c := DigitEnd(s, b);
        if c + 1 == |s| && s[c] == ')' then Some(Some(s[a..c])) else None
      else None
    else if j + 1 == |s| && s[j] == ')' then Some(None)
    else None
  }

  /** The match of the `RGBToArray` pattern against the whole subject (up to a final line feed). */
  function RgbParse(color: string): (r: Option<RgbMatch>)
    ensures r.Some? ==> ValidChannel(r.value.red) && ValidChannel(r.value.green) && ValidChannel(r.value.blue)
  {
    var s := DollarBody(color);
    var p0 := if StartsWith(s, "rgb(") then Some(4) else if StartsWith(s, "rgba(") then Some(5) else None;
    match p0
    case None => None
    case Some(i0) =>
      match ChannelAt(s, i0)
      case None => None
      case Some(e1) =>
        match CommaAt(s, e1)
        case None => None
        case Some(i1) =>
          match ChannelAt(s, i1)
          case None => None
          case Some(e2) =>
            match CommaAt(s, e2)
            case None => None
            case Some(i2) =>
              match ChannelAt(s, i2)
              case None => None
              case Some(e3) =>
                match TailAt(s, e3)
                case None => None
                case Some(alpha) => Some(RgbMatch(s[i0..e1], s[i1..e2], s[i2..e3], alpha))
  }

  /** `RGBToArray`: the captured groups, or `[]` when the pattern does not match. */
  function RgbToArray(color: string, includeAlpha: bool): (r: seq<string>)
    ensures |r| == 0 || |r| == 3 || |r| == 4
    ensures forall i :: 0 <= i < |r| && i < 3 ==> ValidChannel(r[i])
    ensures |r| == 0 <==> RgbParse(color).None?
  {
    MatchGroups(RgbParse(color), includeAlpha)
  }

  /** The groups of a match in order, the alpha part last and only when asked for. */
  function MatchGroups(p: Option<RgbMatch>, includeAlpha: bool): (r: seq<string>)
    requires p.Some? ==> ValidChannel(p.value.red) && ValidChannel(p.value.green) && ValidChannel(p.value.blue)
    ensures |r| == 0 || |r| == 3 || |r| == 4
    ensures forall i :: 0 <= i < |r| && i < 3 ==> ValidChannel(r[i])
    ensures |r| == 0 <==> p.None?
    ensures p.Some? ==> r[..3] == [p.value.red, p.value.green, p.value.blue]
    ensures |r| == 4 <==> includeAlpha && p.Some? && p.value.alpha.Some?
  {
    match p
    case None => []
    case Some(m) =>
      [m.red, m.green, m.blue] + (if includeAlpha && m.alpha.Some? then [m.alpha.value] else [])
  }

  /** A channel of the contrast colour: white for a dark channel, black for a light one. */
  function ContrastChannel(v: nat): (c: nat)
    ensures c == 255 || c == 0
    ensures c == 255 <==> v < 128
  {
    if v < 128 then 255 else 0
  }

  /**
   * `RGBContrast`: each of the first three entries compared with 128 as a
   * number; a missing entry reads as 0.
   */
  function RgbContrast(rgb: seq<string>): (r: seq<nat>)
    requires forall i :: 0 <= i < |rgb| && i < 3 ==> AllDigits(rgb[i])
    ensures |r| == 3
    ensures forall i :: 0 <= i < 3 ==> r[i] == ContrastChannel(EntryValue(rgb, i))
  {
    [ContrastChannel(EntryValue(rgb, 0)), ContrastChannel(EntryValue(rgb, 1)), ContrastChannel(EntryValue(rgb, 2))]
  }

  /** `ArrayHelper::getValue($rgb, $i, 0)` read as a number. */
  function EntryValue(rgb: seq<string>, i: nat): nat
    requires i < 3
    requires forall i :: 0 <= i < |rgb| && i < 3 ==> AllDigits(rgb[i])
  {
    if i < |rgb| then
      assert AllDigits(rgb[i]);
      DecimalValue(rgb[i])
    else 0
  }

  function RgbString(r: nat, g: nat, b: nat): string
  {
    "rgb(" + NatToDecimal(r) + "," + NatToDecimal(g) + "," + NatToDecimal(b) + ")"
  }

  /** PHP `empty()` on a nullable string: null, `''` and `'0'`. */
  predicate EmptyString(s: Option<string>)
  {
    s.None? || s.value == "" || s.value == "0"
  }

  /** `RGBColorContrast`: black or white per channel; white for an empty or unreadable colour. */
  function RgbColorContrast(rgbString: Option<string>): (r: string)
    ensures EmptyString(rgbString) ==> r == RgbString(255, 255, 255)
    ensures !EmptyString(rgbString) && RgbParse(rgbString.value).None? ==> r == RgbString(255, 255, 255)
    ensures exists x, y, z :: x in {0, 255} && y in {0, 255} && z in {0, 255} && r == RgbString(x, y, z)
  {
    if EmptyString(rgbString) then
      assert 255 in {0, 255};
      RgbString(255, 255, 255)
    else
      var c := RgbContrast(RgbToArray(rgbString.value, false));
      assert c[0] in {0, 255} && c[1] in {0, 255} && c[2] in {0, 255};
      RgbString(c[0], c[1], c[2])
  }

  lemma ValidChannelOf(n: nat)
    requires n <= 255
    ensures ValidChannel(NatToDecimal(n))
    ensures DecimalValue(NatToDecimal(n)) == n
  {
    DecimalRoundTrip(n);
    if n >= 100 {
      assert NatToDecimal(n) == NatToDecimal(n / 10) + [DigitChar(n % 10)];
      assert NatToDecimal(n / 10) == NatToDecimal(n / 100) + [DigitChar((n / 10) % 10)];
      assert NatToDecimal(n / 100) == [DigitChar(n / 100)];
    } else if n >= 10 {
      assert NatToDecimal(n) == NatToDecimal(n / 10) + [DigitChar(n % 10)];
    }
  }

  lemma {:induction false} DigitEndOf(s: string, i: nat, t: string)
    requires OccursAt(s, t, i) && AllDigits(t)
    requires i + |t| == |s| || !IsDigit(s[i + |t|])
    ensures DigitEnd(s, i) == i + |t|
    decreases |t|
  {
    if |t| > 0 {
      OccursAtChar(s, t, i, 0);
      assert OccursAt(s, t[1..], i + 1) by {
        assert s[i + 1..i + 1 + |t[1..]|] == s[i..i + |t|][1..];
      }
      DigitEndOf(s, i + 1, t[1..]);
    }
  }

  /** Where the pieces of `rgb(R,G,B)` sit. */
  lemma RgbLayout(r: string, g: string, b: string)
    ensures var s := "rgb(" + r + "," + g + "," + b + ")";
      var e1 := 4 + |r|; var e2 := e1 + 1 + |g|; var e3 := e2 + 1 + |b|;
      |s| == e3 + 1 && StartsWith(s, "rgb(")
      && OccursAt(s, r, 4) && s[e1] == ','
      && OccursAt(s, g, e1 + 1) && s[e2] == ','
      && OccursAt(s, b, e2 + 1) && s[e3] == ')'
  {
    var s := "rgb(" + r + "," + g + "," + b + ")";
    var p1 := "rgb(" + r;
    var p2 := p1 + "," + g;
    var p3 := p2 + "," + b;
    assert s == p3 + ")";
    assert s[..4] == "rgb(";
    assert s[4..4 + |r|] == r;
    assert s[|p1| + 1..|p1| + 1 + |g|] == g;
    assert s[|p2| + 1..|p2| + 1 + |b|] == b;
  }

  lemma ChannelAtOf(s: string, i: nat, t: string)
    requires OccursAt(s, t, i) && ValidChannel(t)
    requires i + |t| == |s| || !IsDigit(s[i + |t|])
    ensures ChannelAt(s, i) == Some(i + |t|)
  {
    DigitEndOf(s, i, t);
    assert s[i..i + |t|] == t;
  }

  /** Parsing `rgb(R,G,B)` for three valid channels gives them back, without alpha. */
  lemma RgbParseOf(r: string, g: string, b: string)
    requires ValidChannel(r) && ValidChannel(g) && ValidChannel(b)
    ensures RgbParse("rgb(" + r + "," + g + "," + b + ")") == Some(RgbMatch(r, g, b, None))
  {
    RgbLayout(r, g, b);
    RgbParseAt("rgb(" + r + "," + g + "," + b + ")", r, g, b);
  }

  lemma RgbParseAt(s: string, r: string, g: string, b: string)
    requires ValidChannel(r) && ValidChannel(g) && ValidChannel(b)
    requires var e1 := 4 + |r|; var e2 := e1 + 1 + |g|; var e3 := e2 + 1 + |b|;
      |s| == e3 + 1 && StartsWith(s, "rgb(")
      && OccursAt(s, r, 4) && s[e1] == ','
      && OccursAt(s, g, e1 + 1) && s[e2] == ','
      && OccursAt(s, b, e2 + 1) && s[e3] == ')'
    ensures RgbParse(s) == Some(RgbMatch(r, g, b, None))
  {
    var e1 := 4 + |r|;
    var e2 := e1 + 1 + |g|;
    var e3 := e2 + 1 + |b|;
    ChannelAtOf(s, 4, r);
    ChannelAtOf(s, e1 + 1, g);
    ChannelAtOf(s, e2 + 1, b);
    OccursAtChar(s, g, e1 + 1, 0);
    OccursAtChar(s, b, e2 + 1, 0);
    CommaAtOf(s, e1);
    CommaAtOf(s, e2);
    TailAtClose(s, e3);
    RgbParseSteps(s, e1, e2, e3);
    assert s[4..e1] == r && s[e1 + 1..e2] == g && s[e2 + 1..e3] == b;
  }

  lemma CommaAtOf(s: string, i: nat)
    requires i + 1 < |s| && s[i] == ',' && IsDigit(s[i + 1])
    ensures CommaAt(s, i) == Some(i + 1)
  {
  }

  lemma TailAtClose(s: string, i: nat)
    requires i + 1 == |s| && s[i] == ')'
    ensures TailAt(s, i) == Some(None)
  {
  }

  /** The match chain of `RgbParse` for an `rgb(` subject whose pieces all match. */
  lemma RgbParseSteps(s: string, e1: nat, e2: nat, e3: nat)
    requires StartsWith(s, "rgb(") && |s| > 0 && s[|s| - 1] == ')'
    requires 4 <= |s| && ChannelAt(s, 4) == Some(e1) && e1 + 1 <= |s| && CommaAt(s, e1) == Some(e1 + 1)
    requires ChannelAt(s, e1 + 1) == Some(e2) && e2 + 1 <= |s| && CommaAt(s, e2) == Some(e2 + 1)
    requires ChannelAt(s, e2 + 1) == Some(e3) && TailAt(s, e3) == Some(None)
    ensures RgbParse(s) == Some(RgbMatch(s[4..e1], s[e1 + 1..e2], s[e2 + 1..e3], None))
  {
    ClosedBody(s);
  }

  /** A subject ending in `)` has no final line feed for `$` to skip. */
  lemma ClosedBody(s: string)
    requires |s| > 0 && s[|s| - 1] == ')'
    ensures DollarBody(s) == s
  {
  }

  /** Parsing the colour `RgbString` writes gives its three channels back. */
  lemma RgbParseOfString(r: nat, g: nat, b: nat)
    requires r <= 255 && g <= 255 && b <= 255
    ensures RgbParse(RgbString(r, g, b))
      == Some(RgbMatch(NatToDecimal(r), NatToDecimal(g), NatToDecimal(b), None))
  {
    ValidChannelOf(r);
    ValidChannelOf(g);
    ValidChannelOf(b);
    RgbParseOf(NatToDecimal(r), NatToDecimal(g), NatToDecimal(b));
  }

  /** The contrast of a colour written as `rgb(r,g,b)` is worked out channel by channel. */
  lemma RgbColorContrastOfString(r: nat, g: nat, b: nat)
    requires r <= 255 && g <= 255 && b <= 255
    ensures RgbColorContrast(Some(RgbString(r, g, b)))
      == RgbString(ContrastChannel(r), ContrastChannel(g), ContrastChannel(b))
  {
    RgbParseOfString(r, g, b);
    ValidChannelOf(r);
    ValidChannelOf(g);
    ValidChannelOf(b);
    assert RgbString(r, g, b) != "" && RgbString(r, g, b) != "0" by {
      assert RgbString(r, g, b)[0] == 'r';
    }
    var a := RgbToArray(RgbString(r, g, b), false);
    assert a == [NatToDecimal(r), NatToDecimal(g), NatToDecimal(b)];
    assert EntryValue(a, 0) == r && EntryValue(a, 1) == g && EntryValue(a, 2) == b;
    var c := RgbContrast(a);
    assert c == [ContrastChannel(r), ContrastChannel(g), ContrastChannel(b)];
  }

  /** Only the values up to 255 are channels the pattern accepts. */
  lemma ValidChannelIff(n: nat)
    ensures ValidChannel(NatToDecimal(n)) <==> n <= 255
  {
    if n <= 255 {
      ValidChannelOf(n);
    } else {
      DecimalRoundTrip(n);
      assert NatToDecimal(n) == NatToDecimal(n / 10) + [DigitChar(n % 10)];
      assert NatToDecimal(n / 10) == NatToDecimal(n / 100) + [DigitChar((n / 10) % 10)];
      assert |NatToDecimal(n)| >= 3;
    }
  }

  /** A red channel above 255 makes the pattern fail, and the contrast colour is white. */
  lemma RgbRejectsLargeRed(r: nat, g: nat, b: nat)
    requires r > 255
    ensures RgbParse(RgbString(r, g, b)).None?
    ensures RgbColorContrast(Some(RgbString(r, g, b))) == RgbString(255, 255, 255)
  {
    var R := NatToDecimal(r);
    var s := RgbString(r, g, b);
    RgbLayout(R, NatToDecimal(g), NatToDecimal(b));
    ValidChannelIff(r);
    DigitEndOf(s, 4, R);
    assert s[4..4 + |R|] == R;
    assert ChannelAt(s, 4).None?;
    assert DollarBody(s) == s;
    assert s != "" && s != "0" by {
      assert s[0] == 'r';
    }
  }

  lemma RgbaExample()
    ensures RgbParse("rgba(1,2,3,0.5)") == Some(RgbMatch("1", "2", "3", Some("0.5")))
  {
    var s := "rgba(1,2,3,0.5)";
    RgbaHead(s);
    RgbaChannels(s);
    RgbaTail(s);
    RgbaParseSteps(s, 6, 8, 10, Some("0.5"));
    RgbaSlices(s);
  }

  /** The match chain of `RgbParse` for an `rgba(` subject whose pieces all match. */
  lemma RgbaParseSteps(s: string, e1: nat, e2: nat, e3: nat, alpha: Option<string>)
    requires DollarBody(s) == s && !StartsWith(s, "rgb(") && StartsWith(s, "rgba(")
    requires ChannelAt(s, 5) == Some(e1) && e1 + 1 <= |s| && CommaAt(s, e1) == Some(e1 + 1)
    requires ChannelAt(s, e1 + 1) == Some(e2) && e2 + 1 <= |s| && CommaAt(s, e2) == Some(e2 + 1)
    requires ChannelAt(s, e2 + 1) == Some(e3) && TailAt(s, e3) == Some(alpha)
    ensures RgbParse(s) == Some(RgbMatch(s[5..e1], s[e1 + 1..e2], s[e2 + 1..e3], alpha))
  {
  }

  lemma RgbaHead(s: string)
    requires s == "rgba(1,2,3,0.5)"
    ensures DollarBody(s) == s && !StartsWith(s, "rgb(") && StartsWith(s, "rgba(")
  {
    assert s[3] == 'a';
    assert !StartsWith(s, "rgb(") by {
      assert s[..4][3] != "rgb("[3];
    }
    assert s[..5] == "rgba(";
  }

  lemma RgbaChannels(s: string)
    requires s == "rgba(1,2,3,0.5)"
    ensures ChannelAt(s, 5) == Some(6) && CommaAt(s, 6) == Some(7)
    ensures ChannelAt(s, 7) == Some(8) && CommaAt(s, 8) == Some(9)
    ensures ChannelAt(s, 9) == Some(10)
  {
    SingleDigitChannel(s, 5);
    SingleDigitChannel(s, 7);
    SingleDigitChannel(s, 9);
    CommaAtOf(s, 6);
    CommaAtOf(s, 8);
  }

  /** A lone digit is a channel. */
  lemma SingleDigitChannel(s: string, i: nat)
    requires i + 1 < |s| && IsDigit(s[i]) && !IsDigit(s[i + 1])
    ensures ChannelAt(s, i) == Some(i + 1)
  {
    assert DigitEnd(s, i + 1) == i + 1;
    assert s[i..i + 1] == [s[i]];
  }

  lemma RgbaTail(s: string)
    requires s == "rgba(1,2,3,0.5)"
    ensures TailAt(s, 10) == Some(Some("0.5"))
  {
    assert SpaceEnd(s, 10) == 10;
    assert SpaceEnd(s, 11) == 11;
    assert DigitEnd(s, 14) == 14;
    assert DigitEnd(s, 13) == 14;
    assert s[11..14] == "0.5";
  }

  lemma RgbaSlices(s: string)
    requires s == "rgba(1,2,3,0.5)"
    ensures s[5..6] == "1" && s[7..8] == "2" && s[9..10] == "3"
  {
  }

  // ---------------------------------------------------------------------
  // gen_uuid

  predicate IsHexDigit(c: char) { IsDigit(c) || 'a' <= c <= 'f' }

  /** One lower-case hexadecimal digit, as `%x` prints it. */
  function HexDigit(d: nat): (c: char)
    requires d < 16
    ensures IsHexDigit(c)
  {
    if d < 10 then ('0' as int + d) as char else ('a' as int + d - 10) as char
  }

  function HexDigitValue(c: char): (d: nat)
    requires IsHexDigit(c)
    ensures d < 16
  {
    if IsDigit(c) then c as int - '0' as int else c as int - 'a' as int + 10
  }

  lemma HexDigitRoundTrip(d: nat)
    requires d < 16
    ensures HexDigitValue(HexDigit(d)) == d
  {
  }

  /** `%04x` for a value below 0x10000: exactly four digits, zero-padded. */
  function Hex4(v: nat): (r: string)
    requires v < 0x10000
    ensures |r| == 4
    ensures forall i :: 0 <= i < 4 ==> IsHexDigit(r[i])
  {
    [HexDigit(v / 16 / 16 / 16), HexDigit(v / 16 / 16 % 16), HexDigit(v / 16 % 16), HexDigit(v % 16)]
  }

  /** The value of four hexadecimal digits. */
  function Hex4Value(s: string): nat
    requires |s| == 4 && forall i :: 0 <= i < 4 ==> IsHexDigit(s[i])
  {
    ((HexDigitValue(s[0]) * 16 + HexDigitValue(s[1])) * 16 + HexDigitValue(s[2])) * 16 + HexDigitValue(s[3])
  }

  lemma Hex4RoundTrip(v: nat)
    requires v < 0x10000
    ensures Hex4Value(Hex4(v)) == v
  {
    var v1 := v / 16;
    var v2 := v1 / 16;
    var v3 := v2 / 16;
    HexDigitRoundTrip(v3);
    HexDigitRoundTrip(v2 % 16);
    HexDigitRoundTrip(v1 % 16);
    HexDigitRoundTrip(v % 16);
    assert v == v1 * 16 + v % 16;
    assert v1 == v2 * 16 + v1 % 16;
    assert v2 == v3 * 16 + v2 % 16;
  }

  function Pow2(k: nat): (p: nat)
    ensures p >= 1
  {
    if k == 0 then 1 else 2 * Pow2(k - 1)
  }

  /** PHP `|` on non-negative integers, bit by bit from the lowest. */
  function BitOr(x: nat, y: nat): nat
    decreases x + y
  {
    if x == 0 && y == 0 then 0
    else 2 * BitOr(x / 2, y / 2) + (if x % 2 == 1 || y % 2 == 1 then 1 else 0)
  }

  /** Or-ing in a bit above every bit of `x` adds it. */
  lemma {:induction false} BitOrAbove(x: nat, k: nat)
    requires x < Pow2(k)
    ensures BitOr(x, Pow2(k)) == x + Pow2(k)
  {
    if k > 0 {
      BitOrAbove(x / 2, k - 1);
    }
  }

  /** The eight `random_int` draws, each in the range the source asks for. */
  datatype UuidDraws = UuidDraws(a: nat, b: nat, c: nat, d: nat, e: nat, f: nat, g: nat, h: nat)

  predicate ValidDraws(x: UuidDraws)
  {
    x.a <= 0xffff && x.b <= 0xffff && x.c <= 0xffff && x.d <= 0x0fff && x.e <= 0x3fff
    && x.f <= 0xffff && x.g <= 0xffff && x.h <= 0xffff
  }

  /** The version bits 0100 sit above a draw of at most 0x0fff. */
  lemma VersionBits(d: nat)
    requires d <= 0x0fff
    ensures BitOr(d, 0x4000) == d + 0x4000
  {
    assert Pow2(14) == 0x4000;
    BitOrAbove(d, 14);
  }

  /** The variant bits 10 sit above a draw of at most 0x3fff. */
  lemma VariantBits(e: nat)
    requires e <= 0x3fff
    ensures BitOr(e, 0x8000) == e + 0x8000
  {
    assert Pow2(15) == 0x8000;
    BitOrAbove(e, 15);
  }

  /** The `sprintf` of `gen_uuid`: the version nibble 4 and the variant bits 10 are or-ed in. */
  function UuidString(x: UuidDraws): (u: string)
    requires ValidDraws(x)
    ensures |u| == 36
  {
    VersionBits(x.d);
    VariantBits(x.e);
    Assemble(Hex4(x.a), Hex4(x.b), Hex4(x.c), Hex4(BitOr(x.d, 0x4000)),
      Hex4(BitOr(x.e, 0x8000)), Hex4(x.f), Hex4(x.g), Hex4(x.h))
  }

  /** `gen_uuid($length)`: a falsy length (`false`, `0`) keeps the whole string. */
  function GenUuid(length: int, x: UuidDraws): (r: string)
    requires ValidDraws(x)
    ensures StartsWith(UuidString(x), r)
    ensures length == 0 ==> r == UuidString(x)
    ensures length > 0 ==> |r| == if length < 36 then length else 36
  {
    var u := UuidString(x);
    if length == 0 then u
    else
      var r := Substr(u, 0, Some(length));
      assert u[..|r|] == r;
      r
  }

  /** The `sprintf` format: eight four-digit groups, hyphens after the 2nd, 3rd, 4th and 5th. */
  function Assemble(p1: string, p2: string, p3: string, p4: string, p5: string, p6: string, p7: string, p8: string): string
  {
    p1 + p2 + "-" + p3 + "-" + p4 + "-" + p5 + "-" + p6 + p7 + p8
  }

  predicate HexGroup(p: string)
  {
    |p| == 4 && forall i :: 0 <= i < 4 ==> IsHexDigit(p[i])
  }

  lemma AssembleLayout(p1: string, p2: string, p3: string, p4: string, p5: string, p6: string, p7: string, p8: string)
    requires HexGroup(p1) && HexGroup(p2) && HexGroup(p3) && HexGroup(p4)
    requires HexGroup(p5) && HexGroup(p6) && HexGroup(p7) && HexGroup(p8)
    ensures var u := Assemble(p1, p2, p3, p4, p5, p6, p7, p8);
      |u| == 36
      && u[0..4] == p1 && u[4..8] == p2 && u[8] == '-' && u[9..13] == p3 && u[13] == '-'
      && u[14..18] == p4 && u[18] == '-' && u[19..23] == p5 && u[23] == '-'
      && u[24..28] == p6 && u[28..32] == p7 && u[32..36] == p8
      && (forall i :: 0 <= i < 36 && i != 8 && i != 13 && i != 18 && i != 23 ==> IsHexDigit(u[i]))
  {
    var u := Assemble(p1, p2, p3, p4, p5, p6, p7, p8);
    assert forall i :: 0 <= i < 4 ==>
      (u[i] == p1[i] && u[4 + i] == p2[i] && u[9 + i] == p3[i] && u[14 + i] == p4[i]
      && u[19 + i] == p5[i] && u[24 + i] == p6[i] && u[28 + i] == p7[i] && u[32 + i] == p8[i]);
  }

  /**
   * The layout of a version-4 UUID (section 4.4 of RFC 4122): hyphens at
   * 8, 13, 18 and 23, lower-case hex elsewhere, the version digit `4` at 14
   * and a variant digit `8`, `9`, `a` or `b` at 19.
   */
  lemma UuidLayout(x: UuidDraws)
    requires ValidDraws(x)
    ensures var u := UuidString(x);
      u[8] == '-' && u[13] == '-' && u[18] == '-' && u[23] == '-'
      && (forall i :: 0 <= i < 36 && i != 8 && i != 13 && i != 18 && i != 23 ==> IsHexDigit(u[i]))
      && u[14] == '4' && u[19] in "89ab"
  {
    var d := BitOr(x.d, 0x4000);
    var e := BitOr(x.e, 0x8000);
    VersionBits(x.d);
    VariantBits(x.e);
    AssembleLayout(Hex4(x.a), Hex4(x.b), Hex4(x.c), Hex4(d), Hex4(e), Hex4(x.f), Hex4(x.g), Hex4(x.h));
    LeadingHexDigit(d);
    LeadingHexDigit(e);
  }

  /** The first digit `%04x` prints for the version and variant groups. */
  lemma LeadingHexDigit(v: nat)
    requires 0x4000 <= v < 0x5000 || 0x8000 <= v < 0xc000
    ensures v < 0x5000 ==> Hex4(v)[0] == '4'
    ensures v >= 0x8000 ==> Hex4(v)[0] in "89ab"
  {
    assert v / 16 / 16 / 16 == v / 0x1000;
  }

  /** Reading the groups back gives the draws, with the version and variant bits added. */
  lemma UuidFields(x: UuidDraws)
    requires ValidDraws(x)
    ensures var u := UuidString(x);
      Hex4Value(u[0..4]) == x.a && Hex4Value(u[4..8]) == x.b && Hex4Value(u[9..13]) == x.c
      && Hex4Value(u[14..18]) == x.d + 0x4000 && Hex4Value(u[19..23]) == x.e + 0x8000
      && Hex4Value(u[24..28]) == x.f && Hex4Value(u[28..32]) == x.g && Hex4Value(u[32..36]) == x.h
  {
    var d := BitOr(x.d, 0x4000);
    var e := BitOr(x.e, 0x8000);
    VersionBits(x.d);
    VariantBits(x.e);
    AssembleLayout(Hex4(x.a), Hex4(x.b), Hex4(x.c), Hex4(d), Hex4(e), Hex4(x.f), Hex4(x.g), Hex4(x.h));
    Hex4RoundTrip(x.a);
    Hex4RoundTrip(x.b);
    Hex4RoundTrip(x.c);
    Hex4RoundTrip(d);
    Hex4RoundTrip(e);
    Hex4RoundTrip(x.f);
    Hex4RoundTrip(x.g);
    Hex4RoundTrip(x.h);
  }

  // ---------------------------------------------------------------------
  // SplitString

  /**
   * The loop of `SplitString` from the current line `cur` on (`''` while the
   * line is unset): each part and the delimiter are appended, and a line that
   * reaches `minlength` is trimmed of the delimiter and closed.
   */
  function SplitLines(parts: seq<string>, minlength: int, d: char, cur: string): seq<string>
    decreases |parts|
  {
    if |parts| == 0 then (if cur == "" then [] else [cur])
    else
      var line := cur + parts[0] + [d];
      if |line| >= minlength then [Trim(line, {d})] + SplitLines(parts[1..], minlength, d, "")
      else SplitLines(parts[1..], minlength, d, line)
  }

  /** `SplitString` for a one-character delimiter. */
  function SplitString(input: string, minlength: int, splitter: string, d: char): string
  {
    Trim(Join(splitter, SplitLines(Explode(d, input), minlength, d, "")), {d})
  }

  /** The line a group of words makes. */
  function LineOf(g: seq<string>, d: char): string
  {
    Join([d], g)
  }

  /** The group is long enough: its line with the trailing delimiter reaches `minlength`. */
  predicate Reaches(g: seq<string>, minlength: int, d: char)
  {
    |LineOf(g, d)| + 1 >= minlength
  }

  /** The shortest prefix of at least `k` words that reaches `minlength`, or all of them. */
  function CloseAt(ws: seq<string>, minlength: int, d: char, k: nat): (r: nat)
    requires 1 <= k <= |ws|
    ensures k <= r <= |ws|
    ensures r < |ws| ==> Reaches(ws[..r], minlength, d)
    ensures forall j :: k <= j < r ==> !Reaches(ws[..j], minlength, d)
    decreases |ws| - k
  {
    if k == |ws| || Reaches(ws[..k], minlength, d) then k else CloseAt(ws, minlength, d, k + 1)
  }

  /** The words cut greedily into lines: each group is the shortest run that reaches `minlength`. */
  function Groups(ws: seq<string>, minlength: int, d: char): (gs: seq<seq<string>>)
    ensures forall i :: 0 <= i < |gs| ==> |gs[i]| > 0
    decreases |ws|
  {
    if |ws| == 0 then []
    else
      var k := CloseAt(ws, minlength, d, 1);
      [ws[..k]] + Groups(ws[k..], minlength, d)
  }

  function Flatten(gs: seq<seq<string>>): seq<string>
  {
    if |gs| == 0 then [] else gs[0] + Flatten(gs[1..])
  }

  function LinesOf(gs: seq<seq<string>>, d: char): (r: seq<string>)
    ensures |r| == |gs|
    ensures forall i :: 0 <= i < |gs| ==> r[i] == LineOf(gs[i], d)
  {
    seq(|gs|, i requires 0 <= i < |gs| => LineOf(gs[i], d))
  }

  /** The groups hold the words in order, none lost and none repeated. */
  lemma {:induction false} GroupsFlatten(ws: seq<string>, minlength: int, d: char)
    ensures Flatten(Groups(ws, minlength, d)) == ws
    decreases |ws|
  {
    if |ws| > 0 {
      var k := CloseAt(ws, minlength, d, 1);
      GroupsFlatten(ws[k..], minlength, d);
      assert ws[..k] + ws[k..] == ws;
    }
  }

  /**
   * Every group but the last reaches `minlength`, and no group has a shorter
   * non-empty prefix that does.
   */
  lemma {:induction false} GroupsGreedy(ws: seq<string>, minlength: int, d: char)
    ensures var gs := Groups(ws, minlength, d);
      (forall i :: 0 <= i < |gs| - 1 ==> Reaches(gs[i], minlength, d))
      && (forall i, j :: 0 <= i < |gs| && 1 <= j < |gs[i]| ==> !Reaches(gs[i][..j], minlength, d))
    decreases |ws|
  {
    if |ws| > 0 {
      var k := CloseAt(ws, minlength, d, 1);
      var gs := Groups(ws, minlength, d);
      GroupsGreedy(ws[k..], minlength, d);
      assert gs[1..] == Groups(ws[k..], minlength, d);
      forall j | 1 <= j < |gs[0]|
        ensures !Reaches(gs[0][..j], minlength, d)
      {
        assert gs[0][..j] == ws[..j];
      }
      assert |gs| > 1 ==> k < |ws|;
    }
  }

  /** The line the loop holds after the words of `g`. */
  function Open(g: seq<string>, d: char): string
  {
    if |g| == 0 then "" else LineOf(g, d) + [d]
  }

  lemma OpenStep(g: seq<string>, w: string, d: char)
    ensures Open(g, d) + w + [d] == Open(g + [w], d)
  {
    if |g| > 0 {
      JoinAppend([d], g, w);
    } else {
      assert g + [w] == [w];
    }
  }

  predicate GoodWords(ws: seq<string>, d: char)
  {
    forall i :: 0 <= i < |ws| ==> |ws[i]| > 0 && d !in ws[i]
  }

  /** A line of non-empty words starts and ends with a word character, never the delimiter. */
  lemma LineEnds(g: seq<string>, d: char)
    requires |g| > 0 && GoodWords(g, d)
    ensures |LineOf(g, d)| > 0
    ensures LineOf(g, d)[0] == g[0][0] && LineOf(g, d)[|LineOf(g, d)| - 1] == g[|g| - 1][|g[|g| - 1]| - 1]
  {
    JoinEnds([d], g);
  }

  lemma {:induction false} JoinEnds(sep: string, parts: seq<string>)
    requires |parts| > 0 && |parts[0]| > 0 && |parts[|parts| - 1]| > 0
    ensures |Join(sep, parts)| > 0
    ensures Join(sep, parts)[0] == parts[0][0]
    ensures Join(sep, parts)[|Join(sep, parts)| - 1] == parts[|parts| - 1][|parts[|parts| - 1]| - 1]
  {
    if |parts| > 1 {
      assert parts[1..][|parts[1..]| - 1] == parts[|parts| - 1];
      if |parts[1..][0]| > 0 {
        JoinEnds(sep, parts[1..]);
      } else {
        JoinEndsTail(sep, parts[1..]);
      }
    }
  }

  lemma {:induction false} JoinEndsTail(sep: string, parts: seq<string>)
    requires |parts| > 0 && |parts[|parts| - 1]| > 0
    ensures |Join(sep, parts)| > 0
    ensures Join(sep, parts)[|Join(sep, parts)| - 1] == parts[|parts| - 1][|parts[|parts| - 1]| - 1]
  {
    if |parts| > 1 {
      assert parts[1..][|parts[1..]| - 1] == parts[|parts| - 1];
      JoinEndsTail(sep, parts[1..]);
    }
  }

  /** Trimming the delimiter off a closed line leaves the words joined by it. */
  lemma TrimOpen(g: seq<string>, d: char)
    requires |g| > 0 && GoodWords(g, d)
    ensures Trim(Open(g, d), {d}) == LineOf(g, d)
  {
    LineEnds(g, d);
    var l := LineOf(g, d);
    assert TrimLeft(l + [d], {d}) == l + [d];
    assert TrimRight(l + [d], {d}) == TrimRight(l, {d});
    TrimFree(l, {d});
  }

  /** From `j` words into the first group to the end of that group. */
  lemma {:induction false} OneGroup(ws: seq<string>, minlength: int, d: char, j: nat)
    requires GoodWords(ws, d) && |ws| > 0
    requires j < CloseAt(ws, minlength, d, 1)
    ensures var k := CloseAt(ws, minlength, d, 1);
      SplitLines(ws[j..], minlength, d, Open(ws[..j], d))
      == if Reaches(ws[..k], minlength, d) then [LineOf(ws[..k], d)] + SplitLines(ws[k..], minlength, d, "")
         else [Open(ws, d)]
    decreases |ws| - j
  {
    var k := CloseAt(ws, minlength, d, 1);
    if j + 1 < k {
      GroupGrows(ws, minlength, d, j);
      OneGroup(ws, minlength, d, j + 1);
    } else if Reaches(ws[..k], minlength, d) {
      GroupCloses(ws, minlength, d, j);
    } else {
      assert ws[..k] == ws;
      GroupEnds(ws, minlength, d, j);
    }
  }

  /** Before the group closes, the next word only lengthens the open line. */
  lemma GroupGrows(ws: seq<string>, minlength: int, d: char, j: nat)
    requires 1 <= j + 1 < |ws| && !Reaches(ws[..j + 1], minlength, d)
    ensures SplitLines(ws[j..], minlength, d, Open(ws[..j], d))
      == SplitLines(ws[j + 1..], minlength, d, Open(ws[..j + 1], d))
  {
    SplitLinesStep(ws, minlength, d, j);
  }

  /** The word that makes the group reach `minlength` closes its line. */
  lemma GroupCloses(ws: seq<string>, minlength: int, d: char, j: nat)
    requires GoodWords(ws, d) && j < |ws| && Reaches(ws[..j + 1], minlength, d)
    ensures SplitLines(ws[j..], minlength, d, Open(ws[..j], d))
      == [LineOf(ws[..j + 1], d)] + SplitLines(ws[j + 1..], minlength, d, "")
  {
    var g := ws[..j + 1];
    assert Open(g, d) == LineOf(g, d) + [d];
    assert GoodWords(g, d);
    TrimOpen(g, d);
    SplitLinesStep(ws, minlength, d, j);
  }

  /** The last word, when even the whole run falls short, leaves the line open. */
  lemma GroupEnds(ws: seq<string>, minlength: int, d: char, j: nat)
    requires j + 1 == |ws| && !Reaches(ws, minlength, d)
    ensures SplitLines(ws[j..], minlength, d, Open(ws[..j], d)) == [Open(ws, d)]
  {
    SplitLinesStep(ws, minlength, d, j);
    assert ws[..j + 1] == ws;
    assert ws[j + 1..] == [];
  }

  /** One word more for the open line: it closes when long enough, else it stays open. */
  lemma SplitLinesStep(ws: seq<string>, minlength: int, d: char, j: nat)
    requires j < |ws|
    ensures var line := Open(ws[..j + 1], d);
      SplitLines(ws[j..], minlength, d, Open(ws[..j], d))
      == if |line| >= minlength then [Trim(line, {d})] + SplitLines(ws[j + 1..], minlength, d, "")
         else SplitLines(ws[j + 1..], minlength, d, line)
  {
    OpenStep(ws[..j], ws[j], d);
    assert ws[..j] + [ws[j]] == ws[..j + 1];
    assert ws[j..][1..] == ws[j + 1..];
  }

  /** The lines of the groups, the last possibly still holding its trailing delimiter. */
  predicate LinesMatch(ls: seq<string>, gs: seq<seq<string>>, d: char)
  {
    ls == LinesOf(gs, d)
    || (|gs| > 0 && ls == LinesOf(gs, d)[..|gs| - 1] + [LineOf(gs[|gs| - 1], d) + [d]])
  }

  /** A closed group in front keeps the lines matching the groups. */
  lemma LinesMatchCons(g: seq<string>, gs: seq<seq<string>>, ls: seq<string>, d: char)
    requires LinesMatch(ls, gs, d)
    ensures LinesMatch([LineOf(g, d)] + ls, [g] + gs, d)
  {
    LinesCons(g, gs, d);
    if ls != LinesOf(gs, d) {
      var last := [LineOf(gs[|gs| - 1], d) + [d]];
      assert [LineOf(g, d)] + ls == ([LineOf(g, d)] + LinesOf(gs, d)[..|gs| - 1]) + last;
    }
  }

  lemma LinesCons(g: seq<string>, gs: seq<seq<string>>, d: char)
    ensures LinesOf([g] + gs, d) == [LineOf(g, d)] + LinesOf(gs, d)
    ensures |gs| > 0 ==> LinesOf([g] + gs, d)[..|gs|] == [LineOf(g, d)] + LinesOf(gs, d)[..|gs| - 1]
    ensures |gs| > 0 ==> ([g] + gs)[|gs|] == gs[|gs| - 1]
  {
  }

  /** The lines of the loop are the lines of the groups; the last may keep its delimiter. */
  lemma {:induction false} LoopLines(ws: seq<string>, minlength: int, d: char)
    requires GoodWords(ws, d)
    ensures var gs := Groups(ws, minlength, d);
      var ls := SplitLines(ws, minlength, d, "");
      ls == LinesOf(gs, d)
      || (|gs| > 0 && ls == LinesOf(gs, d)[..|gs| - 1] + [LineOf(gs[|gs| - 1], d) + [d]])
    decreases |ws|
  {
    if |ws| > 0 {
      var k := CloseAt(ws, minlength, d, 1);
      var gs := Groups(ws, minlength, d);
      OneGroup(ws, minlength, d, 0);
      assert ws[0..] == ws && ws[..0] == [];
      if Reaches(ws[..k], minlength, d) {
        var rest := ws[k..];
        assert GoodWords(rest, d);
        LoopLines(rest, minlength, d);
        LinesMatchCons(ws[..k], Groups(rest, minlength, d), SplitLines(rest, minlength, d, ""), d);
      } else {
        assert k == |ws|;
        assert ws[..k] == ws;
        assert ws[k..] == [];
        assert gs == [ws];
      }
    }
  }

  lemma {:induction false} GroupsGood(ws: seq<string>, minlength: int, d: char)
    requires GoodWords(ws, d)
    ensures forall i :: 0 <= i < |Groups(ws, minlength, d)| ==> GoodWords(Groups(ws, minlength, d)[i], d)
    decreases |ws|
  {
    if |ws| > 0 {
      var k := CloseAt(ws, minlength, d, 1);
      assert GoodWords(ws[k..], d);
      GroupsGood(ws[k..], minlength, d);
      assert GoodWords(ws[..k], d);
      var gs := Groups(ws, minlength, d);
      var rs := Groups(ws[k..], minlength, d);
      assert gs == [ws[..k]] + rs;
      forall i | 0 <= i < |gs|
        ensures GoodWords(gs[i], d)
      {
        if i == 0 {
          assert gs[0] == ws[..k];
        } else {
          assert gs[i] == rs[i - 1];
          assert GoodWords(rs[i - 1], d);
        }
      }
    }
  }

  lemma {:induction false} JoinLastAppend(sep: string, parts: seq<string>, t: string)
    requires |parts| > 0
    ensures Join(sep, parts[..|parts| - 1] + [parts[|parts| - 1] + t]) == Join(sep, parts) + t
  {
    if |parts| == 1 {
      assert parts[..0] + [parts[0] + t] == [parts[0] + t];
    } else {
      var q := parts[..|parts| - 1] + [parts[|parts| - 1] + t];
      assert q[1..] == parts[1..][..|parts[1..]| - 1] + [parts[1..][|parts[1..]| - 1] + t];
      JoinLastAppend(sep, parts[1..], t);
    }
  }

  /** Lines of non-empty words, glued by any splitter, neither start nor end with the delimiter. */
  lemma JoinedLinesEnds(gs: seq<seq<string>>, splitter: string, d: char)
    requires |gs| > 0 && forall i :: 0 <= i < |gs| ==> |gs[i]| > 0 && GoodWords(gs[i], d)
    ensures var x := Join(splitter, LinesOf(gs, d));
      |x| > 0 && x[0] != d && x[|x| - 1] != d
  {
    var ls := LinesOf(gs, d);
    var n := |gs| - 1;
    LineEnds(gs[0], d);
    LineEnds(gs[n], d);
    JoinEnds(splitter, ls);
    assert gs[0][0][0] in gs[0][0];
    var w := gs[n][|gs[n]| - 1];
    assert w[|w| - 1] in w;
  }

  /**
   * With non-empty words, `SplitString` prints the greedy groups: the words
   * of a group joined by the delimiter, the groups joined by the splitter.
   */
  lemma SplitStringGroups(input: string, minlength: int, splitter: string, d: char)
    requires GoodWords(Explode(d, input), d)
    ensures SplitString(input, minlength, splitter, d)
      == Join(splitter, LinesOf(Groups(Explode(d, input), minlength, d), d))
  {
    var ws := Explode(d, input);
    var gs := Groups(ws, minlength, d);
    var ls := SplitLines(ws, minlength, d, "");
    var x := Join(splitter, LinesOf(gs, d));
    LoopLines(ws, minlength, d);
    GroupsGood(ws, minlength, d);
    assert |gs| > 0;
    JoinedLinesEnds(gs, splitter, d);
    if ls == LinesOf(gs, d) {
      TrimFree(x, {d});
    } else {
      JoinLastAppend(splitter, LinesOf(gs, d), [d]);
      assert Join(splitter, ls) == x + [d];
      assert TrimLeft(x + [d], {d}) == x + [d];
      assert TrimRight(x + [d], {d}) == TrimRight(x, {d});
      TrimFree(x, {d});
    }
  }

  /** With `minlength <= 1` every word closes its own line. */
  lemma {:induction false} GroupsSingletons(ws: seq<string>, minlength: int, d: char)
    requires minlength <= 1
    ensures LinesOf(Groups(ws, minlength, d), d) == ws
    decreases |ws|
  {
    if |ws| > 0 {
      assert Reaches(ws[..1], minlength, d);
      assert CloseAt(ws, minlength, d, 1) == 1;
      GroupsSingletons(ws[1..], minlength, d);
      LinesCons(ws[..1], Groups(ws[1..], minlength, d), d);
      assert LineOf(ws[..1], d) == ws[0];
    }
  }

  lemma SplitStringEachWord(input: string, minlength: int, splitter: string, d: char)
    requires GoodWords(Explode(d, input), d)
    requires minlength <= 1
    ensures SplitString(input, minlength, splitter, d) == Join(splitter, Explode(d, input))
  {
    SplitStringGroups(input, minlength, splitter, d);
    GroupsSingletons(Explode(d, input), minlength, d);
  }

  /** Gluing the lines back with the delimiter in place of the splitter gives the input. */
  lemma {:induction false} LinesJoinFlatten(gs: seq<seq<string>>, d: char)
    requires forall i :: 0 <= i < |gs| ==> |gs[i]| > 0
    ensures Join([d], LinesOf(gs, d)) == Join([d], Flatten(gs))
  {
    if |gs| > 1 {
      LinesJoinFlatten(gs[1..], d);
      LinesJoinStep(gs, d);
    } else if |gs| == 1 {
      assert Flatten(gs) == gs[0] + Flatten(gs[1..]);
      assert gs[1..] == [];
      assert Flatten(gs) == gs[0];
    }
  }

  /** One group in front: its line, the delimiter, then the rest joined. */
  lemma LinesJoinStep(gs: seq<seq<string>>, d: char)
    requires |gs| > 1 && |gs[0]| > 0 && |gs[1]| > 0
    requires Join([d], LinesOf(gs[1..], d)) == Join([d], Flatten(gs[1..]))
    ensures Join([d], LinesOf(gs, d)) == Join([d], Flatten(gs))
  {
    var rest := gs[1..];
    var ls := LinesOf(gs, d);
    LinesCons(gs[0], rest, d);
    assert [gs[0]] + rest == gs;
    assert ls[1..] == LinesOf(rest, d);
    assert Join([d], ls) == LineOf(gs[0], d) + [d] + Join([d], LinesOf(rest, d));
    assert Flatten(gs) == gs[0] + Flatten(rest);
    FlattenNonEmpty(rest);
    JoinConcat([d], gs[0], Flatten(rest));
  }

  lemma {:induction false} FlattenNonEmpty(gs: seq<seq<string>>)
    requires |gs| > 0 && |gs[0]| > 0
    ensures |Flatten(gs)| > 0
  {
  }

  lemma {:induction false} JoinConcat(sep: string, a: seq<string>, b: seq<string>)
    requires |a| > 0 && |b| > 0
    ensures Join(sep, a + b) == Join(sep, a) + sep + Join(sep, b)
  {
    if |a| == 1 {
      assert (a + b)[1..] == b;
    } else {
      assert (a + b)[1..] == a[1..] + b;
      JoinConcat(sep, a[1..], b);
    }
  }

  /**
   * None of the words is lost, repeated or reordered: putting the delimiter
   * back between the lines gives the input again.
   */
  lemma SplitStringKeepsWords(input: string, minlength: int, d: char)
    requires GoodWords(Explode(d, input), d)
    ensures Join([d], LinesOf(Groups(Explode(d, input), minlength, d), d)) == input
  {
    var ws := Explode(d, input);
    LinesJoinFlatten(Groups(ws, minlength, d), d);
    GroupsFlatten(ws, minlength, d);
    JoinExplode(d, input);
  }
}
