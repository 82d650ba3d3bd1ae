/**
 * `BootstrapHelper`: which major Bootstrap version the application uses,
 * worked out once and remembered.
 *
 * The class's two static properties and the application's
 * `params['bsVersion']` are the fields of `State`; each operation takes the
 * state and returns the new one next to its result.
 */
module BootstrapHelper {
  import opened Wrappers
  import opened Text

  /**
   * `bsVersion` is the public static override, `param` the application
   * parameter (`None` when the key is missing), `isBs4` the cached answer.
   */
  datatype State = State(bsVersion: Option<string>, param: Option<string>, isBs4: Option<bool>)

  /** Whether every character of `s` is one `trim` removes. */
  predicate Blank(s: string)
  {
    forall i :: 0 <= i < |s| ==> s[i] in PhpTrimChars
  }

  /** `parseVer`: the first character after leading whitespace, `""` for a blank string. */
  function ParseVer(ver: string): (r: string)
    ensures r == "" <==> Blank(ver)
    ensures r != "" ==> exists k :: 0 <= k < |ver| && r == [ver[k]] && ver[k] !in PhpTrimChars && Blank(ver[..k])
  {
    var t := Trim(ver, PhpTrimChars);
    var l := TrimLeft(ver, PhpTrimChars);
    var k := |ver| - |l|;
    assert Blank(ver[..k]) by {
      forall i | 0 <= i < k
        ensures ver[..k][i] in PhpTrimChars
      {
        assert ver[..k][i] == ver[i];
      }
    }
    if |t| > 0 then
      assert t[0] == l[0] == ver[k];
      Substr(t, 0, Some(1))
    else
      assert |l| == 0 ==> Blank(ver);
      Substr(t, 0, Some(1))
  }

  /** The version string `configureBsVersion` reads: the override, else the parameter, else `3`. */
  function ConfiguredVersion(s: State): (v: string)
    ensures s.bsVersion.Some? ==> v == s.bsVersion.value
    ensures s.bsVersion.None? && s.param.Some? ==> v == s.param.value
    ensures s.bsVersion.None? && s.param.None? ==> v == "3"
  {
    match s.bsVersion
    case Some(v) => v
    case None => match s.param case Some(p) => p case None => "3"
  }

  /** `configureBsVersion`: caches whether the major version is `4` and returns that major version. */
  function ConfigureBsVersion(s: State): (r: (State, string))
    ensures r.0 == s.(isBs4 := Some(r.1 == "4"))
    ensures |r.1| <= 1
  {
    var ver := ParseVer(ConfiguredVersion(s));
    (s.(isBs4 := Some(ver == "4")), ver)
  }

  /** `isBs4`: the cached answer, worked out first if there is none. */
  function IsBs4(s: State): (r: (State, bool))
    ensures r.0.isBs4 == Some(r.1)
    ensures r.0.bsVersion == s.bsVersion && r.0.param == s.param
    ensures s.isBs4.Some? ==> r == (s, s.isBs4.value)
  {
    match s.isBs4
    case Some(b) => (s, b)
    case None =>
      var c := ConfigureBsVersion(s);
      (c.0, c.1 == "4")
  }

  /** A major version given as a string whose first non-blank character is `4`. */
  predicate MajorFour(v: string)
  {
    exists k :: 0 <= k < |v| && v[k] == '4' && Blank(v[..k])
  }

  /** Only one position holds a non-blank character after a blank prefix. */
  lemma FirstNonBlank(v: string, j: int, k: int)
    requires 0 <= j < |v| && v[j] !in PhpTrimChars && Blank(v[..j])
    requires 0 <= k < |v| && v[k] !in PhpTrimChars && Blank(v[..k])
    ensures j == k
  {
    forall i | 0 <= i < k
      ensures v[i] in PhpTrimChars
    {
      assert v[..k][i] == v[i];
    }
    forall i | 0 <= i < j
      ensures v[i] in PhpTrimChars
    {
      assert v[..j][i] == v[i];
    }
  }

  lemma MajorFourParse(v: string)
    ensures ParseVer(v) == "4" <==> MajorFour(v)
  {
    if MajorFour(v) {
      var k :| 0 <= k < |v| && v[k] == '4' && Blank(v[..k]);
      assert !Blank(v) by { assert v[k] !in PhpTrimChars; }
      var j :| 0 <= j < |v| && ParseVer(v) == [v[j]] && v[j] !in PhpTrimChars && Blank(v[..j]);
      FirstNonBlank(v, j, k);
    }
    if ParseVer(v) == "4" {
      var j :| 0 <= j < |v| && ParseVer(v) == [v[j]] && v[j] !in PhpTrimChars && Blank(v[..j]);
      assert v[j] == '4';
    }
  }

  /** With no cached answer, `isBs4` is true exactly when the configured version starts with `4`. */
  lemma IsBs4Major(s: State)
    requires s.isBs4.None?
    ensures IsBs4(s).1 <==> MajorFour(ConfiguredVersion(s))
  {
    MajorFourParse(ConfiguredVersion(s));
  }

  /** Once answered, changing the override or the parameter does not change the answer. */
  lemma IsBs4Memoised(s: State, override: Option<string>, param: Option<string>)
    ensures var t := IsBs4(s).0;
      IsBs4(t.(bsVersion := override, param := param)).1 == IsBs4(s).1
  {
  }

  /** A set override decides the answer whatever the parameter says. */
  lemma OverrideWins(v: string, p1: Option<string>, p2: Option<string>)
    ensures IsBs4(State(Some(v), p1, None)).1 == IsBs4(State(Some(v), p2, None)).1
  {
  }

  /** With neither the override nor the parameter set, the version is 3. */
  lemma DefaultIsThree()
    ensures ConfigureBsVersion(State(None, None, None)).1 == "3"
    ensures !IsBs4(State(None, None, None)).1
  {
    assert TrimLeft("3", PhpTrimChars) == "3";
    assert TrimRight("3", PhpTrimChars) == "3";
  }

  lemma MajorFourExamples()
    ensures MajorFour("4") && MajorFour("4.x") && MajorFour("4.1.1") && MajorFour(" 4")
    ensures !MajorFour("3") && !MajorFour("3.3.7") && !MajorFour("5")
  {
    assert "4"[..0] == "" && "4.x"[..0] == "" && "4.1.1"[..0] == "";
    assert " 4"[1] == '4' && " 4"[..1] == " ";
    assert forall k :: 0 < k < |"3.3.7"| ==> "3.3.7"[..k][0] == '3';
  }

  /** The override `4.x` gives Bootstrap 4; the parameter `3.3.7` does not. */
  lemma IsBs4Examples()
    ensures IsBs4(State(Some("4.x"), Some("3"), None)).1
    ensures !IsBs4(State(None, Some("3.3.7"), None)).1
  {
    MajorFourExamples();
    IsBs4Major(State(Some("4.x"), Some("3"), None));
    IsBs4Major(State(None, Some("3.3.7"), None));
  }
}
