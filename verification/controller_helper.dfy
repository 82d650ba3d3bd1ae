/**
 * The naming conventions of controllers and actions: CamelCase class and
 * method names turned into kebab-case route ids, the class-name suffix and
 * namespace stripped, sub-folders of the controller namespace turned into an
 * id prefix, and the gate that maps a kebab action id back to its method.
 *
 * Each PCRE pattern of the helpers is stated as the scan it performs: ASCII
 * character classes, `.` matching anything but a line feed, `$` matching at
 * the end or before one final line feed (`Text.DollarBody`).
 */
module ControllerHelper {
  import opened Wrappers
  import opened Text

  // ---------------------------------------------------------------------
  // GetActionRequestName

  /**
   * `preg_split('/(?=[A-Z])/', s, -1, PREG_SPLIT_NO_EMPTY)`: the subject cut
   * before every uppercase letter; the empty piece a leading uppercase letter
   * would leave is dropped.
   */
  function UpperPieces(s: string): (r: seq<string>)
    ensures |r| == 0 <==> |s| == 0
    ensures |s| > 0 ==> |r[0]| > 0 && r[0][0] == s[0]
  {
    if |s| == 0 then []
    else
      var rest := UpperPieces(s[1..]);
      if |rest| > 0 && !IsUpper(s[1]) then [[s[0]] + rest[0]] + rest[1..]
      else [[s[0]]] + rest
  }

  /** Where the first piece of `UpperPieces(s)` ends: the first uppercase letter after position 0, or the end. */
  function FirstCut(s: string): (n: nat)
    requires |s| > 0
    ensures 1 <= n <= |s|
    ensures forall i :: 1 <= i < n ==> !IsUpper(s[i])
    ensures n < |s| ==> IsUpper(s[n])
  {
    if |s| == 1 || IsUpper(s[1]) then 1 else 1 + FirstCut(s[1..])
  }

  /** The pieces of a piecewise-shaped name: non-empty, capitalised only at the start, every piece but the first starting uppercase. */
  predicate UpperShaped(ps: seq<string>)
  {
    (forall i :: 0 <= i < |ps| ==> |ps[i]| > 0) &&
    (forall i, j :: 0 <= i < |ps| && 1 <= j < |ps[i]| ==> !IsUpper(ps[i][j])) &&
    (forall i :: 1 <= i < |ps| ==> IsUpper(ps[i][0]))
  }

  lemma {:induction false} UpperPiecesHead(s: string)
    requires |s| > 0
    ensures UpperPieces(s)[0] == s[..FirstCut(s)]
    ensures UpperPieces(s)[1..] == UpperPieces(s[FirstCut(s)..])
  {
    var t := s[1..];
    var rest := UpperPieces(t);
    if |s| == 1 || IsUpper(s[1]) {
      assert FirstCut(s) == 1;
      assert UpperPieces(s) == [[s[0]]] + rest;
      assert s[..1] == [s[0]];
    } else {
      assert FirstCut(s) == 1 + FirstCut(t);
      UpperPiecesHead(t);
      assert UpperPieces(s) == [[s[0]] + rest[0]] + rest[1..];
      assert [s[0]] + t[..FirstCut(t)] == s[..1 + FirstCut(t)];
      assert t[FirstCut(t)..] == s[1 + FirstCut(t)..];
    }
  }

  /** The pieces concatenate back to the subject and have the shape the split promises. */
  lemma {:induction false} UpperPiecesSplit(s: string)
    ensures Concat(UpperPieces(s)) == s
    ensures UpperShaped(UpperPieces(s))
    decreases |s|
  {
    if |s| > 0 {
      var n := FirstCut(s);
      UpperPiecesHead(s);
      UpperPiecesSplit(s[n..]);
      var ps := UpperPieces(s);
      var rest := UpperPieces(s[n..]);
      assert ps == [s[..n]] + rest;
      assert Concat(ps) == s[..n] + Concat(rest);
      assert s == s[..n] + s[n..];
      if |rest| > 0 {
        assert rest[0][0] == s[n];
      }
      forall i | 1 <= i < |ps|
        ensures IsUpper(ps[i][0])
      {
        assert ps[i] == rest[i - 1];
      }
      forall i, j | 0 <= i < |ps| && 1 <= j < |ps[i]|
        ensures !IsUpper(ps[i][j])
      {
        if i > 0 {
          assert ps[i] == rest[i - 1];
        }
      }
    }
  }

  /** Conversely, a concatenation of shaped pieces splits back into exactly those pieces. */
  lemma {:induction false} UpperPiecesOf(ps: seq<string>)
    requires UpperShaped(ps)
    ensures UpperPieces(Concat(ps)) == ps
  {
    if |ps| > 0 {
      var s := Concat(ps);
      var p := ps[0];
      assert s == p + Concat(ps[1..]);
      if |ps| > 1 {
        assert Concat(ps[1..]) == ps[1] + Concat(ps[2..]);
        assert s[|p|] == ps[1][0];
      }
      var n := FirstCut(s);
      assert forall i :: 1 <= i < |p| ==> s[i] == p[i];
      assert |ps| == 1 ==> |s| == |p|;
      assert n == |p|;
      UpperPiecesHead(s);
      assert s[n..] == Concat(ps[1..]);
      assert UpperShaped(ps[1..]) by {
        forall i | 0 <= i < |ps[1..]|
          ensures |ps[1..][i]| > 0
        {
          assert ps[1..][i] == ps[i + 1];
        }
        forall i, j | 0 <= i < |ps[1..]| && 1 <= j < |ps[1..][i]|
          ensures !IsUpper(ps[1..][i][j])
        {
          assert ps[1..][i] == ps[i + 1];
        }
        forall i | 1 <= i < |ps[1..]|
          ensures IsUpper(ps[1..][i][0])
        {
          assert ps[1..][i] == ps[i + 1];
        }
      }
      UpperPiecesOf(ps[1..]);
      assert UpperPieces(s) == [UpperPieces(s)[0]] + UpperPieces(s)[1..];
    }
  }

  /** `unset($lines[0])` when the first piece is exactly `action`. */
  function DropActionPiece(ps: seq<string>): (r: seq<string>)
    ensures r == ps || (|ps| > 0 && ps[0] == "action" && r == ps[1..])
  {
    if |ps| > 0 && ps[0] == "action" then ps[1..] else ps
  }

  /**
   * `GetActionRequestName`: `actionSomeActionName` gives `some-action-name`.
   * An empty name has no piece 0; PHP reads it as null, which is not
   * `'action'`, and the result is `''`.
   */
  function GetActionRequestName(action: string): (r: string)
    ensures HasNoUpper(r)
  {
    Lower(Join("-", DropActionPiece(UpperPieces(action))))
  }

  /** A `-` before every uppercase letter of `t`. */
  function HyphenateUpper(t: string): (r: string)
    ensures |r| >= |t|
  {
    if |t| == 0 then "" else (if IsUpper(t[0]) then "-" else "") + [t[0]] + HyphenateUpper(t[1..])
  }

  /** `s` with a `-` before each uppercase letter that is not its first character. */
  function Dashed(s: string): string
  {
    if |s| == 0 then "" else [s[0]] + HyphenateUpper(s[1..])
  }

  lemma JoinGlueFirst(sep: string, x: string, ps: seq<string>)
    requires |ps| > 0
    ensures Join(sep, [x + ps[0]] + ps[1..]) == x + Join(sep, ps)
  {
    if |ps| > 1 {
      assert ([x + ps[0]] + ps[1..])[1..] == ps[1..];
    }
  }

  /** Joining the pieces with `-` puts a dash before each interior uppercase letter. */
  lemma {:induction false} JoinUpperPieces(s: string)
    ensures Join("-", UpperPieces(s)) == Dashed(s)
  {
    if |s| > 0 {
      var t := s[1..];
      JoinUpperPieces(t);
      if |t| == 0 {
        assert UpperPieces(s) == [[s[0]]];
      } else if IsUpper(t[0]) {
        JoinUpperCut(s);
      } else {
        JoinUpperGlue(s);
      }
    }
  }

  /** The step before an uppercase letter: a new piece, so a dash. */
  lemma JoinUpperCut(s: string)
    requires |s| > 1 && IsUpper(s[1])
    requires Join("-", UpperPieces(s[1..])) == Dashed(s[1..])
    ensures Join("-", UpperPieces(s)) == Dashed(s)
  {
    var t := s[1..];
    var rest := UpperPieces(t);
    assert UpperPieces(s) == [[s[0]]] + rest;
    assert ([[s[0]]] + rest)[1..] == rest;
    assert Join("-", UpperPieces(s)) == [s[0]] + "-" + Join("-", rest);
    assert HyphenateUpper(t) == "-" + [t[0]] + HyphenateUpper(t[1..]);
    Assoc3([s[0]], "-", [t[0]] + HyphenateUpper(t[1..]));
  }

  /** The step before any other character: it joins the first piece, so no dash. */
  lemma JoinUpperGlue(s: string)
    requires |s| > 1 && !IsUpper(s[1])
    requires Join("-", UpperPieces(s[1..])) == Dashed(s[1..])
    ensures Join("-", UpperPieces(s)) == Dashed(s)
  {
    var t := s[1..];
    var rest := UpperPieces(t);
    assert UpperPieces(s) == [[s[0]] + rest[0]] + rest[1..];
    JoinGlueFirst("-", [s[0]], rest);
    assert HyphenateUpper(t) == [t[0]] + HyphenateUpper(t[1..]);
  }

  lemma Assoc3(a: string, b: string, c: string)
    ensures a + b + c == a + (b + c)
  {
  }

  /** The name starts with the piece `action`: `action` alone, or followed by an uppercase letter. */
  predicate DropsAction(s: string)
  {
    StartsWith(s, "action") && (|s| == 6 || IsUpper(s[6]))
  }

  /**
   * The request name is the lower-cased name with a `-` before every interior
   * uppercase letter, after a leading `action` piece is removed.
   */
  lemma GetActionRequestNameSpec(action: string)
    ensures DropsAction(action) ==> GetActionRequestName(action) == Lower(Dashed(action[6..]))
    ensures !DropsAction(action) ==> GetActionRequestName(action) == Lower(Dashed(action))
  {
    var ps := UpperPieces(action);
    if |action| > 0 {
      UpperPiecesHead(action);
      var n := FirstCut(action);
      assert ps[0] == action[..n];
      if DropsAction(action) {
        assert action[..6] == "action";
        assert forall i :: 1 <= i < 6 ==> action[i] == "action"[i];
        assert n == 6;
        assert ps == [ps[0]] + ps[1..];
        JoinUpperPieces(action[6..]);
      } else {
        assert DropActionPiece(ps) == ps;
        JoinUpperPieces(action);
      }
    }
  }

  lemma GetActionRequestNameExample1()
    ensures GetActionRequestName("actionSomeActionName") == "some-action-name"
  {
    var a := ["action", "Some", "Action", "Name"];
    ActionExamplePieces1();
    assert DropActionPiece(a) == ["Some", "Action", "Name"];
    ActionExampleText1();
  }

  lemma ActionExamplePieces1()
    ensures UpperPieces("actionSomeActionName") == ["action", "Some", "Action", "Name"]
  {
    ActionExampleShaped1();
    UpperPiecesOf(["action", "Some", "Action", "Name"]);
  }

  lemma ActionExampleShaped1()
    ensures UpperShaped(["action", "Some", "Action", "Name"])
    ensures Concat(["action", "Some", "Action", "Name"]) == "actionSomeActionName"
  {
  }

  lemma ActionExampleText1()
    ensures Lower(Join("-", ["Some", "Action", "Name"])) == "some-action-name"
  {
    assert Join("-", ["Some", "Action", "Name"]) == "Some-Action-Name";
  }

  lemma GetActionRequestNameExample2()
    ensures GetActionRequestName("OtherActionName") == "other-action-name"
  {
    var b := ["Other", "Action", "Name"];
    ActionExamplePieces2();
    assert DropActionPiece(b) == b;
    ActionExampleText2();
  }

  lemma ActionExamplePieces2()
    ensures UpperPieces("OtherActionName") == ["Other", "Action", "Name"]
  {
    ActionExampleShaped2();
    UpperPiecesOf(["Other", "Action", "Name"]);
  }

  lemma ActionExampleShaped2()
    ensures UpperShaped(["Other", "Action", "Name"])
    ensures Concat(["Other", "Action", "Name"]) == "OtherActionName"
  {
  }

  lemma ActionExampleText2()
    ensures Lower(Join("-", ["Other", "Action", "Name"])) == "other-action-name"
  {
    assert Join("-", ["Other", "Action", "Name"]) == "Other-Action-Name";
  }

  // ---------------------------------------------------------------------
  // ExtractControllerName

  /**
   * `(^.+)(\\)([A-Z].+)(Controller$)` can match `body` with its backslash at
   * `p`: at least one character before it, an uppercase letter and at least
   * one more character after it, then the suffix `Controller`, and no line
   * feed anywhere (`.` does not match one).
   */
  predicate NameSplitAt(body: string, p: int)
  {
    1 <= p && p + 13 <= |body| && body[p] == '\\' && IsUpper(body[p + 1])
    && EndsWith(body, "Controller") && NoLineFeed(body)
  }

  /** The greedy `(^.+)` backtracks from the right: the last split position at or below `p`. */
  function LastSplit(body: string, p: int): (r: Option<nat>)
    ensures r.Some? ==> r.value <= p && NameSplitAt(body, r.value)
    ensures forall q :: q <= p && (r.Some? ==> r.value < q) ==> !NameSplitAt(body, q)
    decreases p
  {
    if p < 1 then None
    else if NameSplitAt(body, p) then Some(p)
    else LastSplit(body, p - 1)
  }

  /**
   * `ExtractControllerName`: `preg_replace` with `$3` keeps the part between
   * the chosen backslash and the suffix, and whatever follows the match (the
   * final line feed `$` allowed before). A subject the pattern does not
   * match is returned unchanged.
   */
  function ExtractControllerName(className: string): (r: string)
  {
    var body := DollarBody(className);
    match LastSplit(body, |body| - 13)
    case Some(p) => body[p + 1..|body| - 10] + className[|body|..]
    case None => className
  }

  /** A subject the pattern cannot match is returned unchanged. */
  lemma ExtractControllerNameUnchanged(className: string)
    requires forall q :: !NameSplitAt(DollarBody(className), q)
    ensures ExtractControllerName(className) == className
  {
  }

  /**
   * Otherwise the result is the text after the LAST backslash that can start
   * the match, without the `Controller` suffix: the subject is the matched
   * prefix, the result's name part, the suffix and the trailer, in order.
   */
  lemma ExtractControllerNameAt(className: string, p: int)
    requires NameSplitAt(DollarBody(className), p)
    requires forall q :: p < q ==> !NameSplitAt(DollarBody(className), q)
    ensures var body := DollarBody(className);
      ExtractControllerName(className) == body[p + 1..|body| - 10] + className[|body|..]
    ensures var body := DollarBody(className);
      className == body[..p + 1] + body[p + 1..|body| - 10] + "Controller" + className[|body|..]
  {
    LastSplitAt(DollarBody(className), p);
    SplitShape(className, p);
  }

  /** The search from the right stops at the last split position. */
  lemma LastSplitAt(body: string, p: int)
    requires NameSplitAt(body, p)
    requires forall q :: p < q ==> !NameSplitAt(body, q)
    ensures LastSplit(body, |body| - 13) == Some(p)
  {
  }

  lemma SplitShape(className: string, p: int)
    requires NameSplitAt(DollarBody(className), p)
    ensures var body := DollarBody(className);
      className == body[..p + 1] + body[p + 1..|body| - 10] + "Controller" + className[|body|..]
  {
    var body := DollarBody(className);
    assert body == className[..|body|];
    SplitShapeOf(className, body, p);
  }

  /** A subject whose prefix `b` ends with `Controller`, cut at `p`, before that suffix and after `b`. */
  lemma SplitShapeOf(c: string, b: string, p: int)
    requires |b| <= |c| && c[..|b|] == b && 0 <= p + 1 <= |b| - 10 && b[|b| - 10..] == "Controller"
    ensures c == b[..p + 1] + b[p + 1..|b| - 10] + "Controller" + c[|b|..]
  {
    Split3(b, p + 1, |b| - 10);
    assert c == c[..|b|] + c[|b|..];
  }

  lemma Split3(s: string, i: int, j: int)
    requires 0 <= i <= j <= |s|
    ensures s == s[..i] + s[i..j] + s[j..]
  {
  }

  lemma ExtractControllerNameExample()
    ensures ExtractControllerName("app\\shit\\BlaBlaBlaController") == "BlaBlaBla"
  {
    var s := "app\\shit\\BlaBlaBlaController";
    ExampleSplit();
    assert |s| == 28;
    var r := LastSplit(s, 15);
    assert r == Some(8);
    assert s[9..18] == "BlaBlaBla";
    assert s[28..] == "";
  }

  lemma ExampleSplit()
    ensures DollarBody("app\\shit\\BlaBlaBlaController") == "app\\shit\\BlaBlaBlaController"
    ensures NameSplitAt("app\\shit\\BlaBlaBlaController", 8)
    ensures forall q :: 8 < q ==> !NameSplitAt("app\\shit\\BlaBlaBlaController", q)
  {
    var s := "app\\shit\\BlaBlaBlaController";
    ExampleText();
    ExampleNoLaterSplit(s);
  }

  lemma ExampleText()
    ensures "app\\shit\\BlaBlaBlaController"[18..] == "Controller"
    ensures '\n' !in "app\\shit\\BlaBlaBlaController"
    ensures "app\\shit\\BlaBlaBlaController"[8] == '\\'
    ensures "app\\shit\\BlaBlaBlaController"[9] == 'B'
  {
  }

  lemma ExampleNoLaterSplit(s: string)
    requires s == "app\\shit\\BlaBlaBlaController"
    ensures forall q :: 8 < q ==> !NameSplitAt(s, q)
  {
    var t := "BlaBlaBlaController";
    assert s == "app\\shit\\" + t;
    assert '\\' !in t;
    forall q | 8 < q < |s|
      ensures s[q] != '\\'
    {
      assert s[q] == t[q - 9];
    }
  }

  // ---------------------------------------------------------------------
  // ConvertControllerNameToId and the id-to-class transform

  /** A match of `[[:upper:]][[:lower:]]+` starts at the front of `s`. */
  predicate WordAhead(s: string)
  {
    |s| >= 2 && IsUpper(s[0]) && IsLower(s[1])
  }

  /** The number of lowercase letters at the front of `s`. */
  function LowerRun(s: string): (n: nat)
    ensures n <= |s|
    ensures forall i :: 0 <= i < n ==> IsLower(s[i])
    ensures n < |s| ==> !IsLower(s[n])
  {
    if |s| > 0 && IsLower(s[0]) then 1 + LowerRun(s[1..]) else 0
  }

  /** `[g]` for a non-empty stretch, `[]` for an empty one (`PREG_SPLIT_NO_EMPTY`). */
  function NonEmpty(g: string): (r: seq<string>)
    ensures |g| == 0 ==> r == []
    ensures |g| > 0 ==> r == [g]
  {
    if |g| == 0 then [] else [g]
  }

  /**
   * `preg_split('/([[:upper:]][[:lower:]]+)/', s, -1, PREG_SPLIT_DELIM_CAPTURE | PREG_SPLIT_NO_EMPTY)`
   * scanned left to right: each capitalised word (with all the lowercase
   * letters that follow it) is a piece, and so is each non-empty stretch
   * between them; `gap` is the stretch read so far.
   */
  function Tokens(s: string, gap: string): (r: seq<string>)
    decreases |s|
  {
    if |s| == 0 then NonEmpty(gap)
    else if WordAhead(s) then
      var n := 1 + LowerRun(s[1..]);
      NonEmpty(gap) + [s[..n]] + Tokens(s[n..], "")
    else Tokens(s[1..], gap + [s[0]])
  }

  /** The split loses nothing: its pieces concatenate back to the subject. */
  lemma {:induction false} TokensConcat(s: string, gap: string)
    ensures Concat(Tokens(s, gap)) == gap + s
    decreases |s|
  {
    if |s| == 0 {
      assert gap + s == gap;
    } else if WordAhead(s) {
      var n := 1 + LowerRun(s[1..]);
      TokensConcat(s[n..], "");
      TokensConcatWord(s, gap);
    } else {
      TokensConcat(s[1..], gap + [s[0]]);
      TokensConcatGap(s, gap);
    }
  }

  /** A step over a capitalised word, given that the rest of the split loses nothing. */
  lemma TokensConcatWord(s: string, gap: string)
    requires WordAhead(s)
    requires Concat(Tokens(s[1 + LowerRun(s[1..])..], "")) == "" + s[1 + LowerRun(s[1..])..]
    ensures Concat(Tokens(s, gap)) == gap + s
  {
    var n := 1 + LowerRun(s[1..]);
    var rest := Tokens(s[n..], "");
    assert Tokens(s, gap) == NonEmpty(gap) + [s[..n]] + rest;
    assert "" + s[n..] == s[n..];
    ConcatWordStep(gap, s[..n], rest);
    GlueAt(gap, s, n);
  }

  lemma GlueAt(gap: string, s: string, n: nat)
    requires n <= |s|
    ensures gap + s[..n] + s[n..] == gap + s
  {
    assert s[..n] + s[n..] == s;
  }

  /** A step over a character of the gap, given that the rest of the split loses nothing. */
  lemma TokensConcatGap(s: string, gap: string)
    requires |s| > 0 && !WordAhead(s)
    requires Concat(Tokens(s[1..], gap + [s[0]])) == gap + [s[0]] + s[1..]
    ensures Concat(Tokens(s, gap)) == gap + s
  {
    assert Tokens(s, gap) == Tokens(s[1..], gap + [s[0]]);
    GlueAt(gap, s, 1);
    assert s[..1] == [s[0]];
  }

  /** The pieces of one step of the split concatenate to the gap, the word and the rest. */
  lemma ConcatWordStep(gap: string, w: string, rest: seq<string>)
    ensures Concat(NonEmpty(gap) + [w] + rest) == gap + w + Concat(rest)
  {
    assert NonEmpty(gap) + [w] + rest == NonEmpty(gap) + ([w] + rest);
    ConcatPrefix(NonEmpty(gap), [w] + rest);
    ConcatPrefix([w], rest);
    assert Concat(NonEmpty(gap)) == gap;
    assert Concat([w]) == w;
  }

  lemma {:induction false} ConcatPrefix(a: seq<string>, b: seq<string>)
    ensures Concat(a + b) == Concat(a) + Concat(b)
  {
    if |a| > 0 {
      assert (a + b)[1..] == a[1..] + b;
      ConcatPrefix(a[1..], b);
    } else {
      assert a + b == b;
    }
  }

  /** `ConvertControllerNameToId`: `BlaBlaBla` gives `bla-bla-bla`. */
  function ConvertControllerNameToId(controllerName: string): (r: string)
    ensures HasNoUpper(r)
  {
    Lower(Join("-", Tokens(controllerName, "")))
  }

  /** A capitalised word as the pattern matches it: an uppercase letter and at least one lowercase letter. */
  predicate IsWord(w: string)
  {
    |w| >= 2 && IsUpper(w[0]) && forall i :: 1 <= i < |w| ==> IsLower(w[i])
  }

  predicate AllWords(ws: seq<string>)
  {
    forall i :: 0 <= i < |ws| ==> IsWord(ws[i])
  }

  /** The lowercase run after a capitalised word stops where the next word or the subject ends. */
  lemma WordRun(w: string, rest: string)
    requires IsWord(w)
    requires |rest| == 0 || IsUpper(rest[0])
    ensures WordAhead(w + rest)
    ensures 1 + LowerRun((w + rest)[1..]) == |w|
  {
    var s := w + rest;
    assert s[0] == w[0] && s[1] == w[1];
    forall i | 0 <= i < |w| - 1
      ensures IsLower(s[1..][i])
    {
      assert s[1..][i] == w[i + 1];
    }
    if |rest| > 0 {
      assert s[1..][|w| - 1] == rest[0];
    }
  }

  /** A capitalised word at the front of the subject is the first piece. */
  lemma TokensWord(w: string, rest: string)
    requires IsWord(w)
    requires |rest| == 0 || IsUpper(rest[0])
    ensures Tokens(w + rest, "") == [w] + Tokens(rest, "")
  {
    var s := w + rest;
    WordRun(w, rest);
    var n := 1 + LowerRun(s[1..]);
    assert Tokens(s, "") == NonEmpty("") + [s[..n]] + Tokens(s[n..], "");
    assert s[..n] == w;
    assert s[n..] == rest;
  }

  /** A name made of capitalised words splits into exactly those words. */
  lemma {:induction false} TokensOfWords(ws: seq<string>)
    requires AllWords(ws)
    ensures Tokens(Concat(ws), "") == ws
  {
    if |ws| > 0 {
      var rest := Concat(ws[1..]);
      assert IsWord(ws[0]);
      if |ws| > 1 {
        assert IsWord(ws[1]);
        assert rest == ws[1] + Concat(ws[2..]);
        assert rest[0] == ws[1][0];
      }
      TokensWord(ws[0], rest);
      assert AllWords(ws[1..]) by {
        forall i | 0 <= i < |ws[1..]|
          ensures IsWord(ws[1..][i])
        {
          assert ws[1..][i] == ws[i + 1];
        }
      }
      TokensOfWords(ws[1..]);
      assert ws == [ws[0]] + ws[1..];
    }
  }

  /**
   * The class-name stem built from a controller id before loading its file:
   * `implode('', array_map('ucfirst', preg_split('/-/', id, -1, PREG_SPLIT_NO_EMPTY)))`.
   */
  function IdToClassName(id: string): (r: string)
  {
    Concat(UcFirstAll(NonEmptyPieces(Explode('-', id))))
  }

  /** The non-empty pieces, in order. */
  function NonEmptyPieces(ps: seq<string>): (r: seq<string>)
    ensures |r| <= |ps|
    ensures forall i :: 0 <= i < |r| ==> |r[i]| > 0
  {
    if |ps| == 0 then []
    else if |ps[0]| == 0 then NonEmptyPieces(ps[1..])
    else [ps[0]] + NonEmptyPieces(ps[1..])
  }

  lemma {:induction false} NonEmptyPiecesKeep(ps: seq<string>)
    requires forall i :: 0 <= i < |ps| ==> |ps[i]| > 0
    ensures NonEmptyPieces(ps) == ps
  {
    if |ps| > 0 {
      assert |ps[0]| > 0;
      NonEmptyPiecesKeep(ps[1..]);
    }
  }

  /** A capitalised name's id: the lower-cased words joined by `-`. */
  lemma ConvertWords(ws: seq<string>)
    requires AllWords(ws)
    ensures ConvertControllerNameToId(Concat(ws)) == Join("-", LowerAll(ws))
  {
    TokensOfWords(ws);
    LowerJoin("-", ws);
    assert Lower("-") == "-";
  }

  lemma UcFirstLower(w: string)
    requires IsWord(w)
    ensures UcFirst(Lower(w)) == w
  {
  }

  /** Round trip class to id to class, for names made of capitalised words. */
  lemma ClassIdRoundTrip(ws: seq<string>)
    requires AllWords(ws)
    ensures IdToClassName(ConvertControllerNameToId(Concat(ws))) == Concat(ws)
  {
    ConvertWords(ws);
    LoweredWordsArePieces(ws);
    IdPiecesOf(LowerAll(ws));
    UcFirstLowerAll(ws);
  }

  /** Lowercased capitalised words are non-empty and hold no `-`. */
  lemma LoweredWordsArePieces(ws: seq<string>)
    requires AllWords(ws)
    ensures forall i :: 0 <= i < |ws| ==> '-' !in LowerAll(ws)[i] && |LowerAll(ws)[i]| > 0
  {
    var ls := LowerAll(ws);
    forall i | 0 <= i < |ls|
      ensures '-' !in ls[i] && |ls[i]| > 0
    {
      assert IsWord(ws[i]);
      assert forall j :: 0 <= j < |ls[i]| ==> IsAlpha(ls[i][j]);
    }
  }

  lemma UcFirstLowerAll(ws: seq<string>)
    requires AllWords(ws)
    ensures UcFirstAll(LowerAll(ws)) == ws
  {
    var ls := LowerAll(ws);
    forall i | 0 <= i < |ls|
      ensures UcFirstAll(ls)[i] == ws[i]
    {
      UcFirstLower(ws[i]);
    }
  }

  /** The class-name stem of joined pieces that are non-empty and hold no `-` is their capitalised concatenation. */
  lemma IdPiecesOf(ls: seq<string>)
    requires forall i :: 0 <= i < |ls| ==> '-' !in ls[i] && |ls[i]| > 0
    ensures IdToClassName(Join("-", ls)) == Concat(UcFirstAll(ls))
  {
    if |ls| == 0 {
      assert Explode('-', "") == [""];
    } else {
      ExplodeJoin('-', ls);
      NonEmptyPiecesKeep(ls);
    }
  }

  /** A kebab id word as the round trip needs it: at least two lowercase letters. */
  predicate IsIdWord(l: string)
  {
    |l| >= 2 && forall i :: 0 <= i < |l| ==> IsLower(l[i])
  }

  /** Round trip id to class to id, for ids made of lowercase words of two letters or more. */
  lemma IdClassRoundTrip(ls: seq<string>)
    requires forall i :: 0 <= i < |ls| ==> IsIdWord(ls[i])
    ensures ConvertControllerNameToId(IdToClassName(Join("-", ls))) == Join("-", ls)
  {
    var ws := UcFirstAll(ls);
    forall i | 0 <= i < |ls|
      ensures IsWord(ws[i]) && Lower(ws[i]) == ls[i]
    {
      UcFirstIdWord(ls[i]);
    }
    assert LowerAll(ws) == ls;
    ConvertWords(ws);
    IdPieces(ls);
  }

  lemma UcFirstIdWord(l: string)
    requires IsIdWord(l)
    ensures IsWord(UcFirst(l)) && Lower(UcFirst(l)) == l
  {
    var u := UcFirst(l);
    assert u == [UpperChar(l[0])] + l[1..];
    assert IsUpper(u[0]) && LowerChar(u[0]) == l[0];
    forall i | 1 <= i < |u|
      ensures u[i] == l[i] && IsLower(u[i])
    {
    }
    forall i | 0 <= i < |u|
      ensures Lower(u)[i] == l[i]
    {
    }
  }

  /** The id's class-name stem is the concatenation of its capitalised words. */
  lemma IdPieces(ls: seq<string>)
    requires forall i :: 0 <= i < |ls| ==> IsIdWord(ls[i])
    ensures IdToClassName(Join("-", ls)) == Concat(UcFirstAll(ls))
  {
    forall i | 0 <= i < |ls|
      ensures '-' !in ls[i] && |ls[i]| > 0
    {
      assert IsIdWord(ls[i]);
    }
    IdPiecesOf(ls);
  }

  lemma ConvertControllerNameToIdExamples()
    ensures ConvertControllerNameToId("BlaBlaBla") == "bla-bla-bla"
    ensures ConvertControllerNameToId("DefaultSupaPupa") == "default-supa-pupa"
    ensures IdToClassName("some-id") == "SomeId"
  {
    ConvertExampleBla();
    ConvertWords(["Bla", "Bla", "Bla"]);
    ConvertExampleDefault();
    ConvertWords(["Default", "Supa", "Pupa"]);
    ConvertExampleSome();
    ClassIdRoundTrip(["Some", "Id"]);
    ConvertWords(["Some", "Id"]);
  }

  lemma ConvertExampleBla()
    ensures AllWords(["Bla", "Bla", "Bla"]) && Concat(["Bla", "Bla", "Bla"]) == "BlaBlaBla"
    ensures Join("-", LowerAll(["Bla", "Bla", "Bla"])) == "bla-bla-bla"
  {
    assert Lower("Bla") == "bla";
    assert LowerAll(["Bla", "Bla", "Bla"]) == ["bla", "bla", "bla"];
  }

  lemma ConvertExampleDefault()
    ensures AllWords(["Default", "Supa", "Pupa"]) && Concat(["Default", "Supa", "Pupa"]) == "DefaultSupaPupa"
    ensures Join("-", LowerAll(["Default", "Supa", "Pupa"])) == "default-supa-pupa"
  {
    ConvertExampleDefaultWords();
    ConvertExampleDefaultLower();
    ConvertExampleDefaultJoin();
  }

  lemma ConvertExampleDefaultWords()
    ensures AllWords(["Default", "Supa", "Pupa"]) && Concat(["Default", "Supa", "Pupa"]) == "DefaultSupaPupa"
  {
    assert Concat(["Pupa"]) == "Pupa";
    assert Concat(["Supa", "Pupa"]) == "Supa" + "Pupa";
  }

  lemma ConvertExampleDefaultJoin()
    ensures Join("-", ["default", "supa", "pupa"]) == "default-supa-pupa"
  {
    assert Join("-", ["supa", "pupa"]) == "supa" + "-" + "pupa";
  }

  lemma ConvertExampleDefaultLower()
    ensures LowerAll(["Default", "Supa", "Pupa"]) == ["default", "supa", "pupa"]
  {
    assert Lower("Default") == "default";
    assert Lower("Supa") == "supa";
    assert Lower("Pupa") == "pupa";
  }

  lemma ConvertExampleSome()
    ensures AllWords(["Some", "Id"]) && Concat(["Some", "Id"]) == "SomeId"
    ensures Join("-", LowerAll(["Some", "Id"])) == "some-id"
  {
    assert Lower("Some") == "some";
    assert Lower("Id") == "id";
    assert LowerAll(["Some", "Id"]) == ["some", "id"];
  }

  // ---------------------------------------------------------------------
  // ExtractControllerIdWithSubFolders

  /** `preg_match('/([a-zA-Z0-9])+Controller$/', s)`: an alphanumeric character right before a final `Controller`. */
  predicate HasControllerSuffix(className: string)
  {
    var body := DollarBody(className);
    |body| >= 11 && EndsWith(body, "Controller") && IsAlnum(body[|body| - 11])
  }

  /**
   * `controllers\\([a-zA-Z].+)\\<name>` can match `s` with `controllers\` at
   * `i` and its closing backslash at `e`; group 1 is `s[i + 12..e]`. The name
   * is matched literally.
   */
  predicate FolderMatch(s: string, name: string, i: int, e: int)
  {
    OccursAt(s, "controllers\\", i) && i + 14 <= e < |s| && IsAlpha(s[i + 12])
    && NoLineFeed(s[i + 13..e]) && s[e] == '\\' && OccursAt(s, name, e + 1)
  }

  /** The greedy `.+` in group 1: the last closing backslash at or below `e`. */
  function LastFolderEnd(s: string, name: string, i: int, e: int): (r: Option<int>)
    ensures r.Some? ==> r.value <= e && FolderMatch(s, name, i, r.value)
    ensures forall q :: q <= e && (r.Some? ==> r.value < q) ==> !FolderMatch(s, name, i, q)
    decreases e - i
  {
    if e < i + 14 then None
    else if FolderMatch(s, name, i, e) then Some(e)
    else LastFolderEnd(s, name, i, e - 1)
  }

  /** The leftmost start at or after `i` with some match, and its greedy end. */
  function FirstFolderMatch(s: string, name: string, i: nat): (r: Option<(int, int)>)
    ensures r.Some? ==> i <= r.value.0 && FolderMatch(s, name, r.value.0, r.value.1)
    ensures r.Some? ==> forall q :: r.value.1 < q ==> !FolderMatch(s, name, r.value.0, q)
    ensures forall j, q :: i <= j && (r.Some? ==> j < r.value.0) ==> !FolderMatch(s, name, j, q)
    decreases |s| - i
  {
    if i > |s| then None
    else
      match LastFolderEnd(s, name, i, |s| - 1)
      case Some(e) => Some((i, e))
      case None => FirstFolderMatch(s, name, i + 1)
  }

  /** `str_replace(from, to, s)` for single characters. */
  function ReplaceChar(s: string, from: char, to: char): (r: string)
    ensures |r| == |s|
    ensures forall i :: 0 <= i < |s| ==> r[i] == if s[i] == from then to else s[i]
  {
    seq(|s|, i requires 0 <= i < |s| => if s[i] == from then to else s[i])
  }

  /** The id prefix made of group 1: lower case, namespace separators turned into `/`. */
  function FolderPrefix(group: string): (r: string)
    ensures |r| == |group|
    ensures '\\' !in r && HasNoUpper(r)
  {
    Lower(ReplaceChar(group, '\\', '/'))
  }

  /** `ExtractControllerIdWithSubFolders`: the controller id with its sub-folder prefix, or null for a name that is not a controller class. */
  function ExtractControllerIdWithSubFolders(className: string): (r: Option<string>)
    ensures r.None? <==> !HasControllerSuffix(className)
  {
    if !HasControllerSuffix(className) then None
    else
      var controllerName := ExtractControllerName(className);
      var controllerId := ConvertControllerNameToId(controllerName);
      match FirstFolderMatch(className, controllerName, 0)
      case Some((i, e)) => Some(FolderPrefix(className[i + 12..e]) + "/" + controllerId)
      case None => Some(controllerId)
  }

  /** With no sub-folder match anywhere the result is the bare id. */
  lemma SubFoldersNone(className: string)
    requires HasControllerSuffix(className)
    requires forall j, q :: !FolderMatch(className, ExtractControllerName(className), j, q)
    ensures ExtractControllerIdWithSubFolders(className) ==
      Some(ConvertControllerNameToId(ExtractControllerName(className)))
  {
    var name := ExtractControllerName(className);
    var r := FirstFolderMatch(className, name, 0);
    assert r.None?;
  }

  /**
   * Otherwise the leftmost `controllers\\` whose group can match, with the
   * longest group, gives the prefix.
   */
  lemma SubFoldersFound(className: string, i: int, e: int)
    requires HasControllerSuffix(className)
    requires FolderMatch(className, ExtractControllerName(className), i, e)
    requires forall j, q :: j < i ==> !FolderMatch(className, ExtractControllerName(className), j, q)
    requires forall q :: e < q ==> !FolderMatch(className, ExtractControllerName(className), i, q)
    ensures ExtractControllerIdWithSubFolders(className) ==
      Some(FolderPrefix(className[i + 12..e]) + "/" + ConvertControllerNameToId(ExtractControllerName(className)))
  {
    var name := ExtractControllerName(className);
    var r := FirstFolderMatch(className, name, 0);
    assert r.Some?;
    assert r.value.0 == i;
    assert r.value.1 == e;
  }

  lemma SubFoldersNull()
    ensures ExtractControllerIdWithSubFolders("app\\controllers\\ajax\\Controller") == None
    ensures ExtractControllerIdWithSubFolders("app\\controllers\\ajax\\SomeControllerClass") == None
  {
    SubFoldersNullBare();
    SubFoldersNullTrailing();
  }

  lemma SubFoldersNullBare()
    ensures !HasControllerSuffix("app\\controllers\\ajax\\Controller")
  {
    var a := "app\\controllers\\ajax\\Controller";
    assert DollarBody(a) == a;
    assert a[|a| - 11] == '\\';
  }

  lemma SubFoldersNullTrailing()
    ensures !HasControllerSuffix("app\\controllers\\ajax\\SomeControllerClass")
  {
    var b := "app\\controllers\\ajax\\SomeControllerClass";
    assert DollarBody(b) == b;
    assert b[|b| - 1] == 's';
  }

  /** A class name `pre\\<Name>Controller` with a capitalised, backslash-free name gives that name. */
  lemma ExtractControllerNameOf(pre: string, name: string)
    requires |pre| >= 1 && NoLineFeed(pre)
    requires |name| >= 2 && IsUpper(name[0]) && '\\' !in name && NoLineFeed(name)
    ensures ExtractControllerName(pre + "\\" + name + "Controller") == name
  {
    var s := pre + "\\" + name + "Controller";
    var p := |pre|;
    assert s[|s| - 1] == 'r';
    assert DollarBody(s) == s;
    assert s[p] == '\\' && s[p + 1] == name[0];
    assert s[|s| - 10..] == "Controller";
    assert NoLineFeed(s);
    forall q | p < q < |s|
      ensures s[q] != '\\'
    {
      if q < p + 1 + |name| {
        assert s[q] == name[q - p - 1];
      } else {
        assert s[q] == "Controller"[q - p - 1 - |name|];
      }
    }
    ExtractControllerNameAt(s, p);
    assert s[p + 1..|s| - 10] == name;
  }

  /** No `controllers\\` starts inside the leading namespace part `ns`. */
  predicate NoControllersIn(ns: string)
  {
    forall j :: 0 <= j < |ns| ==> !OccursAt(ns + "controllers\\", "controllers\\", j)
  }

  lemma NoControllersPrefix(ns: string, rest: string, j: int)
    requires NoControllersIn(ns)
    requires 0 <= j < |ns|
    ensures !OccursAt(ns + "controllers\\" + rest, "controllers\\", j)
  {
    var t := ns + "controllers\\";
    var s := t + rest;
    assert !OccursAt(t, "controllers\\", j);
    assert s[j..j + 12] == t[j..j + 12];
  }

  /** Nothing after the backslash that precedes a backslash-free name is a backslash. */
  lemma TailFree(pre: string, name: string, q: int)
    requires '\\' !in name
    requires |pre| < q < |pre + "\\" + name + "Controller"|
    ensures (pre + "\\" + name + "Controller")[q] != '\\'
  {
    var s := pre + "\\" + name + "Controller";
    if q < |pre| + 1 + |name| {
      assert s[q] == name[q - |pre| - 1];
    } else {
      assert s[q] == "Controller"[q - |pre| - 1 - |name|];
    }
  }

  lemma SuffixOf(pre: string, name: string)
    requires |name| >= 1 && IsAlnum(name[|name| - 1])
    ensures HasControllerSuffix(pre + "\\" + name + "Controller")
  {
    var s := pre + "\\" + name + "Controller";
    assert s[|s| - 1] == 'r' && DollarBody(s) == s;
    assert s[|s| - 11] == name[|name| - 1];
    assert s[|s| - 10..] == "Controller";
  }

  /** No match can start inside the leading namespace part. */
  lemma NoEarlierFolder(ns: string, rest: string, name: string)
    requires NoControllersIn(ns)
    ensures forall j, q :: j < |ns| ==> !FolderMatch(ns + "controllers\\" + rest, name, j, q)
  {
    forall j, q | j < |ns|
      ensures !FolderMatch(ns + "controllers\\" + rest, name, j, q)
    {
      if 0 <= j {
        NoControllersPrefix(ns, rest, j);
      }
    }
  }

  /** A controller right inside `controllers`: the id has no prefix. */
  lemma SubFoldersFlatOf(ns: string, name: string)
    requires NoLineFeed(ns) && NoControllersIn(ns)
    requires |name| >= 2 && IsUpper(name[0]) && IsAlnum(name[|name| - 1]) && '\\' !in name && NoLineFeed(name)
    ensures ExtractControllerIdWithSubFolders(ns + "controllers\\" + name + "Controller")
      == Some(ConvertControllerNameToId(name))
  {
    var s := ns + "controllers\\" + name + "Controller";
    var pre := ns + "controllers";
    assert s == pre + "\\" + name + "Controller";
    ExtractControllerNameOf(pre, name);
    SuffixOf(pre, name);
    NoEarlierFolder(ns, name + "Controller", name);
    assert s == ns + "controllers\\" + (name + "Controller");
    forall j, q | |ns| <= j
      ensures !FolderMatch(s, name, j, q)
    {
      if |pre| < q < |s| {
        TailFree(pre, name, q);
      }
    }
    SubFoldersNone(s);
  }

  lemma NoEarlierSubFolder(ns: string, folders: string, name: string)
    requires NoControllersIn(ns)
    ensures forall j, q :: j < |ns| ==>
      !FolderMatch(ns + "controllers\\" + folders + "\\" + name + "Controller", name, j, q)
  {
    var rest := folders + "\\" + name + "Controller";
    assert ns + "controllers\\" + folders + "\\" + name + "Controller" == ns + "controllers\\" + rest;
    NoEarlierFolder(ns, rest, name);
  }

  lemma FolderMatchOf(ns: string, folders: string, name: string)
    requires |folders| >= 2 && IsAlpha(folders[0]) && NoLineFeed(folders)
    ensures FolderMatch(ns + "controllers\\" + folders + "\\" + name + "Controller", name,
      |ns|, |ns + "controllers\\" + folders|)
  {
    var s := ns + "controllers\\" + folders + "\\" + name + "Controller";
    var i := |ns|;
    var e := |ns + "controllers\\" + folders|;
    assert s[i..i + 12] == "controllers\\";
    assert s[i + 12] == folders[0];
    assert s[i + 13..e] == folders[1..];
    assert s[e] == '\\';
    assert s[e + 1..e + 1 + |name|] == name;
  }

  /** No closing backslash after the one before the name. */
  lemma NoLaterEnd(pre: string, name: string, i: int)
    requires '\\' !in name
    ensures forall q :: |pre| < q ==> !FolderMatch(pre + "\\" + name + "Controller", name, i, q)
  {
    var s := pre + "\\" + name + "Controller";
    forall q | |pre| < q
      ensures !FolderMatch(s, name, i, q)
    {
      if q < |s| {
        TailFree(pre, name, q);
      }
    }
  }

  /** A controller in sub-folders of `controllers`: the folders become the id prefix. */
  lemma SubFoldersOf(ns: string, folders: string, name: string)
    requires NoLineFeed(ns) && NoControllersIn(ns)
    requires |folders| >= 2 && IsAlpha(folders[0]) && NoLineFeed(folders)
    requires |name| >= 2 && IsUpper(name[0]) && IsAlnum(name[|name| - 1]) && '\\' !in name && NoLineFeed(name)
    ensures ExtractControllerIdWithSubFolders(ns + "controllers\\" + folders + "\\" + name + "Controller")
      == Some(FolderPrefix(folders) + "/" + ConvertControllerNameToId(name))
  {
    var s := ns + "controllers\\" + folders + "\\" + name + "Controller";
    var pre := ns + "controllers\\" + folders;
    assert s == pre + "\\" + name + "Controller";
    ExtractControllerNameOf(pre, name);
    SuffixOf(pre, name);
    FolderMatchOf(ns, folders, name);
    NoEarlierSubFolder(ns, folders, name);
    NoLaterEnd(pre, name, |ns|);
    assert s[|ns| + 12..|pre|] == folders;
    SubFoldersFound(s, |ns|, |pre|);
  }

  lemma NamespaceAppOk()
    ensures NoLineFeed("app\\") && NoControllersIn("app\\")
  {
    var t := "app\\controllers\\";
    assert "app\\" + "controllers\\" == t;
    forall j | 0 <= j < 4
      ensures !OccursAt(t, "controllers\\", j)
    {
      if OccursAt(t, "controllers\\", j) {
        OccursAtChar(t, "controllers\\", j, 0);
      }
    }
  }

  lemma NamespaceModuleOk()
    ensures NoLineFeed("app\\modules\\test\\") && NoControllersIn("app\\modules\\test\\")
  {
    var ns := "app\\modules\\test\\";
    var u := ns + "controllers\\";
    assert 'c' !in ns;
    forall j | 0 <= j < |ns|
      ensures !OccursAt(u, "controllers\\", j)
    {
      assert u[j] == ns[j];
      if OccursAt(u, "controllers\\", j) {
        OccursAtChar(u, "controllers\\", j, 0);
      }
    }
  }

  lemma NamesExamples()
    ensures NoLineFeed("ajax") && NoLineFeed("ajax\\anotherfolder")
    ensures FolderPrefix("ajax") == "ajax"
    ensures FolderPrefix("ajax\\anotherfolder") == "ajax/anotherfolder"
    ensures '\\' !in "Default" && NoLineFeed("Default")
    ensures '\\' !in "DefaultSupaPupa" && NoLineFeed("DefaultSupaPupa")
  {
    AjaxPrefix();
    NestedPrefix();
  }

  lemma AjaxPrefix()
    ensures FolderPrefix("ajax") == "ajax"
  {
    assert ReplaceChar("ajax", '\\', '/') == "ajax";
  }

  lemma NestedPrefix()
    ensures FolderPrefix("ajax\\anotherfolder") == "ajax/anotherfolder"
  {
    assert ReplaceChar("ajax\\anotherfolder", '\\', '/') == "ajax/anotherfolder";
  }

  // The eight positive cases of the controller-id test.

  lemma SubFoldersExampleApp()
    ensures ExtractControllerIdWithSubFolders("app\\controllers\\DefaultController") == Some("default")
  {
    NamespaceAppOk();
    NamesExamples();
    ConvertDefault();
    SubFoldersExampleTextApp();
    SubFoldersFlatOf("app\\", "Default");
  }

  lemma SubFoldersExampleTextApp()
    ensures "app\\" + "controllers\\" + "Default" + "Controller" == "app\\controllers\\DefaultController"
  {
  }

  lemma SubFoldersExampleAppAjax()
    ensures ExtractControllerIdWithSubFolders("app\\controllers\\ajax\\DefaultController") == Some("ajax/default")
  {
    NamespaceAppOk();
    NamesExamples();
    ConvertDefault();
    SubFoldersExampleTextAppAjax();
    SubFoldersOf("app\\", "ajax", "Default");
  }

  lemma SubFoldersExampleTextAppAjax()
    ensures "app\\" + "controllers\\" + "ajax" + "\\" + "Default" + "Controller" == "app\\controllers\\ajax\\DefaultController"
    ensures "ajax" + "/" + "default" == "ajax/default"
  {
    SubFoldersExampleTextAppAjaxStep1();
    SubFoldersExampleTextAppAjaxStep2();
    SubFoldersExampleTextAppAjaxId();
  }

  lemma SubFoldersExampleTextAppAjaxStep1()
    ensures "app\\" + "controllers\\" == "app\\controllers\\"
    ensures "app\\controllers\\" + "ajax" == "app\\controllers\\ajax"
  {
  }

  lemma SubFoldersExampleTextAppAjaxStep2()
    ensures "app\\controllers\\ajax" + "\\" == "app\\controllers\\ajax\\"
    ensures "app\\controllers\\ajax\\" + "Default" == "app\\controllers\\ajax\\Default"
  {
  }

  lemma SubFoldersExampleTextAppAjaxId()
    ensures "ajax" + "/" + "default" == "ajax/default"
  {
  }

  lemma SubFoldersExampleAppAjaxLong()
    ensures ExtractControllerIdWithSubFolders("app\\controllers\\ajax\\DefaultSupaPupaController") == Some("ajax/default-supa-pupa")
  {
    NamespaceAppOk();
    NamesExamples();
    ConvertDefaultSupaPupa();
    SubFoldersExampleTextAppAjaxLong();
    SubFoldersOf("app\\", "ajax", "DefaultSupaPupa");
  }

  lemma SubFoldersExampleTextAppAjaxLong()
    ensures "app\\" + "controllers\\" + "ajax" + "\\" + "DefaultSupaPupa" + "Controller" == "app\\controllers\\ajax\\DefaultSupaPupaController"
    ensures "ajax" + "/" + "default-supa-pupa" == "ajax/default-supa-pupa"
  {
    SubFoldersExampleTextAppAjaxLongStep1();
    SubFoldersExampleTextAppAjaxLongStep2();
    SubFoldersExampleTextAppAjaxLongId();
  }

  lemma SubFoldersExampleTextAppAjaxLongStep1()
    ensures "app\\" + "controllers\\" == "app\\controllers\\"
    ensures "app\\controllers\\" + "ajax" == "app\\controllers\\ajax"
  {
  }

  lemma SubFoldersExampleTextAppAjaxLongStep2()
    ensures "app\\controllers\\ajax" + "\\" == "app\\controllers\\ajax\\"
    ensures "app\\controllers\\ajax\\" + "DefaultSupaPupa" == "app\\controllers\\ajax\\DefaultSupaPupa"
  {
  }

  lemma SubFoldersExampleTextAppAjaxLongId()
    ensures "ajax" + "/" + "default-supa-pupa" == "ajax/default-supa-pupa"
  {
  }

  lemma SubFoldersExampleAppNested()
    ensures ExtractControllerIdWithSubFolders("app\\controllers\\ajax\\anotherfolder\\DefaultSupaPupaController") == Some("ajax/anotherfolder/default-supa-pupa")
  {
    NamespaceAppOk();
    NamesExamples();
    ConvertDefaultSupaPupa();
    SubFoldersExampleTextAppNested();
    SubFoldersOf("app\\", "ajax\\anotherfolder", "DefaultSupaPupa");
  }

  lemma SubFoldersExampleTextAppNested()
    ensures "app\\" + "controllers\\" + "ajax\\anotherfolder" + "\\" + "DefaultSupaPupa" + "Controller" == "app\\controllers\\ajax\\anotherfolder\\DefaultSupaPupaController"
    ensures "ajax/anotherfolder" + "/" + "default-supa-pupa" == "ajax/anotherfolder/default-supa-pupa"
  {
    SubFoldersExampleTextAppNestedStep1();
    SubFoldersExampleTextAppNestedStep2();
    SubFoldersExampleTextAppNestedId();
  }

  lemma SubFoldersExampleTextAppNestedStep1()
    ensures "app\\" + "controllers\\" == "app\\controllers\\"
    ensures "app\\controllers\\" + "ajax\\anotherfolder" == "app\\controllers\\ajax\\anotherfolder"
  {
  }

  lemma SubFoldersExampleTextAppNestedStep2()
    ensures "app\\controllers\\ajax\\anotherfolder" + "\\" == "app\\controllers\\ajax\\anotherfolder\\"
    ensures "app\\controllers\\ajax\\anotherfolder\\" + "DefaultSupaPupa" == "app\\controllers\\ajax\\anotherfolder\\DefaultSupaPupa"
  {
  }

  lemma SubFoldersExampleTextAppNestedId()
    ensures "ajax/anotherfolder" + "/" + "default-supa-pupa" == "ajax/anotherfolder/default-supa-pupa"
  {
  }

  lemma SubFoldersExampleModule()
    ensures ExtractControllerIdWithSubFolders("app\\modules\\test\\controllers\\DefaultController") == Some("default")
  {
    NamespaceModuleOk();
    NamesExamples();
    ConvertDefault();
    SubFoldersExampleTextModule();
    SubFoldersFlatOf("app\\modules\\test\\", "Default");
  }

  lemma SubFoldersExampleTextModule()
    ensures "app\\modules\\test\\" + "controllers\\" + "Default" + "Controller" == "app\\modules\\test\\controllers\\DefaultController"
  {
  }

  lemma SubFoldersExampleModuleAjax()
    ensures ExtractControllerIdWithSubFolders("app\\modules\\test\\controllers\\ajax\\DefaultController") == Some("ajax/default")
  {
    NamespaceModuleOk();
    NamesExamples();
    ConvertDefault();
    SubFoldersExampleTextModuleAjax();
    SubFoldersOf("app\\modules\\test\\", "ajax", "Default");
  }

  lemma SubFoldersExampleTextModuleAjax()
    ensures "app\\modules\\test\\" + "controllers\\" + "ajax" + "\\" + "Default" + "Controller" == "app\\modules\\test\\controllers\\ajax\\DefaultController"
    ensures "ajax" + "/" + "default" == "ajax/default"
  {
    SubFoldersExampleTextModuleAjaxStep1();
    SubFoldersExampleTextModuleAjaxStep2();
    SubFoldersExampleTextModuleAjaxId();
  }

  lemma SubFoldersExampleTextModuleAjaxStep1()
    ensures "app\\modules\\test\\" + "controllers\\" == "app\\modules\\test\\controllers\\"
    ensures "app\\modules\\test\\controllers\\" + "ajax" == "app\\modules\\test\\controllers\\ajax"
  {
  }

  lemma SubFoldersExampleTextModuleAjaxStep2()
    ensures "app\\modules\\test\\controllers\\ajax" + "\\" == "app\\modules\\test\\controllers\\ajax\\"
    ensures "app\\modules\\test\\controllers\\ajax\\" + "Default" == "app\\modules\\test\\controllers\\ajax\\Default"
  {
  }

  lemma SubFoldersExampleTextModuleAjaxId()
    ensures "ajax" + "/" + "default" == "ajax/default"
  {
  }

  lemma SubFoldersExampleModuleAjaxLong()
    ensures ExtractControllerIdWithSubFolders("app\\modules\\test\\controllers\\ajax\\DefaultSupaPupaController") == Some("ajax/default-supa-pupa")
  {
    NamespaceModuleOk();
    NamesExamples();
    ConvertDefaultSupaPupa();
    SubFoldersExampleTextModuleAjaxLong();
    SubFoldersOf("app\\modules\\test\\", "ajax", "DefaultSupaPupa");
  }

  lemma SubFoldersExampleTextModuleAjaxLong()
    ensures "app\\modules\\test\\" + "controllers\\" + "ajax" + "\\" + "DefaultSupaPupa" + "Controller" == "app\\modules\\test\\controllers\\ajax\\DefaultSupaPupaController"
    ensures "ajax" + "/" + "default-supa-pupa" == "ajax/default-supa-pupa"
  {
    SubFoldersExampleTextModuleAjaxLongStep1();
    SubFoldersExampleTextModuleAjaxLongStep2();
    SubFoldersExampleTextModuleAjaxLongId();
  }

  lemma SubFoldersExampleTextModuleAjaxLongStep1()
    ensures "app\\modules\\test\\" + "controllers\\" == "app\\modules\\test\\controllers\\"
    ensures "app\\modules\\test\\controllers\\" + "ajax" == "app\\modules\\test\\controllers\\ajax"
  {
  }

  lemma SubFoldersExampleTextModuleAjaxLongStep2()
    ensures "app\\modules\\test\\controllers\\ajax" + "\\" == "app\\modules\\test\\controllers\\ajax\\"
    ensures "app\\modules\\test\\controllers\\ajax\\" + "DefaultSupaPupa" == "app\\modules\\test\\controllers\\ajax\\DefaultSupaPupa"
  {
  }

  lemma SubFoldersExampleTextModuleAjaxLongId()
    ensures "ajax" + "/" + "default-supa-pupa" == "ajax/default-supa-pupa"
  {
  }

  lemma SubFoldersExampleModuleNested()
    ensures ExtractControllerIdWithSubFolders("app\\modules\\test\\controllers\\ajax\\anotherfolder\\DefaultSupaPupaController") == Some("ajax/anotherfolder/default-supa-pupa")
  {
    NamespaceModuleOk();
    NamesExamples();
    ConvertDefaultSupaPupa();
    SubFoldersExampleTextModuleNested();
    SubFoldersOf("app\\modules\\test\\", "ajax\\anotherfolder", "DefaultSupaPupa");
  }

  lemma SubFoldersExampleTextModuleNested()
    ensures "app\\modules\\test\\" + "controllers\\" + "ajax\\anotherfolder" + "\\" + "DefaultSupaPupa" + "Controller" == "app\\modules\\test\\controllers\\ajax\\anotherfolder\\DefaultSupaPupaController"
    ensures "ajax/anotherfolder" + "/" + "default-supa-pupa" == "ajax/anotherfolder/default-supa-pupa"
  {
    SubFoldersExampleTextModuleNestedStep1();
    SubFoldersExampleTextModuleNestedStep2();
    SubFoldersExampleTextModuleNestedId();
  }

  lemma SubFoldersExampleTextModuleNestedStep1()
    ensures "app\\modules\\test\\" + "controllers\\" == "app\\modules\\test\\controllers\\"
    ensures "app\\modules\\test\\controllers\\" + "ajax\\anotherfolder" == "app\\modules\\test\\controllers\\ajax\\anotherfolder"
  {
  }

  lemma SubFoldersExampleTextModuleNestedStep2()
    ensures "app\\modules\\test\\controllers\\ajax\\anotherfolder" + "\\" == "app\\modules\\test\\controllers\\ajax\\anotherfolder\\"
    ensures "app\\modules\\test\\controllers\\ajax\\anotherfolder\\" + "DefaultSupaPupa" == "app\\modules\\test\\controllers\\ajax\\anotherfolder\\DefaultSupaPupa"
  {
  }

  lemma SubFoldersExampleTextModuleNestedId()
    ensures "ajax/anotherfolder" + "/" + "default-supa-pupa" == "ajax/anotherfolder/default-supa-pupa"
  {
  }

  lemma ConvertDefault()
    ensures ConvertControllerNameToId("Default") == "default"
  {
    assert AllWords(["Default"]) && Concat(["Default"]) == "Default";
    ConvertWords(["Default"]);
    assert Lower("Default") == "default";
    assert LowerAll(["Default"]) == ["default"];
  }

  lemma ConvertDefaultSupaPupa()
    ensures ConvertControllerNameToId("DefaultSupaPupa") == "default-supa-pupa"
  {
    ConvertExampleDefault();
    ConvertWords(["Default", "Supa", "Pupa"]);
  }

  // ---------------------------------------------------------------------
  // IsControllerHasActionMethod: the name gate and the method name

  /** `[a-z\d_]`. */
  predicate IsKebabChar(c: char)
  {
    IsLower(c) || IsDigit(c) || c == '_'
  }

  predicate IsKebabWord(w: string)
  {
    |w| > 0 && forall i :: 0 <= i < |w| ==> IsKebabChar(w[i])
  }

  /** `preg_match('/^(?:[a-z\d_]+-)*[a-z\d_]+$/', name)`: non-empty `[a-z0-9_]` words joined by single dashes. */
  predicate KebabGate(actionName: string)
  {
    var ps := Explode('-', DollarBody(actionName));
    forall i :: 0 <= i < |ps| ==> IsKebabWord(ps[i])
  }

  /**
   * `'action'.str_replace(' ', '', ucwords(str_replace('-', ' ', name)))` on
   * a name that passed the gate: each dash-separated word gets an uppercase
   * first letter and the dashes go. (A line feed the gate let through at the
   * end stays at the end of the last word.)
   */
  function ActionMethodName(actionName: string): (r: string)
    ensures StartsWith(r, "action")
  {
    "action" + Concat(UcFirstAll(Explode('-', actionName)))
  }

  /**
   * `IsControllerHasActionMethod`. The controller is described by the names of
   * its public methods (`method_exists` followed by the exact `getName()`
   * comparison, so only an exact, public name counts) and by its
   * `disabledActions` list (`None` when it has no such property).
   */
  function IsControllerHasActionMethod(actionName: string, publicMethods: set<string>,
                                       disabledActions: Option<seq<string>>): (r: bool)
    ensures r ==> KebabGate(actionName)
    ensures r ==> ActionMethodName(actionName) in publicMethods
    ensures r && disabledActions.Some? ==> ActionMethodName(actionName) !in disabledActions.value
    ensures (KebabGate(actionName) && ActionMethodName(actionName) in publicMethods
             && (disabledActions.None? || ActionMethodName(actionName) !in disabledActions.value)) ==> r
  {
    if KebabGate(actionName) then
      var m := ActionMethodName(actionName);
      m in publicMethods && (disabledActions.None? || m !in disabledActions.value)
    else false
  }

  /** Every character inside the pieces is a word character. */
  predicate PiecesKebab(ps: seq<string>)
  {
    forall i, j :: 0 <= i < |ps| && 0 <= j < |ps[i]| ==> IsKebabChar(ps[i][j])
  }

  /** A subject whose pieces hold only word characters holds only those and dashes. */
  lemma {:induction false} ExplodeKebab(s: string)
    ensures PiecesKebab(Explode('-', s)) ==> forall k :: 0 <= k < |s| ==> IsKebabChar(s[k]) || s[k] == '-'
  {
    if |s| > 0 {
      var ps := Explode('-', s);
      var rest := Explode('-', s[1..]);
      ExplodeKebab(s[1..]);
      if PiecesKebab(ps) {
        if s[0] == '-' {
          assert ps == [""] + rest;
          assert forall i :: 0 <= i < |rest| ==> rest[i] == ps[i + 1];
        } else {
          assert ps == [[s[0]] + rest[0]] + rest[1..];
          assert IsKebabChar(ps[0][0]);
          assert forall j :: 0 <= j < |rest[0]| ==> rest[0][j] == ps[0][j + 1];
          assert forall i :: 1 <= i < |rest| ==> rest[i] == ps[i];
        }
        assert forall k :: 1 <= k < |s| ==> s[k] == s[1..][k - 1];
      }
    }
  }

  /** A name with an uppercase letter never passes the gate, whatever the controller holds. */
  lemma GateRejectsUpper(actionName: string, i: int)
    requires 0 <= i < |actionName| && IsUpper(actionName[i])
    ensures !KebabGate(actionName)
    ensures forall methods, disabled :: !IsControllerHasActionMethod(actionName, methods, disabled)
  {
    var body := DollarBody(actionName);
    ExplodeKebab(body);
    assert body[i] == actionName[i];
  }

  /** A word of a CamelCase action method name: an uppercase letter, then lowercase letters, digits or `_`. */
  predicate IsActionWord(w: string)
  {
    |w| >= 1 && IsUpper(w[0]) && forall i :: 1 <= i < |w| ==> IsKebabChar(w[i])
  }

  lemma {:induction false} JoinFree(c: char, sep: string, ps: seq<string>)
    requires c !in sep
    requires forall i :: 0 <= i < |ps| ==> c !in ps[i]
    ensures c !in Join(sep, ps)
  {
    if |ps| > 1 {
      JoinFree(c, sep, ps[1..]);
    }
  }

  lemma ShapedCons(p: string, ps: seq<string>)
    requires |p| > 0 && forall j :: 1 <= j < |p| ==> !IsUpper(p[j])
    requires UpperShaped(ps) && (|ps| > 0 ==> IsUpper(ps[0][0]))
    ensures UpperShaped([p] + ps)
  {
    var qs := [p] + ps;
    forall i | 1 <= i < |qs|
      ensures qs[i] == ps[i - 1]
    {
    }
  }

  lemma ActionWordsShaped(ws: seq<string>)
    requires forall i :: 0 <= i < |ws| ==> IsActionWord(ws[i])
    ensures UpperShaped(ws) && (|ws| > 0 ==> IsUpper(ws[0][0]))
  {
    forall i, j | 0 <= i < |ws| && 1 <= j < |ws[i]|
      ensures !IsUpper(ws[i][j])
    {
      assert IsActionWord(ws[i]);
    }
  }

  lemma ActionHasNoInnerUpper()
    ensures |"action"| > 0 && forall j :: 1 <= j < |"action"| ==> !IsUpper("action"[j])
  {
  }

  lemma ActionPieces(ws: seq<string>)
    requires |ws| > 0
    requires forall i :: 0 <= i < |ws| ==> IsActionWord(ws[i])
    ensures UpperPieces("action" + Concat(ws)) == ["action"] + ws
    ensures UpperPieces(Concat(ws)) == ws
  {
    ActionWordsShaped(ws);
    ActionHasNoInnerUpper();
    ShapedCons("action", ws);
    UpperPiecesOf(["action"] + ws);
    UpperPiecesOf(ws);
    assert (["action"] + ws)[1..] == ws;
    assert Concat(["action"] + ws) == "action" + Concat(ws);
  }

  /** Lower-cased action words are gate words, and their dash-join passes the gate. */
  lemma GateOfWords(ws: seq<string>)
    requires |ws| > 0
    requires forall i :: 0 <= i < |ws| ==> IsActionWord(ws[i])
    ensures Explode('-', Join("-", LowerAll(ws))) == LowerAll(ws)
    ensures KebabGate(Join("-", LowerAll(ws)))
    ensures UcFirstAll(LowerAll(ws)) == ws
  {
    var ls := LowerAll(ws);
    var id := Join("-", ls);
    forall i | 0 <= i < |ls|
      ensures IsKebabWord(ls[i]) && '-' !in ls[i] && '\n' !in ls[i] && UcFirst(ls[i]) == ws[i]
    {
      assert IsActionWord(ws[i]);
    }
    JoinFree('\n', "-", ls);
    assert DollarBody(id) == id;
    ExplodeJoin('-', ls);
  }

  /**
   * The route id `IsControllerHasAction` derives from an action method name
   * passes the gate and leads back to the same method: `actionCamelCase`
   * gives `camel-case`, which gives `actionCamelCase`.
   */
  lemma ActionNameRoundTrip(ws: seq<string>)
    requires |ws| > 0
    requires forall i :: 0 <= i < |ws| ==> IsActionWord(ws[i])
    ensures GetActionRequestName("action" + Concat(ws)) == Join("-", LowerAll(ws))
    ensures GetActionRequestName(Concat(ws)) == Join("-", LowerAll(ws))
    ensures KebabGate(Join("-", LowerAll(ws)))
    ensures ActionMethodName(Join("-", LowerAll(ws))) == "action" + Concat(ws)
  {
    ActionPieces(ws);
    assert ws[0] != "action" by {
      assert IsActionWord(ws[0]);
    }
    assert (["action"] + ws)[0] == "action" && (["action"] + ws)[1..] == ws;
    RequestNameOfPieces("action" + Concat(ws), ws);
    RequestNameOfPieces(Concat(ws), ws);
    GateOfWords(ws);
  }

  /** A name whose pieces, after a dropped `action` piece, are `ws` gives their lowercased dash-join. */
  lemma RequestNameOfPieces(s: string, ws: seq<string>)
    requires DropActionPiece(UpperPieces(s)) == ws
    ensures GetActionRequestName(s) == Join("-", LowerAll(ws))
  {
    LowerJoin("-", ws);
    assert Lower("-") == "-";
  }

  /** The cases of the action-method test: `error` maps to `actionError`; the others have an uppercase letter. */
  lemma ActionMethodExampleError(methods: set<string>, disabled: Option<seq<string>>)
    ensures IsControllerHasActionMethod("error", methods, disabled)
      <==> "actionError" in methods && (disabled.None? || "actionError" !in disabled.value)
  {
    ExplodeFree('-', "error");
    assert KebabGate("error");
    ErrorMethodName();
  }

  lemma ErrorMethodName()
    ensures ActionMethodName("error") == "actionError"
  {
    ExplodeFree('-', "error");
    assert UcFirst("error") == "Error";
    assert UcFirstAll(["error"]) == ["Error"];
    assert Concat(["Error"]) == "Error";
  }

  lemma ActionMethodRejectsDefinedError(methods: set<string>, disabled: Option<seq<string>>)
    ensures !IsControllerHasActionMethod("definedError", methods, disabled)
  {
    GateRejectsUpper("definedError", 7);
  }

  lemma ActionMethodRejectsCamelCase(methods: set<string>, disabled: Option<seq<string>>)
    ensures !IsControllerHasActionMethod("camelCase", methods, disabled)
  {
    GateRejectsUpper("camelCase", 5);
  }

  lemma ActionMethodRejectsActionDuplicate(methods: set<string>, disabled: Option<seq<string>>)
    ensures !IsControllerHasActionMethod("actionDuplicate", methods, disabled)
  {
    GateRejectsUpper("actionDuplicate", 6);
  }

  lemma ActionMethodRejectsActionIndex(methods: set<string>, disabled: Option<seq<string>>)
    ensures !IsControllerHasActionMethod("actionIndex", methods, disabled)
  {
    GateRejectsUpper("actionIndex", 6);
  }

  lemma ActionMethodRejectsNotAction(methods: set<string>, disabled: Option<seq<string>>)
    ensures !IsControllerHasActionMethod("notAction", methods, disabled)
  {
    GateRejectsUpper("notAction", 3);
  }

  lemma ActionMethodNameExample()
    ensures ActionMethodName("camel-case") == "actionCamelCase"
  {
    CamelCasePieces();
    CamelCaseWords();
    ActionCamelCase();
  }

  lemma ActionCamelCase()
    ensures "action" + "CamelCase" == "actionCamelCase"
  {
  }

  lemma CamelCasePieces()
    ensures Explode('-', "camel-case") == ["camel", "case"]
  {
    ExplodeGlue('-', "camel", "case");
    ExplodeFree('-', "case");
    assert "camel" + "-" + "case" == "camel-case";
  }

  lemma CamelCaseWords()
    ensures Concat(UcFirstAll(["camel", "case"])) == "CamelCase"
  {
    assert UcFirst("camel") == "Camel" && UcFirst("case") == "Case";
    assert UcFirstAll(["camel", "case"]) == ["Camel", "Case"];
    assert Concat(["Camel", "Case"]) == "Camel" + Concat(["Case"]);
  }
}
