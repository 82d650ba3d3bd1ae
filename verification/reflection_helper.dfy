/**
 * `ReflectionHelper`: the namespace a PHP source file declares, the class
 * name a file is expected to hold, and the parent-class filter.
 *
 * A file is the sequence of lines `file()` returns, each with its line
 * feed. The class hierarchy stays abstract: a class is represented by the
 * set of the names it is a strict subclass of (its ancestors and the
 * interfaces it implements), which is what `ReflectionClass::isSubclassOf`
 * consults. Those names are class-table keys: lowercased, with no leading
 * backslash.
 */
module ReflectionHelper {
  import opened Wrappers
  import opened Text
  import PathHelper

  /** The trimmed line matches `^namespace\W(.*);$`. */
  predicate NamespaceLine(t: string)
  {
    |t| >= 11 && StartsWith(t, "namespace") && !IsWordChar(t[9]) && t[|t| - 1] == ';'
    && NoLineFeed(t[10..|t| - 1])
  }

  /** What `preg_replace` keeps of a namespace line: group 2, between `namespace\W` and the final `;`. */
  function NamespaceOf(t: string): (r: string)
    requires NamespaceLine(t)
    ensures t == t[..10] + r + ";"
  {
    var r := t[10..|t| - 1];
    assert t == t[..10] + r + [t[|t| - 1]];
    r
  }

  /** The line, once trimmed, declares a namespace. */
  predicate Declares(line: string)
  {
    NamespaceLine(Trim(line, PhpTrimChars))
  }

  /** For each line, whether it declares a namespace. */
  function Declarations(lines: seq<string>): (d: seq<bool>)
    ensures |d| == |lines|
    ensures forall i :: 0 <= i < |lines| ==> d[i] == Declares(lines[i])
  {
    if |lines| == 0 then []
    else
      var d := [Declares(lines[0])] + Declarations(lines[1..]);
      assert forall i :: 1 <= i < |lines| ==> lines[i] == lines[1..][i - 1];
      d
  }

  /** The first declaring line at or after `k`, given which lines declare. */
  function FirstDeclaration(declares: seq<bool>, k: nat): (r: Option<nat>)
    ensures r.Some? ==> k <= r.value < |declares| && declares[r.value]
    ensures r.Some? ==> forall j :: k <= j < r.value ==> !declares[j]
    ensures r.None? ==> forall j :: k <= j < |declares| ==> !declares[j]
    decreases |declares| - k
  {
    if k >= |declares| then None
    else if declares[k] then Some(k)
    else FirstDeclaration(declares, k + 1)
  }

  /** `ExtractNamespaceFromFile` over the file's lines: the namespace of the first declaring line. */
  function ExtractNamespace(lines: seq<string>): (r: Option<string>)
    ensures r.None? <==> forall i :: 0 <= i < |lines| ==> !Declares(lines[i])
  {
    var d := Declarations(lines);
    match FirstDeclaration(d, 0)
    case None => None
    case Some(i) => Some(NamespaceOf(Trim(lines[i], PhpTrimChars)))
  }

  /** The line `namespace <ns>;` as a file holds it. */
  function DeclarationLine(ns: string): string
  {
    "namespace " + ns + ";\n"
  }

  /** Trimming the declaration line drops only its line feed. */
  lemma DeclarationTrim(ns: string)
    ensures Trim(DeclarationLine(ns), PhpTrimChars) == "namespace " + ns + ";"
  {
    var d := "namespace " + ns + ";";
    var l := DeclarationLine(ns);
    assert l == d + "\n";
    assert l[0] == 'n';
    TrimLeftKeeps(l, PhpTrimChars);
    assert d[|d| - 1] == ';';
    TrimRightDropsOne(d, '\n', PhpTrimChars);
  }

  lemma TrimLeftKeeps(s: string, cs: set<char>)
    requires |s| > 0 && s[0] !in cs
    ensures TrimLeft(s, cs) == s
  {
  }

  lemma TrimRightDropsOne(d: string, c: char, cs: set<char>)
    requires c in cs && |d| > 0 && d[|d| - 1] !in cs
    ensures TrimRight(d + [c], cs) == d
  {
    assert (d + [c])[..|d|] == d;
  }

  lemma DeclarationMatches(ns: string)
    requires NoLineFeed(ns)
    ensures NamespaceLine("namespace " + ns + ";")
    ensures NamespaceOf("namespace " + ns + ";") == ns
  {
    var d := "namespace " + ns + ";";
    assert d[..9] == "namespace";
    assert d[9] == ' ';
    assert d[10..|d| - 1] == ns;
  }

  /** A declaration after lines that declare nothing is the namespace extracted. */
  lemma ExtractNamespaceDeclared(before: seq<string>, ns: string, after: seq<string>)
    requires forall i :: 0 <= i < |before| ==> !Declares(before[i])
    requires NoLineFeed(ns)
    ensures ExtractNamespace(before + [DeclarationLine(ns)] + after) == Some(ns)
  {
    var lines := before + [DeclarationLine(ns)] + after;
    var k := |before|;
    var d := Declarations(lines);
    DeclarationTrim(ns);
    DeclarationMatches(ns);
    assert lines[k] == DeclarationLine(ns);
    assert d[k];
    forall j | 0 <= j < k
      ensures !d[j]
    {
      assert lines[j] == before[j];
    }
    var r := FirstDeclaration(d, 0);
    assert r.Some?;
    assert r.value == k;
  }

  /**
   * `GetClassNameFromFile`: the namespace, a backslash and the file's stem.
   * Without a namespace `false` converts to `""`, leaving a leading backslash.
   */
  function GetClassNameFromFile(fileName: string, lines: seq<string>): (r: string)
    ensures EndsWith(r, "\\" + PathHelper.FileName(fileName))
    ensures ExtractNamespace(lines).Some? ==> StartsWith(r, ExtractNamespace(lines).value + "\\")
    ensures ExtractNamespace(lines).None? ==> r == "\\" + PathHelper.FileName(fileName)
    ensures ExtractNamespace(lines).Some? ==> r == ExtractNamespace(lines).value + "\\" + PathHelper.FileName(fileName)
  {
    var e := ExtractNamespace(lines);
    Qualified(if e.Some? then e.value else "", PathHelper.ChangeFileExtension(fileName, ""))
  }

  /** A class name qualified by a namespace, which may be empty. */
  function Qualified(ns: string, name: string): (r: string)
    ensures StartsWith(r, ns + "\\") && EndsWith(r, "\\" + name)
    ensures ns == "" ==> r == "\\" + name
    ensures |r| == |ns| + 1 + |name|
  {
    var r := ns + "\\" + name;
    assert r[..|ns| + 1] == ns + "\\";
    assert r[|r| - |name| - 1..] == "\\" + name;
    r
  }

  /**
   * The key under which PHP's class table finds a name: one leading backslash
   * is dropped and the ASCII letters are lowercased.
   */
  function ClassKey(name: string): (k: string)
    ensures forall i :: 0 <= i < |k| ==> !IsUpper(k[i])
    ensures |k| == |name| || (|k| == |name| - 1 && name[0] == '\\')
  {
    Lower(if |name| > 0 && name[0] == '\\' then name[1..] else name)
  }

  /** A fully qualified name and the same name without its leading backslash find the same class. */
  lemma ClassKeyLeadingSlash(n: string)
    requires |n| == 0 || n[0] != '\\'
    ensures ClassKey("\\" + n) == ClassKey(n)
  {
    assert ("\\" + n)[1..] == n;
  }

  /** Names that differ only in the case of ASCII letters find the same class. */
  lemma ClassKeyIgnoresCase(a: string, b: string)
    requires |a| == |b| && forall i :: 0 <= i < |a| ==> LowerChar(a[i]) == LowerChar(b[i])
    requires (|a| > 0 && a[0] == '\\') == (|b| > 0 && b[0] == '\\')
    ensures ClassKey(a) == ClassKey(b)
  {
  }

  /** A `yii\base\Model` subclass passes a filter naming its parent in another case or fully qualified. */
  lemma IsInSubclassOfExample()
    ensures IsInSubclassOf({"yii\\base\\model"}, Some(["yii\\base\\Model"]))
    ensures IsInSubclassOf({"yii\\base\\model"}, Some(["\\yii\\base\\model"]))
    ensures !IsInSubclassOf({"yii\\base\\model"}, Some(["yii\\base\\Component"]))
  {
    ModelKey();
    QualifiedModelKey();
    ComponentKey();
  }

  lemma ModelKey()
    ensures ClassKey("yii\\base\\Model") == "yii\\base\\model"
  {
  }

  lemma QualifiedModelKey()
    ensures ClassKey("\\yii\\base\\model") == "yii\\base\\model"
  {
  }

  lemma ComponentKey()
    ensures ClassKey("yii\\base\\Component") != "yii\\base\\model"
  {
    assert ClassKey("yii\\base\\Component")[9] == 'c';
  }

  /** `IsInSubclassOf`: no filter admits every class; a list admits a class below one of its entries. */
  function IsInSubclassOf(ancestors: set<string>, filter: Option<seq<string>>): (r: bool)
    ensures filter.None? ==> r
    ensures filter.Some? ==> (r <==> exists i :: 0 <= i < |filter.value| && ClassKey(filter.value[i]) in ancestors)
  {
    match filter
    case None => true
    case Some(list) => AnyAncestor(ancestors, list)
  }

  /** The `foreach` over the list: true at the first entry that is an ancestor. */
  function AnyAncestor(ancestors: set<string>, list: seq<string>): (r: bool)
    ensures r <==> exists i :: 0 <= i < |list| && ClassKey(list[i]) in ancestors
  {
    if |list| == 0 then false
    else if ClassKey(list[0]) in ancestors then true
    else
      var r := AnyAncestor(ancestors, list[1..]);
      assert forall i :: 1 <= i < |list| ==> list[i] == list[1..][i - 1];
      assert r ==> exists i :: 0 <= i < |list[1..]| && ClassKey(list[1..][i]) in ancestors;
      r
  }

  /** An empty list admits nothing; adding entries to the list never removes a class. */
  lemma IsInSubclassOfMonotone(ancestors: set<string>, list: seq<string>, more: seq<string>)
    ensures !IsInSubclassOf(ancestors, Some([]))
    ensures IsInSubclassOf(ancestors, Some(list)) ==> IsInSubclassOf(ancestors, Some(list + more))
    ensures IsInSubclassOf(ancestors, Some(list + more))
      == (IsInSubclassOf(ancestors, Some(list)) || IsInSubclassOf(ancestors, Some(more)))
  {
    var all := list + more;
    if IsInSubclassOf(ancestors, Some(list)) {
      var i :| 0 <= i < |list| && ClassKey(list[i]) in ancestors;
      assert all[i] == list[i];
    }
    if IsInSubclassOf(ancestors, Some(more)) {
      var i :| 0 <= i < |more| && ClassKey(more[i]) in ancestors;
      assert all[|list| + i] == more[i];
    }
    if IsInSubclassOf(ancestors, Some(all)) {
      var i :| 0 <= i < |all| && ClassKey(all[i]) in ancestors;
      if i < |list| { assert list[i] == all[i]; } else { assert more[i - |list|] == all[i]; }
    }
  }

  lemma OpenTagDeclaresNothing()
    ensures !Declares("<?php\n")
  {
    TrimLeftKeeps("<?php\n", PhpTrimChars);
    TrimRightDropsOne("<?php", '\n', PhpTrimChars);
    assert "<?php" + ['\n'] == "<?php\n";
  }

  /** The first of two declarations wins. */
  lemma ExtractNamespaceExample()
    ensures ExtractNamespace(["<?php\n", "namespace app\\models;\n", "namespace other;\n"]) == Some("app\\models")
  {
    var lines := ["<?php\n", "namespace app\\models;\n", "namespace other;\n"];
    assert DeclarationLine("app\\models") == "namespace app\\models;\n";
    assert NoLineFeed("app\\models");
    assert lines == ["<?php\n"] + [DeclarationLine("app\\models")] + ["namespace other;\n"];
    OpenTagDeclaresNothing();
    ExtractNamespaceDeclared(["<?php\n"], "app\\models", ["namespace other;\n"]);
  }
}
