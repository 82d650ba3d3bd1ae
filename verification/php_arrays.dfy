/**
 * A PHP array as an ordered sequence of key/value entries.
 *
 * Keys are integers or strings, already normalised the way PHP stores them
 * (a decimal-integer string key such as `'10'` is the integer key 10).
 * Values are null, booleans, integers, strings and nested arrays; floats and
 * objects are not part of the model. PHP itself never stores one key twice:
 * `UniqueKeys` states that, and `WellFormed` states it at every depth.
 *
 * `Set` is the assignment `$a[$k] = $v` (replace in place, or append a new
 * key at the end), `Unset` is `unset($a[$k])`, and `Get` is a single-key
 * lookup that reports a missing key as `None`.
 */
module PhpArrays {
  import opened Wrappers
  import Text

  datatype Key = IntKey(i: int) | StrKey(s: string)

  datatype Value = Null | Bool(b: bool) | Int(n: int) | Str(s: string) | Arr(entries: seq<Entry>)

  datatype Entry = Entry(key: Key, val: Value)

  type PArr = seq<Entry>

  /** `array_keys($a)`. */
  function Keys(a: PArr): (r: seq<Key>)
    ensures |r| == |a|
    ensures forall i :: 0 <= i < |a| ==> r[i] == a[i].key
  {
    seq(|a|, i requires 0 <= i < |a| => a[i].key)
  }

  /** `array_key_exists($k, $a)`. */
  predicate HasKey(a: PArr, k: Key)
  {
    exists i :: 0 <= i < |a| && a[i].key == k
  }

  function KeySet(a: PArr): set<Key>
  {
    set i | 0 <= i < |a| :: a[i].key
  }

  predicate UniqueKeys(a: PArr)
  {
    forall i, j :: 0 <= i < j < |a| ==> a[i].key != a[j].key
  }

  /** Unique keys in the array and in every array nested inside it. */
  predicate WellFormed(a: PArr)
    decreases a, 1
  {
    UniqueKeys(a) && forall i :: 0 <= i < |a| ==> EntryWellFormed(a[i])
  }

  predicate EntryWellFormed(e: Entry)
    decreases e, 0
  {
    match e.val
    case Arr(es) => WellFormed(es)
    case _ => true
  }

  /** `$a[$k]` for a present key, `None` for a missing one. */
  function Get(a: PArr, k: Key): (r: Option<Value>)
    ensures r.Some? <==> HasKey(a, k)
  {
    if |a| == 0 then None
    else if a[0].key == k then Some(a[0].val)
    else
      HasKeyCons(a, k);
      Get(a[1..], k)
  }

  /** `$a[$k] = $v`: replaces the value of an existing key in place, or appends. */
  function Set(a: PArr, k: Key, v: Value): (r: PArr)
  {
    if |a| == 0 then [Entry(k, v)]
    else if a[0].key == k then [Entry(k, v)] + a[1..]
    else [a[0]] + Set(a[1..], k, v)
  }

  /** `unset($a[$k])`. */
  function Unset(a: PArr, k: Key): (r: PArr)
  {
    if |a| == 0 then []
    else if a[0].key == k then Unset(a[1..], k)
    else [a[0]] + Unset(a[1..], k)
  }

  /** `(string)$key`. */
  function KeyToString(k: Key): string
  {
    match k
    case IntKey(i) => Text.IntToDecimal(i)
    case StrKey(s) => s
  }

  /** `(string)$v` for the values `implode` meets; an array converts to `Array`. */
  function ToPhpString(v: Value): string
  {
    match v
    case Null => ""
    case Bool(b) => if b then "1" else ""
    case Int(n) => Text.IntToDecimal(n)
    case Str(s) => s
    case Arr(_) => "Array"
  }

  // ---------------------------------------------------------------------
  // Facts about the primitives

  lemma HasKeyCons(a: PArr, k: Key)
    requires |a| > 0
    ensures HasKey(a, k) <==> a[0].key == k || HasKey(a[1..], k)
  {
    if HasKey(a[1..], k) {
      var j :| 0 <= j < |a[1..]| && a[1..][j].key == k;
      assert a[j + 1].key == k;
    }
    if HasKey(a, k) && a[0].key != k {
      var i :| 0 <= i < |a| && a[i].key == k;
      assert a[1..][i - 1].key == k;
    }
  }

  /** In a unique-key array the first key does not occur again. */
  lemma UniqueTail(a: PArr)
    requires UniqueKeys(a)
    requires |a| > 0
    ensures !HasKey(a[1..], a[0].key)
    ensures UniqueKeys(a[1..])
  {
    forall j | 0 <= j < |a[1..]|
      ensures a[1..][j].key != a[0].key
    {
      assert a[1..][j] == a[j + 1];
    }
  }

  lemma {:induction false} HasKeyConcat(a: PArr, b: PArr, k: Key)
    ensures HasKey(a + b, k) <==> HasKey(a, k) || HasKey(b, k)
    ensures HasKey(a, k) ==> Get(a + b, k) == Get(a, k)
    ensures !HasKey(a, k) ==> Get(a + b, k) == Get(b, k)
  {
    if |a| > 0 {
      assert (a + b)[1..] == a[1..] + b;
      HasKeyConcat(a[1..], b, k);
      HasKeyCons(a, k);
      HasKeyCons(a + b, k);
    } else {
      assert a + b == b;
    }
  }

  lemma GetFirst(a: PArr, i: int)
    requires UniqueKeys(a)
    requires 0 <= i < |a|
    ensures Get(a, a[i].key) == Some(a[i].val)
  {
    if i > 0 {
      assert a[0].key != a[i].key;
      assert a[1..][i - 1] == a[i];
      GetFirst(a[1..], i - 1);
    }
  }

  lemma GetIndex(a: PArr, k: Key) returns (i: nat)
    requires HasKey(a, k)
    ensures i < |a| && a[i].key == k && Get(a, k) == Some(a[i].val)
  {
    if a[0].key == k {
      i := 0;
    } else {
      var j := GetIndex(a[1..], k);
      i := j + 1;
    }
  }

  lemma GetSet(a: PArr, k: Key, v: Value, k': Key)
    ensures Get(Set(a, k, v), k') == if k' == k then Some(v) else Get(a, k')
  {
    if |a| > 0 && a[0].key != k {
      GetSet(a[1..], k, v, k');
    }
  }

  lemma HasKeySet(a: PArr, k: Key, v: Value, k': Key)
    ensures HasKey(Set(a, k, v), k') <==> k' == k || HasKey(a, k')
  {
    GetSet(a, k, v, k');
  }

  lemma GetUnset(a: PArr, k: Key, k': Key)
    ensures Get(Unset(a, k), k') == if k' == k then None else Get(a, k')
  {
    if |a| > 0 {
      GetUnset(a[1..], k, k');
    }
  }

  lemma SetAppends(a: PArr, k: Key, v: Value)
    requires !HasKey(a, k)
    ensures Set(a, k, v) == a + [Entry(k, v)]
  {
    if |a| > 0 {
      HasKeyCons(a, k);
      SetAppends(a[1..], k, v);
    }
  }

  lemma SetReplaces(a: PArr, i: int, v: Value)
    requires UniqueKeys(a)
    requires 0 <= i < |a|
    ensures Set(a, a[i].key, v) == a[i := Entry(a[i].key, v)]
  {
    if i > 0 {
      assert a[0].key != a[i].key;
      assert a[1..][i - 1] == a[i];
      SetReplaces(a[1..], i - 1, v);
      assert [a[0]] + a[1..][i - 1 := Entry(a[i].key, v)] == a[i := Entry(a[i].key, v)];
    }
  }

  lemma SetSame(a: PArr, k: Key, v: Value)
    requires UniqueKeys(a)
    requires Get(a, k) == Some(v)
    ensures Set(a, k, v) == a
  {
    var i := GetIndex(a, k);
    SetReplaces(a, i, v);
  }

  lemma UnsetMissing(a: PArr, k: Key)
    requires !HasKey(a, k)
    ensures Unset(a, k) == a
  {
    if |a| > 0 {
      HasKeyCons(a, k);
      UnsetMissing(a[1..], k);
    }
  }

  lemma {:induction false} UnsetAt(a: PArr, i: int)
    requires UniqueKeys(a)
    requires 0 <= i < |a|
    ensures Unset(a, a[i].key) == a[..i] + a[i + 1..]
  {
    if i == 0 {
      UniqueTail(a);
      UnsetMissing(a[1..], a[0].key);
    } else {
      UniqueTail(a);
      var t := a[1..];
      assert t[i - 1] == a[i];
      assert a[0].key != a[i].key;
      UnsetAt(t, i - 1);
      calc {
        Unset(a, a[i].key);
        [a[0]] + Unset(t, a[i].key);
        [a[0]] + (t[..i - 1] + t[i..]);
        { assert [a[0]] + t[..i - 1] == a[..i]; assert t[i..] == a[i + 1..]; }
        a[..i] + a[i + 1..];
      }
    }
  }

  lemma UniqueSet(a: PArr, k: Key, v: Value)
    requires UniqueKeys(a)
    ensures UniqueKeys(Set(a, k, v))
  {
    if HasKey(a, k) {
      var i := GetIndex(a, k);
      SetReplaces(a, i, v);
    } else {
      SetAppends(a, k, v);
    }
  }

  lemma UniqueUnset(a: PArr, k: Key)
    requires UniqueKeys(a)
    ensures UniqueKeys(Unset(a, k))
  {
    if HasKey(a, k) {
      var i := GetIndex(a, k);
      UnsetAt(a, i);
      var r := a[..i] + a[i + 1..];
      forall x, y | 0 <= x < y < |r|
        ensures r[x].key != r[y].key
      {
        var x' := if x < i then x else x + 1;
        var y' := if y < i then y else y + 1;
        assert r[x] == a[x'] && r[y] == a[y'];
      }
    } else {
      UnsetMissing(a, k);
    }
  }

  lemma KeySetSize(a: PArr)
    requires UniqueKeys(a)
    ensures |KeySet(a)| == |a|
  {
    if |a| > 0 {
      KeySetSize(a[1..]);
      assert KeySet(a) == {a[0].key} + KeySet(a[1..]) by {
        forall k | k in KeySet(a)
          ensures k in {a[0].key} + KeySet(a[1..])
        {
          var i :| 0 <= i < |a| && a[i].key == k;
          if i > 0 {
            assert a[1..][i - 1].key == k;
          }
        }
        forall k | k in KeySet(a[1..])
          ensures k in KeySet(a)
        {
          var i :| 0 <= i < |a[1..]| && a[1..][i].key == k;
          assert a[i + 1].key == k;
        }
      }
      UniqueTail(a);
      HasKeyIffKeySet(a[1..], a[0].key);
    }
  }

  lemma HasKeyIffKeySet(a: PArr, k: Key)
    ensures HasKey(a, k) <==> k in KeySet(a)
  {
    if HasKey(a, k) {
      var i :| 0 <= i < |a| && a[i].key == k;
      assert a[i].key in KeySet(a);
    }
  }

  lemma WellFormedAt(a: PArr, i: int)
    requires WellFormed(a)
    requires 0 <= i < |a|
    requires a[i].val.Arr?
    ensures WellFormed(a[i].val.entries)
  {
    assert EntryWellFormed(a[i]);
  }
}
