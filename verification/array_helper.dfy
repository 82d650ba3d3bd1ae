/**
 * The array helpers of `ArrayHelper` (both the current class and its older
 * copy, which share these algorithms) over the PHP-array model.
 *
 * By-reference parameters (`setLast`, `initValue`) become functions that
 * return the updated array. Variadic merges take their arguments as a
 * sequence of arrays.
 */
module ArrayHelper {
  import opened Wrappers
  import opened PhpArrays
  import Text

  // =====================================================================
  // diff_keys

  /** One `foreach` of `diff_keys`: copy the entries of `src` whose key `other` lacks. */
  function DiffLoop(acc: PArr, src: PArr, other: PArr): PArr
    decreases |src|
  {
    if |src| == 0 then acc
    else
      var next := if !HasKey(other, src[0].key) then Set(acc, src[0].key, src[0].val) else acc;
      DiffLoop(next, src[1..], other)
  }

  /** `diff_keys($array1, $array2)`. */
  function DiffKeys(a: PArr, b: PArr): PArr
  {
    DiffLoop(DiffLoop([], a, b), b, a)
  }

  /** Reference definition: the entries of `a` whose key `b` lacks, in `a`'s order. */
  function Missing(a: PArr, b: PArr): (r: PArr)
    ensures |r| <= |a|
  {
    if |a| == 0 then []
    else if HasKey(b, a[0].key) then Missing(a[1..], b)
    else [a[0]] + Missing(a[1..], b)
  }

  lemma {:induction false} MissingHasKey(a: PArr, b: PArr, k: Key)
    ensures HasKey(Missing(a, b), k) <==> HasKey(a, k) && !HasKey(b, k)
  {
    if |a| > 0 {
      MissingHasKey(a[1..], b, k);
      HasKeyCons(a, k);
      if !HasKey(b, a[0].key) {
        HasKeyCons(Missing(a, b), k);
      }
    }
  }

  lemma {:induction false} MissingGet(a: PArr, b: PArr, k: Key)
    requires UniqueKeys(a)
    requires !HasKey(b, k)
    ensures Get(Missing(a, b), k) == Get(a, k)
  {
    if |a| > 0 {
      UniqueTail(a);
      MissingGet(a[1..], b, k);
    }
  }

  lemma {:induction false} MissingUnique(a: PArr, b: PArr)
    requires UniqueKeys(a)
    ensures UniqueKeys(Missing(a, b))
  {
    if |a| > 0 {
      UniqueTail(a);
      MissingUnique(a[1..], b);
      if !HasKey(b, a[0].key) {
        var t := Missing(a[1..], b);
        MissingHasKey(a[1..], b, a[0].key);
        var r := [a[0]] + t;
        forall i, j | 0 <= i < j < |r|
          ensures r[i].key != r[j].key
        {
          if i == 0 {
            assert r[j] == t[j - 1];
          } else {
            assert r[i] == t[i - 1] && r[j] == t[j - 1];
          }
        }
      }
    }
  }

  /** The loop appends exactly the missing entries, since each of them is a new key. */
  lemma {:induction false} DiffLoopAppends(acc: PArr, src: PArr, other: PArr)
    requires UniqueKeys(src)
    requires forall k :: HasKey(acc, k) ==> !HasKey(Missing(src, other), k)
    ensures DiffLoop(acc, src, other) == acc + Missing(src, other)
    decreases |src|
  {
    if |src| > 0 {
      UniqueTail(src);
      var e := src[0];
      if !HasKey(other, e.key) {
        assert Missing(src, other) == [e] + Missing(src[1..], other);
        HasKeyCons(Missing(src, other), e.key);
        SetAppends(acc, e.key, e.val);
        var acc' := acc + [e];
        forall k | HasKey(acc', k)
          ensures !HasKey(Missing(src[1..], other), k)
        {
          HasKeyCons(Missing(src, other), k);
          MissingHasKey(src[1..], other, k);
          HasKeyConcat(acc, [e], k);
          HasKeyCons([e], k);
        }
        DiffLoopAppends(acc', src[1..], other);
        assert acc' + Missing(src[1..], other) == acc + Missing(src, other);
      } else {
        DiffLoopAppends(acc, src[1..], other);
      }
    }
  }

  /** Reference form of `diff_keys`: the two filtered inputs, one after the other. */
  lemma DiffKeysIsMissing(a: PArr, b: PArr)
    requires UniqueKeys(a) && UniqueKeys(b)
    ensures DiffKeys(a, b) == Missing(a, b) + Missing(b, a)
  {
    DiffLoopAppends([], a, b);
    assert DiffLoop([], a, b) == Missing(a, b);
    forall k | HasKey(Missing(a, b), k)
      ensures !HasKey(Missing(b, a), k)
    {
      MissingHasKey(a, b, k);
      MissingHasKey(b, a, k);
    }
    DiffLoopAppends(Missing(a, b), b, a);
  }

  /** Two unique-key arrays with no key in common concatenate to a unique-key array. */
  lemma ConcatUnique(x: PArr, y: PArr)
    requires UniqueKeys(x) && UniqueKeys(y)
    requires forall k :: HasKey(x, k) ==> !HasKey(y, k)
    ensures UniqueKeys(x + y)
  {
    forall i, j | 0 <= i < j < |x + y|
      ensures (x + y)[i].key != (x + y)[j].key
    {
      if i < |x| && j >= |x| {
        assert HasKey(x, x[i].key);
        assert (x + y)[j] == y[j - |x|];
      } else if i >= |x| {
        assert (x + y)[i] == y[i - |x|] && (x + y)[j] == y[j - |x|];
      }
    }
  }

  /**
   * `diff_keys(a, b)` is the entries of `a` whose key is not in `b`, followed
   * by the entries of `b` whose key is not in `a`, each with its own value.
   */
  lemma DiffKeysSpec(a: PArr, b: PArr)
    requires UniqueKeys(a) && UniqueKeys(b)
    ensures DiffKeys(a, b) == Missing(a, b) + Missing(b, a)
    ensures UniqueKeys(DiffKeys(a, b))
    ensures forall k :: HasKey(DiffKeys(a, b), k) <==> (HasKey(a, k) != HasKey(b, k))
    ensures forall k :: HasKey(a, k) && !HasKey(b, k) ==> Get(DiffKeys(a, b), k) == Get(a, k)
    ensures forall k :: HasKey(b, k) && !HasKey(a, k) ==> Get(DiffKeys(a, b), k) == Get(b, k)
  {
    DiffKeysIsMissing(a, b);
    var ma, mb := Missing(a, b), Missing(b, a);
    MissingUnique(a, b);
    MissingUnique(b, a);
    forall k | HasKey(ma, k)
      ensures !HasKey(mb, k)
    {
      MissingHasKey(a, b, k);
      MissingHasKey(b, a, k);
    }
    ConcatUnique(ma, mb);
    forall k
      ensures HasKey(ma + mb, k) <==> (HasKey(a, k) != HasKey(b, k))
      ensures HasKey(a, k) && !HasKey(b, k) ==> Get(ma + mb, k) == Get(a, k)
      ensures HasKey(b, k) && !HasKey(a, k) ==> Get(ma + mb, k) == Get(b, k)
    {
      HasKeyConcat(ma, mb, k);
      MissingHasKey(a, b, k);
      MissingHasKey(b, a, k);
      if HasKey(a, k) && !HasKey(b, k) {
        MissingGet(a, b, k);
      }
      if HasKey(b, k) && !HasKey(a, k) {
        MissingGet(b, a, k);
      }
    }
  }

  /** An array differs from itself in no key. */
  lemma {:induction false} DiffKeysSelf(a: PArr)
    requires UniqueKeys(a)
    ensures DiffKeys(a, a) == []
  {
    DiffKeysSpec(a, a);
    MissingSelf(a, a);
  }

  lemma {:induction false} MissingSelf(a: PArr, b: PArr)
    requires forall i :: 0 <= i < |a| ==> HasKey(b, a[i].key)
    ensures Missing(a, b) == []
  {
    if |a| > 0 {
      assert HasKey(b, a[0].key);
      MissingSelf(a[1..], b);
    }
  }

  /** Swapping the arguments of `diff_keys` changes the order of the result, not its key set. */
  lemma DiffKeysSymmetricKeys(a: PArr, b: PArr)
    requires UniqueKeys(a) && UniqueKeys(b)
    ensures KeySet(DiffKeys(a, b)) == KeySet(DiffKeys(b, a))
    ensures |DiffKeys(a, b)| == |DiffKeys(b, a)|
  {
    DiffKeysSpec(a, b);
    DiffKeysSpec(b, a);
    forall k
      ensures k in KeySet(DiffKeys(a, b)) <==> k in KeySet(DiffKeys(b, a))
    {
      HasKeyIffKeySet(DiffKeys(a, b), k);
      HasKeyIffKeySet(DiffKeys(b, a), k);
    }
  }

  // =====================================================================
  // merge_recursive and mergeImplode

  /**
   * The two merges differ only in what a colliding scalar becomes:
   * `merge_recursive` overwrites it, `mergeImplode` glues the old and the new
   * value together as strings (unless the old one is `null`).
   */
  datatype Collision = Overwrite | Glue(glue: string)

  /**
   * The value key `k` holds after an incoming value `v` meets its current value
   * `cur` (`None` when the key is new). Two arrays merge recursively; the
   * recursive call of the source merges `cur` into an empty array first, which
   * leaves a PHP array unchanged (`MergeIntoEmpty`), so it is `MergeInto(cur, v)`.
   */
  function Combine(mode: Collision, cur: Option<Value>, v: Value): Value
    decreases v, 0
  {
    match v
    case Arr(es) =>
      if cur.Some? && cur.value.Arr? then Arr(MergeInto(mode, cur.value.entries, es))
      else Replace(mode, cur, v)
    case _ => Replace(mode, cur, v)
  }

  /** The non-recursive branches: store `v`, or glue it to a non-null current value. */
  function Replace(mode: Collision, cur: Option<Value>, v: Value): Value
  {
    match mode
    case Overwrite => v
    case Glue(g) =>
      if cur.None? || cur.value.Null? then v
      else Str(ToPhpString(cur.value) + g + ToPhpString(v))
  }

  /** The inner `foreach` of both merges: every entry of `arr`, in order, into `acc`. */
  function MergeInto(mode: Collision, acc: PArr, arr: PArr): PArr
    decreases arr, 1
  {
    if |arr| == 0 then acc
    else
      MergeInto(mode, MergeEntry(mode, acc, arr[0]), arr[1..])
  }

  /** One iteration of the inner `foreach`: `$merged[$key] = ...`. */
  function MergeEntry(mode: Collision, acc: PArr, e: Entry): PArr
    decreases e, 1
  {
    Set(acc, e.key, Combine(mode, Get(acc, e.key), e.val))
  }

  /** The outer `while` of both merges; empty arguments are skipped. */
  function MergeAll(mode: Collision, merged: PArr, arrays: seq<PArr>): PArr
    decreases |arrays|
  {
    if |arrays| == 0 then merged
    else if |arrays[0]| == 0 then MergeAll(mode, merged, arrays[1..])
    else MergeAll(mode, MergeInto(mode, merged, arrays[0]), arrays[1..])
  }

  /** `merge_recursive($array1, $array2, ...)`. */
  function MergeRecursive(arrays: seq<PArr>): PArr
    requires |arrays| >= 2
  {
    MergeAll(Overwrite, [], arrays)
  }

  /** `mergeImplode($glue, $array1, $array2, ...)`. */
  function MergeImplode(glue: string, arrays: seq<PArr>): PArr
    requires |arrays| >= 2
  {
    MergeAll(Glue(glue), [], arrays)
  }

  /** A merge has exactly the keys of the accumulator and of the merged array. */
  lemma {:induction false} MergeIntoKeys(mode: Collision, acc: PArr, arr: PArr, k: Key)
    ensures HasKey(MergeInto(mode, acc, arr), k) <==> HasKey(acc, k) || HasKey(arr, k)
    decreases |arr|
  {
    if |arr| > 0 {
      var e := arr[0];
      var acc' := Set(acc, e.key, Combine(mode, Get(acc, e.key), e.val));
      MergeIntoKeys(mode, acc', arr[1..], k);
      HasKeySet(acc, e.key, Combine(mode, Get(acc, e.key), e.val), k);
      HasKeyCons(arr, k);
    }
  }

  lemma {:induction false} MergeIntoUnique(mode: Collision, acc: PArr, arr: PArr)
    requires UniqueKeys(acc)
    ensures UniqueKeys(MergeInto(mode, acc, arr))
    decreases |arr|
  {
    if |arr| > 0 {
      var e := arr[0];
      UniqueSet(acc, e.key, Combine(mode, Get(acc, e.key), e.val));
      MergeIntoUnique(mode, Set(acc, e.key, Combine(mode, Get(acc, e.key), e.val)), arr[1..]);
    }
  }

  /**
   * Key by key, a merge leaves the keys `arr` lacks alone and gives every key
   * of `arr` its `Combine`d value.
   */
  lemma {:induction false} MergeIntoGet(mode: Collision, acc: PArr, arr: PArr, k: Key)
    requires UniqueKeys(arr)
    ensures Get(MergeInto(mode, acc, arr), k)
         == if HasKey(arr, k) then Some(Combine(mode, Get(acc, k), Get(arr, k).value)) else Get(acc, k)
    decreases |arr|
  {
    if |arr| > 0 {
      var e := arr[0];
      var acc' := Set(acc, e.key, Combine(mode, Get(acc, e.key), e.val));
      UniqueTail(arr);
      MergeIntoGet(mode, acc', arr[1..], k);
      GetSet(acc, e.key, Combine(mode, Get(acc, e.key), e.val), k);
      HasKeyCons(arr, k);
    }
  }

  /** Merging into an accumulator that lacks all of `x`'s keys appends `x`. */
  lemma {:induction false} MergeIntoFresh(mode: Collision, acc: PArr, x: PArr)
    requires UniqueKeys(x)
    requires forall k :: HasKey(x, k) ==> !HasKey(acc, k)
    ensures MergeInto(mode, acc, x) == acc + x
    decreases |x|
  {
    if |x| > 0 {
      var e := x[0];
      UniqueTail(x);
      HasKeyCons(x, e.key);
      assert Combine(mode, Get(acc, e.key), e.val) == e.val;
      SetAppends(acc, e.key, e.val);
      var acc' := acc + [e];
      assert MergeEntry(mode, acc, e) == acc';
      forall k | HasKey(x[1..], k)
        ensures !HasKey(acc', k)
      {
        HasKeyCons(x, k);
        HasKeyConcat(acc, [e], k);
        HasKeyCons([e], k);
      }
      MergeIntoFresh(mode, acc', x[1..]);
      assert acc' + x[1..] == acc + x;
    }
  }

  /** Merging a PHP array into an empty one gives it back unchanged. */
  lemma MergeIntoEmpty(mode: Collision, x: PArr)
    requires UniqueKeys(x)
    ensures MergeInto(mode, [], x) == x
  {
    MergeIntoFresh(mode, [], x);
    assert [] + x == x;
  }

  /** Two arguments merge as the first one with the second merged into it. */
  lemma MergeAllPair(mode: Collision, x: PArr, y: PArr)
    requires UniqueKeys(x)
    ensures MergeAll(mode, [], [x, y]) == MergeInto(mode, x, y)
  {
    MergeIntoEmpty(mode, x);
    assert [x, y][1..] == [y];
    if |x| == 0 {
      assert MergeAll(mode, [], [x, y]) == MergeAll(mode, [], [y]);
    } else {
      assert MergeAll(mode, [], [x, y]) == MergeAll(mode, MergeInto(mode, [], x), [y]);
    }
    MergeAllOne(mode, x, y);
  }

  /** A single argument merges into the accumulator; an empty one leaves it as it is. */
  lemma MergeAllOne(mode: Collision, m: PArr, y: PArr)
    ensures MergeAll(mode, m, [y]) == MergeInto(mode, m, y)
  {
    assert [y][1..] == [];
    if |y| == 0 {
      assert MergeAll(mode, m, [y]) == MergeAll(mode, m, []);
    } else {
      assert MergeAll(mode, m, [y]) == MergeAll(mode, MergeInto(mode, m, y), []);
    }
  }

  /**
   * `merge_recursive(x, y)` is `MergeInto(x, y)`: this is the recursive call
   * inside `Combine`, and it shows an empty argument is neutral on either side.
   */
  lemma MergeRecursivePair(x: PArr, y: PArr)
    requires UniqueKeys(x)
    ensures MergeRecursive([x, y]) == MergeInto(Overwrite, x, y)
    ensures MergeRecursive([x, []]) == x
    ensures MergeRecursive([[], x]) == x
  {
    MergeAllPair(Overwrite, x, y);
    MergeAllPair(Overwrite, x, []);
    MergeAllPair(Overwrite, [], x);
    MergeIntoEmpty(Overwrite, x);
  }

  /** `mergeImplode($glue, x, y)` is `MergeInto(x, y)` in glue mode. */
  lemma MergeImplodePair(glue: string, x: PArr, y: PArr)
    requires UniqueKeys(x)
    ensures MergeImplode(glue, [x, y]) == MergeInto(Glue(glue), x, y)
  {
    MergeAllPair(Glue(glue), x, y);
  }

  /** The keys of a merge are the union of the keys of its arguments. */
  lemma {:induction false} MergeAllKeys(mode: Collision, merged: PArr, arrays: seq<PArr>, k: Key)
    ensures HasKey(MergeAll(mode, merged, arrays), k)
        <==> HasKey(merged, k) || exists i :: 0 <= i < |arrays| && HasKey(arrays[i], k)
    decreases |arrays|
  {
    if |arrays| > 0 {
      var next := if |arrays[0]| == 0 then merged else MergeInto(mode, merged, arrays[0]);
      MergeAllKeys(mode, next, arrays[1..], k);
      MergeIntoKeys(mode, merged, arrays[0], k);
      if exists i :: 0 <= i < |arrays| && HasKey(arrays[i], k) {
        var i :| 0 <= i < |arrays| && HasKey(arrays[i], k);
        if i > 0 {
          assert HasKey(arrays[1..][i - 1], k);
        }
      }
      if exists i :: 0 <= i < |arrays[1..]| && HasKey(arrays[1..][i], k) {
        var i :| 0 <= i < |arrays[1..]| && HasKey(arrays[1..][i], k);
        assert HasKey(arrays[i + 1], k);
      }
    }
  }

  lemma MergeRecursiveKeys(arrays: seq<PArr>, k: Key)
    requires |arrays| >= 2
    ensures HasKey(MergeRecursive(arrays), k) <==> exists i :: 0 <= i < |arrays| && HasKey(arrays[i], k)
  {
    MergeAllKeys(Overwrite, [], arrays, k);
  }

  /**
   * In `merge_recursive(x, y)` a key of `y` keeps `y`'s value unless both
   * values are arrays, which merge recursively; integer keys are not renumbered.
   */
  lemma MergeRecursiveValue(x: PArr, y: PArr, k: Key)
    requires WellFormed(x) && UniqueKeys(y)
    ensures var r := Get(MergeRecursive([x, y]), k);
      match Get(y, k)
      case None => r == Get(x, k)
      case Some(v) =>
        if v.Arr? && Get(x, k).Some? && Get(x, k).value.Arr?
        then r == Some(Arr(MergeRecursive([Get(x, k).value.entries, v.entries])))
        else r == Some(v)
  {
    MergeRecursivePair(x, y);
    MergeIntoGet(Overwrite, x, y, k);
    if Get(x, k).Some? && Get(x, k).value.Arr? {
      var i := GetIndex(x, k);
      WellFormedAt(x, i);
      if Get(y, k).Some? && Get(y, k).value.Arr? {
        MergeRecursivePair(Get(x, k).value.entries, Get(y, k).value.entries);
      }
    }
  }

  /**
   * In `mergeImplode($glue, x, y)` a key held by both with a non-null value in
   * `x` and not two arrays becomes `old . glue . new`, with no de-duplication;
   * a key `x` lacks or holds as `null` takes `y`'s value.
   */
  lemma MergeImplodeValue(glue: string, x: PArr, y: PArr, k: Key)
    requires WellFormed(x) && UniqueKeys(y)
    ensures var r := Get(MergeImplode(glue, [x, y]), k);
      match Get(y, k)
      case None => r == Get(x, k)
      case Some(v) =>
        if v.Arr? && Get(x, k).Some? && Get(x, k).value.Arr?
        then r == Some(Arr(MergeImplode(glue, [Get(x, k).value.entries, v.entries])))
        else if Get(x, k).None? || Get(x, k).value.Null? then r == Some(v)
        else r == Some(Str(ToPhpString(Get(x, k).value) + glue + ToPhpString(v)))
  {
    MergeImplodePair(glue, x, y);
    MergeIntoGet(Glue(glue), x, y, k);
    if Get(x, k).Some? && Get(x, k).value.Arr? {
      var i := GetIndex(x, k);
      WellFormedAt(x, i);
      if Get(y, k).Some? && Get(y, k).value.Arr? {
        MergeImplodePair(glue, Get(x, k).value.entries, Get(y, k).value.entries);
      }
    }
  }

  /** A value merged with itself is unchanged. */
  lemma {:induction false} CombineSelf(v: Value)
    requires v.Arr? ==> WellFormed(v.entries)
    ensures Combine(Overwrite, Some(v), v) == v
    decreases v, 0
  {
    match v
    case Arr(es) =>
      forall i | 0 <= i < |es|
        ensures Get(es, es[i].key) == Some(es[i].val)
      {
        GetFirst(es, i);
      }
      MergeIntoSelf(es, es);
    case _ =>
  }

  lemma {:induction false} MergeEntrySelf(acc: PArr, e: Entry)
    requires WellFormed(acc)
    requires Get(acc, e.key) == Some(e.val)
    ensures MergeEntry(Overwrite, acc, e) == acc
    decreases e, 1
  {
    var i := GetIndex(acc, e.key);
    if e.val.Arr? {
      WellFormedAt(acc, i);
    }
    CombineSelf(e.val);
    SetSame(acc, e.key, e.val);
  }

  /** Merging entries the accumulator already holds changes nothing. */
  lemma {:induction false} MergeIntoSelf(acc: PArr, arr: PArr)
    requires WellFormed(acc)
    requires forall i :: 0 <= i < |arr| ==> Get(acc, arr[i].key) == Some(arr[i].val)
    ensures MergeInto(Overwrite, acc, arr) == acc
    decreases arr, 1
  {
    if |arr| > 0 {
      MergeEntrySelf(acc, arr[0]);
      MergeIntoSelf(acc, arr[1..]);
    }
  }

  /** `merge_recursive(a, a) == a`. */
  lemma MergeRecursiveIdempotent(a: PArr)
    requires WellFormed(a)
    ensures MergeRecursive([a, a]) == a
  {
    MergeRecursivePair(a, a);
    forall i | 0 <= i < |a|
      ensures Get(a, a[i].key) == Some(a[i].val)
    {
      GetFirst(a, i);
    }
    MergeIntoSelf(a, a);
  }

  /** The documented example: `[10 => [5 => [3, 2]]]` and `[10 => [6 => [4, 7]]]`. */
  lemma MergeRecursiveExample()
    ensures
      var l32 := Arr([Entry(IntKey(0), Int(3)), Entry(IntKey(1), Int(2))]);
      var l47 := Arr([Entry(IntKey(0), Int(4)), Entry(IntKey(1), Int(7))]);
      MergeRecursive([[Entry(IntKey(10), Arr([Entry(IntKey(5), l32)]))],
                      [Entry(IntKey(10), Arr([Entry(IntKey(6), l47)]))]])
      == [Entry(IntKey(10), Arr([Entry(IntKey(5), l32), Entry(IntKey(6), l47)]))]
  {
    var l32 := Arr([Entry(IntKey(0), Int(3)), Entry(IntKey(1), Int(2))]);
    var l47 := Arr([Entry(IntKey(0), Int(4)), Entry(IntKey(1), Int(7))]);
    var x := [Entry(IntKey(10), Arr([Entry(IntKey(5), l32)]))];
    var y := [Entry(IntKey(10), Arr([Entry(IntKey(6), l47)]))];
    MergeRecursivePair(x, y);
    var inner := MergeInto(Overwrite, [Entry(IntKey(5), l32)], [Entry(IntKey(6), l47)]);
    assert inner == [Entry(IntKey(5), l32), Entry(IntKey(6), l47)] by {
      MergeIntoFresh(Overwrite, [Entry(IntKey(5), l32)], [Entry(IntKey(6), l47)]);
    }
    assert MergeInto(Overwrite, x, y) == MergeInto(Overwrite, MergeEntry(Overwrite, x, y[0]), []);
  }

  /** Glue mode does not de-duplicate: `mergeImplode(',', ['a' => 'x'], ['a' => 'x'])` gives `'x,x'`. */
  lemma MergeImplodeExample()
    ensures MergeImplode(",", [[Entry(StrKey("a"), Str("x"))], [Entry(StrKey("a"), Str("x"))]])
         == [Entry(StrKey("a"), Str("x,x"))]
  {
    var x := [Entry(StrKey("a"), Str("x"))];
    MergeImplodePair(",", x, x);
    assert Get(x, StrKey("a")) == Some(Str("x"));
    assert Combine(Glue(","), Some(Str("x")), Str("x")) == Str("x,x");
    assert MergeEntry(Glue(","), x, x[0]) == [Entry(StrKey("a"), Str("x,x"))];
    assert MergeInto(Glue(","), x, x) == MergeInto(Glue(","), MergeEntry(Glue(","), x, x[0]), []);
  }

  // =====================================================================
  // isEqual (the comparisons that do not involve floats)

  const FlagCompareKeys := 1
  const FlagCompareValues := 2
  const FlagCompareKeyValuePairs := 4
  const FlagsDefault := FlagCompareKeys + FlagCompareValues + FlagCompareKeyValuePairs

  /** `$flags & $mask` is non-zero, for a one-bit mask; two's complement for negative flags. */
  predicate HasFlag(flags: int, mask: int)
    requires mask == 1 || mask == 2 || mask == 4
  {
    (flags / mask) % 2 == 1
  }

  /** Strict `in_array($v, $b, true)`: some value of `b` is identical to `v`. */
  function ValueIn(v: Value, b: PArr): (r: bool)
    ensures r <==> exists j :: 0 <= j < |b| && b[j].val == v
  {
    if |b| == 0 then false
    else if b[0].val == v then true
    else
      var r := ValueIn(v, b[1..]);
      assert r <==> exists j :: 0 <= j < |b| && b[j].val == v by {
        if r {
          var j :| 0 <= j < |b[1..]| && b[1..][j].val == v;
          assert b[j + 1].val == v;
        }
        if exists j :: 0 <= j < |b| && b[j].val == v {
          var j :| 0 <= j < |b| && b[j].val == v;
          assert b[1..][j - 1].val == v;
        }
      }
      r
  }

  /** `isEqual($array_one, $array_two, $flags)`; a size mismatch is always false. */
  function IsEqual(a: PArr, b: PArr, flags: int): (r: bool)
    ensures r ==> |a| == |b|
    decreases a, 2
  {
    |a| == |b| && EntriesEqual(a, b, flags)
  }

  /** The `foreach` of `isEqual` over the entries `es` of the first array. */
  function EntriesEqual(es: PArr, b: PArr, flags: int): bool
    decreases es, 1
  {
    |es| == 0 || (EntryEqual(es[0], b, flags) && EntriesEqual(es[1..], b, flags))
  }

  /**
   * The checks one entry of the first array must pass: its key exists in `b`,
   * its value occurs in `b`, `b` holds the identical value under its key, each
   * when the flag asks for it; and, whatever the flags, two arrays under the
   * same key must be equal under the default flags.
   */
  function EntryEqual(e: Entry, b: PArr, flags: int): bool
    decreases e, 0
  {
    (HasFlag(flags, FlagCompareKeys) ==> HasKey(b, e.key))
    && (HasFlag(flags, FlagCompareValues) ==> ValueIn(e.val, b))
    && (HasFlag(flags, FlagCompareKeyValuePairs) ==> Get(b, e.key) == Some(e.val))
    && match e.val
       case Arr(es) =>
         (match Get(b, e.key)
          case Some(Arr(bs)) => IsEqual(es, bs, FlagsDefault)
          case _ => true)
       case _ => true
  }

  lemma {:induction false} EntriesEqualAll(es: PArr, b: PArr, flags: int)
    ensures EntriesEqual(es, b, flags) <==> forall i :: 0 <= i < |es| ==> EntryEqual(es[i], b, flags)
    decreases |es|
  {
    if |es| > 0 {
      EntriesEqualAll(es[1..], b, flags);
      assert forall i :: 1 <= i < |es| ==> es[i] == es[1..][i - 1];
    }
  }

  /** An array without nested arrays. */
  predicate Flat(a: PArr)
  {
    forall i :: 0 <= i < |a| ==> !a[i].val.Arr?
  }

  /** A subset of a finite set with as many elements is the whole set. */
  lemma SubsetSameSize<T>(x: set<T>, y: set<T>)
    requires x <= y && |x| == |y|
    ensures x == y
  {
    assert y == x + (y - x);
  }

  /** `isEqual($a, $b, FLAG_COMPARE_KEYS)` on flat arrays: the two key sets are equal. */
  lemma IsEqualKeys(a: PArr, b: PArr)
    requires Flat(a) && UniqueKeys(a) && UniqueKeys(b)
    ensures IsEqual(a, b, FlagCompareKeys) <==> KeySet(a) == KeySet(b)
  {
    EntriesEqualAll(a, b, FlagCompareKeys);
    KeySetSize(a);
    KeySetSize(b);
    if KeySet(a) == KeySet(b) {
      forall i | 0 <= i < |a|
        ensures HasKey(b, a[i].key)
      {
        HasKeyIffKeySet(a, a[i].key);
        HasKeyIffKeySet(b, a[i].key);
      }
    }
    if IsEqual(a, b, FlagCompareKeys) {
      forall k | k in KeySet(a)
        ensures k in KeySet(b)
      {
        HasKeyIffKeySet(a, k);
        var i :| 0 <= i < |a| && a[i].key == k;
        assert EntryEqual(a[i], b, FlagCompareKeys);
        HasKeyIffKeySet(b, k);
      }
      SubsetSameSize(KeySet(a), KeySet(b));
    }
  }

  /**
   * `isEqual($a, $b, FLAG_COMPARE_VALUES)` on a flat `a`: equal sizes and every
   * value of `a` occurs in `b`. The check runs one way only.
   */
  lemma IsEqualValues(a: PArr, b: PArr)
    requires Flat(a)
    ensures IsEqual(a, b, FlagCompareValues) <==> |a| == |b| && forall i :: 0 <= i < |a| ==> ValueIn(a[i].val, b)
  {
    EntriesEqualAll(a, b, FlagCompareValues);
  }

  /**
   * `isEqual($a, $b, FLAG_COMPARE_KEY_VALUES_PAIRS)` on flat arrays: the same
   * key/value pairs, in whatever order.
   */
  lemma IsEqualPairs(a: PArr, b: PArr)
    requires Flat(a) && UniqueKeys(a) && UniqueKeys(b)
    ensures IsEqual(a, b, FlagCompareKeyValuePairs) <==> SamePairs(a, b)
  {
    if IsEqual(a, b, FlagCompareKeyValuePairs) {
      PairsSameGet(a, b);
    }
    if SamePairs(a, b) {
      SameGetPairs(a, b);
    }
  }

  /** The two arrays map every key to the same value (or both lack it). */
  ghost predicate SamePairs(a: PArr, b: PArr)
  {
    forall k :: Get(a, k) == Get(b, k)
  }

  lemma PairsSameGet(a: PArr, b: PArr)
    requires UniqueKeys(a) && UniqueKeys(b)
    requires IsEqual(a, b, FlagCompareKeyValuePairs)
    ensures SamePairs(a, b)
  {
    EntriesEqualAll(a, b, FlagCompareKeyValuePairs);
    KeySetSize(a);
    KeySetSize(b);
    forall k | k in KeySet(a)
      ensures k in KeySet(b)
    {
      HasKeyIffKeySet(a, k);
      var i :| 0 <= i < |a| && a[i].key == k;
      assert EntryEqual(a[i], b, FlagCompareKeyValuePairs);
      HasKeyIffKeySet(b, k);
    }
    SubsetSameSize(KeySet(a), KeySet(b));
    forall k
      ensures Get(a, k) == Get(b, k)
    {
      HasKeyIffKeySet(a, k);
      HasKeyIffKeySet(b, k);
      if HasKey(a, k) {
        var i :| 0 <= i < |a| && a[i].key == k;
        assert EntryEqual(a[i], b, FlagCompareKeyValuePairs);
        GetFirst(a, i);
      }
    }
  }

  lemma SameGetPairs(a: PArr, b: PArr)
    requires Flat(a) && UniqueKeys(a) && UniqueKeys(b)
    requires SamePairs(a, b)
    ensures IsEqual(a, b, FlagCompareKeyValuePairs)
  {
    EntriesEqualAll(a, b, FlagCompareKeyValuePairs);
    KeySetSize(a);
    KeySetSize(b);
    assert KeySet(a) == KeySet(b) by {
      forall k
        ensures k in KeySet(a) <==> k in KeySet(b)
      {
        HasKeyIffKeySet(a, k);
        HasKeyIffKeySet(b, k);
        assert Get(a, k) == Get(b, k);
      }
    }
    forall i | 0 <= i < |a|
      ensures EntryEqual(a[i], b, FlagCompareKeyValuePairs)
    {
      GetFirst(a, i);
      assert Get(b, a[i].key) == Get(a, a[i].key);
      assert !a[i].val.Arr?;
    }
  }

  /** Every well-formed array equals itself under any flags. */
  lemma {:induction false} IsEqualReflexive(a: PArr, flags: int)
    requires WellFormed(a)
    ensures IsEqual(a, a, flags)
    decreases a, 2
  {
    forall i | 0 <= i < |a|
      ensures EntryEqual(a[i], a, flags)
    {
      GetFirst(a, i);
      assert EntryWellFormed(a[i]);
      EntryEqualSelf(a[i], a, flags);
    }
    EntriesEqualAll(a, a, flags);
  }

  lemma {:induction false} EntryEqualSelf(e: Entry, b: PArr, flags: int)
    requires EntryWellFormed(e)
    requires Get(b, e.key) == Some(e.val)
    ensures EntryEqual(e, b, flags)
    decreases e, 0
  {
    var j := GetIndex(b, e.key);
    assert b[j].val == e.val;
    match e.val
    case Arr(es) =>
      IsEqualReflexive(es, FlagsDefault);
    case _ =>
  }

  // The arrays of the `isEqual` unit test that hold no floats.
  const ColoursOne: PArr := [Entry(IntKey(0), Str("red")), Entry(IntKey(1), Str("green")), Entry(IntKey(2), Str("blue"))]
  const ColoursTwo: PArr := [Entry(IntKey(0), Str("red")), Entry(IntKey(1), Str("green")), Entry(IntKey(2), Str("yellow"))]
  const ColoursThree: PArr := [Entry(IntKey(0), Str("red")), Entry(IntKey(1), Str("blue")), Entry(IntKey(2), Str("green"))]
  const ColoursFour: PArr := [Entry(StrKey("a"), Str("red")), Entry(StrKey("b"), Str("green")), Entry(StrKey("c"), Str("yellow"))]
  const ColoursFive: PArr := [Entry(StrKey("x"), Str("red")), Entry(StrKey("z"), Str("yellow")), Entry(StrKey("y"), Str("green"))]
  const NullsSeven: PArr := [Entry(IntKey(0), Str("null")), Entry(IntKey(1), Null), Entry(IntKey(2), Str("not null"))]
  const NullsEight: PArr := [Entry(StrKey("c"), Str("not null")), Entry(StrKey("b"), Str("null")), Entry(StrKey("a"), Null)]

  /** Three-entry arrays are equal when each entry of the first passes the checks against the second. */
  lemma EqualThree(a: PArr, b: PArr, flags: int)
    requires |a| == 3 && |b| == 3
    requires EntryEqual(a[0], b, flags) && EntryEqual(a[1], b, flags) && EntryEqual(a[2], b, flags)
    ensures IsEqual(a, b, flags)
  {
    forall i | 0 <= i < |a|
      ensures EntryEqual(a[i], b, flags)
    {
      if i == 0 {
      } else if i == 1 {
      } else {
        assert i == 2;
      }
    }
    EntriesEqualAll(a, b, flags);
  }

  /** One entry failing its checks makes the arrays unequal. */
  lemma UnequalAt(a: PArr, b: PArr, flags: int, i: int)
    requires 0 <= i < |a| && !EntryEqual(a[i], b, flags)
    ensures !IsEqual(a, b, flags)
  {
    EntriesEqualAll(a, b, flags);
  }

  lemma IsEqualOneTwo()
    ensures IsEqual(ColoursOne, ColoursTwo, FlagCompareKeys)
    ensures !IsEqual(ColoursOne, ColoursTwo, FlagCompareValues)
    ensures !IsEqual(ColoursOne, ColoursTwo, FlagCompareKeyValuePairs)
    ensures !IsEqual(ColoursOne, ColoursTwo, FlagsDefault)
  {
    OneTwoKeys();
    OneTwoBlue(FlagCompareValues);
    OneTwoBlue(FlagCompareKeyValuePairs);
    OneTwoBlue(FlagsDefault);
  }

  lemma OneTwoKeys()
    ensures IsEqual(ColoursOne, ColoursTwo, FlagCompareKeys)
  {
    var a, b := ColoursOne, ColoursTwo;
    assert Get(b, IntKey(0)).Some? && Get(b, IntKey(1)).Some? && Get(b, IntKey(2)).Some?;
    EqualThree(a, b, FlagCompareKeys);
  }

  /** `blue` is not among the values of array two, nor its value under key 2. */
  lemma OneTwoBlue(flags: int)
    requires flags == FlagCompareValues || flags == FlagCompareKeyValuePairs || flags == FlagsDefault
    ensures !IsEqual(ColoursOne, ColoursTwo, flags)
  {
    var a, b := ColoursOne, ColoursTwo;
    assert Get(b, IntKey(2)) == Some(Str("yellow"));
    assert !ValueIn(Str("blue"), b);
    assert HasFlag(flags, FlagCompareValues) || HasFlag(flags, FlagCompareKeyValuePairs);
    UnequalAt(a, b, flags, 2);
  }

  lemma IsEqualOneThree()
    ensures IsEqual(ColoursOne, ColoursThree, FlagCompareKeys)
    ensures IsEqual(ColoursOne, ColoursThree, FlagCompareValues)
    ensures !IsEqual(ColoursOne, ColoursThree, FlagCompareKeyValuePairs)
    ensures IsEqual(ColoursOne, ColoursThree, FlagCompareKeys + FlagCompareValues)
  {
    OneThreeKeysValues(FlagCompareKeys);
    OneThreeKeysValues(FlagCompareValues);
    OneThreeKeysValues(FlagCompareKeys + FlagCompareValues);
    OneThreePairs();
  }

  lemma OneThreeKeysValues(flags: int)
    requires flags == FlagCompareKeys || flags == FlagCompareValues || flags == FlagCompareKeys + FlagCompareValues
    ensures IsEqual(ColoursOne, ColoursThree, flags)
  {
    var a, b := ColoursOne, ColoursThree;
    assert !HasFlag(flags, FlagCompareKeyValuePairs);
    assert Get(b, IntKey(0)).Some? && Get(b, IntKey(1)).Some? && Get(b, IntKey(2)).Some?;
    assert ValueIn(Str("red"), b) && ValueIn(Str("green"), b) && ValueIn(Str("blue"), b);
    EqualThree(a, b, flags);
  }

  lemma OneThreePairs()
    ensures !IsEqual(ColoursOne, ColoursThree, FlagCompareKeyValuePairs)
  {
    var a, b := ColoursOne, ColoursThree;
    assert Get(b, IntKey(1)) == Some(Str("blue"));
    UnequalAt(a, b, FlagCompareKeyValuePairs, 1);
  }

  lemma IsEqualFourFive()
    ensures !IsEqual(ColoursFour, ColoursFive, FlagCompareKeys)
    ensures IsEqual(ColoursFour, ColoursFive, FlagCompareValues)
    ensures !IsEqual(ColoursFour, ColoursFive, FlagCompareKeyValuePairs)
  {
    FourFiveKeyA(FlagCompareKeys);
    FourFiveKeyA(FlagCompareKeyValuePairs);
    FourFiveValues();
  }

  /** Array five has no key `a`. */
  lemma FourFiveKeyA(flags: int)
    requires flags == FlagCompareKeys || flags == FlagCompareKeyValuePairs
    ensures !IsEqual(ColoursFour, ColoursFive, flags)
  {
    var a, b := ColoursFour, ColoursFive;
    assert Get(b, StrKey("a")) == None;
    UnequalAt(a, b, flags, 0);
  }

  lemma FourFiveValues()
    ensures IsEqual(ColoursFour, ColoursFive, FlagCompareValues)
  {
    var a, b := ColoursFour, ColoursFive;
    assert ValueIn(Str("red"), b) && ValueIn(Str("green"), b) && ValueIn(Str("yellow"), b);
    EqualThree(a, b, FlagCompareValues);
  }

  lemma IsEqualOneSeven()
    ensures IsEqual(ColoursOne, NullsSeven, FlagCompareKeys)
    ensures !IsEqual(ColoursOne, NullsSeven, FlagCompareValues)
    ensures !IsEqual(ColoursOne, NullsSeven, FlagCompareKeyValuePairs)
  {
    OneSevenKeys();
    OneSevenRed(FlagCompareValues);
    OneSevenRed(FlagCompareKeyValuePairs);
  }

  lemma OneSevenKeys()
    ensures IsEqual(ColoursOne, NullsSeven, FlagCompareKeys)
  {
    var a, b := ColoursOne, NullsSeven;
    assert Get(b, IntKey(0)).Some? && Get(b, IntKey(1)).Some? && Get(b, IntKey(2)).Some?;
    EqualThree(a, b, FlagCompareKeys);
  }

  /** `red` is not among the values of array seven, nor its value under key 0. */
  lemma OneSevenRed(flags: int)
    requires flags == FlagCompareValues || flags == FlagCompareKeyValuePairs
    ensures !IsEqual(ColoursOne, NullsSeven, flags)
  {
    var a, b := ColoursOne, NullsSeven;
    assert Get(b, IntKey(0)) == Some(Str("null"));
    assert !ValueIn(Str("red"), b);
    UnequalAt(a, b, flags, 0);
  }

  lemma IsEqualSevenEight()
    ensures !IsEqual(NullsSeven, NullsEight, FlagCompareKeys)
    ensures IsEqual(NullsSeven, NullsEight, FlagCompareValues)
    ensures !IsEqual(NullsSeven, NullsEight, FlagCompareKeyValuePairs)
  {
    SevenEightKeyZero(FlagCompareKeys);
    SevenEightKeyZero(FlagCompareKeyValuePairs);
    SevenEightValues();
  }

  /** Array eight has no key 0. */
  lemma SevenEightKeyZero(flags: int)
    requires flags == FlagCompareKeys || flags == FlagCompareKeyValuePairs
    ensures !IsEqual(NullsSeven, NullsEight, flags)
  {
    var a, b := NullsSeven, NullsEight;
    assert Get(b, IntKey(0)) == None;
    UnequalAt(a, b, flags, 0);
  }

  lemma SevenEightValues()
    ensures IsEqual(NullsSeven, NullsEight, FlagCompareValues)
  {
    var a, b := NullsSeven, NullsEight;
    assert ValueIn(Str("null"), b) && ValueIn(Null, b) && ValueIn(Str("not null"), b);
    EqualThree(a, b, FlagCompareValues);
  }

  /** Arrays five and six of the test are the same array, as are seven and itself. */
  lemma IsEqualSame()
    ensures IsEqual(ColoursFive, ColoursFive, FlagCompareKeys)
    ensures IsEqual(ColoursFive, ColoursFive, FlagCompareValues)
    ensures IsEqual(ColoursFive, ColoursFive, FlagCompareKeyValuePairs)
    ensures IsEqual(ColoursFive, ColoursFive, FlagsDefault)
    ensures IsEqual(NullsSeven, NullsSeven, FlagCompareKeys)
    ensures IsEqual(NullsSeven, NullsSeven, FlagCompareValues)
    ensures IsEqual(NullsSeven, NullsSeven, FlagCompareKeyValuePairs)
  {
    assert WellFormed(ColoursFive) && WellFormed(NullsSeven);
    IsEqualReflexive(ColoursFive, FlagCompareKeys);
    IsEqualReflexive(ColoursFive, FlagCompareValues);
    IsEqualReflexive(ColoursFive, FlagCompareKeyValuePairs);
    IsEqualReflexive(ColoursFive, FlagsDefault);
    IsEqualReflexive(NullsSeven, FlagCompareKeys);
    IsEqualReflexive(NullsSeven, FlagCompareValues);
    IsEqualReflexive(NullsSeven, FlagCompareKeyValuePairs);
  }

  // =====================================================================
  // array_find_deep

  /** `array_find_deep($array, $search, $keys)`: strict search, nested arrays searched in place. */
  function FindDeep(a: PArr, search: Value, keys: seq<Key>): seq<Key>
    decreases a, 1
  {
    if |a| == 0 then []
    else
      var sub := FindEntry(a[0], search, keys);
      if |sub| > 0 then sub else FindDeep(a[1..], search, keys)
  }

  /** One iteration of the `foreach`: descend into an array, or test a scalar with `===`. */
  function FindEntry(e: Entry, search: Value, keys: seq<Key>): seq<Key>
    decreases e, 0
  {
    match e.val
    case Arr(es) => FindDeep(es, search, keys + [e.key])
    case _ => if e.val == search then keys + [e.key] else []
  }

  /** A key path and the non-array value it leads to. */
  type Leaf = (seq<Key>, Value)

  /** Reference definition: the non-array values of `a` with their key paths, depth first in key order. */
  function Leaves(a: PArr): (r: seq<Leaf>)
    ensures forall i :: 0 <= i < |r| ==> |r[i].0| > 0 && !r[i].1.Arr?
    decreases a, 1
  {
    if |a| == 0 then [] else EntryLeaves(a[0]) + Leaves(a[1..])
  }

  function EntryLeaves(e: Entry): (r: seq<Leaf>)
    ensures forall i :: 0 <= i < |r| ==> |r[i].0| > 0 && !r[i].1.Arr?
    decreases e, 0
  {
    match e.val
    case Arr(es) => Under(e.key, Leaves(es))
    case _ => [([e.key], e.val)]
  }

  /** The leaves of an array stored under key `k`, seen from one level up. */
  function Under(k: Key, ls: seq<Leaf>): (r: seq<Leaf>)
    ensures |r| == |ls|
    ensures forall i :: 0 <= i < |ls| ==> r[i] == ([k] + ls[i].0, ls[i].1)
  {
    seq(|ls|, i requires 0 <= i < |ls| => ([k] + ls[i].0, ls[i].1))
  }

  /** The path of the first leaf whose value is `search`. */
  function FirstMatch(ls: seq<Leaf>, search: Value): (r: Option<seq<Key>>)
    ensures r.None? <==> forall i :: 0 <= i < |ls| ==> ls[i].1 != search
    ensures r.Some? ==> exists i :: 0 <= i < |ls| && ls[i] == (r.value, search)
  {
    if |ls| == 0 then None
    else if ls[0].1 == search then Some(ls[0].0)
    else
      var r := FirstMatch(ls[1..], search);
      assert forall i :: 1 <= i < |ls| ==> ls[i] == ls[1..][i - 1];
      r
  }

  lemma {:induction false} FirstMatchConcat(x: seq<Leaf>, y: seq<Leaf>, search: Value)
    ensures FirstMatch(x + y, search) == if FirstMatch(x, search).Some? then FirstMatch(x, search) else FirstMatch(y, search)
  {
    if |x| == 0 {
      assert x + y == y;
    } else {
      assert (x + y)[1..] == x[1..] + y;
      FirstMatchConcat(x[1..], y, search);
    }
  }

  lemma {:induction false} FirstMatchUnder(k: Key, ls: seq<Leaf>, search: Value)
    ensures FirstMatch(Under(k, ls), search)
         == match FirstMatch(ls, search) { case None => None case Some(p) => Some([k] + p) }
  {
    if |ls| > 0 {
      assert Under(k, ls)[1..] == Under(k, ls[1..]);
      FirstMatchUnder(k, ls[1..], search);
    }
  }

  /** `keys` followed by a found path, or `[]` when nothing was found. */
  function After(keys: seq<Key>, found: Option<seq<Key>>): seq<Key>
  {
    match found
    case None => []
    case Some(p) => keys + p
  }

  /**
   * `array_find_deep` returns the path of the first leaf equal to `search` in
   * depth-first key order, after the prefix `keys`, and `[]` when there is none.
   */
  lemma {:induction false} FindDeepLeaves(a: PArr, search: Value, keys: seq<Key>)
    ensures FindDeep(a, search, keys) == After(keys, FirstMatch(Leaves(a), search))
    decreases a, 1
  {
    if |a| > 0 {
      FindEntryLeaves(a[0], search, keys);
      FindDeepLeaves(a[1..], search, keys);
      FirstMatchConcat(EntryLeaves(a[0]), Leaves(a[1..]), search);
    }
  }

  lemma {:induction false} FindEntryLeaves(e: Entry, search: Value, keys: seq<Key>)
    ensures FindEntry(e, search, keys) == After(keys, FirstMatch(EntryLeaves(e), search))
    decreases e, 0
  {
    match e.val
    case Arr(es) =>
      FindDeepLeaves(es, search, keys + [e.key]);
      FindUnder(e.key, es, search, keys);
    case _ =>
      var l: Leaf := ([e.key], e.val);
      assert EntryLeaves(e) == [l];
      assert [l][1..] == [];
  }

  lemma FindUnder(k: Key, es: PArr, search: Value, keys: seq<Key>)
    ensures After(keys + [k], FirstMatch(Leaves(es), search)) == After(keys, FirstMatch(Under(k, Leaves(es)), search))
  {
    var ls := Leaves(es);
    FirstMatchUnder(k, ls, search);
    match FirstMatch(ls, search) {
      case None =>
      case Some(p) =>
        assert keys + [k] + p == keys + ([k] + p);
    }
  }

  /** `array_find_deep($a, $search)` is `[]` exactly when no leaf of `a` is identical to `search`. */
  lemma FindDeepNotFound(a: PArr, search: Value)
    ensures FindDeep(a, search, []) == [] <==> forall i :: 0 <= i < |Leaves(a)| ==> Leaves(a)[i].1 != search
  {
    FindDeepLeaves(a, search, []);
    if FirstMatch(Leaves(a), search).Some? {
      var p := FirstMatch(Leaves(a), search).value;
      assert [] + p == p;
    }
  }

  /** Following the key path `p` from `a`: every key but the last must lead to an array. */
  function Descend(a: PArr, p: seq<Key>): Option<Value>
    requires |p| > 0
    decreases |p|
  {
    match Get(a, p[0])
    case None => None
    case Some(v) =>
      if |p| == 1 then Some(v)
      else if v.Arr? then Descend(v.entries, p[1..])
      else None
  }

  /** Every leaf path of `a[m..]` leads, from `a`, to that leaf's value. */
  lemma {:induction false} LeavesReach(a: PArr, m: int)
    requires WellFormed(a)
    requires 0 <= m <= |a|
    ensures forall i :: 0 <= i < |Leaves(a[m..])| ==> Descend(a, Leaves(a[m..])[i].0) == Some(Leaves(a[m..])[i].1)
    decreases a, |a| - m
  {
    if m < |a| {
      assert a[m..][0] == a[m] && a[m..][1..] == a[m + 1..];
      EntryLeavesReach(a, m);
      LeavesReach(a, m + 1);
      var x: seq<Leaf>, y: seq<Leaf> := EntryLeaves(a[m]), Leaves(a[m + 1..]);
      assert Leaves(a[m..]) == x + y;
      forall i | 0 <= i < |x + y|
        ensures Descend(a, (x + y)[i].0) == Some((x + y)[i].1)
      {
        if i >= |x| {
          assert (x + y)[i] == y[i - |x|];
        }
      }
    }
  }

  lemma {:induction false} EntryLeavesReach(a: PArr, j: int)
    requires WellFormed(a)
    requires 0 <= j < |a|
    ensures forall i :: 0 <= i < |EntryLeaves(a[j])| ==> Descend(a, EntryLeaves(a[j])[i].0) == Some(EntryLeaves(a[j])[i].1)
    decreases a[j], 0
  {
    GetFirst(a, j);
    var k := a[j].key;
    match a[j].val
    case Arr(es) =>
      WellFormedAt(a, j);
      LeavesReach(es, 0);
      assert es[0..] == es;
      forall i | 0 <= i < |EntryLeaves(a[j])|
        ensures Descend(a, EntryLeaves(a[j])[i].0) == Some(EntryLeaves(a[j])[i].1)
      {
        var leaf := Leaves(es)[i];
        var p := [k] + leaf.0;
        assert EntryLeaves(a[j])[i] == (p, leaf.1);
        assert p[1..] == leaf.0;
      }
    case _ =>
  }

  /**
   * A non-empty result of `array_find_deep($a, $search)` is a key path from
   * the root of `a` that passes through arrays and ends at a value identical to
   * `search`.
   */
  lemma FindDeepFound(a: PArr, search: Value)
    requires WellFormed(a)
    requires FindDeep(a, search, []) != []
    ensures Descend(a, FindDeep(a, search, [])) == Some(search)
    ensures !search.Arr?
  {
    FindDeepLeaves(a, search, []);
    var p := FirstMatch(Leaves(a), search).value;
    assert [] + p == p;
    var i :| 0 <= i < |Leaves(a)| && Leaves(a)[i] == (p, search);
    LeavesReach(a, 0);
    assert a[0..] == a;
  }

  // =====================================================================
  // setLast

  /** `setLast($array, $value)`: by-reference update returned as the new array. */
  function SetLast(a: PArr, v: Value): PArr
  {
    if |a| == 0 then a
    else if v == Null then Unset(a, a[|a| - 1].key)
    else Set(a, a[|a| - 1].key, v)
  }

  /**
   * `setLast` leaves an empty array alone; `null` drops the last entry and
   * nothing else; any other value replaces the last value in place.
   */
  lemma SetLastSpec(a: PArr, v: Value)
    requires UniqueKeys(a)
    ensures |a| == 0 ==> SetLast(a, v) == a
    ensures |a| > 0 && v == Null ==> SetLast(a, v) == a[..|a| - 1]
    ensures |a| > 0 && v != Null ==> SetLast(a, v) == a[|a| - 1 := Entry(a[|a| - 1].key, v)]
  {
    if |a| > 0 {
      UnsetAt(a, |a| - 1);
      assert a[..|a| - 1] + a[|a|..] == a[..|a| - 1];
      SetReplaces(a, |a| - 1, v);
    }
  }

  // =====================================================================
  // renameKeysByMap

  /**
   * One entry `from => to` of the map, as the source does it: when `$array[from]`
   * is set (present and not `null`), assign it to `to`, then `unset` `from`.
   * For `from == to` the `unset` removes the value just assigned.
   */
  function RenameStepAsWritten(a: PArr, from: Key, to: Key): PArr
  {
    match Get(a, from)
    case Some(v) => if v != Null then Unset(Set(a, to, v), from) else a
    case None => a
  }

  /** `renameKeysByMap($array, $map)` as written, the map given as its `(from, to)` pairs in order. */
  function RenameKeysByMapAsWritten(a: PArr, m: seq<(Key, Key)>): PArr
    decreases |m|
  {
    if |m| == 0 then a else RenameKeysByMapAsWritten(RenameStepAsWritten(a, m[0].0, m[0].1), m[1..])
  }

  /** One map entry with the evident intent: renaming a key to itself changes nothing. */
  function RenameStep(a: PArr, from: Key, to: Key): PArr
  {
    if from == to then a else RenameStepAsWritten(a, from, to)
  }

  /** `renameKeysByMap` with the self-rename skipped. */
  function RenameKeysByMap(a: PArr, m: seq<(Key, Key)>): PArr
    decreases |m|
  {
    if |m| == 0 then a else RenameKeysByMap(RenameStep(a, m[0].0, m[0].1), m[1..])
  }

  /**
   * As written, an entry `k => k` of the map deletes a set value at `k`:
   * `renameKeysByMap(['a' => 1], ['a' => 'a'])` is `[]`.
   */
  lemma RenameSelfDeletes(a: PArr, k: Key)
    requires Get(a, k).Some? && Get(a, k).value != Null
    ensures !HasKey(RenameStepAsWritten(a, k, k), k)
    ensures RenameKeysByMapAsWritten([Entry(StrKey("a"), Int(1))], [(StrKey("a"), StrKey("a"))]) == []
  {
    GetUnset(Set(a, k, Get(a, k).value), k, k);
    var e := [Entry(StrKey("a"), Int(1))];
    assert Set(e, StrKey("a"), Int(1)) == e;
    assert Unset(e, StrKey("a")) == [];
  }

  /**
   * A map entry `from => to` with `from != to` moves a set value from key `from` to
   * `to` (overwriting what `to` held) and removes `from`; all other keys keep
   * their values. With `from == to`, or when `from` is absent or `null`, the
   * array is unchanged.
   */
  lemma RenameStepSpec(a: PArr, from: Key, to: Key)
    requires UniqueKeys(a)
    ensures var r := RenameStep(a, from, to);
      && UniqueKeys(r)
      && (from == to || Get(a, from).None? || Get(a, from) == Some(Null) ==> r == a)
      && (from != to && Get(a, from).Some? && Get(a, from).value != Null ==>
            && Get(r, to) == Get(a, from)
            && !HasKey(r, from)
            && forall k :: k != from && k != to ==> Get(r, k) == Get(a, k))
  {
    var r := RenameStep(a, from, to);
    if from != to && Get(a, from).Some? && Get(a, from).value != Null {
      var v := Get(a, from).value;
      var s := Set(a, to, v);
      UniqueSet(a, to, v);
      UniqueUnset(s, from);
      GetUnset(s, from, to);
      GetSet(a, to, v, to);
      GetUnset(s, from, from);
      forall k | k != from && k != to
        ensures Get(r, k) == Get(a, k)
      {
        GetUnset(s, from, k);
        GetSet(a, to, v, k);
      }
    }
  }

  /** The corrected rename keeps keys unique across the whole map. */
  lemma {:induction false} RenameKeysByMapUnique(a: PArr, m: seq<(Key, Key)>)
    requires UniqueKeys(a)
    ensures UniqueKeys(RenameKeysByMap(a, m))
    decreases |m|
  {
    if |m| > 0 {
      RenameStepSpec(a, m[0].0, m[0].1);
      RenameKeysByMapUnique(RenameStep(a, m[0].0, m[0].1), m[1..]);
    }
  }

  /** With the corrected rename, `renameKeysByMap(['a' => 1], ['a' => 'a'])` is `['a' => 1]`. */
  lemma RenameSelfKeeps()
    ensures RenameKeysByMap([Entry(StrKey("a"), Int(1))], [(StrKey("a"), StrKey("a"))]) == [Entry(StrKey("a"), Int(1))]
  {
  }

  // =====================================================================
  // filterValues

  /** `in_array($v, $filters, $strict)`, the comparison given as `eq`. */
  predicate InList(v: Value, filters: seq<Value>, eq: (Value, Value) -> bool)
  {
    exists j :: 0 <= j < |filters| && eq(v, filters[j])
  }

  /** The strict comparison `===`. */
  predicate Identical(x: Value, y: Value)
  {
    x == y
  }

  /** The default filter list `['', false, null]`. */
  const DefaultFilters: seq<Value> := [Str(""), Bool(false), Null]

  /**
   * `array_filter` with the callback `!in_array($item, $filterValues, ...)`:
   * the entries whose value matches no filter, keys and order kept.
   */
  function FilterValues(a: PArr, filters: seq<Value>, eq: (Value, Value) -> bool): (r: PArr)
    ensures |r| <= |a|
    ensures forall i :: 0 <= i < |r| ==> !InList(r[i].val, filters, eq)
  {
    if |a| == 0 then []
    else if InList(a[0].val, filters, eq) then FilterValues(a[1..], filters, eq)
    else [a[0]] + FilterValues(a[1..], filters, eq)
  }

  /**
   * `filterValues($array, $filterValues, $strict)` of the current class; the
   * older copy always compares loosely. PHP's loose `==` table is not modelled:
   * it is the parameter `loose`.
   */
  function FilterValuesStrictOrLoose(a: PArr, filters: seq<Value>, strict: bool, loose: (Value, Value) -> bool): (r: PArr)
    ensures strict ==> forall i :: 0 <= i < |r| ==> r[i].val !in filters
  {
    var r := FilterValues(a, filters, if strict then Identical else loose);
    assert strict ==> forall i :: 0 <= i < |r| ==> r[i].val !in filters by {
      if strict {
        forall i | 0 <= i < |r|
          ensures r[i].val !in filters
        {
          assert !InList(r[i].val, filters, Identical);
        }
      }
    }
    r
  }

  /** Filtering distributes over concatenation, so it keeps the entries' order. */
  lemma {:induction false} FilterConcat(x: PArr, y: PArr, filters: seq<Value>, eq: (Value, Value) -> bool)
    ensures FilterValues(x + y, filters, eq) == FilterValues(x, filters, eq) + FilterValues(y, filters, eq)
  {
    if |x| == 0 {
      assert x + y == y;
    } else {
      assert (x + y)[1..] == x[1..] + y;
      FilterConcat(x[1..], y, filters, eq);
    }
  }

  /**
   * On a PHP array, the filtered array is the sub-map of the entries whose
   * value matches no filter value.
   */
  lemma {:induction false} FilterGet(a: PArr, filters: seq<Value>, eq: (Value, Value) -> bool, k: Key)
    requires UniqueKeys(a)
    ensures Get(FilterValues(a, filters, eq), k)
         == match Get(a, k) { case Some(v) => if InList(v, filters, eq) then None else Some(v) case None => None }
  {
    if |a| > 0 {
      UniqueTail(a);
      FilterGet(a[1..], filters, eq, k);
      if a[0].key == k {
        FilterMissing(a[1..], filters, eq, k);
      }
    }
  }

  lemma {:induction false} FilterMissing(a: PArr, filters: seq<Value>, eq: (Value, Value) -> bool, k: Key)
    requires !HasKey(a, k)
    ensures !HasKey(FilterValues(a, filters, eq), k)
  {
    if |a| > 0 {
      HasKeyCons(a, k);
      FilterMissing(a[1..], filters, eq, k);
      if !InList(a[0].val, filters, eq) {
        HasKeyCons(FilterValues(a, filters, eq), k);
      }
    }
  }

  /** Filtering twice with the same list is filtering once. */
  lemma {:induction false} FilterIdempotent(a: PArr, filters: seq<Value>, eq: (Value, Value) -> bool)
    ensures FilterValues(FilterValues(a, filters, eq), filters, eq) == FilterValues(a, filters, eq)
  {
    if |a| > 0 {
      FilterIdempotent(a[1..], filters, eq);
      if !InList(a[0].val, filters, eq) {
        var t := FilterValues(a[1..], filters, eq);
        assert ([a[0]] + t)[1..] == t;
      }
    }
  }

  // =====================================================================
  // key, keymap, mapEx, initValue

  /** A PHP list: the values under the keys 0, 1, 2, ... */
  function List(vs: seq<Value>): (r: PArr)
    ensures |r| == |vs|
    ensures forall i :: 0 <= i < |vs| ==> r[i] == Entry(IntKey(i), vs[i])
  {
    seq(|vs|, i requires 0 <= i < |vs| => Entry(IntKey(i), vs[i]))
  }

  /** A key as the value `array_keys` returns for it. */
  function KeyValue(k: Key): Value
  {
    match k
    case IntKey(i) => Int(i)
    case StrKey(s) => Str(s)
  }

  /** Yii's `getValue($element, $attribute)` for a plain key: the value under it, `null` otherwise. */
  function GetValue(element: Value, attr: Key): (r: Value)
    ensures element.Arr? && HasKey(element.entries, attr) ==> Some(r) == Get(element.entries, attr)
    ensures !element.Arr? || !HasKey(element.entries, attr) ==> r == Null
  {
    match element
    case Arr(es) => Get(es, attr).GetOr(Null)
    case _ => Null
  }

  /** `key($array)`: `getValue(array_keys($array), 0)`. */
  function FirstKey(a: PArr): (r: Value)
    ensures |a| == 0 ==> r == Null
    ensures |a| > 0 ==> r == KeyValue(a[0].key) && HasKey(a, a[0].key)
  {
    GetValue(Arr(List(seq(|a|, i requires 0 <= i < |a| => KeyValue(a[i].key)))), IntKey(0))
  }

  /** The `foreach` of `keymap`: `$result[$key] = getValue($element, $attribute)`. */
  function KeymapLoop(acc: PArr, a: PArr, attr: Key): PArr
    decreases |a|
  {
    if |a| == 0 then acc else KeymapLoop(Set(acc, a[0].key, GetValue(a[0].val, attr)), a[1..], attr)
  }

  /** `keymap($array, $attribute)`. */
  function Keymap(a: PArr, attr: Key): PArr
  {
    KeymapLoop([], a, attr)
  }

  /** Reference definition: every entry keeps its key and gets the attribute of its value. */
  function Project(a: PArr, attr: Key): (r: PArr)
    ensures |r| == |a|
    ensures forall i :: 0 <= i < |a| ==> r[i] == Entry(a[i].key, GetValue(a[i].val, attr))
  {
    seq(|a|, i requires 0 <= i < |a| => Entry(a[i].key, GetValue(a[i].val, attr)))
  }

  lemma {:induction false} KeymapLoopAppends(acc: PArr, a: PArr, attr: Key)
    requires UniqueKeys(a)
    requires forall k :: HasKey(a, k) ==> !HasKey(acc, k)
    ensures KeymapLoop(acc, a, attr) == acc + Project(a, attr)
    decreases |a|
  {
    if |a| > 0 {
      var e := Entry(a[0].key, GetValue(a[0].val, attr));
      var acc' := acc + [e];
      assert KeymapLoop(acc, a, attr) == KeymapLoop(acc', a[1..], attr) by {
        HasKeyCons(a, a[0].key);
        SetAppends(acc, a[0].key, e.val);
      }
      assert forall k :: HasKey(a[1..], k) ==> !HasKey(acc', k) by {
        UniqueTail(a);
        forall k | HasKey(a[1..], k)
          ensures !HasKey(acc', k)
        {
          HasKeyCons(a, k);
          HasKeyConcat(acc, [e], k);
          HasKeyCons([e], k);
        }
      }
      UniqueTail(a);
      KeymapLoopAppends(acc', a[1..], attr);
      ProjectCons(a, attr);
      AppendAssoc(acc, e, Project(a[1..], attr));
    } else {
      assert Project(a, attr) == [];
      assert acc + [] == acc;
    }
  }

  lemma AppendAssoc<T>(x: seq<T>, y: T, z: seq<T>)
    ensures (x + [y]) + z == x + ([y] + z)
  {
  }

  lemma ProjectCons(a: PArr, attr: Key)
    requires |a| > 0
    ensures Project(a, attr) == [Entry(a[0].key, GetValue(a[0].val, attr))] + Project(a[1..], attr)
  {
    var p, q := Project(a, attr), Project(a[1..], attr);
    forall i | 1 <= i < |a|
      ensures p[i] == q[i - 1]
    {
      assert a[1..][i - 1] == a[i];
    }
  }

  /** `keymap` keeps the input's keys, in order, each mapped to its element's attribute. */
  lemma KeymapSpec(a: PArr, attr: Key)
    requires UniqueKeys(a)
    ensures Keymap(a, attr) == Project(a, attr)
    ensures Keys(Keymap(a, attr)) == Keys(a)
  {
    KeymapLoopAppends([], a, attr);
    assert [] + Project(a, attr) == Project(a, attr);
  }

  /**
   * The value `mapEx` puts under a label whose attribute is `attr`: the key as
   * a string for `keyIndexCode`, the element itself for `valueCode` (the older
   * copy has no `valueCode`: `None`), otherwise the element's attribute.
   */
  function Cell(key: Key, element: Value, attr: Key, keyIndexCode: string, valueCode: Option<string>): Value
  {
    if attr == StrKey(keyIndexCode) then Str(KeyToString(key))
    else if valueCode.Some? && attr == StrKey(valueCode.value) then element
    else GetValue(element, attr)
  }

  /** The inner `foreach` of `mapEx`: `$cell[$label] = $value` for each `label => attribute`. */
  function Row(cell: PArr, key: Key, element: Value, attrs: seq<(Key, Key)>, keyIndexCode: string, valueCode: Option<string>): PArr
    decreases |attrs|
  {
    if |attrs| == 0 then cell
    else Row(Set(cell, attrs[0].0, Cell(key, element, attrs[0].1, keyIndexCode, valueCode)),
             key, element, attrs[1..], keyIndexCode, valueCode)
  }

  /** The outer `foreach` of `mapEx`: `$result[] = $cell`, numbering the rows from `n`. */
  function MapRows(a: PArr, attrs: seq<(Key, Key)>, keyIndexCode: string, valueCode: Option<string>, n: int): PArr
  {
    if |a| == 0 then []
    else [Entry(IntKey(n), Arr(Row([], a[0].key, a[0].val, attrs, keyIndexCode, valueCode)))]
         + MapRows(a[1..], attrs, keyIndexCode, valueCode, n + 1)
  }

  /** `mapEx($array, $attributes, $keyIndexCode, $valueCode)`, the attributes as `(label, attribute)` pairs. */
  function MapEx(a: PArr, attrs: seq<(Key, Key)>, keyIndexCode: string, valueCode: Option<string>): PArr
  {
    MapRows(a, attrs, keyIndexCode, valueCode, 0)
  }

  /** The labels of an attribute map are distinct, as the keys of a PHP array are. */
  predicate UniqueLabels(attrs: seq<(Key, Key)>)
  {
    forall i, j :: 0 <= i < j < |attrs| ==> attrs[i].0 != attrs[j].0
  }

  lemma {:induction false} RowAppends(cell: PArr, key: Key, element: Value, attrs: seq<(Key, Key)>,
                                      keyIndexCode: string, valueCode: Option<string>)
    requires UniqueLabels(attrs)
    requires forall j :: 0 <= j < |attrs| ==> !HasKey(cell, attrs[j].0)
    ensures var r := Row(cell, key, element, attrs, keyIndexCode, valueCode);
      && |r| == |cell| + |attrs|
      && r[..|cell|] == cell
      && forall j :: 0 <= j < |attrs| ==>
           r[|cell| + j] == Entry(attrs[j].0, Cell(key, element, attrs[j].1, keyIndexCode, valueCode))
    decreases |attrs|
  {
    if |attrs| > 0 {
      var e := Entry(attrs[0].0, Cell(key, element, attrs[0].1, keyIndexCode, valueCode));
      SetAppends(cell, e.key, e.val);
      var cell' := cell + [e];
      forall j | 0 <= j < |attrs[1..]|
        ensures !HasKey(cell', attrs[1..][j].0)
      {
        assert attrs[1..][j] == attrs[j + 1];
        HasKeyConcat(cell, [e], attrs[j + 1].0);
        HasKeyCons([e], attrs[j + 1].0);
      }
      RowAppends(cell', key, element, attrs[1..], keyIndexCode, valueCode);
      var r := Row(cell, key, element, attrs, keyIndexCode, valueCode);
      assert r == Row(cell', key, element, attrs[1..], keyIndexCode, valueCode);
      forall j | 0 <= j < |attrs|
        ensures r[|cell| + j] == Entry(attrs[j].0, Cell(key, element, attrs[j].1, keyIndexCode, valueCode))
      {
        if j > 0 {
          assert attrs[1..][j - 1] == attrs[j];
          assert r[|cell'| + (j - 1)] == r[|cell| + j];
        }
      }
    }
  }

  /**
   * Each row of `mapEx` is keyed exactly by the labels, in order, and holds the
   * element's key as a string under every label whose attribute is `keyIndexCode`,
   * the element itself under `valueCode`, and the element's attribute elsewhere.
   */
  lemma RowSpec(key: Key, element: Value, attrs: seq<(Key, Key)>, keyIndexCode: string, valueCode: Option<string>)
    requires UniqueLabels(attrs)
    ensures var r := Row([], key, element, attrs, keyIndexCode, valueCode);
      && |r| == |attrs|
      && (forall j :: 0 <= j < |attrs| ==> r[j].key == attrs[j].0)
      && (forall j :: 0 <= j < |attrs| && attrs[j].1 == StrKey(keyIndexCode) ==> r[j].val == Str(KeyToString(key)))
      && (forall j :: 0 <= j < |attrs| && attrs[j].1 != StrKey(keyIndexCode) && valueCode.None? ==>
            r[j].val == GetValue(element, attrs[j].1))
      && (forall j :: 0 <= j < |attrs| && attrs[j].1 != StrKey(keyIndexCode) && valueCode.Some? ==>
            r[j].val == if attrs[j].1 == StrKey(valueCode.value) then element else GetValue(element, attrs[j].1))
  {
    var r := Row([], key, element, attrs, keyIndexCode, valueCode);
    RowAppends([], key, element, attrs, keyIndexCode, valueCode);
    forall j | 0 <= j < |attrs|
      ensures r[j] == Entry(attrs[j].0, Cell(key, element, attrs[j].1, keyIndexCode, valueCode))
    {
      assert 0 + j == j;
    }
  }

  /** `mapEx` returns a list with one row per input element, in input order. */
  lemma {:induction false} MapRowsSpec(a: PArr, attrs: seq<(Key, Key)>, keyIndexCode: string, valueCode: Option<string>, n: int)
    ensures var r := MapRows(a, attrs, keyIndexCode, valueCode, n);
      && |r| == |a|
      && forall i :: 0 <= i < |a| ==>
           r[i] == Entry(IntKey(n + i), Arr(Row([], a[i].key, a[i].val, attrs, keyIndexCode, valueCode)))
  {
    if |a| > 0 {
      MapRowsSpec(a[1..], attrs, keyIndexCode, valueCode, n + 1);
      var r := MapRows(a, attrs, keyIndexCode, valueCode, n);
      forall i | 1 <= i < |a|
        ensures r[i] == Entry(IntKey(n + i), Arr(Row([], a[i].key, a[i].val, attrs, keyIndexCode, valueCode)))
      {
        assert a[1..][i - 1] == a[i];
      }
    }
  }

  lemma MapExSpec(a: PArr, attrs: seq<(Key, Key)>, keyIndexCode: string, valueCode: Option<string>)
    ensures var r := MapEx(a, attrs, keyIndexCode, valueCode);
      && |r| == |a|
      && forall i :: 0 <= i < |a| ==>
           r[i] == Entry(IntKey(i), Arr(Row([], a[i].key, a[i].val, attrs, keyIndexCode, valueCode)))
  {
    MapRowsSpec(a, attrs, keyIndexCode, valueCode, 0);
  }

  /**
   * `initValue($array, $key, $value)` for a plain key: it stores `value` and
   * reports `true` exactly when the current value is `null` (or missing) and
   * `value` is not `null`; otherwise the array is untouched.
   */
  function InitValue(a: PArr, key: Key, value: Value): (r: (bool, PArr))
    ensures r.0 <==> GetValue(Arr(a), key) == Null && value != Null
    ensures r.0 ==> Get(r.1, key) == Some(value) && forall k :: k != key ==> Get(r.1, k) == Get(a, k)
    ensures !r.0 ==> r.1 == a
  {
    if GetValue(Arr(a), key) == Null && value != Null then
      assert forall k :: Get(Set(a, key, value), k) == if k == key then Some(value) else Get(a, k) by {
        forall k
          ensures Get(Set(a, key, value), k) == if k == key then Some(value) else Get(a, k)
        {
          GetSet(a, key, value, k);
        }
      }
      (true, Set(a, key, value))
    else (false, a)
  }

  /** A second `initValue` with the same key reports `false` and changes nothing. */
  lemma InitValueOnce(a: PArr, key: Key, value: Value, value': Value)
    ensures var r := InitValue(a, key, value);
      r.0 ==> InitValue(r.1, key, value') == (false, r.1)
  {
  }

  /** The plain-key calls of the `initValue` unit test. */
  lemma InitValueExamples()
    ensures var t := [Entry(StrKey("a"), Int(1)), Entry(StrKey("b"), Int(2)), Entry(StrKey("c"), Int(3))];
      && InitValue(t, StrKey("a"), Int(42)) == (false, t)
      && InitValue(t, StrKey("d"), Int(37)) == (true, t + [Entry(StrKey("d"), Int(37))])
  {
    var t := [Entry(StrKey("a"), Int(1)), Entry(StrKey("b"), Int(2)), Entry(StrKey("c"), Int(3))];
    assert Get(t, StrKey("d")) == None;
    SetAppends(t, StrKey("d"), Int(37));
  }
}
