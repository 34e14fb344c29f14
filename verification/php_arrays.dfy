/** PHP 7 values and ordered arrays, with the array functions the converter relies on:
    `$a[$k] = $v`, `$a[] = $v`, `unset`, `array_merge`, `array_merge_recursive`, `empty()`,
    `isset()`, `floatval()` and loose `==` against a literal. */
module PhpArrays {
  import opened Wrappers
  import opened Sequences

  /** A PHP array key: an integer or a string. */
  datatype Key = IntKey(i: int) | StrKey(s: string)

  /** A PHP value; objects are not modelled. */
  datatype Value =
    | Null
    | Bool(b: bool)
    | Int(i: int)
    | Float(r: real)
    | Str(s: string)
    | Arr(entries: seq<Entry>)

  datatype Entry = Entry(key: Key, value: Value)

  /** An ordered PHP array: entries in insertion order. */
  type PhpArray = seq<Entry>

  function Keys(a: PhpArray): (ks: seq<Key>)
    ensures |ks| == |a|
    ensures forall i :: 0 <= i < |a| ==> ks[i] == a[i].key
  {
    seq(|a|, i requires 0 <= i < |a| => a[i].key)
  }

  predicate Distinct<T(==)>(s: seq<T>) {
    forall i, j :: 0 <= i < j < |s| ==> s[i] != s[j]
  }

  /** Every PHP array built by the interpreter has pairwise distinct keys. */
  predicate UniqueKeys(a: PhpArray) {
    Distinct(Keys(a))
  }

  predicate StringKeyed(a: PhpArray) {
    forall i :: 0 <= i < |a| ==> a[i].key.StrKey?
  }

  lemma {:induction false} DistinctAppend<T>(s: seq<T>, x: T)
    requires Distinct(s) && x !in s
    ensures Distinct(s + [x])
  {
  }

  /** `$a[$k]`: the value stored under `k`, or None when the key is absent. */
  function Lookup(a: PhpArray, k: Key): (r: Option<Value>)
    ensures r.None? <==> k !in Keys(a)
    ensures r.Some? ==> exists i :: 0 <= i < |a| && a[i] == Entry(k, r.value)
  {
    if a == [] then None
    else if a[0].key == k then Some(a[0].value)
    else
      assert Keys(a) == [a[0].key] + Keys(a[1..]);
      var r := Lookup(a[1..], k);
      assert r.Some? ==> exists i :: 0 <= i < |a[1..]| && a[1..][i] == Entry(k, r.value);
      r
  }

  /** With distinct keys, the entry holding a key is the one Lookup finds. */
  lemma {:induction false} LookupUnique(a: PhpArray, i: nat)
    requires UniqueKeys(a) && i < |a|
    ensures Lookup(a, a[i].key) == Some(a[i].value)
  {
    var r := Lookup(a, a[i].key);
    var j :| 0 <= j < |a| && a[j] == Entry(a[i].key, r.value);
    assert Keys(a)[i] == Keys(a)[j];
  }

  lemma {:induction false} LookupConcat(a: PhpArray, b: PhpArray, k: Key)
    ensures Lookup(a + b, k) == if k in Keys(a) then Lookup(a, k) else Lookup(b, k)
  {
    if a == [] {
      assert a + b == b;
    } else {
      assert (a + b)[1..] == a[1..] + b;
      assert Keys(a) == [a[0].key] + Keys(a[1..]);
      LookupConcat(a[1..], b, k);
    }
  }

  /** `isset($a[$k])`: present and not null. */
  predicate IssetAt(a: PhpArray, k: Key) {
    Lookup(a, k).Some? && Lookup(a, k).value != Null
  }

  /** `$a[$k] = $v`: overwrite in place when the key exists, otherwise append. */
  function Set(a: PhpArray, k: Key, v: Value): (r: PhpArray)
    ensures SetFacts(a, k, v, r)
  {
    if a == [] then
      assert Keys([Entry(k, v)]) == [k];
      [Entry(k, v)]
    else if a[0].key == k then
      SetHeadFacts(a, k, v);
      [Entry(k, v)] + a[1..]
    else
      var rest := Set(a[1..], k, v);
      SetConsFacts(a, k, v, rest);
      [a[0]] + rest
  }

  /** What `$a[$k] = $v` promises: `k` now holds `v`, every other key keeps its value, the
      key order is kept (a new key going last), and distinct keys stay distinct. */
  ghost predicate SetFacts(a: PhpArray, k: Key, v: Value, r: PhpArray) {
    && Lookup(r, k) == Some(v)
    && (forall k' :: k' != k ==> Lookup(r, k') == Lookup(a, k'))
    && (k in Keys(a) ==> Keys(r) == Keys(a))
    && (k !in Keys(a) ==> Keys(r) == Keys(a) + [k])
    && (UniqueKeys(a) ==> UniqueKeys(r))
  }

  lemma {:induction false} SetHeadFacts(a: PhpArray, k: Key, v: Value)
    requires a != [] && a[0].key == k
    ensures SetFacts(a, k, v, [Entry(k, v)] + a[1..])
  {
    var r := [Entry(k, v)] + a[1..];
    assert r[1..] == a[1..];
    assert Keys(a) == [a[0].key] + Keys(a[1..]);
    assert Keys(r) == [k] + Keys(r[1..]);
    assert k in Keys(a);
    forall k' | k' != k ensures Lookup(r, k') == Lookup(a, k') {
      assert Lookup(r, k') == Lookup(r[1..], k');
      assert Lookup(a, k') == Lookup(a[1..], k');
    }
  }

  lemma {:induction false} SetConsFacts(a: PhpArray, k: Key, v: Value, rest: PhpArray)
    requires a != [] && a[0].key != k
    requires SetFacts(a[1..], k, v, rest)
    ensures SetFacts(a, k, v, [a[0]] + rest)
  {
    ConsLookups(a, rest, k);
    ConsKeys(a, rest, k);
  }

  /** Looking past a head entry whose key differs. */
  lemma {:induction false} LookupPastHead(e: Entry, t: PhpArray, k: Key)
    requires e.key != k
    ensures Lookup([e] + t, k) == Lookup(t, k)
  {
    assert ([e] + t)[1..] == t;
  }

  /** Putting the head back in front of a tail that agrees with the original tail away from
      `k` gives an array that agrees with the original away from `k`, and answers for `k`
      as the new tail does. */
  lemma {:induction false} ConsLookups(a: PhpArray, rest: PhpArray, k: Key)
    requires a != [] && a[0].key != k
    requires forall k' :: k' != k ==> Lookup(rest, k') == Lookup(a[1..], k')
    ensures Lookup([a[0]] + rest, k) == Lookup(rest, k)
    ensures forall k' :: k' != k ==> Lookup([a[0]] + rest, k') == Lookup(a, k')
  {
    LookupPastHead(a[0], rest, k);
    forall k' | k' != k ensures Lookup([a[0]] + rest, k') == Lookup(a, k') {
      if k' != a[0].key {
        LookupPastHead(a[0], rest, k');
      }
    }
  }

  lemma {:induction false} KeysCons(e: Entry, t: PhpArray)
    ensures Keys([e] + t) == [e.key] + Keys(t)
  {
    assert ([e] + t)[1..] == t;
  }

  lemma {:induction false} ConsKeys(a: PhpArray, rest: PhpArray, k: Key)
    requires a != [] && a[0].key != k
    requires k in Keys(a[1..]) ==> Keys(rest) == Keys(a[1..])
    requires k !in Keys(a[1..]) ==> Keys(rest) == Keys(a[1..]) + [k]
    requires UniqueKeys(a[1..]) ==> UniqueKeys(rest)
    ensures k in Keys(a) ==> Keys([a[0]] + rest) == Keys(a)
    ensures k !in Keys(a) ==> Keys([a[0]] + rest) == Keys(a) + [k]
    ensures UniqueKeys(a) ==> UniqueKeys([a[0]] + rest)
  {
    var e := a[0];
    var t := a[1..];
    KeysTail(a);
    KeysCons(e, rest);
    if k !in Keys(t) {
      ConsSnoc(Keys(a), k);
    }
    if UniqueKeys(a) {
      DistinctCons(e.key, Keys(t));
      assert e.key !in Keys(rest);
      DistinctCons(e.key, Keys(rest));
    }
  }

  /** `unset($a[$k])`. */
  function Remove(a: PhpArray, k: Key): (r: PhpArray)
    ensures Lookup(r, k) == None
    ensures forall k' :: k' != k ==> Lookup(r, k') == Lookup(a, k')
    ensures UniqueKeys(a) ==> UniqueKeys(r)
  {
    if a == [] then []
    else
      var rest := Remove(a[1..], k);
      if a[0].key == k then
        RemoveHeadFacts(a, k, rest);
        rest
      else
        RemoveConsFacts(a, k, rest);
        [a[0]] + rest
  }

  lemma {:induction false} RemoveHeadFacts(a: PhpArray, k: Key, rest: PhpArray)
    requires a != [] && a[0].key == k
    requires forall k' :: k' != k ==> Lookup(rest, k') == Lookup(a[1..], k')
    requires UniqueKeys(a[1..]) ==> UniqueKeys(rest)
    ensures forall k' :: k' != k ==> Lookup(rest, k') == Lookup(a, k')
    ensures UniqueKeys(a) ==> UniqueKeys(rest)
  {
    KeysTail(a);
    DistinctCons(a[0].key, Keys(a[1..]));
  }

  lemma {:induction false} RemoveConsFacts(a: PhpArray, k: Key, rest: PhpArray)
    requires a != [] && a[0].key != k
    requires Lookup(rest, k) == None
    requires forall k' :: k' != k ==> Lookup(rest, k') == Lookup(a[1..], k')
    requires UniqueKeys(a[1..]) ==> UniqueKeys(rest)
    ensures Lookup([a[0]] + rest, k) == None
    ensures forall k' :: k' != k ==> Lookup([a[0]] + rest, k') == Lookup(a, k')
    ensures UniqueKeys(a) ==> UniqueKeys([a[0]] + rest)
  {
    ConsLookups(a, rest, k);
    if UniqueKeys(a) {
      KeysTail(a);
      DistinctCons(a[0].key, Keys(a[1..]));
      assert Lookup(rest, a[0].key) == Lookup(a[1..], a[0].key);
      KeysCons(a[0], rest);
      DistinctCons(a[0].key, Keys(rest));
    }
  }

  lemma {:induction false} DistinctCons<T>(x: T, s: seq<T>)
    ensures Distinct([x] + s) <==> x !in s && Distinct(s)
  {
    var t := [x] + s;
    if x !in s && Distinct(s) {
      forall i, j | 0 <= i < j < |t| ensures t[i] != t[j] {
        if i > 0 {
          assert t[i] == s[i - 1] && t[j] == s[j - 1];
        } else {
          assert t[j] == s[j - 1];
        }
      }
    }
    if Distinct(t) {
      forall i, j | 0 <= i < j < |s| ensures s[i] != s[j] {
        assert s[i] == t[i + 1] && s[j] == t[j + 1];
      }
      assert x !in s by {
        forall j | 0 <= j < |s| ensures s[j] != x {
          assert t[0] == x && t[j + 1] == s[j];
        }
      }
    }
  }

  /** The index `$a[] = $v` uses: one more than the largest integer key, and at least 0. */
  function NextIndex(a: PhpArray): (n: int)
    ensures n >= 0
    ensures forall i :: 0 <= i < |a| && a[i].key.IntKey? ==> a[i].key.i < n
    ensures n == 0 || IntKey(n - 1) in Keys(a)
  {
    if a == [] then 0
    else
      var rest := NextIndex(a[1..]);
      assert Keys(a) == [a[0].key] + Keys(a[1..]);
      if a[0].key.IntKey? && a[0].key.i + 1 > rest then a[0].key.i + 1 else rest
  }

  /** `$a[] = $v`. */
  function Append(a: PhpArray, v: Value): (r: PhpArray)
    ensures Keys(r) == Keys(a) + [IntKey(NextIndex(a))]
    ensures Lookup(r, IntKey(NextIndex(a))) == Some(v)
    ensures forall k :: k != IntKey(NextIndex(a)) ==> Lookup(r, k) == Lookup(a, k)
    ensures UniqueKeys(a) ==> UniqueKeys(r)
  {
    var n := NextIndex(a);
    AppendFacts(a, n, v);
    a + [Entry(IntKey(n), v)]
  }

  lemma {:induction false} AppendFacts(a: PhpArray, n: int, v: Value)
    requires forall i :: 0 <= i < |a| && a[i].key.IntKey? ==> a[i].key.i < n
    ensures IntKey(n) !in Keys(a)
    ensures Keys(a + [Entry(IntKey(n), v)]) == Keys(a) + [IntKey(n)]
    ensures Lookup(a + [Entry(IntKey(n), v)], IntKey(n)) == Some(v)
    ensures forall k :: k != IntKey(n) ==> Lookup(a + [Entry(IntKey(n), v)], k) == Lookup(a, k)
    ensures UniqueKeys(a) ==> UniqueKeys(a + [Entry(IntKey(n), v)])
  {
    var e := Entry(IntKey(n), v);
    assert forall i :: 0 <= i < |a| ==> Keys(a)[i] != IntKey(n);
    assert Keys(a + [e]) == Keys(a) + [IntKey(n)];
    LookupConcat(a, [e], IntKey(n));
    forall k | k != IntKey(n)
      ensures Lookup(a + [e], k) == Lookup(a, k)
    {
      LookupConcat(a, [e], k);
    }
    if UniqueKeys(a) {
      DistinctAppend(Keys(a), IntKey(n));
    }
  }

  /** One step of `array_merge`: a string key overwrites, an integer key is renumbered. */
  function Put(d: PhpArray, e: Entry): PhpArray {
    if e.key.StrKey? then Set(d, e.key, e.value) else Append(d, e.value)
  }

  /** Folds `Put` over `s` in order. */
  function PutAll(d: PhpArray, s: PhpArray): (r: PhpArray)
    ensures UniqueKeys(d) ==> UniqueKeys(r)
    decreases |s|
  {
    if s == [] then d else PutAll(Put(d, s[0]), s[1..])
  }

  /** `array_merge($a, $b)`: string keys of `b` overwrite those of `a` in place; integer keys of
      both are renumbered from zero in order. */
  function ArrayMerge(a: PhpArray, b: PhpArray): PhpArray {
    PutAll(PutAll([], a), b)
  }

  /** The value `array_merge_recursive` turns a colliding destination into: an array stays,
      anything else (null included) becomes a one-element list. */
  function ToArray(v: Value): PhpArray {
    if v.Arr? then v.entries else [Entry(IntKey(0), v)]
  }

  /** What a string key colliding in `array_merge_recursive` ends up holding: the destination as an
      array, with the source's array merged into it recursively or the source's scalar appended. */
  function Collide(x: Value, y: Value): (r: PhpArray)
    decreases y, if y.Arr? then |y.entries| + 1 else 0
  {
    if y.Arr? then MergeFrom(ToArray(x), y, 0) else Append(ToArray(x), y)
  }

  /** The recursive merge of `src.entries[i..]` into `d`, one entry at a time. */
  function MergeFrom(d: PhpArray, src: Value, i: nat): (r: PhpArray)
    requires src.Arr? && i <= |src.entries|
    ensures UniqueKeys(d) ==> UniqueKeys(r)
    decreases src, |src.entries| - i
  {
    if i == |src.entries| then d
    else
      var e := src.entries[i];
      var d' :=
        if e.key.IntKey? then Append(d, e.value)
        else match Lookup(d, e.key)
          case None => Set(d, e.key, e.value)
          case Some(x) => Set(d, e.key, Arr(Collide(x, e.value)));
      MergeFrom(d', src, i + 1)
  }

  /** One step of the recursive merge on a colliding string key. */
  lemma {:induction false} MergeFromCollision(d: PhpArray, src: Value, i: nat, x: Value)
    requires src.Arr? && i < |src.entries| && src.entries[i].key.StrKey?
    requires Lookup(d, src.entries[i].key) == Some(x)
    ensures MergeFrom(d, src, i)
         == MergeFrom(Set(d, src.entries[i].key, Arr(Collide(x, src.entries[i].value))), src, i + 1)
  {
  }

  /** Once every source entry is merged, the destination is the result. */
  lemma {:induction false} MergeFromDone(d: PhpArray, src: Value)
    requires src.Arr?
    ensures MergeFrom(d, src, |src.entries|) == d
  {
  }

  /** `array_merge_recursive($a, $b)`. */
  function ArrayMergeRecursive(a: PhpArray, b: PhpArray): (r: PhpArray)
    ensures UniqueKeys(r)
  {
    assert UniqueKeys([]);
    MergeFrom(PutAll([], a), Arr(b), 0)
  }

  /** When renumbering leaves the first array as it is, the recursive merge starts from it. */
  lemma {:induction false} MergeRecursiveOfRenumbered(a: PhpArray, b: PhpArray)
    requires PutAll([], a) == a
    ensures ArrayMergeRecursive(a, b) == MergeFrom(a, Arr(b), 0)
  {
  }

  lemma {:induction false} SetCons(a: PhpArray, k: Key, v: Value)
    requires a != [] && a[0].key != k
    ensures Set(a, k, v) == [a[0]] + Set(a[1..], k, v)
  {
  }

  /** Setting an absent key appends it at the end. */
  lemma {:induction false} SetAbsentAppends(a: PhpArray, k: Key, v: Value)
    requires k !in Keys(a)
    ensures Set(a, k, v) == a + [Entry(k, v)]
    decreases |a|
  {
    if a != [] {
      KeysTail(a);
      SetAbsentAppends(a[1..], k, v);
      SetCons(a, k, v);
      ConsSnoc(a, Entry(k, v));
    }
  }

  lemma {:induction false} KeysTail(a: PhpArray)
    requires a != []
    ensures Keys(a) == [a[0].key] + Keys(a[1..])
  {
  }

  lemma {:induction false} FreshHeadKey(d: PhpArray, s: PhpArray)
    requires s != [] && UniqueKeys(d + s)
    ensures s[0].key !in Keys(d)
    ensures UniqueKeys((d + [s[0]]) + s[1..])
  {
    forall i | 0 <= i < |d| ensures Keys(d)[i] != s[0].key {
      assert Keys(d + s)[i] == d[i].key;
      assert Keys(d + s)[|d|] == s[0].key;
    }
    MoveHead(d, s);
  }

  /** `array_merge` of string-keyed entries with keys not yet present appends them. */
  lemma {:induction false} PutAllFreshStrings(d: PhpArray, s: PhpArray)
    requires StringKeyed(s) && UniqueKeys(d + s)
    ensures PutAll(d, s) == d + s
    decreases |s|
  {
    if s == [] {
      assert d + s == d;
    } else {
      var e := s[0];
      FreshHeadKey(d, s);
      SetAbsentAppends(d, e.key, e.value);
      assert Put(d, e) == d + [e];
      assert StringKeyed(s[1..]) by {
        forall j | 0 <= j < |s[1..]| ensures s[1..][j].key.StrKey? {
          assert s[1..][j] == s[j + 1];
        }
      }
      PutAllFreshStrings(d + [e], s[1..]);
      PutAllCons(d, s);
      MoveHead(d, s);
    }
  }

  lemma {:induction false} MoveHead<T>(d: seq<T>, s: seq<T>)
    requires s != []
    ensures (d + [s[0]]) + s[1..] == d + s
  {
  }

  lemma {:induction false} PutAllCons(d: PhpArray, s: PhpArray)
    requires s != []
    ensures PutAll(d, s) == PutAll(Put(d, s[0]), s[1..])
  {
  }

  lemma {:induction false} MergeFromFreshStrings(d: PhpArray, src: Value, i: nat)
    requires src.Arr? && i <= |src.entries| && StringKeyed(src.entries)
    requires UniqueKeys(d + src.entries[i..])
    ensures MergeFrom(d, src, i) == d + src.entries[i..]
    decreases |src.entries| - i
  {
    if i < |src.entries| {
      var s := src.entries[i..];
      FreshHeadKey(d, s);
      assert s[0] == src.entries[i] && s[1..] == src.entries[i + 1..];
      SetAbsentAppends(d, s[0].key, s[0].value);
      MergeFromFreshStrings(d + [s[0]], src, i + 1);
      MoveHead(d, s);
    } else {
      assert src.entries[i..] == [];
    }
  }

  /** `array_merge_recursive` of string-keyed arrays with disjoint keys is concatenation. */
  lemma {:induction false} ArrayMergeRecursiveDisjoint(a: PhpArray, b: PhpArray)
    requires StringKeyed(a) && StringKeyed(b) && UniqueKeys(a + b)
    ensures ArrayMergeRecursive(a, b) == a + b
  {
    assert [] + a == a && a + [] == a;
    assert UniqueKeys(a) by {
      forall i, j | 0 <= i < j < |a| ensures Keys(a)[i] != Keys(a)[j] {
        assert Keys(a + b)[i] == Keys(a)[i] && Keys(a + b)[j] == Keys(a)[j];
      }
    }
    PutAllFreshStrings([], a);
    assert Arr(b).entries[0..] == b;
    MergeFromFreshStrings(a, Arr(b), 0);
  }

  /** Pointwise meaning of `array_merge`: the second array's value wins. */
  function Override(dv: Option<Value>, sv: Option<Value>): Option<Value> {
    if sv.Some? then sv else dv
  }

  /** Pointwise meaning of `array_merge_recursive` for a string key. */
  function MergeValues(dv: Option<Value>, sv: Option<Value>): Option<Value> {
    match sv
    case None => dv
    case Some(y) =>
      match dv
      case None => Some(y)
      case Some(x) => Some(Arr(Collide(x, y)))
  }

  lemma {:induction false} PutAllPointwise(d: PhpArray, s: PhpArray, k: string)
    requires UniqueKeys(s)
    ensures Lookup(PutAll(d, s), StrKey(k)) == Override(Lookup(d, StrKey(k)), Lookup(s, StrKey(k)))
    decreases |s|
  {
    if s != [] {
      assert Keys(s) == [s[0].key] + Keys(s[1..]);
      assert UniqueKeys(s[1..]) by {
        assert Keys(s[1..]) == Keys(s)[1..];
      }
      PutAllPointwise(Put(d, s[0]), s[1..], k);
      if s[0].key == StrKey(k) {
        assert StrKey(k) !in Keys(s[1..]);
      }
    }
  }

  lemma {:induction false} MergeFromPointwise(d: PhpArray, src: Value, i: nat, k: string)
    requires src.Arr? && i <= |src.entries| && UniqueKeys(src.entries[i..])
    ensures Lookup(MergeFrom(d, src, i), StrKey(k))
         == MergeValues(Lookup(d, StrKey(k)), Lookup(src.entries[i..], StrKey(k)))
    decreases |src.entries| - i
  {
    var es := src.entries[i..];
    if i < |src.entries| {
      var e := src.entries[i];
      assert es == [e] + src.entries[i + 1..];
      assert Keys(es) == [e.key] + Keys(src.entries[i + 1..]);
      assert UniqueKeys(src.entries[i + 1..]) by {
        assert Keys(src.entries[i + 1..]) == Keys(es)[1..];
      }
      var d' :=
        if e.key.IntKey? then Append(d, e.value)
        else match Lookup(d, e.key)
          case None => Set(d, e.key, e.value)
          case Some(x) => Set(d, e.key, Arr(Collide(x, e.value)));
      assert MergeFrom(d, src, i) == MergeFrom(d', src, i + 1);
      MergeFromPointwise(d', src, i + 1, k);
      if e.key == StrKey(k) {
        assert StrKey(k) !in Keys(src.entries[i + 1..]);
      }
    }
  }

  /** `array_merge`, key by key: for every string key the second array's value wins, and a key
      the second array lacks keeps the first array's value. */
  lemma {:induction false} ArrayMergePointwise(a: PhpArray, b: PhpArray, k: string)
    requires UniqueKeys(a) && UniqueKeys(b)
    ensures Lookup(ArrayMerge(a, b), StrKey(k)) == Override(Lookup(a, StrKey(k)), Lookup(b, StrKey(k)))
  {
    PutAllPointwise([], a, k);
    PutAllPointwise(PutAll([], a), b, k);
  }

  /** `array_merge_recursive`, key by key: a string key present in one array keeps its value; a key
      present in both holds the collision of the two values. */
  lemma {:induction false} ArrayMergeRecursivePointwise(a: PhpArray, b: PhpArray, k: string)
    requires UniqueKeys(a) && UniqueKeys(b)
    ensures Lookup(ArrayMergeRecursive(a, b), StrKey(k))
         == MergeValues(Lookup(a, StrKey(k)), Lookup(b, StrKey(k)))
  {
    PutAllPointwise([], a, k);
    assert b[0..] == b;
    MergeFromPointwise(PutAll([], a), Arr(b), 0, k);
  }

  /** Two scalars colliding under one key become the two-element list of both, in order. */
  lemma {:induction false} ScalarCollisionIsList(x: Value, y: Value)
    requires !x.Arr? && !y.Arr?
    ensures Collide(x, y) == [Entry(IntKey(0), x), Entry(IntKey(1), y)]
  {
    assert NextIndex([Entry(IntKey(0), x)]) == 1;
  }

  /** A scalar colliding with a list becomes the scalar followed by the list's elements. */
  lemma {:induction false} ScalarCollidesWithSingleton(x: Value, y: Value)
    requires !x.Arr?
    ensures Collide(x, Arr([Entry(IntKey(0), y)])) == [Entry(IntKey(0), x), Entry(IntKey(1), y)]
  {
    var src := Arr([Entry(IntKey(0), y)]);
    assert NextIndex([Entry(IntKey(0), x)]) == 1;
    assert MergeFrom(ToArray(x), src, 0) == MergeFrom(Append(ToArray(x), y), src, 1);
  }

  /** `array_values($a)`: the values in order, as `foreach` visits them. */
  function Values(a: PhpArray): (vs: seq<Value>)
    ensures |vs| == |a|
    ensures forall i :: 0 <= i < |a| ==> vs[i] == a[i].value
  {
    seq(|a|, i requires 0 <= i < |a| => a[i].value)
  }

  /** The list `[v0, v1, ...]`: the values under the keys 0, 1, ... */
  function List(vs: seq<Value>): (r: PhpArray)
    ensures |r| == |vs|
    ensures forall i :: 0 <= i < |vs| ==> r[i] == Entry(IntKey(i), vs[i])
  {
    seq(|vs|, i requires 0 <= i < |vs| => Entry(IntKey(i), vs[i]))
  }

  /** `empty($v)`. */
  predicate IsEmpty(v: Value) {
    match v
    case Null => true
    case Bool(b) => !b
    case Int(i) => i == 0
    case Float(r) => r == 0.0
    case Str(s) => s == "" || s == "0"
    case Arr(es) => es == []
  }

  /** `empty($a[$k])`: absent, or present with an empty value. */
  predicate EmptyAt(a: PhpArray, k: Key) {
    Lookup(a, k).None? || IsEmpty(Lookup(a, k).value)
  }

  /** `count($v)` in PHP 7: an array's size, 0 for null and 1 for any other scalar. */
  function Count(v: Value): nat {
    match v
    case Arr(es) => |es|
    case Null => 0
    case _ => 1
  }

  /** `floatval($v)`; how a string's numeric prefix is read is passed in. */
  function FloatVal(v: Value, numericPrefix: string -> real): real {
    match v
    case Null => 0.0
    case Bool(b) => if b then 1.0 else 0.0
    case Int(i) => i as real
    case Float(r) => r
    case Str(s) => numericPrefix(s)
    case Arr(es) => if es == [] then 0.0 else 1.0
  }

  /** PHP 7 loose `$v == $literal` for a literal string that is not numeric and does not start
      with a digit, as every literal the converter compares against: a number is compared with
      zero, a boolean with the literal's truth, null with the empty string. */
  predicate LooseEqualsLiteral(v: Value, literal: string) {
    match v
    case Null => literal == ""
    case Bool(b) => b == (literal != "" && literal != "0")
    case Int(i) => i == 0
    case Float(r) => r == 0.0
    case Str(s) => s == literal
    case Arr(_) => false
  }

  /** `in_array($v, $literals)` without the strict flag. */
  predicate LooselyIn(v: Value, literals: seq<string>) {
    exists i :: 0 <= i < |literals| && LooseEqualsLiteral(v, literals[i])
  }

  predicate IsDigit(c: char) {
    '0' <= c <= '9'
  }

  predicate AllDigits(s: string) {
    forall i :: 0 <= i < |s| ==> IsDigit(s[i])
  }

  function DigitsValue(s: string): nat
    requires AllDigits(s)
  {
    if s == [] then 0 else DigitsValue(s[..|s| - 1]) * 10 + (s[|s| - 1] as int - '0' as int)
  }

  /** A decimal integer in canonical form ("0", "42", "-7"; not "007", "-0" or "+1"). */
  predicate IsCanonicalInteger(s: string) {
    || s == "0"
    || (|s| >= 1 && '1' <= s[0] <= '9' && AllDigits(s))
    || (|s| >= 2 && s[0] == '-' && '1' <= s[1] <= '9' && AllDigits(s[1..]))
  }

  /** The bounds of a PHP integer on a 64-bit build. */
  const PHP_INT_MIN: int := -0x8000_0000_0000_0000
  const PHP_INT_MAX: int := 0x7fff_ffff_ffff_ffff

  /** The value a canonical decimal numeral denotes. */
  function NumeralValue(s: string): int
    requires IsCanonicalInteger(s)
  {
    if s[0] == '-' then -(DigitsValue(s[1..]) as int) else DigitsValue(s)
  }

  /** The key PHP uses for `$a["..."]`: a canonical decimal string whose value fits a PHP
      integer becomes an integer key; any other string, a longer numeral included, stays a
      string key. */
  function SymtableKey(s: string): (k: Key)
    ensures k.StrKey? <==> !(IsCanonicalInteger(s) && PHP_INT_MIN <= NumeralValue(s) <= PHP_INT_MAX)
    ensures k.StrKey? ==> k.s == s
    ensures k.IntKey? ==> k.i == NumeralValue(s) && PHP_INT_MIN <= k.i <= PHP_INT_MAX
  {
    if IsCanonicalInteger(s) && PHP_INT_MIN <= NumeralValue(s) <= PHP_INT_MAX then IntKey(NumeralValue(s))
    else StrKey(s)
  }

  /** The decimal digits of a natural number, most significant first. */
  function Digits(n: nat): (d: string)
    ensures |d| >= 1 && AllDigits(d)
    decreases n
  {
    if n < 10 then [('0' as int + n) as char]
    else Digits(n / 10) + [('0' as int + n % 10) as char]
  }

  /** `(string)$i`: an integer as PHP writes it in decimal. */
  function IntString(i: int): string {
    if i < 0 then "-" + Digits(-i) else Digits(i)
  }

  lemma {:induction false} DigitsReadBack(n: nat)
    ensures DigitsValue(Digits(n)) == n
    ensures n > 0 ==> Digits(n)[0] != '0'
    decreases n
  {
    if n >= 10 {
      DigitsReadBack(n / 10);
      var d := Digits(n);
      assert d[..|d| - 1] == Digits(n / 10);
    }
  }

  /** `(string)$i` is a canonical numeral denoting `i`. */
  lemma {:induction false} IntStringReadBack(i: int)
    ensures IsCanonicalInteger(IntString(i)) && NumeralValue(IntString(i)) == i
  {
    var s := IntString(i);
    if i < 0 {
      DigitsReadBack(-i);
      assert s[1..] == Digits(-i);
    } else {
      DigitsReadBack(i);
    }
  }

  /** An integer written in decimal reads back as the same integer key, so `$a[(string)$i]` and
      `$a[$i]` name the same element for every PHP integer. */
  lemma {:induction false} IntStringKeyRoundTrip(i: int)
    requires PHP_INT_MIN <= i <= PHP_INT_MAX
    ensures SymtableKey(IntString(i)) == IntKey(i)
  {
    IntStringReadBack(i);
  }

  /** Looks a nested path up, as `$a['x']['y']`: None as soon as a step is absent or not an array. */
  function LookupPath(v: Value, path: seq<Key>): (r: Option<Value>)
    decreases |path|
  {
    if path == [] then Some(v)
    else if !v.Arr? then None
    else
      match Lookup(v.entries, path[0])
      case None => None
      case Some(w) => LookupPath(w, path[1..])
  }

  /** `isset($a['x']['y'])`. */
  predicate IssetPath(v: Value, path: seq<Key>) {
    LookupPath(v, path).Some? && LookupPath(v, path).value != Null
  }
}
