/**
  Collection and string helpers of `org.gradle.util.GUtil`: joining with a
  separator, Groovy-style truthiness, recursive flattening of nested collections
  and maps, and the list/set/map combinators.

  A Java object is a `Value`. Collections (lists and sets alike) appear as the
  sequence of their elements in iteration order; a map appears as the sequence of
  its values in iteration order, the only part of a map that flattening reads.
 */
module GUtil {
  import opened Wrappers

  datatype Value =
    | Null
    | Str(s: string)
    | Other(id: int)
    | Coll(items: seq<Value>)
    | MapObj(values: seq<Value>)

  // ---------------------------------------------------------------- join

  /** The separator actually used: `null` is read as the empty string. */
  function Separator(separator: Option<string>): string {
    separator.GetOr("")
  }

  /** Each remaining element preceded by the separator. */
  function SeparatedTail(items: seq<string>, sep: string): string
    decreases |items|
  {
    if |items| == 0 then "" else sep + items[0] + SeparatedTail(items[1..], sep)
  }

  /** `GUtil.join`: the first element as is, every later one after a separator. */
  function Join(items: seq<string>, separator: Option<string>): (r: string)
    ensures |items| == 0 ==> r == ""
    ensures |items| == 1 ==> r == items[0]
    ensures |items| > 0 ==> |items[0]| <= |r| && r[..|items[0]|] == items[0]
  {
    if |items| == 0 then "" else items[0] + SeparatedTail(items[1..], Separator(separator))
  }

  function SumLengths(items: seq<string>): nat
    decreases |items|
  {
    if |items| == 0 then 0 else |items[0]| + SumLengths(items[1..])
  }

  /** A `null` separator joins exactly like the empty string. */
  lemma JoinNullSeparator(items: seq<string>)
    ensures Join(items, None) == Join(items, Some(""))
  {
  }

  /** With two or more elements, exactly one separator follows the first. */
  lemma JoinCons(items: seq<string>, separator: Option<string>)
    requires |items| >= 2
    ensures Join(items, separator) == items[0] + Separator(separator) + Join(items[1..], separator)
  {
    var sep := Separator(separator);
    assert SeparatedTail(items[1..], sep) == sep + items[1] + SeparatedTail(items[2..], sep);
    assert items[1..][1..] == items[2..];
  }

  lemma {:induction false} SeparatedTailLength(items: seq<string>, sep: string)
    ensures |SeparatedTail(items, sep)| == SumLengths(items) + |items| * |sep|
    decreases |items|
  {
    if |items| > 0 {
      SeparatedTailLength(items[1..], sep);
    }
  }

  /** n elements are joined with n - 1 separators and nothing else. */
  lemma JoinLength(items: seq<string>, separator: Option<string>)
    requires |items| >= 1
    ensures |Join(items, separator)| == SumLengths(items) + (|items| - 1) * |Separator(separator)|
  {
    SeparatedTailLength(items[1..], Separator(separator));
  }

  /** Splits a string at every occurrence of `c`; the inverse of joining with `c`. */
  function Split(s: string, c: char): (parts: seq<string>)
    ensures |parts| >= 1
    decreases |s|
  {
    if |s| == 0 then [""]
    else
      var rest := Split(s[1..], c);
      if s[0] == c then [""] + rest else [[s[0]] + rest[0]] + rest[1..]
  }

  lemma {:induction false} SplitNoSeparator(x: string, t: string, c: char)
    requires c !in x
    ensures Split(x + t, c) == [x + Split(t, c)[0]] + Split(t, c)[1..]
    decreases |x|
  {
    if |x| > 0 {
      var st := Split(t, c);
      var xt := x + t;
      assert x[0] in x;
      assert xt[0] == x[0] != c;
      assert xt[1..] == x[1..] + t;
      assert c !in x[1..] by {
        forall i | 0 <= i < |x[1..]| ensures x[1..][i] != c {
          assert x[1..][i] == x[i + 1];
        }
      }
      SplitNoSeparator(x[1..], t, c);
      var rest := Split(xt[1..], c);
      assert rest == [x[1..] + st[0]] + st[1..];
      assert Split(xt, c) == [[x[0]] + rest[0]] + rest[1..];
      assert [x[0]] + (x[1..] + st[0]) == x + st[0];
    } else {
      var st := Split(t, c);
      assert x == [];
      assert x + t == t;
      assert x + st[0] == st[0];
      assert st == [st[0]] + st[1..];
    }
  }

  /**
    Joining with a one-character separator that occurs in no element and
    splitting again gives back the elements: the separator stands only between
    consecutive elements, never before the first or after the last.
   */
  lemma {:induction false} JoinSplitRoundTrip(items: seq<string>, c: char)
    requires |items| >= 1
    requires forall i :: 0 <= i < |items| ==> c !in items[i]
    ensures Split(Join(items, Some([c])), c) == items
    decreases |items|
  {
    if |items| == 1 {
      assert c !in items[0];
      SplitNoSeparator(items[0], "", c);
      assert Split("", c) == [""];
      assert Join(items, Some([c])) == items[0] + "";
      assert items[0] + "" == items[0];
      assert items == [items[0]];
    } else {
      JoinCons(items, Some([c]));
      assert Separator(Some([c])) == [c];
      var rest := Join(items[1..], Some([c]));
      assert Join(items, Some([c])) == items[0] + [c] + rest;
      assert c !in items[0];
      assert forall i :: 0 <= i < |items[1..]| ==> c !in items[1..][i] by {
        forall i | 0 <= i < |items[1..]| ensures c !in items[1..][i] {
          assert items[1..][i] == items[i + 1];
        }
      }
      JoinSplitRoundTrip(items[1..], c);
      assert items[0] + [c] + rest == items[0] + ([c] + rest);
      SplitNoSeparator(items[0], [c] + rest, c);
      assert ([c] + rest)[1..] == rest;
      assert Split([c] + rest, c) == [""] + Split(rest, c);
      assert Split(items[0] + ([c] + rest), c) == [items[0] + ""] + Split(rest, c);
      assert items[0] + "" == items[0];
      assert items == [items[0]] + items[1..];
    }
  }

  // ---------------------------------------------------------------- isTrue

  /** `GUtil.isTrue`: false exactly for `null`, an empty collection and an empty string. */
  function IsTrue(v: Value): (b: bool)
    ensures b <==> v != Null && v != Coll([]) && v != Str("")
  {
    match v
    case Null => false
    case Coll(items) => |items| > 0
    case Str(s) => |s| > 0
    case _ => true
  }

  /** A join is a true value iff some element is non-empty, or a non-empty
      separator stands between two elements. */
  lemma {:induction false} JoinIsTrue(items: seq<string>, separator: Option<string>)
    ensures IsTrue(Str(Join(items, separator)))
        <==> (exists i :: 0 <= i < |items| && items[i] != "")
             || (|items| >= 2 && Separator(separator) != "")
  {
    if |items| >= 1 {
      JoinLength(items, separator);
      SumLengthsZero(items);
    }
  }

  lemma {:induction false} SumLengthsZero(items: seq<string>)
    ensures SumLengths(items) == 0 <==> forall i :: 0 <= i < |items| ==> items[i] == ""
    decreases |items|
  {
    if |items| > 0 {
      SumLengthsZero(items[1..]);
      assert forall i :: 1 <= i < |items| ==> items[i] == items[1..][i - 1];
    }
  }

  // ---------------------------------------------------------------- flatten

  /** Non-collection, non-map values are what flattening collects. */
  predicate IsLeaf(v: Value) {
    !v.Coll? && !v.MapObj?
  }

  function Size(v: Value): nat
    decreases v
  {
    match v
    case Coll(items) => 1 + SizeAll(items)
    case MapObj(values) => 1 + SizeAll(values)
    case _ => 1
  }

  function SizeAll(vs: seq<Value>): (n: nat)
    ensures |vs| > 0 ==> n > SizeAll(vs[1..]) && n >= Size(vs[0])
    decreases vs
  {
    if |vs| == 0 then 0 else Size(vs[0]) + SizeAll(vs[1..])
  }

  /** The leaves of a value as a bag: an order-free reference for flattening. */
  function Leaves(v: Value): multiset<Value>
    decreases v
  {
    match v
    case Coll(items) => LeavesAll(items)
    case MapObj(values) => LeavesAll(values)
    case _ => multiset{v}
  }

  function LeavesAll(vs: seq<Value>): multiset<Value>
    decreases vs
  {
    if |vs| == 0 then multiset{} else Leaves(vs[0]) + LeavesAll(vs[1..])
  }

  /** The leaves of a value in depth-first order: an ordered reference for
      flattening, built by concatenation. */
  function LeafOrder(v: Value): seq<Value>
    decreases v
  {
    match v
    case Coll(items) => LeafOrderAll(items)
    case MapObj(values) => LeafOrderAll(values)
    case _ => [v]
  }

  function LeafOrderAll(vs: seq<Value>): seq<Value>
    decreases vs
  {
    if |vs| == 0 then [] else LeafOrder(vs[0]) + LeafOrderAll(vs[1..])
  }

  /**
    `GUtil.flatten(elements, addTo)`: appends the leaves of `elements`, depth
    first, to `addTo`, descending into collections and into the values of maps.
   */
  function Flatten(elements: seq<Value>, addTo: seq<Value>): (r: seq<Value>)
    ensures |addTo| <= |r| && r[..|addTo|] == addTo
    ensures forall i :: |addTo| <= i < |r| ==> IsLeaf(r[i])
    ensures multiset(r) == multiset(addTo) + LeavesAll(elements)
    decreases SizeAll(elements), 1
  {
    if |elements| == 0 then addTo
    else
      var mid := FlattenElement(elements[0], addTo);
      var r := Flatten(elements[1..], mid);
      assert r[..|addTo|] == r[..|mid|][..|addTo|];
      assert forall i :: |addTo| <= i < |r| ==> (i < |mid| ==> r[i] == mid[i]);
      r
  }

  /** One iteration of the loop in `flatten`: recurse into a collection or a
      map's values, otherwise append the element itself. */
  function FlattenElement(e: Value, addTo: seq<Value>): (r: seq<Value>)
    ensures |addTo| <= |r| && r[..|addTo|] == addTo
    ensures forall i :: |addTo| <= i < |r| ==> IsLeaf(r[i])
    ensures multiset(r) == multiset(addTo) + Leaves(e)
    decreases Size(e), 0
  {
    match e
    case Coll(items) => Flatten(items, addTo)
    case MapObj(values) => Flatten(values, addTo)
    case _ => addTo + [e]
  }

  /** `GUtil.flatten(elements)`: flattening into a new list. */
  function FlattenNew(elements: seq<Value>): (r: seq<Value>)
    ensures forall i :: 0 <= i < |r| ==> IsLeaf(r[i])
    ensures multiset(r) == LeavesAll(elements)
  {
    Flatten(elements, [])
  }

  /** Flattening into `addTo` is appending the flattening into an empty list to it. */
  lemma {:induction false} FlattenAccumulator(elements: seq<Value>, addTo: seq<Value>)
    ensures Flatten(elements, addTo) == addTo + Flatten(elements, [])
    decreases SizeAll(elements), 1
  {
    if |elements| > 0 {
      var rest := elements[1..];
      var e := elements[0];
      var alone := FlattenElement(e, []);
      var tail := Flatten(rest, []);
      assert Flatten(elements, addTo) == Flatten(rest, FlattenElement(e, addTo));
      assert Flatten(elements, []) == Flatten(rest, alone);
      FlattenElementAccumulator(e, addTo);
      assert FlattenElement(e, addTo) == addTo + alone;
      FlattenAccumulator(rest, addTo + alone);
      assert Flatten(rest, addTo + alone) == addTo + alone + tail;
      FlattenAccumulator(rest, alone);
      assert Flatten(rest, alone) == alone + tail;
      assert addTo + alone + tail == addTo + (alone + tail);
    }
  }

  lemma {:induction false} FlattenElementAccumulator(e: Value, addTo: seq<Value>)
    ensures FlattenElement(e, addTo) == addTo + FlattenElement(e, [])
    decreases Size(e), 0
  {
    match e
    case Coll(items) => FlattenAccumulator(items, addTo);
    case MapObj(values) => FlattenAccumulator(values, addTo);
    case _ =>
  }

  /** Flattening appends the leaves in depth-first order, each collection's and
      each map's contents in their iteration order, where the element stood. */
  lemma {:induction false} FlattenInOrder(elements: seq<Value>, addTo: seq<Value>)
    ensures Flatten(elements, addTo) == addTo + LeafOrderAll(elements)
    decreases SizeAll(elements), 1
  {
    if |elements| > 0 {
      var e, rest := elements[0], elements[1..];
      var mid := FlattenElement(e, addTo);
      assert Flatten(elements, addTo) == Flatten(rest, mid);
      FlattenElementInOrder(e, addTo);
      assert mid == addTo + LeafOrder(e);
      FlattenInOrder(rest, mid);
      assert LeafOrderAll(elements) == LeafOrder(e) + LeafOrderAll(rest);
      assert addTo + LeafOrder(e) + LeafOrderAll(rest) == addTo + (LeafOrder(e) + LeafOrderAll(rest));
    }
  }

  lemma {:induction false} FlattenElementInOrder(e: Value, addTo: seq<Value>)
    ensures FlattenElement(e, addTo) == addTo + LeafOrder(e)
    decreases Size(e), 0
  {
    match e
    case Coll(items) => FlattenInOrder(items, addTo);
    case MapObj(values) => FlattenInOrder(values, addTo);
    case _ =>
  }

  /** `flatten(elements)` is exactly the depth-first leaf order. */
  lemma FlattenNewInOrder(elements: seq<Value>)
    ensures FlattenNew(elements) == LeafOrderAll(elements)
  {
    FlattenInOrder(elements, []);
    assert [] + LeafOrderAll(elements) == LeafOrderAll(elements);
  }

  /** A list of leaves flattens to itself. */
  lemma {:induction false} FlattenFlat(xs: seq<Value>)
    requires forall i :: 0 <= i < |xs| ==> IsLeaf(xs[i])
    ensures FlattenNew(xs) == xs
    decreases |xs|
  {
    if |xs| > 0 {
      assert IsLeaf(xs[0]);
      assert FlattenElement(xs[0], []) == [xs[0]];
      assert Flatten(xs, []) == Flatten(xs[1..], [xs[0]]);
      FlattenAccumulator(xs[1..], [xs[0]]);
      FlattenFlat(xs[1..]);
      assert xs == [xs[0]] + xs[1..];
    }
  }

  /** Flattening twice is flattening once. */
  lemma FlattenIdempotent(elements: seq<Value>)
    ensures FlattenNew(FlattenNew(elements)) == FlattenNew(elements)
  {
    FlattenFlat(FlattenNew(elements));
  }

  /** Flattening a concatenation continues from the first part's result. */
  lemma {:induction false} FlattenAppend(a: seq<Value>, b: seq<Value>, addTo: seq<Value>)
    ensures Flatten(a + b, addTo) == Flatten(b, Flatten(a, addTo))
    decreases |a|
  {
    if |a| > 0 {
      assert (a + b)[0] == a[0];
      assert (a + b)[1..] == a[1..] + b;
      FlattenAppend(a[1..], b, FlattenElement(a[0], addTo));
    } else {
      assert a + b == b;
    }
  }

  lemma {:induction false} LeavesAllAppend(a: seq<Value>, b: seq<Value>)
    ensures LeavesAll(a + b) == LeavesAll(a) + LeavesAll(b)
    decreases |a|
  {
    if |a| > 0 {
      assert (a + b)[0] == a[0];
      assert (a + b)[1..] == a[1..] + b;
      LeavesAllAppend(a[1..], b);
    } else {
      assert a + b == b;
    }
  }

  /** The bag of leaves does not depend on the iteration order of the elements. */
  lemma {:induction false} LeavesAllPermutation(a: seq<Value>, b: seq<Value>)
    requires multiset(a) == multiset(b)
    ensures LeavesAll(a) == LeavesAll(b)
    decreases |a|
  {
    if |a| == 0 {
      assert |b| == |multiset(b)| == 0;
    } else {
      var x := a[0];
      assert x in multiset(b);
      var j :| 0 <= j < |b| && b[j] == x;
      var b' := b[..j] + b[j + 1..];
      assert b == b[..j] + [x] + b[j + 1..];
      assert a == [x] + a[1..];
      assert multiset(b) == multiset(b[..j]) + multiset([x]) + multiset(b[j + 1..]);
      assert multiset(b') == multiset(b[..j]) + multiset(b[j + 1..]);
      assert multiset(b') == multiset(b) - multiset{x};
      assert multiset(a) == multiset([x]) + multiset(a[1..]);
      assert multiset(a[1..]) == multiset(a) - multiset{x};
      LeavesAllPermutation(a[1..], b');
      LeavesAllAppend(b[..j] + [x], b[j + 1..]);
      LeavesAllAppend(b[..j], [x]);
      LeavesAllAppend(b[..j], b[j + 1..]);
    }
  }

  /**
    Flattening a map gives the same leaves, up to order, whatever order the map
    iterates its values in.
   */
  lemma FlattenMapOrderIrrelevant(vs1: seq<Value>, vs2: seq<Value>)
    requires multiset(vs1) == multiset(vs2)
    ensures multiset(FlattenNew([MapObj(vs1)])) == multiset(FlattenNew([MapObj(vs2)]))
  {
    LeavesAllPermutation(vs1, vs2);
  }

  // ---------------------------------------------------------------- combinators

  /** `GUtil.addToSet`: `source` after `addAll(setToAdd)`, which is also the result. */
  function AddToSet<T(!new)>(source: set<T>, setToAdd: seq<T>): (r: set<T>)
    ensures source <= r
    ensures forall x :: x in r <==> x in source || x in setToAdd
  {
    source + set x | x in setToAdd
  }

  /** `GUtil.addSets`: a new set holding the elements of both. */
  function AddSets<T(!new)>(set1: set<T>, set2: set<T>): (r: set<T>)
    ensures forall x :: x in r <==> x in set1 || x in set2
  {
    set1 + set2
  }

  /** `GUtil.addLists`: a new list, the first list's elements then the second's. */
  function AddLists<T>(list1: seq<T>, list2: seq<T>): (r: seq<T>)
    ensures |r| == |list1| + |list2|
    ensures forall i :: 0 <= i < |list1| ==> r[i] == list1[i]
    ensures forall i :: 0 <= i < |list2| ==> r[|list1| + i] == list2[i]
  {
    list1 + list2
  }

  /** `GUtil.addMaps`: every key of either map; on a shared key `map2` wins. */
  function AddMaps<K, V>(map1: map<K, V>, map2: map<K, V>): (r: map<K, V>)
    ensures r.Keys == map1.Keys + map2.Keys
    ensures forall k :: k in map2 ==> r[k] == map2[k]
    ensures forall k :: k in map1 && k !in map2 ==> r[k] == map1[k]
  {
    map1 + map2
  }

  /** Adding a collection to a set is the union with the set of its elements. */
  lemma AddToSetIsAddSets<T(!new)>(source: set<T>, setToAdd: seq<T>)
    ensures AddToSet(source, setToAdd) == AddSets(source, set x | x in setToAdd)
  {
  }

  /** On disjoint key sets the order of the two maps does not matter. */
  lemma AddMapsDisjointCommutes<K, V>(map1: map<K, V>, map2: map<K, V>)
    requires map1.Keys !! map2.Keys
    ensures AddMaps(map1, map2) == AddMaps(map2, map1)
  {
  }
}
