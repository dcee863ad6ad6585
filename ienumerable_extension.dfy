/** IEnumerableExtension: list helpers that System.Linq does not provide. */
module IEnumerableExtension {
  import opened Wrappers
  import opened Text

  /** IsNullOrEmpty: true for a null sequence or one without elements. The
      query-string code calls it on strings, which are sequences of chars. */
  predicate IsNullOrEmpty<T>(list: Option<seq<T>>)
  {
    list.None? || |list.value| == 0
  }

  // ---------------------------------------------------------------------
  // RemoveAll
  // ---------------------------------------------------------------------

  /** The elements of `s` that do not satisfy `p`, in order. */
  function RemoveWhere<T>(s: seq<T>, p: T -> bool): (r: seq<T>)
    ensures |r| <= |s|
    ensures forall i :: 0 <= i < |r| ==> !p(r[i])
    ensures forall x :: x in r ==> x in s
    ensures forall x :: x in s && !p(x) ==> x in r
  {
    if |s| == 0 then []
    else (if p(s[0]) then [] else [s[0]]) + RemoveWhere(s[1..], p)
  }

  /** The number of elements of `s` that satisfy `p`. */
  function CountWhere<T>(s: seq<T>, p: T -> bool): nat
  {
    if |s| == 0 then 0 else (if p(s[0]) then 1 else 0) + CountWhere(s[1..], p)
  }

  /** FirstOrDefault(predicate) on a list of references: the first element
      satisfying `p`, or None, standing for null. */
  function FirstWhere<T>(s: seq<T>, p: T -> bool): (r: Option<T>)
    ensures r.None? <==> forall i :: 0 <= i < |s| ==> !p(s[i])
    ensures r.Some? ==> p(r.value)
    ensures r.Some? ==>
      exists i :: 0 <= i < |s| && s[i] == r.value && forall j :: 0 <= j < i ==> !p(s[j])
  {
    if |s| == 0 then None
    else if p(s[0]) then Some(s[0])
    else FirstWhere(s[1..], p)
  }

  /** List<T>.Remove(x): drops the first element equal to `x`. */
  function RemoveFirst<T(==)>(s: seq<T>, x: T): (r: seq<T>)
    ensures x in s ==> |r| == |s| - 1
    ensures x !in s ==> r == s
  {
    if |s| == 0 then []
    else if s[0] == x then s[1..]
    else [s[0]] + RemoveFirst(s[1..], x)
  }

  /** What List<T>.Remove(x) drops is the element at IndexOf(x): the
      elements before it and those after it are kept, in order. */
  lemma {:induction false} RemoveFirstAt<T>(s: seq<T>, x: T)
    requires x in s
    ensures RemoveFirst(s, x) == s[..IndexOf(s, x)] + s[IndexOf(s, x) + 1..]
  {
    if s[0] == x {
      assert s[..0] + s[1..] == s[1..];
    } else {
      var t := s[1..];
      assert x in t;
      RemoveFirstAt(t, x);
      assert s == [s[0]] + t;
      DropOneAfterHead(s[0], t, IndexOf(t, x));
    }
  }

  /** Dropping the element at `i` of the tail is dropping the one at
      `i + 1` of the whole. */
  lemma DropOneAfterHead<T>(h: T, t: seq<T>, i: nat)
    requires i < |t|
    ensures [h] + (t[..i] + t[i + 1..]) == ([h] + t)[..i + 1] + ([h] + t)[i + 2..]
  {
    var s := [h] + t;
    assert s[..i + 1] == [h] + t[..i];
    assert s[i + 2..] == t[i + 1..];
  }

  /** A mutable list, standing for IList<T>. */
  class MutableList<T(==)> {
    var items: seq<T>

    constructor(items: seq<T>)
      ensures this.items == items
    {
      this.items := items;
    }

    /** List<T>.Remove. */
    method Remove(x: T)
      modifies this
      ensures items == RemoveFirst(old(items), x)
    {
      items := RemoveFirst(items, x);
    }
  }

  /** Removing the first element that satisfies `p` leaves the elements
      that do not satisfy it as they were. */
  lemma {:induction false} RemoveFirstMatch<T>(s: seq<T>, p: T -> bool)
    requires FirstWhere(s, p).Some?
    ensures var x := FirstWhere(s, p).value;
      x in s && RemoveWhere(RemoveFirst(s, x), p) == RemoveWhere(s, p)
    decreases |s|
  {
    var x := FirstWhere(s, p).value;
    if s[0] == x {
      assert p(s[0]);
      assert RemoveWhere(s, p) == [] + RemoveWhere(s[1..], p);
    } else {
      assert !p(s[0]);
      RemoveFirstMatch(s[1..], p);
      var t := RemoveFirst(s, x);
      assert t == [s[0]] + RemoveFirst(s[1..], x);
      assert t[1..] == RemoveFirst(s[1..], x);
    }
  }

  /** When nothing satisfies `p`, there is nothing to remove. */
  lemma {:induction false} RemoveWhereNothing<T>(s: seq<T>, p: T -> bool)
    requires forall i :: 0 <= i < |s| ==> !p(s[i])
    ensures RemoveWhere(s, p) == s
    decreases |s|
  {
    if |s| > 0 {
      RemoveWhereNothing(s[1..], p);
    }
  }

  /** What is removed is what satisfies `p`. */
  lemma {:induction false} RemoveWhereCount<T>(s: seq<T>, p: T -> bool)
    ensures |RemoveWhere(s, p)| == |s| - CountWhere(s, p)
    decreases |s|
  {
    if |s| > 0 {
      RemoveWhereCount(s[1..], p);
    }
  }

  /** RemoveAll(IList<T>, predicate): removes the first matching element
      until none is left and counts the removals; 0 for a null list. */
  method RemoveAll<T(==)>(list: MutableList?<T>, p: T -> bool) returns (count: nat)
    modifies list
    ensures list == null ==> count == 0
    ensures list != null ==>
      list.items == RemoveWhere(old(list.items), p) && count == |old(list.items)| - |list.items|
  {
    if list == null || |list.items| == 0 {
      return 0;
    }
    ghost var original := list.items;
    count := 0;
    while true
      invariant |list.items| <= |original|
      invariant RemoveWhere(list.items, p) == RemoveWhere(original, p)
      invariant count == |original| - |list.items|
      decreases |list.items|
    {
      var item := FirstWhere(list.items, p);
      if item.None? {
        break;
      }
      RemoveFirstMatch(list.items, p);
      list.Remove(item.value);
      count := count + 1;
    }
    RemoveWhereNothing(list.items, p);
  }

  /** One pass of RemoveAll's loop on a list of a value type, where
      FirstOrDefault gives default(T), here `zero`, when nothing matches:
      once nothing matches, the pass removes nothing unless `zero` is in the
      list, and then it removes that element, which does not match. */
  function ValueTypePass<T(==)>(s: seq<T>, p: T -> bool, zero: T): (r: seq<T>)
    ensures FirstWhere(s, p).None? && zero !in s ==> r == s
    ensures FirstWhere(s, p).None? && zero in s ==> !p(zero) && |r| == |s| - 1
  {
    var item := match FirstWhere(s, p) case Some(x) => x case None => zero;
    RemoveFirst(s, item)
  }

  /** The list and the count of RemoveAll's loop. */
  datatype LoopState<T> = LoopState(items: seq<T>, count: int)

  /** The state after `k` passes of the loop on a list of a value type,
      whose exit test (the item is null) never holds. */
  function ValueTypePasses<T(==)>(s: seq<T>, p: T -> bool, zero: T, k: nat): LoopState<T>
  {
    if k == 0 then LoopState(s, 0)
    else
      var prev := ValueTypePasses(s, p, zero, k - 1);
      LoopState(ValueTypePass(prev.items, p, zero), prev.count + 1)
  }

  /** Pass `k` starts from the state pass `k - 1` left. */
  lemma PassAfter<T>(s: seq<T>, p: T -> bool, zero: T, k: nat, items: seq<T>, count: int)
    requires k > 0 && ValueTypePasses(s, p, zero, k - 1) == LoopState(items, count)
    ensures ValueTypePasses(s, p, zero, k) == LoopState(ValueTypePass(items, p, zero), count + 1)
  {
  }

  /** Once nothing matches and default(T) is not in the list, every pass
      leaves the list as it is and only the count goes on growing. */
  lemma {:induction false} ValueTypeLoopStalls<T>(s: seq<T>, p: T -> bool, zero: T, k: nat)
    requires FirstWhere(s, p).None? && zero !in s
    ensures ValueTypePasses(s, p, zero, k) == LoopState(s, k)
  {
    FixedPoint(s, p, zero, k);
  }

  /** A list a pass leaves as it is stays so on every pass. */
  lemma {:induction false} FixedPoint<T>(s: seq<T>, p: T -> bool, zero: T, k: nat)
    requires ValueTypePass(s, p, zero) == s
    ensures ValueTypePasses(s, p, zero, k) == LoopState(s, k)
  {
    if k > 0 {
      FixedPoint(s, p, zero, k - 1);
      PassAfter(s, p, zero, k, s, k - 1);
    }
  }

  /** A list whose first pass empties it stays empty on every later pass. */
  lemma {:induction false} EmptiedStaysEmpty<T>(s: seq<T>, p: T -> bool, zero: T, k: nat)
    requires k >= 1
    requires ValueTypePass(s, p, zero) == []
    ensures ValueTypePasses(s, p, zero, k) == LoopState([], k)
  {
    if k > 1 {
      EmptiedStaysEmpty(s, p, zero, k - 1);
      assert FirstWhere([], p) == None;
      PassAfter(s, p, zero, k, [], k - 1);
    }
  }

  /** The predicate x > 5 of the example below. */
  predicate AboveFive(x: int)
  {
    x > 5
  }

  /** On the list [7] of ints with the predicate x > 5, the first pass
      removes 7 and every later one removes nothing while the count goes on
      growing: every number of passes happens, and the loop never ends. */
  lemma {:induction false} ValueTypeLoopRunsOn(k: nat)
    requires k >= 1
    ensures ValueTypePasses([7], AboveFive, 0, k) == LoopState([], k)
  {
    assert AboveFive(7);
    assert FirstWhere([7], AboveFive) == Some(7);
    EmptiedStaysEmpty([7], AboveFive, 0, k);
  }

  // ---------------------------------------------------------------------
  // Distinct by key
  // ---------------------------------------------------------------------

  /** The keys of `items`. */
  function KeySet<T, K(==)>(items: seq<T>, key: T -> K): set<K>
  {
    set i | 0 <= i < |items| :: key(items[i])
  }

  lemma KeySetAppend<T, K>(items: seq<T>, key: T -> K, x: T)
    ensures KeySet(items + [x], key) == KeySet(items, key) + {key(x)}
  {
    var r := items + [x];
    assert key(r[|items|]) == key(x);
    forall k | k in KeySet(r, key)
      ensures k in KeySet(items, key) + {key(x)}
    {
      var i :| 0 <= i < |r| && key(r[i]) == k;
      if i < |items| {
        assert r[i] == items[i];
      }
    }
    forall k | k in KeySet(items, key)
      ensures k in KeySet(r, key)
    {
      var i :| 0 <= i < |items| && key(items[i]) == k;
      assert r[i] == items[i];
    }
  }

  /** The items whose key did not occur before them, in order. */
  function DistinctBy<T, K(==)>(items: seq<T>, key: T -> K): seq<T>
  {
    if |items| == 0 then []
    else
      var init := items[..|items| - 1];
      DistinctBy(init, key) + (if key(items[|items| - 1]) in KeySet(init, key) then [] else [items[|items| - 1]])
  }

  /** Distinct(items, selector): yields each item whose key the HashSet did
      not hold yet. The source is lazy: a null `items` throws once the
      result is enumerated, which the model folds into the call. */
  method Distinct<T, K(==)>(items: Option<seq<T>>, selector: T -> K) returns (result: Outcome<seq<T>>)
    ensures items.None? <==> result == Throws(NullReference)
    ensures items.Some? ==> result == Returns(DistinctBy(items.value, selector))
  {
    if items.None? {
      return Throws(NullReference);
    }
    var list := DistinctLoop(items.value, selector);
    result := Returns(list);
  }

  /** The loop of Distinct over a non-null sequence. */
  method DistinctLoop<T, K(==)>(items: seq<T>, selector: T -> K) returns (result: seq<T>)
    ensures result == DistinctBy(items, selector)
  {
    var keys: set<K> := {};
    result := [];
    for i := 0 to |items|
      invariant keys == KeySet(items[..i], selector)
      invariant result == DistinctBy(items[..i], selector)
    {
      assert items[..i + 1][..i] == items[..i];
      var selected := selector(items[i]);
      if selected !in keys {
        keys := keys + {selected};
        result := result + [items[i]];
      } else {
        assert DistinctBy(items[..i + 1], selector) == DistinctBy(items[..i], selector) + [];
      }
      assert items[..i + 1] == items[..i] + [items[i]];
      KeySetAppend(items[..i], selector, items[i]);
    }
    assert items[..|items|] == items;
  }

  /** Item `i` is the first with its key. */
  predicate FirstWithKey<T, K(==)>(items: seq<T>, key: T -> K, i: int)
    requires 0 <= i < |items|
  {
    forall j :: 0 <= j < i ==> key(items[j]) != key(items[i])
  }

  /** The items at positions below `n` that are the first with their key,
      in order: a reference definition by positions. */
  function FirstOccurrences<T, K(==)>(items: seq<T>, key: T -> K, n: nat): seq<T>
    requires n <= |items|
  {
    if n == 0 then []
    else FirstOccurrences(items, key, n - 1) + (if FirstWithKey(items, key, n - 1) then [items[n - 1]] else [])
  }

  lemma FirstOccurrencesPrefix<T, K>(items: seq<T>, key: T -> K, m: nat, n: nat)
    requires n <= m <= |items|
    ensures FirstOccurrences(items[..m], key, n) == FirstOccurrences(items, key, n)
  {
    if n > 0 {
      FirstOccurrencesPrefix(items, key, m, n - 1);
      assert FirstWithKey(items[..m], key, n - 1) == FirstWithKey(items, key, n - 1);
    }
  }

  /** Distinct keeps exactly the first item of each key, in order. */
  lemma {:induction false} DistinctByFirstOccurrences<T, K>(items: seq<T>, key: T -> K)
    ensures DistinctBy(items, key) == FirstOccurrences(items, key, |items|)
    decreases |items|
  {
    var n := |items|;
    if n > 0 {
      var init := items[..n - 1];
      DistinctByFirstOccurrences(init, key);
      FirstOccurrencesPrefix(items, key, n - 1, n - 1);
      if key(items[n - 1]) in KeySet(init, key) {
        var j :| 0 <= j < n - 1 && key(init[j]) == key(items[n - 1]);
        assert items[j] == init[j];
        assert !FirstWithKey(items, key, n - 1);
      } else {
        forall j | 0 <= j < n - 1
          ensures key(items[j]) != key(items[n - 1])
        {
          assert items[j] == init[j];
          assert key(init[j]) in KeySet(init, key);
        }
      }
    }
  }

  /** The items Distinct keeps have pairwise different keys, and every key
      of the input is kept. */
  lemma {:induction false} DistinctByKeys<T, K>(items: seq<T>, key: T -> K)
    ensures var r := DistinctBy(items, key);
      (forall i, j :: 0 <= i < j < |r| ==> key(r[i]) != key(r[j]))
      && KeySet(r, key) == KeySet(items, key)
    decreases |items|
  {
    var n := |items|;
    if n > 0 {
      var init := items[..n - 1];
      var last := items[n - 1];
      DistinctByKeys(init, key);
      var before := DistinctBy(init, key);
      assert items == init + [last];
      KeySetAppend(init, key, last);
      if key(last) in KeySet(init, key) {
        assert DistinctBy(items, key) == before + [];
        assert before + [] == before;
      } else {
        var r := before + [last];
        KeySetAppend(before, key, last);
        forall i, j | 0 <= i < j < |r|
          ensures key(r[i]) != key(r[j])
        {
          if j == |before| {
            assert key(before[i]) in KeySet(before, key);
          } else {
            assert r[i] == before[i] && r[j] == before[j];
          }
        }
      }
    }
  }

  // ---------------------------------------------------------------------
  // Traverse
  // ---------------------------------------------------------------------

  /** An item together with what the recursive function returns for it. */
  datatype Node<T> = Node(item: T, children: Children<T>)

  /** The recursive function's result: null, or a sequence of nodes. */
  datatype Children<T> = Null | Yields(nodes: seq<Node<T>>)

  /** What the recursive function yields for a node, null standing for no
      children. */
  function ChildrenOf<T>(node: Node<T>): seq<Node<T>>
  {
    match node.children
    case Null => []
    case Yields(children) => children
  }

  /** Traverse, whose source is lazy: a null source throws once the result
      is enumerated, which the model folds into the call; otherwise the
      traversal of the source. The recursive calls never see a null. */
  function Traverse<T>(source: Option<seq<Node<T>>>): (r: Outcome<seq<T>>)
    ensures source.None? <==> r == Throws(NullReference)
    ensures source.Some? ==> r == Returns(Traversal(source.value))
  {
    match source
    case None => Throws(NullReference)
    case Some(nodes) => Returns(Traversal(nodes))
  }

  /** The traversal: each item of the source in order, each followed by the
      traversal of what the recursive function yields for it, skipped when
      that is null. */
  function Traversal<T>(source: seq<Node<T>>): (r: seq<T>)
    ensures |r| >= |source|
    ensures |source| > 0 ==> r[0] == source[0].item
    ensures forall i :: 0 <= i < |source| ==> source[i].item in r
  {
    if |source| == 0 then []
    else [source[0].item] + Descendants(source[0], 0) + Traversal(source[1..])
  }

  /** The traversal of the children of `parent` from the `i`-th on. */
  function Descendants<T>(parent: Node<T>, i: nat): seq<T>
    decreases parent, |ChildrenOf(parent)| - i
  {
    match parent.children
    case Null => []
    case Yields(children) =>
      if i >= |children| then []
      else
        assert children[i] in children;
        [children[i].item] + Descendants(children[i], 0) + Descendants(parent, i + 1)
  }

  /** Descendants is the traversal of the remaining children. */
  lemma {:induction false} DescendantsTraverse<T>(parent: Node<T>, i: nat)
    requires i <= |ChildrenOf(parent)|
    ensures Descendants(parent, i) == Traversal(ChildrenOf(parent)[i..])
    decreases |ChildrenOf(parent)| - i
  {
    var children := ChildrenOf(parent);
    if i < |children| {
      DescendantsTraverse(parent, i + 1);
      assert children[i..][1..] == children[i + 1..];
    }
  }

  /** The traversal of two sources one after the other is the traversal of
      the first followed by that of the second. */
  lemma {:induction false} TraverseAppend<T>(a: seq<Node<T>>, b: seq<Node<T>>)
    ensures Traversal(a + b) == Traversal(a) + Traversal(b)
    decreases |a|
  {
    if |a| == 0 {
      assert a + b == b;
    } else {
      assert (a + b)[0] == a[0];
      assert (a + b)[1..] == a[1..] + b;
      TraverseAppend(a[1..], b);
    }
  }

  /** A non-empty source: its first item, the traversal of that node's
      children, then the traversal of the rest. */
  lemma TraverseFirst<T>(source: seq<Node<T>>)
    requires |source| > 0
    ensures Traversal(source)
      == [source[0].item] + Traversal(ChildrenOf(source[0])) + Traversal(source[1..])
  {
    DescendantsTraverse(source[0], 0);
    assert ChildrenOf(source[0])[0..] == ChildrenOf(source[0]);
  }

  /** Pre-order: in the traversal, each item of the source comes right
      before the traversal of its children, after the traversal of its
      earlier siblings and before that of its later ones. */
  lemma Preorder<T>(source: seq<Node<T>>, i: int)
    requires 0 <= i < |source|
    ensures Traversal(source)
      == Traversal(source[..i]) + [source[i].item] + Traversal(ChildrenOf(source[i])) + Traversal(source[i + 1..])
  {
    var before, rest := source[..i], source[i..];
    assert source == before + rest;
    TraverseAppend(before, rest);
    TraverseFirst(rest);
    assert rest[0] == source[i] && rest[1..] == source[i + 1..];
    var tb, tc, ta := Traversal(before), Traversal(ChildrenOf(source[i])), Traversal(source[i + 1..]);
    assert Traversal(rest) == [source[i].item] + tc + ta;
    SeqAssoc(tb, [source[i].item], tc, ta);
  }

  lemma SeqAssoc<T>(a: seq<T>, b: seq<T>, c: seq<T>, d: seq<T>)
    ensures a + (b + c + d) == a + b + c + d
  {
  }

  // ---------------------------------------------------------------------
  // Index arithmetic
  // ---------------------------------------------------------------------

  function Abs(x: int): nat
  {
    if x < 0 then -x else x
  }

  /** C#'s `/` on `int`: the quotient rounded toward zero. */
  function TruncDiv(a: int, b: int): int
    requires b != 0
  {
    var q := Abs(a) / Abs(b);
    if (a < 0) != (b < 0) then -q else q
  }

  /** C#'s `%` on `int`: the remainder takes the sign of the dividend. */
  function TruncRem(a: int, b: int): int
    requires b != 0
  {
    var r := Abs(a) % Abs(b);
    if a < 0 then -r else r
  }

  lemma TruncDivRem(a: int, b: int)
    requires b != 0
    ensures a == TruncDiv(a, b) * b + TruncRem(a, b)
    ensures Abs(TruncRem(a, b)) < Abs(b)
  {
  }

  /** IsIndexPair: compares `index / 2.0` with `index / 2` computed in
      integers, where IndexOf gives -1 for an absent item. The comparison is
      a parity test: true exactly for an item at an odd position, and for an
      absent one. A null source throws in IndexOf. */
  function IsIndexPair<T(==)>(source: Option<seq<T>>, item: T): (r: Outcome<bool>)
    ensures source.None? <==> r == Throws(NullReference)
    ensures source.Some? ==>
      r.Returns? && (r.value <==> item !in source.value || IndexOf(source.value, item) % 2 == 1)
  {
    match source
    case None => Throws(NullReference)
    case Some(list) =>
      var index := IndexOf(list, item);
      assert index >= 0 ==> index == 2 * (index / 2) + index % 2 && TruncDiv(index, 2) == index / 2;
      Returns((index as real) / 2.0 != TruncDiv(index, 2) as real)
  }

  /** ColumnIndex: the 1-based column of the item when the list is laid out
      in `columnCount` columns. A null source throws in IndexOf, before a
      zero column count divides by zero. */
  function ColumnIndex<T(==)>(source: Option<seq<T>>, item: T, columnCount: int): (r: Outcome<int>)
    ensures source.None? <==> r == Throws(NullReference)
    ensures source.Some? ==> (columnCount == 0 <==> r == Throws(DivideByZero))
    ensures source.Some? && item in source.value && columnCount != 0 ==>
      r.Returns? && 1 <= r.value <= Abs(columnCount)
    ensures source.Some? && item !in source.value && columnCount != 0 ==>
      r == Returns(if Abs(columnCount) == 1 then 1 else 0)
  {
    match source
    case None => Throws(NullReference)
    case Some(list) =>
      var index := IndexOf(list, item);
      if columnCount == 0 then Throws(DivideByZero)
      else Returns(TruncRem(index, columnCount) + 1)
  }

  /** ColumnIndexName: the prefix, or nothing for a null prefix, followed by
      the column in decimal; it throws where ColumnIndex does. */
  function ColumnIndexName<T(==)>(source: Option<seq<T>>, item: T, columnCount: int, prefix: Option<Str>): (r: Outcome<Str>)
    ensures source.None? <==> r == Throws(NullReference)
    ensures source.Some? ==> (columnCount == 0 <==> r == Throws(DivideByZero))
    ensures source.Some? && columnCount != 0 ==>
      var p := if prefix.None? then [] else prefix.value;
      r.Returns? && |p| < |r.value| && r.value[..|p|] == p
      && ParseDecimal(r.value[|p|..]) == ColumnIndex(source, item, columnCount).value
  {
    match ColumnIndex(source, item, columnCount)
    case Throws(e) => Throws(e)
    case Returns(column) =>
      var p := if prefix.None? then [] else prefix.value;
      DecimalRoundTrip(column);
      assert (p + DecimalString(column))[|p|..] == DecimalString(column);
      Returns(p + DecimalString(column))
  }
}
