/** System.Collections.Specialized.NameValueCollection, as far as the
    query-string code uses it: a case-insensitive multimap that keeps its
    keys in the order they were first added, keeps the spelling of the key
    that was added first, and reads a key's values back joined by commas.
    Key comparison folds ASCII letters only. */
module NameValues {
  import opened Wrappers
  import opened Text

  /** One key of the collection with the values added under it, in order. */
  datatype Entry = Entry(key: Str, values: seq<Str>)

  /** The position of the entry whose key equals `name` ignoring case. */
  function Find(entries: seq<Entry>, name: Str): (i: int)
    ensures -1 <= i < |entries|
    ensures i == -1 <==> forall j :: 0 <= j < |entries| ==> !EqualsIgnoreCase(entries[j].key, name)
    ensures 0 <= i ==> EqualsIgnoreCase(entries[i].key, name)
    ensures 0 <= i ==> forall j :: 0 <= j < i ==> !EqualsIgnoreCase(entries[j].key, name)
  {
    if |entries| == 0 then -1
    else if EqualsIgnoreCase(entries[0].key, name) then 0
    else
      var j := Find(entries[1..], name);
      if j == -1 then -1 else j + 1
  }

  /** NameValueCollection.Add(name, value): a new key goes at the end with
      its spelling; a known key, in any case, gets one more value. */
  function AddEntry(entries: seq<Entry>, name: Str, value: Str): seq<Entry>
  {
    var i := Find(entries, name);
    if i == -1 then entries + [Entry(name, [value])]
    else entries[i := Entry(entries[i].key, entries[i].values + [value])]
  }

  /** The string NameValueCollection.Get returns for an entry. */
  function Value(e: Entry): Str
  {
    Join(e.values, [Comma])
  }

  /** NameValueCollection[name]: null for an unknown key. */
  function Lookup(entries: seq<Entry>, name: Str): Option<Str>
  {
    var i := Find(entries, name);
    if i == -1 then None else Some(Value(entries[i]))
  }

  /** NameValueCollection.AllKeys. */
  function Keys(entries: seq<Entry>): (keys: seq<Str>)
    ensures |keys| == |entries|
    ensures forall i :: 0 <= i < |entries| ==> keys[i] == entries[i].key
  {
    seq(|entries|, i requires 0 <= i < |entries| => entries[i].key)
  }

  /** What every collection built by Add satisfies: no two keys are equal
      ignoring case, and every key holds at least one value. */
  predicate Valid(entries: seq<Entry>)
  {
    (forall i, j :: 0 <= i < j < |entries| ==> !EqualsIgnoreCase(entries[i].key, entries[j].key))
    && (forall i :: 0 <= i < |entries| ==> |entries[i].values| >= 1)
  }

  /** The mutable collection. */
  class NameValueCollection {
    var entries: seq<Entry>

    constructor()
      ensures entries == []
    {
      entries := [];
    }

    method Add(name: Str, value: Str)
      modifies this
      ensures entries == AddEntry(old(entries), name, value)
    {
      entries := AddEntry(entries, name, value);
    }

    function AllKeys(): seq<Str>
      reads this
    {
      Keys(entries)
    }

    function Get(name: Str): Option<Str>
      reads this
    {
      Lookup(entries, name)
    }
  }

  // ---------------------------------------------------------------------
  // Adding one value
  // ---------------------------------------------------------------------

  /** Add keeps the collection valid. */
  lemma AddKeepsValid(entries: seq<Entry>, name: Str, value: Str)
    requires Valid(entries)
    ensures Valid(AddEntry(entries, name, value))
  {
  }

  /** In a valid collection, an entry is found by its own key. */
  lemma FindOwnKey(entries: seq<Entry>, j: int)
    requires Valid(entries) && 0 <= j < |entries|
    ensures Find(entries, entries[j].key) == j
  {
  }

  /** In a valid collection, reading an entry's own key gives its values. */
  lemma LookupOwnKey(entries: seq<Entry>, j: int)
    requires Valid(entries) && 0 <= j < |entries|
    ensures Lookup(entries, entries[j].key) == Some(Value(entries[j]))
  {
    FindOwnKey(entries, j);
  }

  /** Add appends the key when it is new and otherwise keeps the keys. */
  lemma KeysAfterAdd(entries: seq<Entry>, name: Str, value: Str)
    ensures Keys(AddEntry(entries, name, value))
      == if Find(entries, name) == -1 then Keys(entries) + [name] else Keys(entries)
  {
  }

  /** Find returns the first position whose key matches. */
  lemma FindFirst(entries: seq<Entry>, name: Str, i: int)
    requires 0 <= i < |entries| && EqualsIgnoreCase(entries[i].key, name)
    requires forall j :: 0 <= j < i ==> !EqualsIgnoreCase(entries[j].key, name)
    ensures Find(entries, name) == i
  {
  }

  /** Find depends on the keys only. */
  lemma FindSameKeys(a: seq<Entry>, b: seq<Entry>, name: Str)
    requires Keys(a) == Keys(b)
    ensures Find(a, name) == Find(b, name)
  {
    var k := Find(a, name);
    assert forall j :: 0 <= j < |a| ==> a[j].key == Keys(a)[j] == b[j].key;
    if k >= 0 {
      FindFirst(b, name, k);
    }
  }

  /** Find over a collection with one entry added at the end. */
  lemma FindAppend(entries: seq<Entry>, e: Entry, name: Str)
    ensures Find(entries + [e], name)
      == if Find(entries, name) != -1 then Find(entries, name)
         else if EqualsIgnoreCase(e.key, name) then |entries|
         else -1
  {
    var r := entries + [e];
    var k := Find(entries, name);
    if k != -1 {
      FindFirst(r, name, k);
    } else if EqualsIgnoreCase(e.key, name) {
      FindFirst(r, name, |entries|);
    }
  }

  /** Add changes what is read under `name`'s key only: the new value
      follows the old ones after a comma. */
  lemma LookupAfterAdd(entries: seq<Entry>, name: Str, value: Str, other: Str)
    requires Valid(entries)
    ensures Lookup(AddEntry(entries, name, value), other)
      == if !EqualsIgnoreCase(name, other) then Lookup(entries, other)
         else if Lookup(entries, other).None? then Some(value)
         else Some(Lookup(entries, other).value + [Comma] + value)
  {
    var i := Find(entries, name);
    var r := AddEntry(entries, name, value);
    if i == -1 {
      FindAppend(entries, Entry(name, [value]), other);
    } else {
      FindSameKeys(r, entries, other);
      if EqualsIgnoreCase(name, other) {
        FindFirst(entries, other, i);
        JoinAppend(entries[i].values, value, [Comma]);
      }
    }
  }

  // ---------------------------------------------------------------------
  // A collection filled from a sequence of pairs
  // ---------------------------------------------------------------------

  /** Add called on each pair in order, starting from an empty collection. */
  function Collect(pairs: seq<(Str, Str)>): seq<Entry>
  {
    if |pairs| == 0 then []
    else
      var last := pairs[|pairs| - 1];
      AddEntry(Collect(pairs[..|pairs| - 1]), last.0, last.1)
  }

  lemma CollectAppend(pairs: seq<(Str, Str)>, key: Str, value: Str)
    ensures Collect(pairs + [(key, value)]) == AddEntry(Collect(pairs), key, value)
  {
    assert (pairs + [(key, value)])[..|pairs|] == pairs;
  }

  /** The values of the pairs whose key equals `name` ignoring case, in
      order: the reference for what Collect stores under a key. */
  function ValuesFor(pairs: seq<(Str, Str)>, name: Str): seq<Str>
  {
    if |pairs| == 0 then []
    else
      var last := pairs[|pairs| - 1];
      ValuesFor(pairs[..|pairs| - 1], name) + (if EqualsIgnoreCase(last.0, name) then [last.1] else [])
  }

  /** The keys of the pairs that do not equal an earlier key ignoring case:
      the reference for the order of Collect's keys. */
  function FirstKeys(pairs: seq<(Str, Str)>): seq<Str>
  {
    if |pairs| == 0 then []
    else
      var init, last := pairs[..|pairs| - 1], pairs[|pairs| - 1];
      FirstKeys(init) + (if ValuesFor(init, last.0) == [] then [last.0] else [])
  }

  /** A collection built from pairs is valid. */
  lemma {:induction false} CollectValid(pairs: seq<(Str, Str)>)
    ensures Valid(Collect(pairs))
  {
    if |pairs| > 0 {
      var last := pairs[|pairs| - 1];
      CollectValid(pairs[..|pairs| - 1]);
      AddKeepsValid(Collect(pairs[..|pairs| - 1]), last.0, last.1);
    }
  }

  /** Reading a key of a collection built from pairs gives all the values
      added under that key, in any case, joined by commas; null when there
      were none. */
  lemma {:induction false} LookupCollect(pairs: seq<(Str, Str)>, name: Str)
    ensures Lookup(Collect(pairs), name)
      == if ValuesFor(pairs, name) == [] then None else Some(Join(ValuesFor(pairs, name), [Comma]))
  {
    if |pairs| > 0 {
      var init, last := pairs[..|pairs| - 1], pairs[|pairs| - 1];
      LookupCollect(init, name);
      CollectValid(init);
      LookupAfterAdd(Collect(init), last.0, last.1, name);
      var before := ValuesFor(init, name);
      if EqualsIgnoreCase(last.0, name) {
        assert ValuesFor(pairs, name) == before + [last.1];
        if before == [] {
          assert before + [last.1] == [last.1];
        } else {
          JoinAppend(before, last.1, [Comma]);
        }
      } else {
        assert ValuesFor(pairs, name) == before + [];
        assert before + [] == before;
        assert Lookup(Collect(pairs), name) == Lookup(Collect(init), name);
      }
    }
  }

  /** A key is present exactly when some pair carries it, in any case. */
  lemma FindCollect(pairs: seq<(Str, Str)>, name: Str)
    ensures Find(Collect(pairs), name) == -1 <==> ValuesFor(pairs, name) == []
  {
    LookupCollect(pairs, name);
  }

  /** AllKeys of a collection built from pairs lists each key once, at the
      place where it first occurred, spelled as it first occurred. */
  lemma {:induction false} KeysCollect(pairs: seq<(Str, Str)>)
    ensures Keys(Collect(pairs)) == FirstKeys(pairs)
  {
    if |pairs| > 0 {
      var init, last := pairs[..|pairs| - 1], pairs[|pairs| - 1];
      KeysCollect(init);
      FindCollect(init, last.0);
      KeysAfterAdd(Collect(init), last.0, last.1);
    }
  }

  /** One entry per pair, holding that pair's value alone. */
  function Singletons(pairs: seq<(Str, Str)>): (entries: seq<Entry>)
    ensures |entries| == |pairs|
    ensures forall i :: 0 <= i < |pairs| ==> entries[i] == Entry(pairs[i].0, [pairs[i].1])
  {
    seq(|pairs|, i requires 0 <= i < |pairs| => Entry(pairs[i].0, [pairs[i].1]))
  }

  /** Pairs whose keys are pairwise different ignoring case give one entry
      per pair, in order, each holding its single value. */
  lemma {:induction false} CollectDistinct(pairs: seq<(Str, Str)>)
    requires forall i, j :: 0 <= i < j < |pairs| ==> !EqualsIgnoreCase(pairs[i].0, pairs[j].0)
    ensures Collect(pairs) == Singletons(pairs)
  {
    if |pairs| > 0 {
      var init, last := pairs[..|pairs| - 1], pairs[|pairs| - 1];
      CollectDistinct(init);
      assert Find(Collect(init), last.0) == -1;
    }
  }

  // ---------------------------------------------------------------------
  // A collection filled from `name=value` tokens
  // ---------------------------------------------------------------------

  /** The tokens that split into exactly two parts on '=', as pairs. */
  function ExactPairs(tokens: seq<Str>): (pairs: seq<(Str, Str)>)
    ensures |pairs| <= |tokens|
  {
    if |tokens| == 0 then []
    else
      var keyValue := Split(tokens[|tokens| - 1], EqualsSign);
      ExactPairs(tokens[..|tokens| - 1])
        + (if |keyValue| == 2 then [(keyValue[0], keyValue[1])] else [])
  }

  lemma ExactPairsStep(list: seq<Str>, i: int)
    requires 0 <= i < |list|
    ensures ExactPairs(list[..i + 1])
      == ExactPairs(list[..i])
         + (var keyValue := Split(list[i], EqualsSign);
            if |keyValue| == 2 then [(keyValue[0], keyValue[1])] else [])
  {
    assert list[..i + 1][..i] == list[..i];
  }

  /** The foreach loop of UriExtensions.ExcludeUrlParameter and of
      StringExtension.ToNameValueDictionary: each token that splits into
      exactly two parts on '=' is added to the collection. */
  method AddTokens(nvc: NameValueCollection, list: seq<Str>)
    requires nvc.entries == []
    modifies nvc
    ensures nvc.entries == Collect(ExactPairs(list))
  {
    for i := 0 to |list|
      invariant nvc.entries == Collect(ExactPairs(list[..i]))
    {
      ExactPairsStep(list, i);
      var keyValue := Split(list[i], EqualsSign);
      if |keyValue| == 2 {
        CollectAppend(ExactPairs(list[..i]), keyValue[0], keyValue[1]);
        nvc.Add(keyValue[0], keyValue[1]);
        assert ExactPairs(list[..i + 1]) == ExactPairs(list[..i]) + [(keyValue[0], keyValue[1])];
      } else {
        assert ExactPairs(list[..i + 1]) == ExactPairs(list[..i]) + [];
        assert ExactPairs(list[..i + 1]) == ExactPairs(list[..i]);
      }
    }
    assert list[..|list|] == list;
  }
}
