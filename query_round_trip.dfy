/** What the query-string rewriter does to a well-formed path-and-query:
    a path, a query of `key=value` pairs with distinct keys, and an
    optional fragment, none of whose pieces contains a character with a
    meaning in a query. On such input ExcludeUrlParameter,
    RemoveUrlParameter, AddUrlParameter, AddUrlParameters and
    GetParameters act on the pairs, and these lemmas say how. */
module QueryRoundTrip {
  import opened Wrappers
  import opened Text
  import opened NameValues
  import opened IEnumerableExtension
  import opened StringExtension
  import opened UriExtensions

  // ---------------------------------------------------------------------
  // Well-formed path-and-queries
  // ---------------------------------------------------------------------

  /** A key or value: no '?', '#', '&' or '='. */
  predicate SafePart(s: Str)
  {
    QuestionMark !in s && NumberSign !in s && Ampersand !in s && EqualsSign !in s
  }

  predicate SafePairs(pairs: seq<(Str, Str)>)
  {
    forall i :: 0 <= i < |pairs| ==> SafePart(pairs[i].0) && SafePart(pairs[i].1)
  }

  predicate DistinctKeys(pairs: seq<(Str, Str)>)
  {
    forall i, j :: 0 <= i < j < |pairs| ==> !EqualsIgnoreCase(pairs[i].0, pairs[j].0)
  }

  /** '#' and the fragment, or nothing. */
  function FragmentText(fragment: Option<Str>): (text: Str)
    ensures fragment.None? <==> text == []
  {
    match fragment
    case None => []
    case Some(f) => [NumberSign] + f
  }

  /** The path, the query and the fragment, written out. */
  function Render(path: Str, pairs: seq<(Str, Str)>, fragment: Option<Str>): Str
  {
    path + QueryString(pairs) + FragmentText(fragment)
  }

  /** No '?' or '#' in the path or the fragment; safe, distinct pairs. */
  predicate WellFormed(path: Str, pairs: seq<(Str, Str)>, fragment: Option<Str>)
  {
    QuestionMark !in path && NumberSign !in path
    && SafePairs(pairs) && DistinctKeys(pairs)
    && (fragment.Some? ==> QuestionMark !in fragment.value && NumberSign !in fragment.value)
  }

  /** The pairs without those whose key equals `key` ignoring case. */
  function RemoveKey(pairs: seq<(Str, Str)>, key: Str): (kept: seq<(Str, Str)>)
    ensures |kept| <= |pairs|
    ensures forall p :: p in kept ==> p in pairs && !EqualsIgnoreCase(p.0, key)
  {
    if |pairs| == 0 then []
    else
      var last := pairs[|pairs| - 1];
      RemoveKey(pairs[..|pairs| - 1], key) + (if EqualsIgnoreCase(last.0, key) then [] else [last])
  }

  // ---------------------------------------------------------------------
  // Characters of a written query
  // ---------------------------------------------------------------------

  lemma {:induction false} JoinFree(parts: seq<Str>, sep: Str, c: Char16)
    requires c !in sep
    requires forall k :: 0 <= k < |parts| ==> c !in parts[k]
    ensures c !in Join(parts, sep)
    decreases |parts|
  {
    if |parts| > 1 {
      JoinFree(parts[1..], sep, c);
    }
  }

  lemma {:induction false} JoinNoWhiteSpace(parts: seq<Str>, sep: Str)
    requires forall i :: 0 <= i < |sep| ==> !IsWhiteSpace(sep[i])
    requires forall k :: 0 <= k < |parts| ==> NoWhiteSpace(parts[k])
    ensures NoWhiteSpace(Join(parts, sep))
    decreases |parts|
  {
    if |parts| > 1 {
      JoinNoWhiteSpace(parts[1..], sep);
      var rest := Join(parts[1..], sep);
      assert Join(parts, sep) == parts[0] + sep + rest;
      forall i | 0 <= i < |Join(parts, sep)|
        ensures !IsWhiteSpace(Join(parts, sep)[i])
      {
        if i < |parts[0]| {
          assert Join(parts, sep)[i] == parts[0][i];
        } else if i < |parts[0]| + |sep| {
          assert Join(parts, sep)[i] == sep[i - |parts[0]|];
        } else {
          assert Join(parts, sep)[i] == rest[i - |parts[0]| - |sep|];
        }
      }
    }
  }

  predicate NoWhiteSpace(s: Str)
  {
    forall i :: 0 <= i < |s| ==> !IsWhiteSpace(s[i])
  }

  /** The parameters part of a written query: the pairs joined by '&'. */
  function Joined(pairs: seq<(Str, Str)>): Str
  {
    Join(PairTexts(pairs), [Ampersand])
  }

  /** A written query holds no '?' or '#' after its leading '?'. */
  lemma JoinedFree(pairs: seq<(Str, Str)>)
    requires SafePairs(pairs)
    ensures QuestionMark !in Joined(pairs) && NumberSign !in Joined(pairs)
  {
    JoinFree(PairTexts(pairs), [Ampersand], QuestionMark);
    JoinFree(PairTexts(pairs), [Ampersand], NumberSign);
  }

  lemma SplitPair(key: Str, value: Str)
    requires EqualsSign !in key && EqualsSign !in value
    ensures Split(PairText(key, value), EqualsSign) == [key, value]
  {
    SplitConcat(key, value, EqualsSign);
    SplitNoSeparator(key, EqualsSign);
    SplitNoSeparator(value, EqualsSign);
  }

  /** Splitting the joined pairs on '&' gives back each `key=value`. */
  lemma SplitJoined(pairs: seq<(Str, Str)>)
    requires SafePairs(pairs) && |pairs| > 0
    ensures Split(Joined(pairs), Ampersand) == PairTexts(pairs)
  {
    SplitJoin(PairTexts(pairs), Ampersand);
  }

  /** Reading the tokens back, as ExcludeUrlParameter does, gives the pairs. */
  lemma {:induction false} ExactPairsTexts(pairs: seq<(Str, Str)>)
    requires SafePairs(pairs)
    ensures ExactPairs(PairTexts(pairs)) == pairs
    decreases |pairs|
  {
    if |pairs| > 0 {
      var n := |pairs|;
      assert PairTexts(pairs)[..n - 1] == PairTexts(pairs[..n - 1]);
      ExactPairsTexts(pairs[..n - 1]);
      SplitPair(pairs[n - 1].0, pairs[n - 1].1);
      assert pairs == pairs[..n - 1] + [pairs[n - 1]];
    }
  }

  /** Reading the tokens back, as GetParameters does, gives the pairs. */
  lemma {:induction false} LenientPairsTexts(pairs: seq<(Str, Str)>)
    requires SafePairs(pairs)
    ensures LenientPairs(PairTexts(pairs)) == pairs
    decreases |pairs|
  {
    if |pairs| > 0 {
      var n := |pairs|;
      assert PairTexts(pairs)[..n - 1] == PairTexts(pairs[..n - 1]);
      LenientPairsTexts(pairs[..n - 1]);
      SplitPair(pairs[n - 1].0, pairs[n - 1].1);
      assert pairs == pairs[..n - 1] + [pairs[n - 1]];
    }
  }

  // ---------------------------------------------------------------------
  // ExcludeUrlParameter takes a written query apart
  // ---------------------------------------------------------------------

  /** A written query is the path, then '?' and the joined pairs when there
      are pairs, then the fragment. */
  lemma RenderShape(path: Str, pairs: seq<(Str, Str)>, fragment: Option<Str>)
    ensures |pairs| == 0 ==> Render(path, pairs, fragment) == path + FragmentText(fragment)
    ensures |pairs| > 0 ==>
      Render(path, pairs, fragment) == path + [QuestionMark] + (Joined(pairs) + FragmentText(fragment))
  {
    if |pairs| == 0 {
      assert path + [] == path;
    } else {
      var j, f := Joined(pairs), FragmentText(fragment);
      assert QueryString(pairs) == [QuestionMark] + j;
      assert path + ([QuestionMark] + j) + f == path + [QuestionMark] + (j + f);
    }
  }

  lemma AnchorOfRender(path: Str, pairs: seq<(Str, Str)>, fragment: Option<Str>)
    requires WellFormed(path, pairs, fragment)
    ensures AnchorOf(Render(path, pairs, fragment)) == FragmentText(fragment)
  {
    var s := Render(path, pairs, fragment);
    var front := path + QueryString(pairs);
    JoinedFree(pairs);
    assert NumberSign !in front;
    if fragment.None? {
      assert s == front + [];
      SplitNoSeparator(s, NumberSign);
    } else {
      assert s == front + [NumberSign] + fragment.value;
      SplitConcat(front, fragment.value, NumberSign);
      SplitNoSeparator(front, NumberSign);
      SplitNoSeparator(fragment.value, NumberSign);
    }
  }

  /** Removing the anchor from the text it ends. */
  lemma ReplaceTrailingAnchor(x: Str, anchor: Str)
    requires |anchor| > 0 && anchor[0] == NumberSign && NumberSign !in x
    ensures Replace(x + anchor, anchor, []) == x
  {
    ReplaceSkip(x, anchor, anchor, []);
    assert anchor + [] == anchor;
    ReplaceLeading(anchor, [], []);
    assert x + [] == x;
  }

  lemma PathOfRender(path: Str, pairs: seq<(Str, Str)>, fragment: Option<Str>)
    requires WellFormed(path, pairs, fragment)
    ensures PathOf(Render(path, pairs, fragment)) == path
  {
    var s := Render(path, pairs, fragment);
    var anchor := FragmentText(fragment);
    AnchorOfRender(path, pairs, fragment);
    RenderShape(path, pairs, fragment);
    JoinedFree(pairs);
    if |pairs| == 0 {
      SplitNoSeparator(s, QuestionMark);
      if anchor == [] {
        assert path + anchor == path;
      } else {
        ReplaceTrailingAnchor(path, anchor);
      }
    } else {
      SplitConcat(path, Joined(pairs) + anchor, QuestionMark);
      SplitNoSeparator(path, QuestionMark);
      SplitNoSeparator(Joined(pairs) + anchor, QuestionMark);
      if anchor != [] {
        ReplaceAbsent(path, anchor, []);
      }
    }
  }

  lemma ParametersOfRender(path: Str, pairs: seq<(Str, Str)>, fragment: Option<Str>)
    requires WellFormed(path, pairs, fragment)
    ensures ParametersOf(Render(path, pairs, fragment))
      == if |pairs| == 0 then None else Some(Joined(pairs))
  {
    var s := Render(path, pairs, fragment);
    var anchor := FragmentText(fragment);
    AnchorOfRender(path, pairs, fragment);
    RenderShape(path, pairs, fragment);
    JoinedFree(pairs);
    if |pairs| == 0 {
      SplitNoSeparator(s, QuestionMark);
    } else {
      SplitConcat(path, Joined(pairs) + anchor, QuestionMark);
      SplitNoSeparator(path, QuestionMark);
      SplitNoSeparator(Joined(pairs) + anchor, QuestionMark);
      if anchor == [] {
        assert Joined(pairs) + anchor == Joined(pairs);
      } else {
        ReplaceTrailingAnchor(Joined(pairs), anchor);
      }
    }
  }

  /** The pairs ExcludeUrlParameter collects from a written query are the
      pairs it was written from. */
  lemma QueryPairsRender(path: Str, pairs: seq<(Str, Str)>, fragment: Option<Str>)
    requires WellFormed(path, pairs, fragment)
    ensures QueryPairs(Render(path, pairs, fragment)) == pairs
  {
    ParametersOfRender(path, pairs, fragment);
    if |pairs| > 0 {
      SplitJoined(pairs);
      ExactPairsTexts(pairs);
    }
  }

  /** Filtering singleton entries by key and writing them as pairs is
      removing the key from the pairs. */
  lemma {:induction false} SurvivorsOfSingletons(pairs: seq<(Str, Str)>, key: Str)
    ensures Pairs(Survivors(Singletons(pairs), Some(key))) == RemoveKey(pairs, key)
    decreases |pairs|
  {
    if |pairs| > 0 {
      var n := |pairs|;
      var entries := Singletons(pairs);
      var init := Singletons(pairs[..n - 1]);
      var last := entries[n - 1];
      assert entries == init + [last];
      SurvivorsOfSingletons(pairs[..n - 1], key);
      SurvivorsSnoc(init, last, key);
      var kept := Survivors(init, Some(key));
      assert Value(last) == pairs[n - 1].1;
      if EqualsIgnoreCase(last.key, key) {
        assert Survivors(entries, Some(key)) == kept;
        assert RemoveKey(pairs, key) == RemoveKey(pairs[..n - 1], key) + [];
      } else {
        PairsSnoc(kept, last);
      }
    }
  }

  lemma SurvivorsSnoc(entries: seq<Entry>, e: Entry, key: Str)
    ensures Survivors(entries + [e], Some(key))
      == if EqualsIgnoreCase(e.key, key) then Survivors(entries, Some(key))
         else Survivors(entries, Some(key)) + [e]
  {
    assert (entries + [e])[..|entries|] == entries;
    if EqualsIgnoreCase(e.key, key) {
      assert Survivors(entries, Some(key)) + [] == Survivors(entries, Some(key));
    }
  }

  lemma PairsSnoc(entries: seq<Entry>, e: Entry)
    ensures Pairs(entries + [e]) == Pairs(entries) + [(e.key, Value(e))]
  {
  }

  /** ExcludeUrlParameter on a written query: the path and the query
      without `key`, the separator for one more pair, and the fragment. */
  lemma ExcludeRender(path: Str, pairs: seq<(Str, Str)>, fragment: Option<Str>, key: Str)
    requires WellFormed(path, pairs, fragment)
    ensures var kept := RemoveKey(pairs, key);
      Exclude(Some(Render(path, pairs, fragment)), Some(key))
        == Exclusion(Some(path + QueryString(kept)), SeparatorAfter(kept), FragmentText(fragment))
  {
    AnchorOfRender(path, pairs, fragment);
    PathOfRender(path, pairs, fragment);
    QueryPairsRender(path, pairs, fragment);
    CollectDistinct(pairs);
    SurvivorsOfSingletons(pairs, key);
  }

  // ---------------------------------------------------------------------
  // Removing and adding one parameter
  // ---------------------------------------------------------------------

  /** No key of `pairs` equals `key` ignoring case. */
  predicate KeyAbsent(pairs: seq<(Str, Str)>, key: Str)
  {
    forall i :: 0 <= i < |pairs| ==> !EqualsIgnoreCase(pairs[i].0, key)
  }

  lemma DistinctSnoc(pairs: seq<(Str, Str)>, p: (Str, Str))
    ensures DistinctKeys(pairs + [p]) <==> DistinctKeys(pairs) && KeyAbsent(pairs, p.0)
  {
    var r := pairs + [p];
    if DistinctKeys(r) {
      forall i, j | 0 <= i < j < |pairs|
        ensures !EqualsIgnoreCase(pairs[i].0, pairs[j].0)
      {
        assert r[i] == pairs[i] && r[j] == pairs[j];
      }
      forall i | 0 <= i < |pairs|
        ensures !EqualsIgnoreCase(pairs[i].0, p.0)
      {
        assert r[i] == pairs[i] && r[|pairs|] == p;
      }
    }
    if DistinctKeys(pairs) && KeyAbsent(pairs, p.0) {
      forall i, j | 0 <= i < j < |r|
        ensures !EqualsIgnoreCase(r[i].0, r[j].0)
      {
        assert r[i] == pairs[i];
        if j < |pairs| {
          assert r[j] == pairs[j];
        } else {
          assert r[j] == p;
        }
      }
    }
  }

  lemma {:induction false} RemoveKeyAbsent(pairs: seq<(Str, Str)>, key: Str, other: Str)
    requires KeyAbsent(pairs, other)
    ensures KeyAbsent(RemoveKey(pairs, key), other)
    decreases |pairs|
  {
    if |pairs| > 0 {
      RemoveKeyAbsent(pairs[..|pairs| - 1], key, other);
    }
  }

  lemma {:induction false} RemoveKeyDistinct(pairs: seq<(Str, Str)>, key: Str)
    requires DistinctKeys(pairs)
    ensures DistinctKeys(RemoveKey(pairs, key))
    decreases |pairs|
  {
    if |pairs| > 0 {
      var n := |pairs|;
      var init, last := pairs[..n - 1], pairs[n - 1];
      assert pairs == init + [last];
      DistinctSnoc(init, last);
      RemoveKeyDistinct(init, key);
      var kept := RemoveKey(init, key);
      if EqualsIgnoreCase(last.0, key) {
        assert RemoveKey(pairs, key) == kept + [];
        assert kept + [] == kept;
      } else {
        RemoveKeyAbsent(init, key, last.0);
        DistinctSnoc(kept, last);
      }
    }
  }

  lemma RemoveKeyWellFormed(path: Str, pairs: seq<(Str, Str)>, fragment: Option<Str>, key: Str)
    requires WellFormed(path, pairs, fragment)
    ensures WellFormed(path, RemoveKey(pairs, key), fragment)
  {
    var kept := RemoveKey(pairs, key);
    RemoveKeyDistinct(pairs, key);
    forall i | 0 <= i < |kept|
      ensures SafePart(kept[i].0) && SafePart(kept[i].1)
    {
      assert kept[i] in pairs;
    }
  }

  /** Whether the anchor goes back: exactly when there is a fragment, since
      an anchor starts with '#' and is never blank. */
  lemma AnchorBlank(fragment: Option<Str>)
    ensures IsNullOrTrimmedEmpty(Some(FragmentText(fragment))) <==> fragment.None?
  {
    IsNullOrTrimmedEmptyMeaning(Some(FragmentText(fragment)));
    if fragment.Some? {
      assert FragmentText(fragment)[0] == NumberSign;
    }
  }

  /** RemoveUrlParameter on a written query writes it again without `key`. */
  lemma RemoveParameterRender(path: Str, pairs: seq<(Str, Str)>, fragment: Option<Str>, key: Str)
    requires WellFormed(path, pairs, fragment)
    ensures RemoveParameter(Some(Render(path, pairs, fragment)), Some(key))
      == Some(Render(path, RemoveKey(pairs, key), fragment))
  {
    ExcludeRender(path, pairs, fragment, key);
    AnchorBlank(fragment);
    var rest := path + QueryString(RemoveKey(pairs, key));
    if fragment.None? {
      assert rest + [] == rest;
    }
  }

  /** Pairs none of whose keys match are kept as they are. */
  lemma {:induction false} RemoveKeyNoMatch(pairs: seq<(Str, Str)>, key: Str)
    requires KeyAbsent(pairs, key)
    ensures RemoveKey(pairs, key) == pairs
    decreases |pairs|
  {
    if |pairs| > 0 {
      var n := |pairs|;
      var init, last := pairs[..n - 1], pairs[n - 1];
      assert KeyAbsent(init, key) by {
        forall i | 0 <= i < |init| ensures !EqualsIgnoreCase(init[i].0, key) {
          assert init[i] == pairs[i];
        }
      }
      RemoveKeyNoMatch(init, key);
      assert !EqualsIgnoreCase(last.0, key);
      assert init + [last] == pairs;
    }
  }

  /** Removing a key twice is removing it once. */
  lemma RemoveKeyIdempotent(pairs: seq<(Str, Str)>, key: Str)
    ensures RemoveKey(RemoveKey(pairs, key), key) == RemoveKey(pairs, key)
  {
    var kept := RemoveKey(pairs, key);
    assert KeyAbsent(kept, key) by {
      forall i | 0 <= i < |kept| ensures !EqualsIgnoreCase(kept[i].0, key) {
        assert kept[i] in kept;
      }
    }
    RemoveKeyNoMatch(kept, key);
  }

  /** RemoveUrlParameter is idempotent on written queries. */
  lemma RemoveParameterIdempotent(path: Str, pairs: seq<(Str, Str)>, fragment: Option<Str>, key: Str)
    requires WellFormed(path, pairs, fragment)
    ensures var once := RemoveParameter(Some(Render(path, pairs, fragment)), Some(key));
      RemoveParameter(once, Some(key)) == once
  {
    RemoveParameterRender(path, pairs, fragment, key);
    RemoveKeyWellFormed(path, pairs, fragment, key);
    RemoveParameterRender(path, RemoveKey(pairs, key), fragment, key);
    RemoveKeyIdempotent(pairs, key);
  }

  /** The pairs after AddUrlParameter(key, value): unchanged for an empty
      key or value, otherwise without `key` and "gclid" and with
      `key=value` at the end. */
  function AddedPair(pairs: seq<(Str, Str)>, key: Str, value: Str): seq<(Str, Str)>
  {
    if |key| == 0 || |value| == 0 then pairs
    else RemoveKey(RemoveKey(pairs, key), Gclid) + [(key, value)]
  }

  lemma AddedPairWellFormed(path: Str, pairs: seq<(Str, Str)>, fragment: Option<Str>, key: Str, value: Str)
    requires WellFormed(path, pairs, fragment) && SafePart(key) && SafePart(value)
    ensures WellFormed(path, AddedPair(pairs, key, value), fragment)
  {
    if |key| > 0 && |value| > 0 {
      var once := RemoveKey(pairs, key);
      var twice := RemoveKey(once, Gclid);
      RemoveKeyWellFormed(path, pairs, fragment, key);
      RemoveKeyWellFormed(path, once, fragment, Gclid);
      var r := twice + [(key, value)];
      forall i, j | 0 <= i < j < |r|
        ensures !EqualsIgnoreCase(r[i].0, r[j].0)
      {
        if j == |twice| {
          assert r[i] in twice && r[i] in once;
        } else {
          assert r[i] == twice[i] && r[j] == twice[j];
        }
      }
    }
  }

  /** Excluding the keys of the deny list is excluding "gclid". */
  lemma ExcludeKeysOne(e: Exclusion, key: Str)
    requires DenyList == [key]
    ensures ExcludeKeys(e, DenyList) == Exclude(e.pathAndQuery, Some(key))
  {
    assert DenyList[..0] == [];
  }

  /** The first two steps of AddUrlParameter on a written query: excluding
      `key` keeps the fragment as the anchor, and excluding the deny list
      after it leaves the path and the pairs without `key` and "gclid". */
  lemma AddParameterExcludes(path: Str, pairs: seq<(Str, Str)>, fragment: Option<Str>, key: Str)
    requires WellFormed(path, pairs, fragment)
    ensures var first := Exclude(Some(Render(path, pairs, fragment)), Some(key));
      var twice := RemoveKey(RemoveKey(pairs, key), Gclid);
      first.anchor == FragmentText(fragment)
      && ExcludeKeys(first, DenyList) == Exclusion(Some(path + QueryString(twice)), SeparatorAfter(twice), [])
  {
    var once := RemoveKey(pairs, key);
    var first := Exclude(Some(Render(path, pairs, fragment)), Some(key));
    ExcludeRender(path, pairs, fragment, key);
    assert first == Exclusion(Some(path + QueryString(once)), SeparatorAfter(once), FragmentText(fragment));
    RemoveKeyWellFormed(path, pairs, None, key);
    assert Render(path, once, None) == path + QueryString(once) + [];
    assert path + QueryString(once) + [] == path + QueryString(once);
    ExcludeRender(path, once, None, Gclid);
    ExcludeKeysOne(first, Gclid);
  }

  /** AddUrlParameter on a written query writes it again with `key=value`
      in place of any `key`, and without "gclid". */
  lemma AddParameterRender(path: Str, pairs: seq<(Str, Str)>, fragment: Option<Str>, key: Str, value: Str)
    requires WellFormed(path, pairs, fragment) && SafePart(key) && SafePart(value)
    requires Render(path, pairs, fragment) != []
    ensures AddParameter(Some(Render(path, pairs, fragment)), Some(key), Some(value))
      == Some(Render(path, AddedPair(pairs, key, value), fragment))
  {
    if |key| > 0 && |value| > 0 {
      AddParameterRenderAdds(path, pairs, fragment, key, value);
    } else {
      assert IsNullOrEmpty(Some(key)) || IsNullOrEmpty(Some(value));
    }
  }

  /** AddParameterRender for a non-empty key and value. */
  lemma AddParameterRenderAdds(path: Str, pairs: seq<(Str, Str)>, fragment: Option<Str>, key: Str, value: Str)
    requires WellFormed(path, pairs, fragment) && SafePart(key) && SafePart(value)
    requires Render(path, pairs, fragment) != [] && |key| > 0 && |value| > 0
    ensures AddParameter(Some(Render(path, pairs, fragment)), Some(key), Some(value))
      == Some(Render(path, RemoveKey(RemoveKey(pairs, key), Gclid) + [(key, value)], fragment))
  {
    var twice := RemoveKey(RemoveKey(pairs, key), Gclid);
    var anchor := FragmentText(fragment);
    AddParameterExcludes(path, pairs, fragment, key);
    AddParameterOn(Render(path, pairs, fragment), key, value, path + QueryString(twice), SeparatorAfter(twice), anchor);
    AddedBody(path, twice, key, value);
    AnchorBlank(fragment);
    var body := path + QueryString(twice + [(key, value)]);
    assert Render(path, twice + [(key, value)], fragment) == body + anchor;
    if fragment.None? {
      assert body + [] == body;
    }
  }

  /** AddUrlParameter on a non-empty query, key and value, given what its
      two exclusion steps leave. */
  lemma AddParameterOn(pq: Str, key: Str, value: Str, front: Str, separator: Str, anchor: Str)
    requires pq != [] && |key| > 0 && |value| > 0
    requires Exclude(Some(pq), Some(key)).anchor == anchor
    requires ExcludeKeys(Exclude(Some(pq), Some(key)), DenyList) == Exclusion(Some(front), separator, [])
    ensures AddParameter(Some(pq), Some(key), Some(value))
      == Some(if IsNullOrTrimmedEmpty(Some(anchor)) then front + separator + PairText(key, value)
              else front + separator + PairText(key, value) + anchor)
  {
  }

  /** The text AddUrlParameter builds: the query so far, its separator and
      `key=value` is the query of the pairs with `(key, value)` appended. */
  lemma AddedBody(path: Str, pairs: seq<(Str, Str)>, key: Str, value: Str)
    ensures (path + QueryString(pairs)) + SeparatorAfter(pairs) + PairText(key, value)
      == path + QueryString(pairs + [(key, value)])
  {
    QueryStringAppend(pairs, key, value);
    var q, sep, text := QueryString(pairs), SeparatorAfter(pairs), PairText(key, value);
    assert path + (q + sep + text) == path + q + sep + text;
  }

  /** Each pair of `added` in order, as AddUrlParameter does it. */
  function AddedPairs(pairs: seq<(Str, Str)>, added: seq<(Str, Str)>): seq<(Str, Str)>
  {
    if |added| == 0 then pairs
    else
      var last := added[|added| - 1];
      AddedPair(AddedPairs(pairs, added[..|added| - 1]), last.0, last.1)
  }

  /** Each added pair keeps the query well formed and written out. */
  lemma {:induction false} AddedPairsWellFormed(path: Str, pairs: seq<(Str, Str)>, fragment: Option<Str>, added: seq<(Str, Str)>)
    requires WellFormed(path, pairs, fragment) && SafePairs(added)
    requires Render(path, pairs, fragment) != []
    ensures WellFormed(path, AddedPairs(pairs, added), fragment)
    ensures Render(path, AddedPairs(pairs, added), fragment) != []
    decreases |added|
  {
    if |added| > 0 {
      var n := |added|;
      var last := added[n - 1];
      var before := AddedPairs(pairs, added[..n - 1]);
      assert SafePairs(added[..n - 1]) by {
        assert forall i :: 0 <= i < n - 1 ==> added[..n - 1][i] == added[i];
      }
      AddedPairsWellFormed(path, pairs, fragment, added[..n - 1]);
      AddedPairWellFormed(path, before, fragment, last.0, last.1);
      AddedPairRenders(path, before, fragment, last.0, last.1);
    }
  }

  lemma AddedPairRenders(path: Str, pairs: seq<(Str, Str)>, fragment: Option<Str>, key: Str, value: Str)
    requires Render(path, pairs, fragment) != []
    ensures Render(path, AddedPair(pairs, key, value), fragment) != []
  {
    if |key| > 0 && |value| > 0 {
      var r := RemoveKey(RemoveKey(pairs, key), Gclid) + [(key, value)];
      assert QueryString(r)[0] == QuestionMark;
    }
  }

  lemma {:induction false} AddPairsRender(path: Str, pairs: seq<(Str, Str)>, fragment: Option<Str>, added: seq<(Str, Str)>)
    requires WellFormed(path, pairs, fragment) && SafePairs(added)
    requires Render(path, pairs, fragment) != []
    ensures AddPairs(Some(Render(path, pairs, fragment)), added)
      == Some(Render(path, AddedPairs(pairs, added), fragment))
    decreases |added|
  {
    if |added| > 0 {
      var n := |added|;
      var last := added[n - 1];
      var init := added[..n - 1];
      var before := AddedPairs(pairs, init);
      assert SafePairs(init) by {
        assert forall i :: 0 <= i < n - 1 ==> init[i] == added[i];
      }
      AddPairsRender(path, pairs, fragment, init);
      AddedPairsWellFormed(path, pairs, fragment, init);
      AddParameterRender(path, before, fragment, last.0, last.1);
      AddPairsStep(Some(Render(path, pairs, fragment)), added, Render(path, before, fragment),
        Render(path, AddedPair(before, last.0, last.1), fragment));
      assert AddedPairs(pairs, added) == AddedPair(before, last.0, last.1);
    }
  }

  /** One more pair for AddPairs: AddUrlParameter on what the earlier
      pairs gave. */
  lemma AddPairsStep(start: Option<Str>, added: seq<(Str, Str)>, middle: Str, end: Str)
    requires |added| > 0
    requires AddPairs(start, added[..|added| - 1]) == Some(middle)
    requires AddParameter(Some(middle), Some(added[|added| - 1].0), Some(added[|added| - 1].1)) == Some(end)
    ensures AddPairs(start, added) == Some(end)
  {
  }

  /** A `key=value` list joined by '&' has a '=' right after its first key,
      so it is not blank. */
  lemma JoinedNotBlank(pairs: seq<(Str, Str)>)
    requires |pairs| > 0
    ensures !IsNullOrTrimmedEmpty(Some(Joined(pairs)))
  {
    var texts := PairTexts(pairs);
    var j := Joined(pairs);
    if |texts| > 1 {
      assert j == texts[0] + [Ampersand] + Join(texts[1..], [Ampersand]);
    }
    assert j[|pairs[0].0|] == texts[0][|pairs[0].0|] == EqualsSign;
    IsNullOrTrimmedEmptyMeaning(Some(j));
  }

  /** AddUrlParameters(string) with a written list of pairs adds each pair
      in order. */
  lemma AddParametersRender(path: Str, pairs: seq<(Str, Str)>, fragment: Option<Str>, added: seq<(Str, Str)>)
    requires WellFormed(path, pairs, fragment) && SafePairs(added) && |added| > 0
    requires !IsNullOrTrimmedEmpty(Some(Render(path, pairs, fragment)))
    ensures AddParameters(Some(Render(path, pairs, fragment)), Some(Joined(added)))
      == Some(Render(path, AddedPairs(pairs, added), fragment))
  {
    JoinedNotBlank(added);
    SplitJoined(added);
    ExactPairsTexts(added);
    AddPairsRender(path, pairs, fragment, added);
  }

  // ---------------------------------------------------------------------
  // GetParameters reads a written query back
  // ---------------------------------------------------------------------

  /** A text none of whose characters is trimmed stays as it is. */
  lemma TrimNothing(s: Str, p: Char16 -> bool)
    requires forall i :: 0 <= i < |s| ==> !p(s[i])
    ensures TrimWhere(s, p) == s
  {
    assert Leading(s, p) == 0;
    assert s[0..] == s;
    assert Trailing(s, p) == 0;
  }

  /** Trimming one leading character off a text with no other to trim. */
  lemma TrimFirst(c: Char16, s: Str, p: Char16 -> bool)
    requires p(c)
    requires forall i :: 0 <= i < |s| ==> !p(s[i])
    ensures TrimWhere([c] + s, p) == s
  {
    var t := [c] + s;
    assert Leading(t, p) == 1;
    assert t[1..] == s;
    TrimNothing(s, p);
  }

  /** The pieces of a written query that GetParameters reads. */
  predicate PlainPairs(pairs: seq<(Str, Str)>)
  {
    SafePairs(pairs)
    && forall i :: 0 <= i < |pairs| ==> NoWhiteSpace(pairs[i].0) && NoWhiteSpace(pairs[i].1)
  }

  lemma QueryTokensRender(pairs: seq<(Str, Str)>)
    requires PlainPairs(pairs) && |pairs| > 0
    ensures QueryTokens(QueryString(pairs)) == PairTexts(pairs)
  {
    var j := Joined(pairs);
    JoinedFree(pairs);
    TrimFirst(QuestionMark, j, IsQuestionMark);
    forall k | 0 <= k < |pairs|
      ensures NoWhiteSpace(PairTexts(pairs)[k])
    {
      var t := PairTexts(pairs)[k];
      assert t == pairs[k].0 + [EqualsSign] + pairs[k].1;
      forall i | 0 <= i < |t|
        ensures !IsWhiteSpace(t[i])
      {
        if i < |pairs[k].0| {
          assert t[i] == pairs[k].0[i];
        } else if i > |pairs[k].0| {
          assert t[i] == pairs[k].1[i - |pairs[k].0| - 1];
        }
      }
    }
    JoinNoWhiteSpace(PairTexts(pairs), [Ampersand]);
    TrimNothing(j, IsWhiteSpace);
    SplitJoined(pairs);
  }

  /** GetParameters on the query of a written path-and-query collects one
      entry per pair, holding its value. */
  lemma ReadBack(pairs: seq<(Str, Str)>)
    requires PlainPairs(pairs) && DistinctKeys(pairs)
    ensures Collect(LenientPairs(QueryTokens(QueryString(pairs)))) == Singletons(pairs)
  {
    if |pairs| == 0 {
      assert TrimWhere([], IsQuestionMark) == [];
      assert TrimWhere([], IsWhiteSpace) == [];
      assert QueryTokens([]) == [[]];
      assert LenientPairs([[]]) == LenientPairs([]) + [];
    } else {
      QueryTokensRender(pairs);
      LenientPairsTexts(pairs);
    }
    CollectDistinct(pairs);
  }

  /** ToNameValueDictionary reads the part between the first and the
      second '?' of a query whose path has no '?'. */
  lemma DictionaryQuery(path: Str, rest: Str)
    requires QuestionMark !in path && QuestionMark !in rest
    ensures DictionaryPairs(Some(path + [QuestionMark] + rest)) == ExactPairs(Split(rest, Ampersand))
  {
    var q := path + [QuestionMark] + rest;
    assert q[|path|] == QuestionMark && !IsWhiteSpace(QuestionMark);
    TrimWhereShape(q, IsWhiteSpace);
    assert !IsNullOrTrimmedEmpty(Some(q));
    SplitConcat(path, rest, QuestionMark);
    SplitNoSeparator(path, QuestionMark);
    SplitNoSeparator(rest, QuestionMark);
    assert Split(q, QuestionMark)[1] == rest;
  }

  /** StringExtension.ToNameValueDictionary on a path, a '?' and written
      pairs collects one entry per pair, holding its value. */
  lemma DictionaryReadBack(path: Str, pairs: seq<(Str, Str)>)
    requires QuestionMark !in path && SafePairs(pairs) && DistinctKeys(pairs)
    ensures Collect(DictionaryPairs(Some(path + [QuestionMark] + Joined(pairs)))) == Singletons(pairs)
  {
    var joined := Joined(pairs);
    JoinedFree(pairs);
    DictionaryQuery(path, joined);
    if |pairs| == 0 {
      assert joined == [];
      assert ExactPairs([[]]) == ExactPairs([]) + [];
    } else {
      SplitJoined(pairs);
      ExactPairsTexts(pairs);
    }
    CollectDistinct(pairs);
  }

  // ---------------------------------------------------------------------
  // The documented examples
  // ---------------------------------------------------------------------

  /** RemoveKey on a single pair. */
  lemma RemoveKeyOne(key: Str, value: Str, removed: Str)
    ensures RemoveKey([(key, value)], removed)
      == if EqualsIgnoreCase(key, removed) then [] else [(key, value)]
  {
    assert [(key, value)][..0] == [];
  }

  /** `path?key=value`, as a written query. */
  lemma RenderOne(path: Str, key: Str, value: Str)
    ensures Render(path, [(key, value)], None) == path + [QuestionMark] + PairText(key, value)
  {
    assert PairTexts([(key, value)]) == [PairText(key, value)];
  }

  /** `path?k1=v1&k2=v2`, as a written query. */
  lemma RenderTwo(path: Str, k1: Str, v1: Str, k2: Str, v2: Str)
    ensures Render(path, [(k1, v1), (k2, v2)], None)
      == path + [QuestionMark] + PairText(k1, v1) + [Ampersand] + PairText(k2, v2)
  {
    var texts := PairTexts([(k1, v1), (k2, v2)]);
    assert texts == [PairText(k1, v1), PairText(k2, v2)];
    assert Join(texts, [Ampersand]) == PairText(k1, v1) + [Ampersand] + Join(texts[1..], [Ampersand]);
    assert texts[1..] == [PairText(k2, v2)];
  }

  /** AddUrlParameter's documentation, first example: on
      `path?param1=valeur1`, adding `param2=valeur2` appends it after '&'. */
  lemma AddParameterAppendsExample(path: Str, k1: Str, v1: Str, k2: Str, v2: Str)
    requires QuestionMark !in path && NumberSign !in path
    requires SafePart(k1) && SafePart(v1) && SafePart(k2) && SafePart(v2)
    requires |k2| > 0 && |v2| > 0 && !EqualsIgnoreCase(k1, Gclid) && !EqualsIgnoreCase(k1, k2)
    ensures AddParameter(Some(path + [QuestionMark] + PairText(k1, v1)), Some(k2), Some(v2))
      == Some(path + [QuestionMark] + PairText(k1, v1) + [Ampersand] + PairText(k2, v2))
  {
    var pairs := [(k1, v1)];
    assert WellFormed(path, pairs, None);
    RenderOne(path, k1, v1);
    AddParameterRender(path, pairs, None, k2, v2);
    RemoveKeyOne(k1, v1, k2);
    RemoveKeyOne(k1, v1, Gclid);
    assert RemoveKey(RemoveKey(pairs, k2), Gclid) == pairs;
    assert AddedPair(pairs, k2, v2) == pairs + [(k2, v2)];
    assert pairs + [(k2, v2)] == [(k1, v1), (k2, v2)];
    RenderTwo(path, k1, v1, k2, v2);
  }

  /** AddUrlParameter's documentation, second example: on
      `path?param1=valeur1`, adding `param1=valeur2` replaces the value. */
  lemma AddParameterReplacesExample(path: Str, k1: Str, v1: Str, k2: Str, v2: Str)
    requires QuestionMark !in path && NumberSign !in path
    requires SafePart(k1) && SafePart(v1) && SafePart(k2) && SafePart(v2)
    requires |k2| > 0 && |v2| > 0 && EqualsIgnoreCase(k1, k2)
    ensures AddParameter(Some(path + [QuestionMark] + PairText(k1, v1)), Some(k2), Some(v2))
      == Some(path + [QuestionMark] + PairText(k2, v2))
  {
    var pairs := [(k1, v1)];
    assert WellFormed(path, pairs, None);
    RenderOne(path, k1, v1);
    AddParameterRender(path, pairs, None, k2, v2);
    RemoveKeyOne(k1, v1, k2);
    assert AddedPair(pairs, k2, v2) == [(k2, v2)];
    RenderOne(path, k2, v2);
  }
}
