/** UriExtensions: the query-string rewriter and the small URL helpers.
    A path-and-query is a plain string: its anchor, path and parameters are
    found with String.Split and String.Replace exactly as the source does,
    with no URI parsing. */
module UriExtensions {
  import opened Wrappers
  import opened Text
  import opened NameValues
  import opened IEnumerableExtension
  import opened StringExtension

  // ---------------------------------------------------------------------
  // Taking a path-and-query apart
  // ---------------------------------------------------------------------

  /** The anchor: '#' and the text between the first and the second '#',
      or empty when there is no '#'. */
  function AnchorOf(pq: Str): (anchor: Str)
    ensures anchor == [] || anchor[0] == NumberSign
  {
    var anchorParts := Split(pq, NumberSign);
    if |anchorParts| > 1 then [NumberSign] + anchorParts[1] else []
  }

  /** The text before the first '?', with the anchor replaced away. */
  function PathOf(pq: Str): Str
  {
    var path := Split(pq, QuestionMark)[0];
    var anchor := AnchorOf(pq);
    if anchor == [] then path else Replace(path, anchor, [])
  }

  /** The text between the first and the second '?', with the anchor
      replaced away; null when there is no '?'. */
  function ParametersOf(pq: Str): Option<Str>
  {
    var parts := Split(pq, QuestionMark);
    var anchor := AnchorOf(pq);
    if |parts| <= 1 then None
    else if anchor == [] then Some(parts[1])
    else Some(Replace(parts[1], anchor, []))
  }

  /** The pairs ExcludeUrlParameter adds to its collection, in order. */
  function QueryPairs(pq: Str): seq<(Str, Str)>
  {
    match ParametersOf(pq)
    case None => []
    case Some(parameters) => ExactPairs(Split(parameters, Ampersand))
  }

  // ---------------------------------------------------------------------
  // Putting one back together
  // ---------------------------------------------------------------------

  /** The entries whose key does not equal `key` ignoring case, in order; a
      null key equals nothing. */
  function Survivors(entries: seq<Entry>, key: Option<Str>): (kept: seq<Entry>)
    ensures |kept| <= |entries|
  {
    if |entries| == 0 then []
    else
      var init, last := entries[..|entries| - 1], entries[|entries| - 1];
      Survivors(init, key)
        + (if key.Some? && EqualsIgnoreCase(last.key, key.value) then [] else [last])
  }

  /** `key=value`. */
  function PairText(key: Str, value: Str): Str
  {
    key + [EqualsSign] + value
  }

  function PairTexts(pairs: seq<(Str, Str)>): (texts: seq<Str>)
    ensures |texts| == |pairs|
    ensures forall i :: 0 <= i < |pairs| ==> texts[i] == PairText(pairs[i].0, pairs[i].1)
  {
    seq(|pairs|, i requires 0 <= i < |pairs| => PairText(pairs[i].0, pairs[i].1))
  }

  /** A query: nothing for no pairs, else '?' and the pairs joined by '&'. */
  function QueryString(pairs: seq<(Str, Str)>): Str
  {
    if |pairs| == 0 then [] else [QuestionMark] + Join(PairTexts(pairs), [Ampersand])
  }

  /** Each entry as a pair of its key and its comma-joined values. */
  function Pairs(entries: seq<Entry>): (pairs: seq<(Str, Str)>)
    ensures |pairs| == |entries|
    ensures forall i :: 0 <= i < |entries| ==> pairs[i] == (entries[i].key, Value(entries[i]))
  {
    seq(|entries|, i requires 0 <= i < |entries| => (entries[i].key, Value(entries[i])))
  }

  /** The separator that goes before the next parameter. */
  function SeparatorAfter(pairs: seq<(Str, Str)>): Str
  {
    if |pairs| == 0 then [QuestionMark] else [Ampersand]
  }

  /** The three results of ExcludeUrlParameter. */
  datatype Exclusion = Exclusion(pathAndQuery: Option<Str>, separator: Str, anchor: Str)

  /** What ExcludeUrlParameter computes: the path followed by the collected
      parameters other than `key`, the separator for the next parameter, and
      the anchor. A null path-and-query gives null and two empty strings. */
  function Exclude(pq: Option<Str>, key: Option<Str>): Exclusion
  {
    if pq.None? then Exclusion(None, [], [])
    else
      var kept := Pairs(Survivors(Collect(QueryPairs(pq.value)), key));
      Exclusion(Some(PathOf(pq.value) + QueryString(kept)), SeparatorAfter(kept), AnchorOf(pq.value))
  }

  lemma QueryStringAppend(pairs: seq<(Str, Str)>, key: Str, value: Str)
    ensures QueryString(pairs + [(key, value)])
      == QueryString(pairs) + SeparatorAfter(pairs) + PairText(key, value)
  {
    var texts := PairTexts(pairs + [(key, value)]);
    if |pairs| == 0 {
      assert texts == [PairText(key, value)];
    } else {
      assert texts == PairTexts(pairs) + [PairText(key, value)];
      JoinAppend(PairTexts(pairs), PairText(key, value), [Ampersand]);
    }
  }

  lemma SurvivorsStep(entries: seq<Entry>, j: int, key: Option<Str>)
    requires 0 <= j < |entries|
    ensures Survivors(entries[..j + 1], key)
      == Survivors(entries[..j], key)
         + (if key.Some? && EqualsIgnoreCase(entries[j].key, key.value) then [] else [entries[j]])
  {
    assert entries[..j + 1][..j] == entries[..j];
  }

  /** Writing one more surviving entry extends the query by the separator
      and `key=value`. */
  lemma EmitStep(entries: seq<Entry>, j: int, key: Option<Str>)
    requires 0 <= j < |entries|
    requires !(key.Some? && EqualsIgnoreCase(entries[j].key, key.value))
    ensures var before := Pairs(Survivors(entries[..j], key));
      QueryString(Pairs(Survivors(entries[..j + 1], key)))
        == QueryString(before) + SeparatorAfter(before) + PairText(entries[j].key, Value(entries[j]))
  {
    SurvivorsStep(entries, j, key);
    var kept := Survivors(entries[..j], key);
    assert Pairs(kept + [entries[j]]) == Pairs(kept) + [(entries[j].key, Value(entries[j]))];
    QueryStringAppend(Pairs(kept), entries[j].key, Value(entries[j]));
  }

  /** One turn of WriteParameters' loop: an entry other than `key` extends
      what was written by the separator and `key=value`, and the separator
      becomes '&'; the entry `key` leaves both unchanged. */
  lemma WriteStep(path: Str, entries: seq<Entry>, j: int, key: Option<Str>)
    requires 0 <= j < |entries|
    ensures var before := Pairs(Survivors(entries[..j], key));
      var after := Pairs(Survivors(entries[..j + 1], key));
      if key.Some? && EqualsIgnoreCase(entries[j].key, key.value) then
        after == before
      else
        path + QueryString(after)
          == (path + QueryString(before)) + SeparatorAfter(before) + PairText(entries[j].key, Value(entries[j]))
        && SeparatorAfter(after) == [Ampersand]
  {
    SurvivorsStep(entries, j, key);
    if key.Some? && EqualsIgnoreCase(entries[j].key, key.value) {
      assert Survivors(entries[..j + 1], key) == Survivors(entries[..j], key) + [];
    } else {
      EmitStep(entries, j, key);
    }
  }

  /** The second loop of ExcludeUrlParameter: the path, then every key of
      the collection other than `key` with its value, '?' before the first
      and '&' before the others. */
  method WriteParameters(path: Str, nvc: NameValueCollection, key: Option<Str>)
    returns (written: Str, separator: Str)
    requires Valid(nvc.entries)
    ensures written == path + QueryString(Pairs(Survivors(nvc.entries, key)))
    ensures separator == SeparatorAfter(Pairs(Survivors(nvc.entries, key)))
  {
    var entries := nvc.entries;
    var keys := nvc.AllKeys();
    written := path;
    separator := [QuestionMark];
    for j := 0 to |keys|
      invariant written == path + QueryString(Pairs(Survivors(entries[..j], key)))
      invariant separator == SeparatorAfter(Pairs(Survivors(entries[..j], key)))
    {
      WriteStep(path, entries, j, key);
      var item := keys[j];
      if key.Some? && EqualsIgnoreCase(item, key.value) {
        continue;
      }
      LookupOwnKey(entries, j);
      var value := nvc.Get(item);
      written := written + separator + PairText(item, value.value);
      separator := [Ampersand];
    }
    assert entries[..|keys|] == entries;
  }

  /** ExcludeUrlParameter: takes the anchor, the path and the parameters
      apart, fills a collection from the parameters and writes it back
      without `key`. */
  method ExcludeUrlParameter(pq: Option<Str>, key: Option<Str>)
    returns (result: Option<Str>, separator: Str, anchor: Str)
    ensures Exclusion(result, separator, anchor) == Exclude(pq, key)
  {
    if pq.None? {
      return None, [], [];
    }
    var s := pq.value;
    var parts := Split(s, QuestionMark);
    var anchorParts := Split(s, NumberSign);
    anchor := [];
    var path := parts[0];
    if |anchorParts| > 1 {
      anchor := [NumberSign] + anchorParts[1];
      path := Replace(path, anchor, []);
    }
    assert anchor == AnchorOf(s) && path == PathOf(s);
    var nvc := new NameValueCollection();
    if |parts| > 1 {
      var parameters := parts[1];
      if |anchorParts| > 1 {
        parameters := Replace(parameters, anchor, []);
      }
      assert ParametersOf(s) == Some(parameters);
      AddTokens(nvc, Split(parameters, Ampersand));
    }
    assert nvc.entries == Collect(QueryPairs(s));
    CollectValid(QueryPairs(s));
    var written;
    written, separator := WriteParameters(path, nvc, key);
    result := Some(written);
  }

  // ---------------------------------------------------------------------
  // Adding and removing one parameter
  // ---------------------------------------------------------------------

  /** "gclid" */
  const Gclid: Str := [0x67, 0x63, 0x6c, 0x69, 0x64]

  /** The keys AddUrlParameter always drops, whatever key it adds. */
  const DenyList: seq<Str> := [Gclid]

  /** ExcludeUrlParameter applied again with each of `keys` in turn. */
  function ExcludeKeys(e: Exclusion, keys: seq<Str>): (r: Exclusion)
    ensures e.pathAndQuery.Some? ==> r.pathAndQuery.Some?
  {
    if |keys| == 0 then e
    else Exclude(ExcludeKeys(e, keys[..|keys| - 1]).pathAndQuery, Some(keys[|keys| - 1]))
  }

  /** What AddUrlParameter computes: the input unchanged when it, the key
      or the value is null or empty; otherwise the query without `key` and
      without the denied keys, then `key=value`, then the anchor. */
  function AddParameter(pq: Option<Str>, key: Option<Str>, value: Option<Str>): Option<Str>
  {
    if IsNullOrEmpty(pq) || IsNullOrEmpty(key) || IsNullOrEmpty(value) then pq
    else
      var first := Exclude(pq, key);
      var rest := ExcludeKeys(first, DenyList);
      var added := rest.pathAndQuery.value + rest.separator + PairText(key.value, value.value);
      Some(if IsNullOrTrimmedEmpty(Some(first.anchor)) then added else added + first.anchor)
  }

  method AddUrlParameter(pq: Option<Str>, key: Option<Str>, value: Option<Str>)
    returns (r: Option<Str>)
    ensures r == AddParameter(pq, key, value)
  {
    if IsNullOrEmpty(pq) || IsNullOrEmpty(key) || IsNullOrEmpty(value) {
      return pq;
    }
    var result, separator, anchor := ExcludeUrlParameter(pq, key);
    ghost var first := Exclusion(result, separator, anchor);
    var denyList := DenyList;
    for i := 0 to |denyList|
      invariant result == ExcludeKeys(first, denyList[..i]).pathAndQuery
      invariant separator == ExcludeKeys(first, denyList[..i]).separator
    {
      assert denyList[..i + 1][..i] == denyList[..i];
      var dummy;
      result, separator, dummy := ExcludeUrlParameter(result, Some(denyList[i]));
    }
    assert denyList[..|denyList|] == denyList;
    r := Some(result.value + separator + PairText(key.value, value.value));
    if !IsNullOrTrimmedEmpty(Some(anchor)) {
      r := Some(r.value + anchor);
    }
  }

  /** AddUrlParameter with an `int` value, written in decimal. */
  method AddUrlParameterInt(pq: Option<Str>, key: Option<Str>, value: int)
    returns (r: Option<Str>)
    requires -0x8000_0000 <= value < 0x8000_0000
    ensures r == AddParameter(pq, key, Some(DecimalString(value)))
  {
    r := AddUrlParameter(pq, key, Some(DecimalString(value)));
  }

  /** What RemoveUrlParameter computes: the query without `key`, then the
      anchor; null stays null. */
  function RemoveParameter(pq: Option<Str>, key: Option<Str>): Option<Str>
  {
    var e := Exclude(pq, key);
    match e.pathAndQuery
    case None => None
    case Some(rest) => Some(if IsNullOrTrimmedEmpty(Some(e.anchor)) then rest else rest + e.anchor)
  }

  method RemoveUrlParameter(pq: Option<Str>, key: Option<Str>) returns (r: Option<Str>)
    ensures r == RemoveParameter(pq, key)
  {
    var separator, anchor;
    r, separator, anchor := ExcludeUrlParameter(pq, key);
    if !IsNullOrTrimmedEmpty(Some(anchor)) {
      r := Some(r.value + anchor);
    }
  }

  /** The anchor is blank exactly when there is no '#', so RemoveUrlParameter
      (and AddUrlParameter) put it back exactly when the input has a '#'; it
      holds no second '#'. */
  lemma AnchorAppended(pq: Str, key: Option<Str>)
    ensures !IsNullOrTrimmedEmpty(Some(AnchorOf(pq))) <==> NumberSign in pq
    ensures AnchorOf(pq) != [] ==> NumberSign !in AnchorOf(pq)[1..]
    ensures RemoveParameter(Some(pq), key)
      == Some(Exclude(Some(pq), key).pathAndQuery.value + (if NumberSign in pq then AnchorOf(pq) else []))
  {
    var parts := Split(pq, NumberSign);
    var anchor := AnchorOf(pq);
    SplitCount(pq, NumberSign);
    IsNullOrTrimmedEmptyMeaning(Some(anchor));
    assert Exclude(Some(pq), key).anchor == anchor;
    if NumberSign in pq {
      CountPresent(pq, NumberSign);
      SplitPiecesFree(pq, NumberSign);
      assert anchor == [NumberSign] + parts[1];
      assert anchor[1..] == parts[1];
      assert !IsWhiteSpace(anchor[0]);
      assert !IsNullOrTrimmedEmpty(Some(anchor));
    } else {
      CountAbsent(pq, NumberSign);
      assert anchor == [];
      assert IsNullOrTrimmedEmpty(Some(anchor));
      var rest := Exclude(Some(pq), key).pathAndQuery.value;
      assert rest + [] == rest;
    }
  }

  // ---------------------------------------------------------------------
  // Adding several parameters
  // ---------------------------------------------------------------------

  /** AddUrlParameter called with each pair in order. */
  function AddPairs(pq: Option<Str>, pairs: seq<(Str, Str)>): Option<Str>
  {
    if |pairs| == 0 then pq
    else
      var last := pairs[|pairs| - 1];
      AddParameter(AddPairs(pq, pairs[..|pairs| - 1]), Some(last.0), Some(last.1))
  }

  lemma AddPairsAppend(pq: Option<Str>, pairs: seq<(Str, Str)>, key: Str, value: Str)
    ensures AddPairs(pq, pairs + [(key, value)]) == AddParameter(AddPairs(pq, pairs), Some(key), Some(value))
  {
    assert (pairs + [(key, value)])[..|pairs|] == pairs;
  }

  /** One turn of AddUrlParameters' loop. */
  lemma AddTokenStep(pq: Option<Str>, dic: seq<Str>, i: int)
    requires 0 <= i < |dic|
    ensures var nv := Split(dic[i], EqualsSign);
      var before := AddPairs(pq, ExactPairs(dic[..i]));
      AddPairs(pq, ExactPairs(dic[..i + 1]))
        == if |nv| == 2 then AddParameter(before, Some(nv[0]), Some(nv[1])) else before
  {
    ExactPairsStep(dic, i);
    var nv := Split(dic[i], EqualsSign);
    if |nv| == 2 {
      AddPairsAppend(pq, ExactPairs(dic[..i]), nv[0], nv[1]);
    } else {
      assert ExactPairs(dic[..i + 1]) == ExactPairs(dic[..i]) + [];
      assert ExactPairs(dic[..i + 1]) == ExactPairs(dic[..i]);
    }
  }

  /** What AddUrlParameters(string) computes: the input unchanged when it
      or the parameters are blank; otherwise each `key=value` token of the
      parameters, split on '&', added in order. */
  function AddParameters(pq: Option<Str>, parameters: Option<Str>): Option<Str>
  {
    if IsNullOrTrimmedEmpty(parameters) || IsNullOrTrimmedEmpty(pq) then pq
    else AddPairs(pq, ExactPairs(Split(parameters.value, Ampersand)))
  }

  method AddUrlParameters(pq: Option<Str>, parameters: Option<Str>) returns (r: Option<Str>)
    ensures r == AddParameters(pq, parameters)
  {
    if IsNullOrTrimmedEmpty(parameters) || IsNullOrTrimmedEmpty(pq) {
      return pq;
    }
    var dic := Split(parameters.value, Ampersand);
    r := pq;
    for i := 0 to |dic|
      invariant r == AddPairs(pq, ExactPairs(dic[..i]))
    {
      AddTokenStep(pq, dic, i);
      var nv := Split(dic[i], EqualsSign);
      if |nv| == 2 {
        r := AddUrlParameter(r, Some(nv[0]), Some(nv[1]));
      }
    }
    assert dic[..|dic|] == dic;
  }

  /** The public properties of an object, by name, each with its value
      formatted as a string, or None for a null value. */
  type Properties = seq<(Str, Option<Str>)>

  /** The properties whose formatted value is neither null nor empty. */
  function Present(properties: Properties): (pairs: seq<(Str, Str)>)
    ensures |pairs| <= |properties|
  {
    if |properties| == 0 then []
    else
      var last := properties[|properties| - 1];
      Present(properties[..|properties| - 1])
        + (if last.1.Some? && |last.1.value| > 0 then [(last.0, last.1.value)] else [])
  }

  /** A turn of AddUrlParametersOf's loop that skips a null or empty
      value. */
  lemma AddPropertySkip(pq: Option<Str>, list: Properties, i: int)
    requires 0 <= i < |list| && (list[i].1.None? || |list[i].1.value| == 0)
    ensures AddPairs(pq, Present(list[..i + 1])) == AddPairs(pq, Present(list[..i]))
  {
    assert list[..i + 1][..i] == list[..i];
    assert Present(list[..i + 1]) == Present(list[..i]) + [];
    assert Present(list[..i + 1]) == Present(list[..i]);
  }

  /** A turn of AddUrlParametersOf's loop that adds a property. */
  lemma AddPropertyAdd(pq: Option<Str>, list: Properties, i: int)
    requires 0 <= i < |list| && list[i].1.Some? && |list[i].1.value| > 0
    ensures AddPairs(pq, Present(list[..i + 1]))
      == AddParameter(AddPairs(pq, Present(list[..i])), Some(list[i].0), list[i].1)
  {
    assert list[..i + 1][..i] == list[..i];
    AddPairsAppend(pq, Present(list[..i]), list[i].0, list[i].1.value);
  }

  /** What AddUrlParameters<T> computes: for a null input, the input
      string; otherwise each property with a non-empty value added in
      order under its name. */
  function AddProperties(pq: Option<Str>, input: Option<Properties>): Option<Str>
  {
    if input.None? then pq else AddPairs(pq, Present(input.value))
  }

  method AddUrlParametersOf(pq: Option<Str>, input: Option<Properties>) returns (r: Option<Str>)
    ensures r == AddProperties(pq, input)
  {
    if input.None? {
      return pq;
    }
    var list := input.value;
    r := pq;
    for i := 0 to |list|
      invariant r == AddPairs(pq, Present(list[..i]))
    {
      var value := list[i].1;
      if value.None? || |value.value| == 0 {
        AddPropertySkip(pq, list, i);
        continue;
      }
      AddPropertyAdd(pq, list, i);
      r := AddUrlParameter(r, Some(list[i].0), value);
    }
    assert list[..|list|] == list;
  }

  // ---------------------------------------------------------------------
  // Reading a query; the zone of a host
  // ---------------------------------------------------------------------

  predicate IsQuestionMark(c: Char16)
  {
    c == QuestionMark
  }

  /** The tokens of a query: '?' trimmed from both ends, then white space,
      then split on '&'. */
  function QueryTokens(query: Str): seq<Str>
  {
    Split(Trim(TrimWhere(query, IsQuestionMark)), Ampersand)
  }

  /** The tokens with at least two parts on '=', as their first two parts. */
  function LenientPairs(tokens: seq<Str>): (pairs: seq<(Str, Str)>)
    ensures |pairs| <= |tokens|
  {
    if |tokens| == 0 then []
    else
      var nv := Split(tokens[|tokens| - 1], EqualsSign);
      LenientPairs(tokens[..|tokens| - 1]) + (if |nv| > 1 then [(nv[0], nv[1])] else [])
  }

  /** A turn of GetParameters' loop on a token with a '='. */
  lemma ReadPair(parts: seq<Str>, i: int, name: Str, value: Str)
    requires 0 <= i < |parts|
    requires |Split(parts[i], EqualsSign)| > 1
    requires name == Split(parts[i], EqualsSign)[0] && value == Split(parts[i], EqualsSign)[1]
    ensures Collect(LenientPairs(parts[..i + 1])) == AddEntry(Collect(LenientPairs(parts[..i])), name, value)
  {
    assert parts[..i + 1][..i] == parts[..i];
    assert LenientPairs(parts[..i + 1]) == LenientPairs(parts[..i]) + [(name, value)];
    CollectAppend(LenientPairs(parts[..i]), name, value);
  }

  /** A turn of GetParameters' loop on a token without '='. */
  lemma ReadSkip(parts: seq<Str>, i: int)
    requires 0 <= i < |parts| && |Split(parts[i], EqualsSign)| <= 1
    ensures LenientPairs(parts[..i + 1]) == LenientPairs(parts[..i])
  {
    assert parts[..i + 1][..i] == parts[..i];
    assert LenientPairs(parts[..i + 1]) == LenientPairs(parts[..i]) + [];
  }

  /** GetParameters, given `uri.Query`, or None for a null `uri`. */
  method GetParameters(query: Option<Str>) returns (result: NameValueCollection?)
    ensures query.None? ==> result == null
    ensures query.Some? ==>
      result != null && fresh(result) && result.entries == Collect(LenientPairs(QueryTokens(query.value)))
  {
    if query.None? {
      return null;
    }
    result := new NameValueCollection();
    ReadTokens(result, QueryTokens(query.value));
  }

  /** The foreach loop of GetParameters: each token with at least two
      parts on '=' adds its first two parts to the collection. */
  method ReadTokens(nvc: NameValueCollection, parts: seq<Str>)
    requires nvc.entries == []
    modifies nvc
    ensures nvc.entries == Collect(LenientPairs(parts))
  {
    for i := 0 to |parts|
      invariant nvc.entries == Collect(LenientPairs(parts[..i]))
    {
      var nv := Split(parts[i], EqualsSign);
      if |nv| > 1 {
        ReadPair(parts, i, nv[0], nv[1]);
        nvc.Add(nv[0], nv[1]);
      } else {
        ReadSkip(parts, i);
      }
    }
    assert parts[..|parts|] == parts;
  }

  /** GetZoneAndTld, given `uri.Host`, or None for a null `uri`, whose
      `Host` throws. */
  function GetZoneAndTld(host: Option<Str>): (r: Outcome<Option<Str>>)
    ensures host.None? <==> r == Throws(NullReference)
    ensures host.Some? ==> r.Returns? && (r.value.Some? <==> Period in host.value)
    ensures host.Some? ==> r == Returns(LastTwoLabels(host.value))
  {
    match host
    case None => Throws(NullReference)
    case Some(h) => Returns(LastTwoLabels(h))
  }

  /** The last two labels of a host joined by '.', or null for a host
      without '.'. */
  function LastTwoLabels(host: Str): (r: Option<Str>)
    ensures r.Some? <==> Period in host
  {
    var parts := Split(host, Period);
    SplitCount(host, Period);
    if |parts| >= 2 then
      assert Period in host by { if Period !in host { CountAbsent(host, Period); } }
      Some(parts[|parts| - 2] + [Period] + parts[|parts| - 1])
    else
      assert Period !in host by { if Period in host { CountPresent(host, Period); } }
      None
  }

  /** The last two pieces of a join, with the separator between them, end
      the joined text, and are either all of it or preceded by a separator. */
  lemma JoinEndsWithLastTwo(parts: seq<Str>, sep: Str)
    requires |parts| >= 2
    ensures var n := |parts|;
      var r := parts[n - 2] + sep + parts[n - 1];
      var j := Join(parts, sep);
      |r| <= |j| && j[|j| - |r|..] == r
      && (|r| == |j| || (|r| + |sep| <= |j| && j[|j| - |r| - |sep|..|j| - |r|] == sep))
  {
    var n := |parts|;
    var a, b := parts[n - 2], parts[n - 1];
    assert parts == parts[..n - 1] + [b];
    JoinAppend(parts[..n - 1], b, sep);
    var front: Str;
    if n == 2 {
      front := [];
      assert parts[..n - 1] == [a];
    } else {
      assert parts[..n - 1] == parts[..n - 2] + [a];
      JoinAppend(parts[..n - 2], a, sep);
      front := Join(parts[..n - 2], sep) + sep;
    }
    assert Join(parts, sep) == front + (a + sep + b);
    assert Join(parts, sep)[|front|..] == a + sep + b;
    if n > 2 {
      assert Join(parts, sep)[|front| - |sep|..|front|] == sep;
    }
  }

  lemma CountOneSeparator(a: Str, b: Str, c: Char16)
    requires c !in a && c !in b
    ensures Count(a + [c] + b, c) == 1
  {
    CountAbsent(a, c);
    CountAbsent(b, c);
    CountAppend(a, [c], c);
    CountAppend(a + [c], b, c);
  }

  /** An answer of LastTwoLabels is a suffix of the host with a single '.',
      starting the host or right after a '.': the last two labels. */
  lemma ZoneAndTldShape(host: Str)
    ensures LastTwoLabels(host).Some? ==>
      var r := LastTwoLabels(host).value;
      |r| <= |host| && host[|host| - |r|..] == r && Count(r, Period) == 1
      && (|r| == |host| || host[|host| - |r| - 1] == Period)
  {
    var parts := Split(host, Period);
    var n := |parts|;
    SplitCount(host, Period);
    if Period in host {
      CountPresent(host, Period);
      var r := parts[n - 2] + [Period] + parts[n - 1];
      assert LastTwoLabels(host) == Some(r);
      SplitPiecesFree(host, Period);
      assert Period !in parts[n - 2] && Period !in parts[n - 1];
      CountOneSeparator(parts[n - 2], parts[n - 1], Period);
      JoinSplit(host, Period);
      JoinEndsWithLastTwo(parts, [Period]);
      if |r| < |host| {
        assert host[|host| - |r| - 1..|host| - |r|] == [Period];
      }
    }
  }

}
