/** StringExtension: helpers on .NET strings. A `null` string is `None`;
    a call that throws is `Throws`. */
module StringExtension {
  import opened Wrappers
  import opened Text
  import opened NameValues
  import opened IEnumerableExtension

  /** IsNullOrTrimmedEmpty: null, empty, or white space only. */
  predicate IsNullOrTrimmedEmpty(value: Option<Str>)
  {
    value.None? || |value.value| == 0 || |Trim(value.value)| == 0
  }

  /** A string is blank exactly when it is null or each of its characters
      is white space. */
  lemma IsNullOrTrimmedEmptyMeaning(value: Option<Str>)
    ensures IsNullOrTrimmedEmpty(value)
      <==> value.None? || forall i :: 0 <= i < |value.value| ==> IsWhiteSpace(value.value[i])
  {
    if value.Some? {
      TrimWhereShape(value.value, IsWhiteSpace);
    }
  }

  /** The characters of a string, the empty string for null. */
  function OrEmpty(value: Option<Str>): Str
  {
    if value.None? then [] else value.value
  }

  /** `t` ends `s`. */
  predicate IsSuffix(t: Str, s: Str)
  {
    |t| <= |s| && s[|s| - |t|..] == t
  }

  // ---------------------------------------------------------------------
  // Left and Right
  // ---------------------------------------------------------------------

  /** Left: a blank string unchanged, otherwise its first `length`
      characters, or all of them when it is shorter. Substring throws for a
      negative length. */
  function Left(value: Option<Str>, length: int): (r: Outcome<Option<Str>>)
    ensures IsNullOrTrimmedEmpty(value) ==> r == Returns(value)
    ensures !IsNullOrTrimmedEmpty(value) && length < 0 ==> r == Throws(ArgumentOutOfRange)
    ensures !IsNullOrTrimmedEmpty(value) && length >= 0 ==>
      r.Returns? && r.value.Some? && r.value.value <= value.value
      && |r.value.value| == Min(length, |value.value|)
  {
    if IsNullOrTrimmedEmpty(value) then Returns(value)
    else
      var take := Min(length, |value.value|);
      if take < 0 then Throws(ArgumentOutOfRange) else Returns(Some(value.value[..take]))
  }

  /** The test cases of Left that agree with the code: five characters of
      nine, all of them for a length past the end, and null for null. */
  lemma LeftExamples()
    ensures var s: Str := [0x31, 0x32, 0x33, 0x34, 0x35, 0x36, 0x37, 0x38, 0x39];
      Left(Some(s), 5) == Returns(Some([0x31, 0x32, 0x33, 0x34, 0x35]))
      && Left(Some(s), 50) == Returns(Some(s))
      && Left(None, 10) == Returns(None)
  {
    var s: Str := [0x31, 0x32, 0x33, 0x34, 0x35, 0x36, 0x37, 0x38, 0x39];
    assert s[0] == 0x31 && !IsWhiteSpace(s[0]);
    assert Trim(s) != [] by {
      TrimWhereShape(s, IsWhiteSpace);
    }
    assert !IsNullOrTrimmedEmpty(Some(s));
    assert s[..5] == [0x31, 0x32, 0x33, 0x34, 0x35];
    assert s[..9] == s;
  }

  /** The two test cases of Left that disagree with the code: a length of
      zero gives the empty string, not the input, and a negative length
      throws instead of giving the input. */
  lemma LeftZeroAndNegative()
    ensures var s: Str := [0x31, 0x32, 0x33, 0x34, 0x35, 0x36, 0x37, 0x38, 0x39];
      Left(Some(s), 0) == Returns(Some([])) && Left(Some(s), -1) == Throws(ArgumentOutOfRange)
  {
    var s: Str := [0x31, 0x32, 0x33, 0x34, 0x35, 0x36, 0x37, 0x38, 0x39];
    assert s[0] == 0x31 && !IsWhiteSpace(s[0]);
    assert Trim(s) != [] by {
      TrimWhereShape(s, IsWhiteSpace);
    }
  }

  /** Left as its test expects it: a length of zero or less gives back the
      input, as a blank input does; a positive length takes what Left
      takes. */
  function LeftAsTested(value: Option<Str>, length: int): (r: Option<Str>)
    ensures IsNullOrTrimmedEmpty(value) || length <= 0 ==> r == value
    ensures !IsNullOrTrimmedEmpty(value) && length > 0 ==> Left(value, length) == Returns(r)
  {
    if IsNullOrTrimmedEmpty(value) || length <= 0 then value
    else Some(value.value[..Min(length, |value.value|)])
  }

  /** All five assertions of the test of Left hold for LeftAsTested. */
  lemma LeftAsTestedExamples()
    ensures var s: Str := [0x31, 0x32, 0x33, 0x34, 0x35, 0x36, 0x37, 0x38, 0x39];
      LeftAsTested(Some(s), 5) == Some([0x31, 0x32, 0x33, 0x34, 0x35])
      && LeftAsTested(Some(s), 50) == Some(s)
      && LeftAsTested(Some(s), 0) == Some(s)
      && LeftAsTested(Some(s), -1) == Some(s)
      && LeftAsTested(None, 10) == None
  {
    var s: Str := [0x31, 0x32, 0x33, 0x34, 0x35, 0x36, 0x37, 0x38, 0x39];
    LeftExamples();
    assert s[0] == 0x31 && !IsWhiteSpace(s[0]);
    assert Trim(s) != [] by {
      TrimWhereShape(s, IsWhiteSpace);
    }
  }

  /** Right as written: a blank string unchanged, otherwise the characters
      from max(Length - length, 0) on. The subtraction is unchecked Int32
      arithmetic, so for a very negative `length` it wraps around below
      zero and the whole string comes back instead of nothing. */
  function Right(value: Option<Str>, length: Int32): (r: Option<Str>)
    requires value.Some? ==> |value.value| < 0x8000_0000
    ensures IsNullOrTrimmedEmpty(value) ==> r == value
    ensures !IsNullOrTrimmedEmpty(value) ==> r.Some? && IsSuffix(r.value, value.value)
    ensures !IsNullOrTrimmedEmpty(value) && length >= 0 ==> |r.value| == Min(length, |value.value|)
    ensures !IsNullOrTrimmedEmpty(value) && length < 0 && |value.value| - length < 0x8000_0000 ==> r.value == []
  {
    if IsNullOrTrimmedEmpty(value) then value
    else
      var v := value.value;
      var start := Min(Max(Wrap32(|v| - length), 0), |v|);
      Some(v[start..])
  }

  /** The wrap-around shown: Right("1", int.MinValue) is "1". */
  lemma RightWrapsAround()
    ensures Right(Some([0x31]), -0x8000_0000) == Some([0x31])
  {
    assert !IsWhiteSpace(0x31);
    assert Trim([0x31]) != [] by {
      TrimWhereShape([0x31], IsWhiteSpace);
    }
    assert Wrap32(1 + 0x8000_0000) == 1 - 0x8000_0000;
  }

  /** Right as evidently intended: the last `length` characters, none for a
      negative length, with the subtraction done without wrapping. */
  function RightIntended(value: Option<Str>, length: int): (r: Option<Str>)
    ensures IsNullOrTrimmedEmpty(value) ==> r == value
    ensures !IsNullOrTrimmedEmpty(value) ==>
      r.Some? && IsSuffix(r.value, value.value) && |r.value| == Max(0, Min(length, |value.value|))
  {
    if IsNullOrTrimmedEmpty(value) then value
    else
      var v := value.value;
      Some(v[Min(Max(|v| - length, 0), |v|)..])
  }

  /** The two agree wherever the subtraction does not wrap. */
  lemma RightAgreesWithoutWrap(value: Option<Str>, length: Int32)
    requires value.Some? ==> |value.value| - length < 0x8000_0000
    requires value.Some? ==> |value.value| < 0x8000_0000
    ensures Right(value, length) == RightIntended(value, length)
  {
  }

  // ---------------------------------------------------------------------
  // Fixed and maximal length
  // ---------------------------------------------------------------------

  /** `n` copies of `c`: new string(c, n). */
  function Repeat(c: Char16, n: nat): (r: Str)
    ensures |r| == n
    ensures forall i :: 0 <= i < n ==> r[i] == c
  {
    seq(n, _ => c)
  }

  /** ToFixedLength(input, length, paddingChar): exactly `length`
      characters, the input's first ones followed by padding. A negative
      length throws (new string, Substring). */
  function ToFixedLength(input: Option<Str>, length: int, paddingChar: Char16): (r: Outcome<Str>)
    ensures length < 0 <==> r == Throws(ArgumentOutOfRange)
    ensures length >= 0 ==> r.Returns? && |r.value| == length
    ensures length >= 0 ==>
      var v := OrEmpty(input);
      r.value[..Min(|v|, length)] == v[..Min(|v|, length)]
      && forall i :: |v| <= i < length ==> r.value[i] == paddingChar
  {
    if IsNullOrEmpty(input) then
      if length < 0 then Throws(ArgumentOutOfRange) else Returns(Repeat(paddingChar, length))
    else if |input.value| > length then
      if length < 0 then Throws(ArgumentOutOfRange) else Returns(input.value[..length])
    else
      Returns(input.value + Repeat(paddingChar, length - |input.value|))
  }

  /** ToFixedLength(input, length): padded with spaces. */
  function ToFixedLengthSpaced(input: Option<Str>, length: int): (r: Outcome<Str>)
    ensures length < 0 <==> r == Throws(ArgumentOutOfRange)
    ensures length >= 0 ==> r.Returns? && |r.value| == length
    ensures length >= 0 ==>
      var v := OrEmpty(input);
      r.value[..Min(|v|, length)] == v[..Min(|v|, length)]
      && forall i :: |v| <= i < length ==> r.value[i] == Space
  {
    ToFixedLength(input, length, Space)
  }

  /** ToMaxLength: at most `maxLength` characters of the input, nothing for
      null or empty; Substring throws for a negative maximum. */
  function ToMaxLength(input: Option<Str>, maxLength: int): (r: Outcome<Str>)
    ensures IsNullOrEmpty(input) ==> r == Returns([])
    ensures !IsNullOrEmpty(input) ==> (r.Throws? <==> maxLength < 0)
    ensures r.Returns? ==>
      r.value <= OrEmpty(input) && |r.value| == Min(|OrEmpty(input)|, Max(maxLength, 0))
  {
    if IsNullOrEmpty(input) then Returns([])
    else if |input.value| > maxLength then
      if maxLength < 0 then Throws(ArgumentOutOfRange) else Returns(input.value[..maxLength])
    else Returns(input.value)
  }

  // ---------------------------------------------------------------------
  // Reverse and LineCount
  // ---------------------------------------------------------------------

  /** The characters of `s` in the opposite order. */
  function Reversed(s: Str): (r: Str)
    ensures |r| == |s|
    ensures forall i :: 0 <= i < |s| ==> r[i] == s[|s| - 1 - i]
  {
    if |s| == 0 then [] else Reversed(s[1..]) + [s[0]]
  }

  /** Reversing twice gives back the string. */
  lemma ReversedInvolution(s: Str)
    ensures Reversed(Reversed(s)) == s
  {
  }

  /** Array.Reverse: swaps the two ends, moving inwards. */
  method ReverseInPlace(a: array<Char16>)
    modifies a
    ensures a[..] == Reversed(old(a[..]))
  {
    ghost var original := a[..];
    var n := a.Length;
    var i := 0;
    while i < n / 2
      invariant 0 <= i <= n / 2
      invariant forall k :: 0 <= k < i ==> a[k] == original[n - 1 - k] && a[n - 1 - k] == original[k]
      invariant forall k :: i <= k < n - i ==> a[k] == original[k]
    {
      a[i], a[n - 1 - i] := a[n - 1 - i], a[i];
      i := i + 1;
    }
  }

  /** Reverse: the characters in the opposite order; ToCharArray throws on
      null. */
  method Reverse(input: Option<Str>) returns (r: Outcome<Str>)
    ensures input.None? ==> r == Throws(NullReference)
    ensures input.Some? ==> r == Returns(Reversed(input.value))
  {
    if input.None? {
      return Throws(NullReference);
    }
    var v := input.value;
    var chars := new Char16[|v|](i requires 0 <= i < |v| => v[i]);
    assert chars[..] == v;
    ReverseInPlace(chars);
    r := Returns(chars[..]);
  }

  /** LineCount: 0 for null or empty text, otherwise one more than the
      number of '\n', which is the number of lines Split('\n') gives. */
  function LineCount(text: Option<Str>): (n: nat)
    ensures n == 0 <==> IsNullOrEmpty(text)
    ensures !IsNullOrEmpty(text) ==> n == |Split(text.value, LineFeed)|
  {
    if IsNullOrEmpty(text) then 0
    else
      SplitCount(text.value, LineFeed);
      Count(text.value, LineFeed) + 1
  }

  /** CleanupPhoneNumber: the string without its periods. */
  function CleanupPhoneNumber(input: Option<Str>): (r: Option<Str>)
    ensures input.None? <==> r.None?
    ensures input.Some? ==> r.value == Without(input.value, Period)
  {
    if input.None? then None
    else
      ReplaceCharByNothing(input.value, Period);
      Some(Replace(input.value, [Period], []))
  }

  // ---------------------------------------------------------------------
  // ToNameValueDictionary
  // ---------------------------------------------------------------------

  /** The pairs ToNameValueDictionary adds: the `name=value` tokens of the
      text between the first and the second '?'; none for a blank query or
      one without '?'. */
  function DictionaryPairs(query: Option<Str>): (pairs: seq<(Str, Str)>)
    ensures IsNullOrTrimmedEmpty(query) || QuestionMark !in query.value ==> pairs == []
  {
    if IsNullOrTrimmedEmpty(query) || IndexOf(query.value, QuestionMark) == -1 then []
    else
      var q := query.value;
      SplitCount(q, QuestionMark);
      CountPresent(q, QuestionMark);
      ExactPairs(Split(Split(q, QuestionMark)[1], Ampersand))
  }

  /** ToNameValueDictionary: a new collection holding DictionaryPairs. */
  method ToNameValueDictionary(query: Option<Str>) returns (result: NameValueCollection)
    ensures fresh(result)
    ensures result.entries == Collect(DictionaryPairs(query))
  {
    if IsNullOrTrimmedEmpty(query) || IndexOf(query.value, QuestionMark) == -1 {
      result := new NameValueCollection();
      return;
    }
    SplitCount(query.value, QuestionMark);
    CountPresent(query.value, QuestionMark);
    var parameters := Split(Split(query.value, QuestionMark)[1], Ampersand);
    result := new NameValueCollection();
    AddTokens(result, parameters);
  }

  // ---------------------------------------------------------------------
  // ToWordList
  // ---------------------------------------------------------------------

  const DoubleSpace: Str := [Space, Space]

  /** Two spaces in a row: IndexOf("  ") != -1. */
  predicate HasDoubleSpace(s: Str)
  {
    exists i :: 0 <= i < |s| - 1 && s[i] == Space && s[i + 1] == Space
  }

  /** `s` with every run of spaces shortened to one space: the reference
      for what the loop of ToWordList leaves. */
  function Collapse(s: Str): Str
    decreases |s|
  {
    if |s| < 2 then s
    else if s[0] == Space && s[1] == Space then Collapse(s[1..])
    else [s[0]] + Collapse(s[1..])
  }

  lemma CollapseCons(c: Char16, x: Str)
    ensures Collapse([c] + x)
      == if c == Space && |x| > 0 && x[0] == Space then Collapse(x) else [c] + Collapse(x)
  {
    assert ([c] + x)[1..] == x;
    if |x| == 0 {
      assert [c] + x == [c] + Collapse(x);
    }
  }

  /** Collapse keeps the first and the last character. */
  lemma {:induction false} CollapseEnds(s: Str)
    requires |s| > 0
    ensures |Collapse(s)| > 0
    ensures Collapse(s)[0] == s[0]
    ensures Collapse(s)[|Collapse(s)| - 1] == s[|s| - 1]
    decreases |s|
  {
    if |s| >= 2 {
      CollapseEnds(s[1..]);
    }
  }

  /** Nothing is left to collapse after Collapse. */
  lemma {:induction false} CollapseNoDouble(s: Str)
    ensures !HasDoubleSpace(Collapse(s))
    decreases |s|
  {
    if |s| >= 2 {
      CollapseNoDouble(s[1..]);
      CollapseEnds(s[1..]);
      if !(s[0] == Space && s[1] == Space) {
        var rest := Collapse(s[1..]);
        var r := [s[0]] + rest;
        forall i | 0 <= i < |r| - 1
          ensures !(r[i] == Space && r[i + 1] == Space)
        {
          if i > 0 {
            assert r[i] == rest[i - 1] && r[i + 1] == rest[i];
          }
        }
      }
    }
  }

  /** A string without two spaces in a row is its own Collapse. */
  lemma {:induction false} CollapseFixed(s: Str)
    requires !HasDoubleSpace(s)
    ensures Collapse(s) == s
    decreases |s|
  {
    if |s| >= 2 {
      assert !(s[0] == Space && s[1] == Space);
      assert !HasDoubleSpace(s[1..]) by {
        forall i | 0 <= i < |s| - 2
          ensures !(s[1..][i] == Space && s[1..][i + 1] == Space)
        {
          assert s[1..][i] == s[i + 1] && s[1..][i + 1] == s[i + 2];
        }
      }
      CollapseFixed(s[1..]);
      assert [s[0]] + s[1..] == s;
    }
  }

  /** The first character of Replace(s, "  ", " ") is a space exactly when
      the first of `s` is. */
  lemma ReplaceDoubleSpaceHead(s: Str)
    requires |s| > 0
    ensures |Replace(s, DoubleSpace, [Space])| > 0
    ensures (Replace(s, DoubleSpace, [Space])[0] == Space) <==> (s[0] == Space)
  {
  }

  /** Replace(s, "  ", " ") does not change what Collapse gives. */
  lemma {:induction false} CollapseReplace(s: Str)
    ensures Collapse(Replace(s, DoubleSpace, [Space])) == Collapse(s)
    decreases |s|
  {
    if |s| >= 2 {
      if s[..2] == DoubleSpace {
        var x := s[2..];
        var r := Replace(x, DoubleSpace, [Space]);
        CollapseReplace(x);
        CollapseCons(Space, r);
        CollapseCons(Space, x);
        assert s[1..] == [Space] + x;
        if |x| > 0 {
          ReplaceDoubleSpaceHead(x);
        } else {
          assert r == x;
        }
      } else {
        var x := s[1..];
        var r := Replace(x, DoubleSpace, [Space]);
        CollapseReplace(x);
        CollapseCons(s[0], r);
        CollapseCons(s[0], x);
        ReplaceDoubleSpaceHead(x);
        assert [s[0]] + x == s;
        assert s[0] == Space ==> s[1] != Space;
      }
    }
  }

  /** Replace(s, "  ", " ") never lengthens `s`, and shortens it when it
      holds two spaces in a row. */
  lemma {:induction false} ReplaceDoubleSpaceShrinks(s: Str)
    ensures |Replace(s, DoubleSpace, [Space])| <= |s|
    ensures HasDoubleSpace(s) ==> |Replace(s, DoubleSpace, [Space])| < |s|
    decreases |s|
  {
    if |s| >= 2 {
      if s[..2] == DoubleSpace {
        ReplaceDoubleSpaceShrinks(s[2..]);
      } else {
        ReplaceDoubleSpaceShrinks(s[1..]);
        if HasDoubleSpace(s) {
          var i :| 0 <= i < |s| - 1 && s[i] == Space && s[i + 1] == Space;
          assert i > 0;
          assert s[1..][i - 1] == Space && s[1..][i] == Space;
        }
      }
    }
  }

  /** The pieces of a split on spaces are all non-empty when the string
      has no two spaces in a row and does not end with a space; the first
      one too when it does not start with one. */
  lemma {:induction false} SplitWords(s: Str)
    requires !HasDoubleSpace(s)
    requires |s| > 0 ==> s[|s| - 1] != Space
    ensures forall k :: 1 <= k < |Split(s, Space)| ==> Split(s, Space)[k] != []
    ensures |s| > 0 && s[0] != Space ==> Split(s, Space)[0] != []
    decreases |s|
  {
    if |s| > 0 {
      var x := s[1..];
      assert !HasDoubleSpace(x) by {
        forall i | 0 <= i < |x| - 1
          ensures !(x[i] == Space && x[i + 1] == Space)
        {
          assert x[i] == s[i + 1] && x[i + 1] == s[i + 2];
        }
      }
      SplitWords(x);
      if s[0] == Space {
        assert |s| >= 2 && s[1] != Space;
      }
    }
  }

  /** The words ToWordList returns: none for a blank string, otherwise the
      trimmed string with its runs of spaces collapsed, split on spaces. */
  function WordList(value: Option<Str>): seq<Str>
  {
    if IsNullOrTrimmedEmpty(value) then [] else Split(Collapse(Trim(value.value)), Space)
  }

  /** A blank string has no words; otherwise every word is non-empty and
      holds no space, and the words joined by single spaces give the
      trimmed string with its runs of spaces collapsed. */
  lemma WordListShape(value: Option<Str>)
    ensures IsNullOrTrimmedEmpty(value) <==> WordList(value) == []
    ensures forall k :: 0 <= k < |WordList(value)| ==> WordList(value)[k] != [] && Space !in WordList(value)[k]
    ensures !IsNullOrTrimmedEmpty(value) ==> Join(WordList(value), [Space]) == Collapse(Trim(value.value))
  {
    if !IsNullOrTrimmedEmpty(value) {
      var t := Trim(value.value);
      TrimWhereShape(value.value, IsWhiteSpace);
      var c := Collapse(t);
      CollapseEnds(t);
      CollapseNoDouble(t);
      SplitWords(c);
      SplitPiecesFree(c, Space);
      JoinSplit(c, Space);
    }
  }

  /** ToWordList: trims, replaces "  " by " " while there is one, and
      splits on spaces. */
  method ToWordList(value: Option<Str>) returns (words: seq<Str>)
    ensures words == WordList(value)
  {
    if IsNullOrTrimmedEmpty(value) {
      return [];
    }
    var working := Trim(value.value);
    while HasDoubleSpace(working)
      invariant Collapse(working) == Collapse(Trim(value.value))
      decreases |working|
    {
      ReplaceDoubleSpaceShrinks(working);
      CollapseReplace(working);
      working := Replace(working, DoubleSpace, [Space]);
    }
    CollapseFixed(working);
    words := Split(working, Space);
  }

  // ---------------------------------------------------------------------
  // EllipsisWordsAt and EllipsisAt
  // ---------------------------------------------------------------------

  const Ellipsis: Str := [Period, Period, Period]

  /** The words the loop of EllipsisWordsAt collects: it takes words while
      the count has not reached zero, and adds "..." when it reaches zero
      with words left. */
  function TakeWords(words: seq<Str>, count: int): (r: seq<Str>)
    ensures 0 <= count < |words| ==> r == words[..count] + [Ellipsis]
    ensures !(0 <= count < |words|) ==> r == words
    decreases |words|
  {
    if |words| == 0 then []
    else if count == 0 then [Ellipsis]
    else
      var rest := TakeWords(words[1..], count - 1);
      assert [words[0]] + words[1..] == words;
      assert 0 < count < |words| ==> [words[0]] + words[1..][..count - 1] == words[..count];
      [words[0]] + rest
  }

  /** One turn of EllipsisWordsAt's loop that takes a word. */
  lemma TakeWordsStep(taken: seq<Str>, words: seq<Str>, count: int)
    requires |words| > 0 && count != 0
    ensures taken + TakeWords(words, count)
      == (taken + [words[0]]) + TakeWords(RemoveFirst(words, words[0]), count - 1)
  {
    var rest := TakeWords(words[1..], count - 1);
    assert TakeWords(words, count) == [words[0]] + rest;
    assert (taken + [words[0]]) + rest == taken + ([words[0]] + rest);
  }

  /** EllipsisWordsAt: the first `wordCount` words joined by spaces, and
      "..." after them when words remain. */
  method EllipsisWordsAt(input: Option<Str>, wordCount: int) returns (r: Option<Str>)
    ensures IsNullOrEmpty(input) ==> r == input
    ensures !IsNullOrEmpty(input) ==> r == Some(Join(TakeWords(WordList(input), wordCount), [Space]))
  {
    if IsNullOrEmpty(input) {
      return input;
    }
    var wordList := ToWordList(input);
    ghost var words := wordList;
    var result: seq<Str> := [];
    var count := wordCount;
    while true
      invariant result + TakeWords(wordList, count) == TakeWords(words, wordCount)
      decreases |wordList|
    {
      if |wordList| == 0 {
        assert result + [] == result;
        break;
      }
      var word := wordList[0];
      if count == 0 {
        result := result + [Ellipsis];
        break;
      }
      TakeWordsStep(result, wordList, count);
      result := result + [word];
      wordList := RemoveFirst(wordList, word);
      count := count - 1;
    }
    r := Some(Join(result, [Space]));
  }

  const Continuation: Str := [Space, Period, Period, Period]

  /** Position `k` of `s` holds its last space. */
  predicate LastSpaceAt(s: Str, k: int)
  {
    0 <= k < |s| && s[k] == Space && forall j :: k < j < |s| ==> s[j] != Space
  }

  /** EllipsisAt: the input when it is at most `length` long; otherwise its
      first max(1, length - 4) characters cut at their last space, or at
      `length` when they hold none, followed by " ...". Substring throws
      when a cut falls outside the string. */
  function EllipsisAt(input: Option<Str>, length: Int32): (r: Outcome<Option<Str>>)
    ensures IsNullOrEmpty(input) || |input.value| <= length ==> r == Returns(input)
    ensures !IsNullOrEmpty(input) && 0 <= length < |input.value| ==>
      r.Returns? && r.value.Some? && |r.value.value| >= |Continuation|
    ensures !IsNullOrEmpty(input) && 0 <= length < |input.value| ==>
      var v, k, cut := input.value, |r.value.value| - |Continuation|, Max(1, length - 4);
      cut <= |v| && k <= cut && r.value.value == v[..k] + Continuation
      && (Space in v[..cut] ==> LastSpaceAt(v[..cut], k))
      && (Space !in v[..cut] ==> k == Min(length, cut))
    ensures !IsNullOrEmpty(input) && 5 <= length < |input.value| ==> |r.value.value| <= length
    ensures !IsNullOrEmpty(input) && -0x8000_0000 + 4 <= length < 0 ==>
      (r.Throws? <==> input.value[0] != Space)
    ensures !IsNullOrEmpty(input) && length < -0x8000_0000 + 4 && |input.value| < 0x7FFF_FFFC ==>
      r == Throws(ArgumentOutOfRange)
  {
    if IsNullOrEmpty(input) || |input.value| <= length then Returns(input)
    else
      var v := input.value;
      var cut := Max(1, Wrap32(length - 4));
      if cut > |v| then Throws(ArgumentOutOfRange)
      else
        var result := v[..cut];
        var space := LastIndexOf(result, Space);
        var lastSpace := if space == -1 then Min(length, |result|) else space;
        if lastSpace < 0 then Throws(ArgumentOutOfRange)
        else Returns(Some(result[..lastSpace] + Continuation))
  }

  // ---------------------------------------------------------------------
  // RemoveIllegalXmlChar
  // ---------------------------------------------------------------------

  /** The Char production of section 2.2 of XML 1.0, applied to one UTF-16
      code unit, as the source writes it; its last range starts above the
      largest code unit and can never hold. */
  predicate IsXmlChar(c: Char16)
  {
    c == 0x9 || c == 0xA || c == 0xD || (0x20 <= c <= 0xD7FF) || (0xE000 <= c <= 0xFFFD)
    || (0x10000 <= c <= 0x10FFFF)
  }

  /** The code units of `s` that are XML characters on their own, in
      order: what RemoveIllegalXmlChar builds. */
  function XmlChars(s: Str): (r: Str)
    ensures |r| <= |s|
    ensures forall i :: 0 <= i < |r| ==> IsXmlChar(r[i])
  {
    if |s| == 0 then []
    else XmlChars(s[..|s| - 1]) + (if IsXmlChar(s[|s| - 1]) then [s[|s| - 1]] else [])
  }

  /** The filter works piece by piece, so it keeps the order. */
  lemma {:induction false} XmlCharsAppend(a: Str, b: Str)
    ensures XmlChars(a + b) == XmlChars(a) + XmlChars(b)
    decreases |b|
  {
    if |b| == 0 {
      assert a + b == a;
    } else {
      var init, last := b[..|b| - 1], b[|b| - 1];
      XmlCharsAppend(a, init);
      var ab := a + b;
      assert ab[..|ab| - 1] == a + init && ab[|ab| - 1] == last;
      var tail := if IsXmlChar(last) then [last] else [];
      assert XmlChars(ab) == XmlChars(a + init) + tail;
      assert XmlChars(b) == XmlChars(init) + tail;
      var xa, xi := XmlChars(a), XmlChars(init);
      assert (xa + xi) + tail == xa + (xi + tail);
    }
  }

  /** Each XML character occurs in the result as often as in the input;
      every other code unit, the surrogates among them, does not occur. */
  lemma {:induction false} XmlCharsCount(s: Str, c: Char16)
    ensures Count(XmlChars(s), c) == if IsXmlChar(c) then Count(s, c) else 0
    decreases |s|
  {
    if |s| > 0 {
      var init, last := s[..|s| - 1], s[|s| - 1];
      XmlCharsCount(init, c);
      assert s == init + [last];
      CountAppend(init, [last], c);
      CountAppend(XmlChars(init), if IsXmlChar(last) then [last] else [], c);
    }
  }

  /** A string of XML characters is kept whole. */
  lemma {:induction false} XmlCharsKeeps(s: Str)
    requires forall i :: 0 <= i < |s| ==> IsXmlChar(s[i])
    ensures XmlChars(s) == s
    decreases |s|
  {
    if |s| > 0 {
      XmlCharsKeeps(s[..|s| - 1]);
    }
  }

  /** Cleaning twice is cleaning once. */
  lemma XmlCharsIdempotent(s: Str)
    ensures XmlChars(XmlChars(s)) == XmlChars(s)
  {
    XmlCharsKeeps(XmlChars(s));
  }

  /** RemoveIllegalXmlChar: null for null, otherwise the code units that
      are XML characters, appended one by one. */
  method RemoveIllegalXmlChar(input: Option<Str>) returns (r: Option<Str>)
    ensures input.None? ==> r.None?
    ensures input.Some? ==> r == Some(XmlChars(input.value))
  {
    if input.None? {
      return input;
    }
    var v := input.value;
    var result: Str := [];
    for i := 0 to |v|
      invariant result == XmlChars(v[..i])
    {
      assert v[..i + 1][..i] == v[..i];
      var character := v[i];
      if IsXmlChar(character) {
        result := result + [character];
      } else {
        assert result + [] == result;
      }
    }
    assert v[..|v|] == v;
    r := Some(result);
  }

  predicate IsHighSurrogate(c: Char16)
  {
    0xD800 <= c <= 0xDBFF
  }

  predicate IsLowSurrogate(c: Char16)
  {
    0xDC00 <= c <= 0xDFFF
  }

  /** XML text in UTF-16: each code unit is an XML character by itself or
      half of a surrogate pair, which encodes one of the XML characters
      from U+10000 to U+10FFFF. */
  predicate IsXmlText(s: Str)
    decreases |s|
  {
    |s| == 0
    || (IsXmlChar(s[0]) && IsXmlText(s[1..]))
    || (|s| >= 2 && IsHighSurrogate(s[0]) && IsLowSurrogate(s[1]) && IsXmlText(s[2..]))
  }

  /** RemoveIllegalXmlChar as evidently intended by its range from
      U+10000: surrogate pairs are kept, lone surrogates and the other
      illegal code units are dropped. */
  function XmlText(s: Str): (r: Str)
    ensures IsXmlText(r)
    ensures |r| <= |s|
    decreases |s|
  {
    if |s| == 0 then []
    else if |s| >= 2 && IsHighSurrogate(s[0]) && IsLowSurrogate(s[1]) then
      var rest := XmlText(s[2..]);
      assert (s[..2] + rest)[2..] == rest;
      s[..2] + rest
    else if IsXmlChar(s[0]) then
      var rest := XmlText(s[1..]);
      assert ([s[0]] + rest)[1..] == rest;
      [s[0]] + rest
    else XmlText(s[1..])
  }

  /** XML text goes through unchanged. */
  lemma {:induction false} XmlTextKeeps(s: Str)
    requires IsXmlText(s)
    ensures XmlText(s) == s
    decreases |s|
  {
    if |s| > 0 {
      if |s| >= 2 && IsHighSurrogate(s[0]) && IsLowSurrogate(s[1]) {
        assert !IsXmlChar(s[0]);
        XmlTextKeeps(s[2..]);
        assert s[..2] + s[2..] == s;
      } else {
        XmlTextKeeps(s[1..]);
        assert [s[0]] + s[1..] == s;
      }
    }
  }

  lemma XmlCharsCons(c: Char16, t: Str)
    ensures XmlChars([c] + t) == (if IsXmlChar(c) then [c] else []) + XmlChars(t)
  {
    XmlCharsAppend([c], t);
    assert [c][..0] == [];
  }

  /** Without surrogates the two filters agree. */
  lemma {:induction false} XmlTextAgrees(s: Str)
    requires forall i :: 0 <= i < |s| ==> !IsHighSurrogate(s[i])
    ensures XmlText(s) == XmlChars(s)
    decreases |s|
  {
    if |s| > 0 {
      var c, t := s[0], s[1..];
      assert !IsHighSurrogate(c);
      assert XmlText(s) == (if IsXmlChar(c) then [c] else []) + XmlText(t);
      XmlTextAgrees(t);
      assert s == [c] + t;
      XmlCharsCons(c, t);
    }
  }

  /** The discrepancy: U+1F600, the surrogate pair D83D DE00, is XML text,
      and RemoveIllegalXmlChar as written removes both halves of it. */
  lemma XmlCharsDropsPair()
    ensures var s: Str := [0xD83D, 0xDE00];
      IsXmlText(s) && XmlChars(s) == [] && XmlText(s) == s
  {
    var s: Str := [0xD83D, 0xDE00];
    assert s[2..] == [];
    assert s[..1] == [0xD83D];
    assert IsXmlText(s);
    XmlTextKeeps(s);
  }

  // ---------------------------------------------------------------------
  // AccentLess
  // ---------------------------------------------------------------------

  /** The 67-character table of accented characters, written as three runs:
      Š Œ Ž š œ ž Ÿ ¢ µ, then À to Ý, then à to ö and ù to ý. */
  const AccentSpecials: Str := [0x160, 0x152, 0x17D, 0x161, 0x153, 0x17E, 0x178, 0xA2, 0xB5]
  const AccentUpper: Str := [0xC0, 0xC1, 0xC2, 0xC3, 0xC4, 0xC5, 0xC6, 0xC7, 0xC8, 0xC9, 0xCA, 0xCB, 0xCC, 0xCD, 0xCE, 0xCF, 0xD0, 0xD1, 0xD2, 0xD3, 0xD4, 0xD5, 0xD6, 0xD7, 0xD8, 0xD9, 0xDA, 0xDB, 0xDC, 0xDD]
  const AccentLower: Str := [0xE0, 0xE1, 0xE2, 0xE3, 0xE4, 0xE5, 0xE6, 0xE7, 0xE8, 0xE9, 0xEA, 0xEB, 0xEC, 0xED, 0xEE, 0xEF, 0xF0, 0xF1, 0xF2, 0xF3, 0xF4, 0xF5, 0xF6, 0xF9, 0xFA, 0xFB, 0xFC, 0xFD]
  const Accent: Str := AccentSpecials + AccentUpper + AccentLower

  /** The replacement at the same positions: "SOZsozYcu",
      "AAAAAAACEEEEIIIIDNOOOOOxOUUUUY", "aaaaaaaceeeeiiiionooooouuuuy". */
  const PlainSpecials: Str := [0x53, 0x4F, 0x5A, 0x73, 0x6F, 0x7A, 0x59, 0x63, 0x75]
  const PlainUpper: Str := [0x41, 0x41, 0x41, 0x41, 0x41, 0x41, 0x41, 0x43, 0x45, 0x45, 0x45, 0x45, 0x49, 0x49, 0x49, 0x49, 0x44, 0x4E, 0x4F, 0x4F, 0x4F, 0x4F, 0x4F, 0x78, 0x4F, 0x55, 0x55, 0x55, 0x55, 0x59]
  const PlainLower: Str := [0x61, 0x61, 0x61, 0x61, 0x61, 0x61, 0x61, 0x63, 0x65, 0x65, 0x65, 0x65, 0x69, 0x69, 0x69, 0x69, 0x6F, 0x6E, 0x6F, 0x6F, 0x6F, 0x6F, 0x6F, 0x75, 0x75, 0x75, 0x75, 0x79]
  const Plain: Str := PlainSpecials + PlainUpper + PlainLower

  lemma IncreasingDistinct(s: Str)
    requires forall k :: 0 <= k < |s| - 1 ==> s[k] < s[k + 1]
    ensures forall i, j :: 0 <= i < j < |s| ==> s[i] < s[j]
  {
    forall i, j | 0 <= i < j < |s|
      ensures s[i] < s[j]
    {
      var m := i;
      while m < j
        invariant i <= m <= j && s[i] <= s[m]
        invariant m > i ==> s[i] < s[m]
      {
        m := m + 1;
      }
    }
  }

  lemma AccentSpecialsFacts()
    ensures forall k :: 0 <= k < |AccentSpecials| ==> 0x80 <= AccentSpecials[k] && (AccentSpecials[k] < 0xC0 || AccentSpecials[k] > 0xFD)
    ensures forall i, j :: 0 <= i < j < |AccentSpecials| ==> AccentSpecials[i] != AccentSpecials[j]
  {
  }

  lemma AccentUpperFacts()
    ensures forall k :: 0 <= k < |AccentUpper| ==> 0xC0 <= AccentUpper[k] <= 0xDD
    ensures forall i, j :: 0 <= i < j < |AccentUpper| ==> AccentUpper[i] < AccentUpper[j]
  {
    assert forall k :: 0 <= k < |AccentUpper| - 1 ==> AccentUpper[k] < AccentUpper[k + 1];
    IncreasingDistinct(AccentUpper);
  }

  lemma AccentLowerFacts()
    ensures forall k :: 0 <= k < |AccentLower| ==> 0xE0 <= AccentLower[k] <= 0xFD
    ensures forall i, j :: 0 <= i < j < |AccentLower| ==> AccentLower[i] < AccentLower[j]
  {
    assert forall k :: 0 <= k < |AccentLower| - 1 ==> AccentLower[k] < AccentLower[k + 1];
    IncreasingDistinct(AccentLower);
  }

  lemma PlainFacts()
    ensures |Plain| == 67
    ensures forall k :: 0 <= k < |Plain| ==> Plain[k] < 0x80
  {
    assert forall k :: 0 <= k < |PlainSpecials| ==> PlainSpecials[k] < 0x80;
    assert forall k :: 0 <= k < |PlainUpper| ==> PlainUpper[k] < 0x80;
    assert forall k :: 0 <= k < |PlainLower| ==> PlainLower[k] < 0x80;
  }

  /** The position of `k` in its run of the table. */
  lemma AccentAt(k: int)
    requires 0 <= k < |Accent|
    ensures k < 9 ==> Accent[k] == AccentSpecials[k]
    ensures 9 <= k < 39 ==> Accent[k] == AccentUpper[k - 9]
    ensures 39 <= k ==> Accent[k] == AccentLower[k - 39]
  {
  }

  /** The two tables have the same length, the accented characters are
      all outside ASCII and pairwise different, and their replacements are
      all ASCII. */
  lemma AccentTable()
    ensures |Accent| == |Plain| == 67
    ensures forall k :: 0 <= k < |Accent| ==> Accent[k] >= 0x80
    ensures forall k :: 0 <= k < |Plain| ==> Plain[k] < 0x80
    ensures forall i, j :: 0 <= i < j < |Accent| ==> Accent[i] != Accent[j]
  {
    AccentSpecialsFacts();
    AccentUpperFacts();
    AccentLowerFacts();
    PlainFacts();
    forall k | 0 <= k < |Accent|
      ensures Accent[k] >= 0x80
    {
      AccentAt(k);
    }
    forall i, j | 0 <= i < j < |Accent|
      ensures Accent[i] != Accent[j]
    {
      AccentAt(i);
      AccentAt(j);
    }
  }

  /** The character AccentLess leaves in place of `c`: the replacement of
      its first position in the table, or `c` itself. */
  function Unaccented(c: Char16): Char16
  {
    AccentTable();
    var k := IndexOf(Accent, c);
    if k == -1 then c else Plain[k]
  }

  /** The same, after the loop has applied the first `n` table entries. */
  function PartlyUnaccented(c: Char16, n: int): Char16
  {
    AccentTable();
    var k := IndexOf(Accent, c);
    if 0 <= k < n then Plain[k] else c
  }

  /** One pass of the loop: Replace(Accent[i], Plain[i]) turns the
      characters left after `i` entries into those left after `i + 1`. */
  lemma AccentStep(c: Char16, i: int)
    requires 0 <= i < |Accent|
    ensures PartlyUnaccented(c, i + 1)
      == if PartlyUnaccented(c, i) == Accent[i] then Plain[i] else PartlyUnaccented(c, i)
  {
    AccentTable();
    var k := IndexOf(Accent, c);
    if c == Accent[i] && !(0 <= k < i) {
      assert Accent[i] in Accent;
    }
  }

  /** AccentLess: for each table entry present in the string, every
      occurrence is replaced by the entry's replacement; a null string
      throws. */
  method AccentLess(input: Option<Str>) returns (r: Outcome<Str>)
    ensures input.None? ==> r == Throws(NullReference)
    ensures input.Some? ==> r.Returns? && |r.value| == |input.value|
    ensures input.Some? ==> forall j :: 0 <= j < |input.value| ==> r.value[j] == Unaccented(input.value[j])
  {
    if input.None? {
      return Throws(NullReference);
    }
    AccentTable();
    var s := input.value;
    for i := 0 to |Accent|
      invariant |s| == |input.value|
      invariant forall j :: 0 <= j < |s| ==> s[j] == PartlyUnaccented(input.value[j], i)
    {
      forall j | 0 <= j < |s|
        ensures PartlyUnaccented(input.value[j], i + 1) == if s[j] == Accent[i] then Plain[i] else s[j]
      {
        AccentStep(input.value[j], i);
      }
      if IndexOf(s, Accent[i]) > -1 {
        s := ReplaceChar(s, Accent[i], Plain[i]);
      }
    }
    r := Returns(s);
  }

  /** Each character of the table becomes the one at the same position of
      the replacement table; every other character stays. */
  lemma UnaccentedTable(c: Char16)
    ensures forall i :: 0 <= i < |Accent| ==> Unaccented(Accent[i]) == Plain[i]
    ensures c !in Accent ==> Unaccented(c) == c
  {
    AccentTable();
    forall i | 0 <= i < |Accent|
      ensures Unaccented(Accent[i]) == Plain[i]
    {
      assert Accent[i] in Accent;
    }
  }

  /** Removing accents twice is removing them once. */
  lemma UnaccentedIdempotent(c: Char16)
    ensures Unaccented(Unaccented(c)) == Unaccented(c)
  {
    AccentTable();
    var d := Unaccented(c);
    if d != c {
      assert d < 0x80;
      assert d !in Accent;
    }
  }
}
