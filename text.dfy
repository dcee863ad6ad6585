/** The System.String operations that the extension methods are built on,
    stated over UTF-16 code units: a .NET string is a sequence of 16-bit
    `char` values, lone surrogates included. */
module Text {

  /** One UTF-16 code unit, the value of a .NET `char`. */
  type Char16 = c: int | 0 <= c < 0x1_0000

  /** A non-null .NET string. */
  type Str = seq<Char16>

  const Tab: Char16 := 0x09
  const LineFeed: Char16 := 0x0A
  const CarriageReturn: Char16 := 0x0D
  const Space: Char16 := 0x20
  const NumberSign: Char16 := 0x23    // '#'
  const Ampersand: Char16 := 0x26     // '&'
  const Comma: Char16 := 0x2C         // ','
  const Minus: Char16 := 0x2D         // '-'
  const Period: Char16 := 0x2E        // '.'
  const Digit0: Char16 := 0x30        // '0'
  const EqualsSign: Char16 := 0x3D    // '='
  const QuestionMark: Char16 := 0x3F  // '?'

  // ---------------------------------------------------------------------
  // Case folding (ASCII letters only)
  // ---------------------------------------------------------------------

  function ToLowerChar(c: Char16): Char16
  {
    if 0x41 <= c <= 0x5A then c + 0x20 else c
  }

  /** String.ToLower, restricted to the ASCII letters. */
  function ToLower(s: Str): Str
  {
    seq(|s|, i requires 0 <= i < |s| => ToLowerChar(s[i]))
  }

  /** String.Equals(a, b, InvariantCultureIgnoreCase), restricted to ASCII. */
  predicate EqualsIgnoreCase(a: Str, b: Str)
  {
    ToLower(a) == ToLower(b)
  }

  lemma ToLowerIdempotent(s: Str)
    ensures ToLower(ToLower(s)) == ToLower(s)
  {
  }

  // ---------------------------------------------------------------------
  // Searching and counting
  // ---------------------------------------------------------------------

  /** String.IndexOf(char), and IList<T>.IndexOf: the first position of
      `c`, or -1. */
  function IndexOf<T(==)>(s: seq<T>, c: T): (i: int)
    ensures -1 <= i < |s|
    ensures i == -1 <==> c !in s
    ensures 0 <= i ==> s[i] == c && c !in s[..i]
  {
    if |s| == 0 then -1
    else if s[0] == c then 0
    else
      var j := IndexOf(s[1..], c);
      assert s[1..][..(if j < 0 then 0 else j)] == s[1..1 + (if j < 0 then 0 else j)];
      if j == -1 then -1 else j + 1
  }

  /** String.LastIndexOf(char): the last position of `c`, or -1. */
  function LastIndexOf(s: Str, c: Char16): (i: int)
    ensures -1 <= i < |s|
    ensures i == -1 <==> c !in s
    ensures 0 <= i ==> s[i] == c
    ensures forall k :: i < k < |s| ==> s[k] != c
  {
    if |s| == 0 then -1
    else if s[|s| - 1] == c then |s| - 1
    else LastIndexOf(s[..|s| - 1], c)
  }

  /** The number of occurrences of `c` in `s`. */
  function Count(s: Str, c: Char16): nat
  {
    if |s| == 0 then 0 else (if s[0] == c then 1 else 0) + Count(s[1..], c)
  }

  lemma CountAppend(a: Str, b: Str, c: Char16)
    ensures Count(a + b, c) == Count(a, c) + Count(b, c)
  {
    if |a| > 0 {
      assert (a + b)[1..] == a[1..] + b;
      CountAppend(a[1..], b, c);
    } else {
      assert a + b == b;
    }
  }

  /** The characters of `s` other than `c`, in order. */
  function Without(s: Str, c: Char16): (r: Str)
    ensures c !in r
    ensures forall x :: x in r ==> x in s
    ensures |r| == |s| - Count(s, c)
  {
    if |s| == 0 then [] else (if s[0] == c then [] else [s[0]]) + Without(s[1..], c)
  }

  // ---------------------------------------------------------------------
  // Trim
  // ---------------------------------------------------------------------

  /** Char.IsWhiteSpace: the Unicode separators (Zs, Zl, Zp), U+0009 to
      U+000D and U+0085. String.Trim() removes exactly these. */
  predicate IsWhiteSpace(c: Char16)
  {
    (0x09 <= c <= 0x0D) || c == 0x20 || c == 0x85 || c == 0xA0 || c == 0x1680
    || (0x2000 <= c <= 0x200A) || c == 0x2028 || c == 0x2029 || c == 0x202F
    || c == 0x205F || c == 0x3000
  }

  /** The number of leading characters that satisfy `p`. */
  function Leading(s: Str, p: Char16 -> bool): (n: nat)
    ensures n <= |s|
    ensures forall i :: 0 <= i < n ==> p(s[i])
    ensures n < |s| ==> !p(s[n])
  {
    if |s| > 0 && p(s[0]) then 1 + Leading(s[1..], p) else 0
  }

  /** The number of trailing characters that satisfy `p`. */
  function Trailing(s: Str, p: Char16 -> bool): (n: nat)
    ensures n <= |s|
    ensures forall i :: |s| - n <= i < |s| ==> p(s[i])
    ensures n < |s| ==> !p(s[|s| - 1 - n])
  {
    if |s| > 0 && p(s[|s| - 1]) then 1 + Trailing(s[..|s| - 1], p) else 0
  }

  /** String.Trim(chars): `s` without its leading and trailing characters
      that satisfy `p`. */
  function TrimWhere(s: Str, p: Char16 -> bool): Str
  {
    var t := s[Leading(s, p)..];
    t[..|t| - Trailing(t, p)]
  }

  /** String.Trim(). */
  function Trim(s: Str): Str
  {
    TrimWhere(s, IsWhiteSpace)
  }

  /** Trimming leaves nothing exactly when every character is trimmed, and
      otherwise a slice of `s` that starts and ends with a kept character. */
  lemma TrimWhereShape(s: Str, p: Char16 -> bool)
    ensures TrimWhere(s, p) == [] <==> forall i :: 0 <= i < |s| ==> p(s[i])
    ensures TrimWhere(s, p) != [] ==>
      var t := TrimWhere(s, p);
      !p(t[0]) && !p(t[|t| - 1])
      && exists a, b :: 0 <= a <= b <= |s| && t == s[a..b]
  {
    var n := Leading(s, p);
    var t := s[n..];
    var m := Trailing(t, p);
    if n == |s| {
      assert forall i :: 0 <= i < |s| ==> p(s[i]);
    } else {
      assert !p(s[n]) && t[0] == s[n];
      assert m < |t|;
      assert !(forall i :: 0 <= i < |s| ==> p(s[i]));
      assert TrimWhere(s, p) == s[n..n + |t| - m];
    }
  }

  // ---------------------------------------------------------------------
  // Split and Join
  // ---------------------------------------------------------------------

  /** String.Split(char): every piece, empty ones included, read one
      character at a time. */
  function Split(s: Str, sep: Char16): (parts: seq<Str>)
    ensures |parts| >= 1
  {
    if |s| == 0 then [[]]
    else
      var rest := Split(s[1..], sep);
      if s[0] == sep then [[]] + rest
      else [[s[0]] + rest[0]] + rest[1..]
  }

  /** String.Join(sep, parts). */
  function Join(parts: seq<Str>, sep: Str): Str
  {
    if |parts| == 0 then []
    else if |parts| == 1 then parts[0]
    else parts[0] + sep + Join(parts[1..], sep)
  }

  lemma JoinAppend(parts: seq<Str>, p: Str, sep: Str)
    requires |parts| >= 1
    ensures Join(parts + [p], sep) == Join(parts, sep) + sep + p
  {
    if |parts| == 1 {
      assert parts + [p] == [parts[0], p];
    } else {
      assert (parts + [p])[1..] == parts[1..] + [p];
      JoinAppend(parts[1..], p, sep);
    }
  }

  /** Extending the first piece extends the join at its front. */
  lemma JoinExtendFirst(parts: seq<Str>, c: Char16, sep: Str)
    requires |parts| >= 1
    ensures Join([[c] + parts[0]] + parts[1..], sep) == [c] + Join(parts, sep)
  {
    var q := [[c] + parts[0]] + parts[1..];
    assert q[1..] == parts[1..];
  }

  /** No piece of a split holds the separator. */
  lemma {:induction false} SplitPiecesFree(s: Str, sep: Char16)
    ensures forall k :: 0 <= k < |Split(s, sep)| ==> sep !in Split(s, sep)[k]
    decreases |s|
  {
    if |s| > 0 {
      SplitPiecesFree(s[1..], sep);
    }
  }

  /** A string without the separator is a single piece. */
  lemma {:induction false} SplitNoSeparator(s: Str, sep: Char16)
    requires sep !in s
    ensures Split(s, sep) == [s]
    decreases |s|
  {
    if |s| > 0 {
      assert sep !in s[1..];
      SplitNoSeparator(s[1..], sep);
      assert [s[0]] + s[1..] == s;
    }
  }

  /** Splitting at any one separator splits the two sides apart. */
  lemma {:induction false} SplitAt(s: Str, sep: Char16, i: nat)
    requires i < |s| && s[i] == sep
    ensures Split(s, sep) == Split(s[..i], sep) + Split(s[i + 1..], sep)
  {
    if i == 0 {
      assert s[..0] == [];
    } else {
      SplitAt(s[1..], sep, i - 1);
      SplitAtStep(s, sep, i);
    }
  }

  /** The pieces of `[c] + t` from the pieces of `t`: a separator opens a
      new empty piece, any other code unit joins the first one. */
  function Prepend(c: Char16, parts: seq<Str>, sep: Char16): seq<Str>
    requires |parts| >= 1
  {
    if c == sep then [[]] + parts else [[c] + parts[0]] + parts[1..]
  }

  lemma PrependAppend(c: Char16, p: seq<Str>, q: seq<Str>, sep: Char16)
    requires |p| >= 1
    ensures Prepend(c, p + q, sep) == Prepend(c, p, sep) + q
  {
    if c != sep {
      assert (p + q)[0] == p[0];
      assert (p + q)[1..] == p[1..] + q;
    }
  }

  /** The inductive step of SplitAt: the split of `s[1..]` at `i - 1`
      extends to the split of `s` at `i`. */
  lemma SplitAtStep(s: Str, sep: Char16, i: nat)
    requires 0 < i < |s| && s[i] == sep
    requires Split(s[1..], sep) == Split(s[1..][..i - 1], sep) + Split(s[1..][i..], sep)
    ensures Split(s, sep) == Split(s[..i], sep) + Split(s[i + 1..], sep)
  {
    var head := s[..i];
    assert s[1..][..i - 1] == head[1..] && s[1..][i..] == s[i + 1..];
    assert head[0] == s[0];
    var p, q := Split(head[1..], sep), Split(s[i + 1..], sep);
    assert Split(s, sep) == Prepend(s[0], p + q, sep);
    assert Split(head, sep) == Prepend(s[0], p, sep);
    PrependAppend(s[0], p, q, sep);
  }

  lemma SplitConcat(x: Str, y: Str, sep: Char16)
    ensures Split(x + [sep] + y, sep) == Split(x, sep) + Split(y, sep)
  {
    var s := x + [sep] + y;
    SplitAt(s, sep, |x|);
    assert s[..|x|] == x && s[|x| + 1..] == y;
  }

  /** A split at the first separator. */
  lemma SplitUnfold(s: Str, sep: Char16, i: int)
    requires 0 <= i < |s| && s[i] == sep && sep !in s[..i]
    ensures Split(s, sep) == [s[..i]] + Split(s[i + 1..], sep)
  {
    SplitAt(s, sep, i);
    SplitNoSeparator(s[..i], sep);
  }

  /** Joining the pieces of a split gives back the string. */
  lemma {:induction false} JoinSplit(s: Str, sep: Char16)
    ensures Join(Split(s, sep), [sep]) == s
    decreases |s|
  {
    if |s| > 0 {
      var rest := Split(s[1..], sep);
      JoinSplit(s[1..], sep);
      if s[0] == sep {
        assert ([[]] + rest)[1..] == rest;
      } else {
        JoinExtendFirst(rest, s[0], [sep]);
      }
      assert [s[0]] + s[1..] == s;
    }
  }

  /** Splitting a join of separator-free pieces gives back the pieces. */
  lemma {:induction false} SplitJoin(parts: seq<Str>, sep: Char16)
    requires |parts| >= 1
    requires forall k :: 0 <= k < |parts| ==> sep !in parts[k]
    ensures Split(Join(parts, [sep]), sep) == parts
  {
    if |parts| == 1 {
      SplitNoSeparator(parts[0], sep);
    } else {
      var tail := parts[1..];
      assert forall k :: 0 <= k < |tail| ==> tail[k] == parts[k + 1];
      SplitJoin(tail, sep);
      var rest := Join(tail, [sep]);
      assert Join(parts, [sep]) == parts[0] + [sep] + rest;
      SplitConcat(parts[0], rest, sep);
      SplitNoSeparator(parts[0], sep);
      assert [parts[0]] + tail == parts;
    }
  }

  /** A string splits into one more piece than it has separators. */
  lemma {:induction false} SplitCount(s: Str, sep: Char16)
    ensures |Split(s, sep)| == Count(s, sep) + 1
    decreases |s|
  {
    if |s| > 0 {
      SplitCount(s[1..], sep);
    }
  }

  lemma CountAbsent(s: Str, c: Char16)
    requires c !in s
    ensures Count(s, c) == 0
  {
    if |s| > 0 {
      assert c !in s[1..];
      CountAbsent(s[1..], c);
    }
  }

  lemma {:induction false} CountPresent(s: Str, c: Char16)
    requires c in s
    ensures Count(s, c) > 0
    decreases |s|
  {
    if s[0] != c {
      assert c in s[1..];
      CountPresent(s[1..], c);
    }
  }

  /** Every character of a piece of a split comes from the string. */
  lemma {:induction false} SplitChars(s: Str, sep: Char16)
    ensures forall k, x :: 0 <= k < |Split(s, sep)| && x in Split(s, sep)[k] ==> x in s
    decreases |s|
  {
    if |s| > 0 {
      SplitChars(s[1..], sep);
      assert forall x :: x in s[1..] ==> x in s;
    }
  }

  // ---------------------------------------------------------------------
  // Replace
  // ---------------------------------------------------------------------

  /** String.Replace(oldValue, newValue): an ordinal left-to-right scan that replaces
      each non-overlapping occurrence of `pat` by `rep` (which .NET requires to be
      non-empty). */
  function Replace(s: Str, pat: Str, rep: Str): Str
    requires |pat| > 0
    decreases |s|
  {
    if |s| < |pat| then s
    else if s[..|pat|] == pat then rep + Replace(s[|pat|..], pat, rep)
    else [s[0]] + Replace(s[1..], pat, rep)
  }

  /** A code unit other than the first of `pat` is copied as it is. */
  lemma ReplaceStep(s: Str, pat: Str, rep: Str)
    requires |pat| > 0 && |s| > 0 && s[0] != pat[0]
    ensures Replace(s, pat, rep) == [s[0]] + Replace(s[1..], pat, rep)
  {
    if |s| < |pat| {
      ReplaceShort(s[1..], pat, rep);
      assert [s[0]] + s[1..] == s;
    } else {
      assert s[..|pat|][0] != pat[0];
    }
  }

  /** No occurrence can start inside a prefix that lacks the first
      character of `pat`. */
  lemma {:induction false} ReplaceSkip(x: Str, y: Str, pat: Str, rep: Str)
    requires |pat| > 0 && pat[0] !in x
    ensures Replace(x + y, pat, rep) == x + Replace(y, pat, rep)
    decreases |x|
  {
    if |x| > 0 {
      var s := x + y;
      assert s[0] == x[0] && s[1..] == x[1..] + y;
      ReplaceStep(s, pat, rep);
      ReplaceSkip(x[1..], y, pat, rep);
      var r := Replace(y, pat, rep);
      assert [x[0]] + (x[1..] + r) == ([x[0]] + x[1..]) + r;
      assert [x[0]] + x[1..] == x;
    } else {
      assert x + y == y;
    }
  }

  lemma ReplaceShort(s: Str, pat: Str, rep: Str)
    requires 0 < |pat| && |s| < |pat|
    ensures Replace(s, pat, rep) == s
  {
  }

  lemma ReplaceAbsent(s: Str, pat: Str, rep: Str)
    requires |pat| > 0 && pat[0] !in s
    ensures Replace(s, pat, rep) == s
  {
    ReplaceSkip(s, [], pat, rep);
    assert s + [] == s;
  }

  /** `pat` followed by a string that cannot start an occurrence. */
  lemma ReplaceLeading(pat: Str, y: Str, rep: Str)
    requires |pat| > 0 && pat[0] !in y
    ensures Replace(pat + y, pat, rep) == rep + y
  {
    var s := pat + y;
    assert s[..|pat|] == pat && s[|pat|..] == y;
    ReplaceAbsent(y, pat, rep);
  }

  /** Replacing one character by nothing keeps the others, in order. */
  lemma {:induction false} ReplaceCharByNothing(s: Str, c: Char16)
    ensures Replace(s, [c], []) == Without(s, c)
    decreases |s|
  {
    if |s| > 0 {
      ReplaceCharByNothing(s[1..], c);
      if s[..1] == [c] {
        assert s[0] == c;
      } else {
        assert s[0] != c;
      }
    }
  }

  /** String.Replace(char, char). */
  function ReplaceChar(s: Str, oldChar: Char16, newChar: Char16): Str
  {
    seq(|s|, i requires 0 <= i < |s| => if s[i] == oldChar then newChar else s[i])
  }

  // ---------------------------------------------------------------------
  // Int32.ToString()
  // ---------------------------------------------------------------------

  /** The decimal digits of `n`, most significant first, no leading zero. */
  function Digits(n: nat): (r: Str)
    ensures |r| >= 1
    ensures forall i :: 0 <= i < |r| ==> Digit0 <= r[i] <= Digit0 + 9
  {
    if n < 10 then [Digit0 + n] else Digits(n / 10) + [Digit0 + n % 10]
  }

  /** Int32.ToString() with the invariant culture. */
  function DecimalString(n: int): Str
  {
    if n < 0 then [Minus] + Digits(-n) else Digits(n)
  }

  /** The value of a string of decimal digits. */
  function DigitsValue(s: Str): int
  {
    if |s| == 0 then 0 else DigitsValue(s[..|s| - 1]) * 10 + (s[|s| - 1] - Digit0)
  }

  /** Int32.Parse of a Int32.ToString() result. */
  function ParseDecimal(s: Str): int
  {
    if |s| > 0 && s[0] == Minus then -DigitsValue(s[1..]) else DigitsValue(s)
  }

  lemma {:induction false} DigitsRoundTrip(n: nat)
    ensures DigitsValue(Digits(n)) == n
  {
    if n >= 10 {
      DigitsRoundTrip(n / 10);
      var d := Digits(n / 10) + [Digit0 + n % 10];
      assert d[..|d| - 1] == Digits(n / 10);
    }
  }

  /** Reading back the decimal form of an integer gives the integer. */
  lemma DecimalRoundTrip(n: int)
    ensures |DecimalString(n)| >= 1
    ensures ParseDecimal(DecimalString(n)) == n
  {
    if n < 0 {
      DigitsRoundTrip(-n);
      assert ([Minus] + Digits(-n))[1..] == Digits(-n);
    } else {
      DigitsRoundTrip(n);
      assert Digits(n)[0] != Minus;
    }
  }

  // ---------------------------------------------------------------------
  // Int32 arithmetic
  // ---------------------------------------------------------------------

  /** The values of System.Int32. */
  type Int32 = x: int | -0x8000_0000 <= x < 0x8000_0000

  /** Unchecked Int32 arithmetic: the result wraps around modulo 2^32. */
  function Wrap32(x: int): (r: Int32)
    ensures -0x8000_0000 <= x < 0x8000_0000 ==> r == x
    ensures (r - x) % 0x1_0000_0000 == 0
  {
    (x + 0x8000_0000) % 0x1_0000_0000 - 0x8000_0000
  }

  /** Math.Min. */
  function Min(a: int, b: int): int
  {
    if a <= b then a else b
  }

  /** Math.Max. */
  function Max(a: int, b: int): int
  {
    if a >= b then a else b
  }
}
