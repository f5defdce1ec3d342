/** The string helpers added to String.prototype: prefix and suffix removal,
    once or repeatedly, and the camel-case / kebab-case rewrites. Strings
    are sequences of chars; case mapping is ASCII only. */
module Strings {

  // ---------------------------------------------------------------------
  // ASCII classes and case mapping
  // ---------------------------------------------------------------------

  predicate IsLower(c: char) { 'a' <= c <= 'z' }
  predicate IsUpper(c: char) { 'A' <= c <= 'Z' }
  predicate IsDigit(c: char) { '0' <= c <= '9' }

  function UpperChar(c: char): (u: char)
    ensures IsLower(c) ==> IsUpper(u) && LowerChar(u) == c
    ensures !IsLower(c) ==> u == c
  {
    if IsLower(c) then (c as int - 32) as char else c
  }

  function LowerChar(c: char): (l: char)
    ensures IsUpper(c) ==> IsLower(l)
    ensures !IsUpper(c) ==> l == c
  {
    if IsUpper(c) then (c as int + 32) as char else c
  }

  /** String.prototype.toLowerCase restricted to ASCII. */
  function ToLower(s: string): (r: string)
    ensures |r| == |s|
  {
    if |s| == 0 then [] else [LowerChar(s[0])] + ToLower(s[1..])
  }

  /** Each character of toLowerCase is the lowercase of the character at
      the same place. */
  lemma {:induction false} ToLowerAt(s: string)
    ensures forall i :: 0 <= i < |s| ==> ToLower(s)[i] == LowerChar(s[i])
  {
    if |s| > 0 {
      ToLowerAt(s[1..]);
    }
  }

  /** toLowerCase leaves no uppercase letter and keeps every other one. */
  lemma ToLowerProperties(s: string)
    ensures forall i :: 0 <= i < |s| ==> !IsUpper(ToLower(s)[i])
    ensures (forall i :: 0 <= i < |s| ==> !IsUpper(s[i])) ==> ToLower(s) == s
  {
    ToLowerAt(s);
  }

  lemma {:induction false} ToLowerAppend(a: string, b: string)
    ensures ToLower(a + b) == ToLower(a) + ToLower(b)
  {
    if |a| == 0 {
      assert a + b == b;
    } else {
      assert (a + b)[0] == a[0];
      assert (a + b)[1..] == a[1..] + b;
      ToLowerAppend(a[1..], b);
    }
  }

  /** String.prototype.toUpperCase restricted to ASCII. */
  function ToUpper(s: string): (r: string)
    ensures |r| == |s|
  {
    if |s| == 0 then [] else [UpperChar(s[0])] + ToUpper(s[1..])
  }

  /** Each character of toUpperCase is the uppercase of the character at
      the same place. */
  lemma {:induction false} ToUpperAt(s: string)
    ensures forall i :: 0 <= i < |s| ==> ToUpper(s)[i] == UpperChar(s[i])
  {
    if |s| > 0 {
      ToUpperAt(s[1..]);
    }
  }

  /** toUpperCase leaves no lowercase letter. */
  lemma {:induction false} ToUpperHasNoLower(s: string)
    ensures forall i :: 0 <= i < |s| ==> !IsLower(ToUpper(s)[i])
  {
    if |s| > 0 {
      ToUpperHasNoLower(s[1..]);
    }
  }

  // ---------------------------------------------------------------------
  // Array.prototype.join and splitting at one character
  // ---------------------------------------------------------------------

  /** parts.join(sep). */
  function JoinWith(parts: seq<string>, sep: string): string
    decreases |parts|
  {
    if |parts| == 0 then ""
    else if |parts| == 1 then parts[0]
    else parts[0] + sep + JoinWith(parts[1..], sep)
  }

  /** s cut at every occurrence of c; the inverse of joining with c. */
  function SplitOn(s: string, c: char): (parts: seq<string>)
    ensures |parts| > 0
    decreases |s|
  {
    if |s| == 0 then [""]
    else if s[0] == c then [""] + SplitOn(s[1..], c)
    else
      var rest := SplitOn(s[1..], c);
      [[s[0]] + rest[0]] + rest[1..]
  }

  /** A part without c is one piece, and a c after it starts the next. */
  lemma {:induction false} SplitOnPart(p: string, c: char, t: string)
    requires c !in p
    ensures SplitOn(p, c) == [p]
    ensures SplitOn(p + [c] + t, c) == [p] + SplitOn(t, c)
  {
    if |p| == 0 {
      assert p + [c] + t == [c] + t;
      assert ([c] + t)[1..] == t;
    } else {
      SplitOnPart(p[1..], c, t);
      assert (p + [c] + t)[1..] == p[1..] + [c] + t;
      assert [p[0]] + p[1..] == p;
    }
  }

  /** Splitting at c undoes joining with c when no part holds c. */
  lemma {:induction false} SplitOnJoinWith(parts: seq<string>, c: char)
    requires |parts| > 0
    requires forall k :: 0 <= k < |parts| ==> c !in parts[k]
    ensures SplitOn(JoinWith(parts, [c]), c) == parts
    decreases |parts|
  {
    if |parts| == 1 {
      SplitOnPart(parts[0], c, []);
    } else {
      SplitOnJoinWith(parts[1..], c);
      SplitOnPart(parts[0], c, JoinWith(parts[1..], [c]));
      assert parts == [parts[0]] + parts[1..];
    }
  }

  // ---------------------------------------------------------------------
  // startsWith / endsWith / slice
  // ---------------------------------------------------------------------

  predicate StartsWith(s: string, p: string)
  {
    |p| <= |s| && s[..|p|] == p
  }

  predicate EndsWith(s: string, p: string)
  {
    |p| <= |s| && s[|s| - |p|..] == p
  }

  /** A slice index as String.prototype.slice reads it: negative counts
      from the end, then clamped to [0, n]. */
  function SliceIndex(i: int, n: nat): (k: nat)
    ensures k <= n
    ensures 0 <= i <= n ==> k == i
    ensures -(n as int) <= i < 0 ==> k == n + i
  {
    if i < 0 then (if n + i < 0 then 0 else n + i)
    else if i > n then n
    else i
  }

  /** String.prototype.slice(start, end). */
  function Slice(s: string, start: int, end: int): (r: string)
    ensures |r| <= |s|
    ensures 0 <= start <= end <= |s| ==> r == s[start..end]
  {
    var from := SliceIndex(start, |s|);
    var to := SliceIndex(end, |s|);
    if from < to then s[from..to] else []
  }

  /** slice(0, -n) drops the last n characters only when n > 0; slice(0, -0)
      is slice(0, 0). */
  lemma SliceDropsLast(s: string, n: nat)
    requires n <= |s|
    ensures 0 < n ==> Slice(s, 0, -(n as int)) == s[..|s| - n]
    ensures n == 0 ==> Slice(s, 0, -(n as int)) == []
  {
  }

  // ---------------------------------------------------------------------
  // removePrefix / removeSuffix
  // ---------------------------------------------------------------------

  /** removePrefix: the rest after prefix when s starts with it, else s. */
  function RemovePrefix(s: string, prefix: string): (r: string)
    ensures StartsWith(s, prefix) ==> s == prefix + r
    ensures !StartsWith(s, prefix) ==> r == s
  {
    if StartsWith(s, prefix) then Slice(s, |prefix|, |s|) else s
  }

  /** removeSuffix as written: slice(0, -suffix.length) when s ends with
      suffix, else s. */
  function RemoveSuffixAsWritten(s: string, suffix: string): (r: string)
    ensures |suffix| > 0 && EndsWith(s, suffix) ==> s == r + suffix
    ensures !EndsWith(s, suffix) ==> r == s
    ensures |suffix| == 0 ==> r == ""
  {
    if EndsWith(s, suffix) then Slice(s, 0, -(|suffix| as int)) else s
  }

  /** Every string ends with "", and removing "" as written empties it. */
  lemma RemoveEmptySuffixAsWritten(s: string)
    ensures EndsWith(s, "")
    ensures RemoveSuffixAsWritten(s, "") == ""
    ensures RemoveSuffixAsWritten("abc", "") != "abc"
  {
    assert EndsWith("abc", "");
  }

  /** removeSuffix as documented: the part before suffix when s ends with
      it, else s. */
  function RemoveSuffix(s: string, suffix: string): (r: string)
    ensures EndsWith(s, suffix) ==> s == r + suffix
    ensures !EndsWith(s, suffix) ==> r == s
    ensures |suffix| == 0 ==> r == s
  {
    if EndsWith(s, suffix) then s[..|s| - |suffix|] else s
  }

  /** The two agree whenever the suffix is non-empty. */
  lemma RemoveSuffixAgrees(s: string, suffix: string)
    requires |suffix| > 0
    ensures RemoveSuffixAsWritten(s, suffix) == RemoveSuffix(s, suffix)
  {
    if EndsWith(s, suffix) {
      SliceDropsLast(s, |suffix|);
    }
  }

  // ---------------------------------------------------------------------
  // removeAllPrefixes / removeAllSuffixes
  // ---------------------------------------------------------------------

  /** p repeated k times. */
  function Repeat(p: string, k: nat): (r: string)
    ensures |r| == k * |p|
  {
    if k == 0 then [] else p + Repeat(p, k - 1)
  }

  lemma {:induction false} RepeatSnoc(p: string, k: nat)
    ensures Repeat(p, k) + p == Repeat(p, k + 1)
  {
    if k > 0 {
      RepeatSnoc(p, k - 1);
      assert Repeat(p, k) + p == p + (Repeat(p, k - 1) + p);
    }
  }

  /** What removeAllPrefixes returns: s without its leading run of
      prefixes; s itself when prefix is empty. */
  function StrippedPrefixes(s: string, prefix: string): (r: string)
    ensures |prefix| == 0 ==> r == s
    ensures |prefix| > 0 ==> !StartsWith(r, prefix)
    decreases |s|
  {
    if |prefix| == 0 || !StartsWith(s, prefix) then s
    else StrippedPrefixes(s[|prefix|..], prefix)
  }

  /** How many prefixes the removal strips. */
  function PrefixRun(s: string, prefix: string): nat
    decreases |s|
  {
    if |prefix| == 0 || !StartsWith(s, prefix) then 0
    else 1 + PrefixRun(s[|prefix|..], prefix)
  }

  /** s is the stripped prefixes followed by what is left. */
  lemma {:induction false} StrippedPrefixesSplit(s: string, prefix: string)
    ensures s == Repeat(prefix, PrefixRun(s, prefix)) + StrippedPrefixes(s, prefix)
    decreases |s|
  {
    if |prefix| > 0 && StartsWith(s, prefix) {
      StrippedPrefixesSplit(s[|prefix|..], prefix);
      assert s == prefix + s[|prefix|..];
    }
  }

  /** The decomposition is unique: if s is k copies of prefix followed by a
      rest that does not start with prefix, the removal returns that rest. */
  lemma {:induction false} StrippedPrefixesUnique(s: string, prefix: string, k: nat, rest: string)
    requires |prefix| > 0
    requires s == Repeat(prefix, k) + rest
    requires !StartsWith(rest, prefix)
    ensures StrippedPrefixes(s, prefix) == rest
    decreases k
  {
    if k > 0 {
      assert s == prefix + (Repeat(prefix, k - 1) + rest);
      assert s[..|prefix|] == prefix;
      assert s[|prefix|..] == Repeat(prefix, k - 1) + rest;
      StrippedPrefixesUnique(s[|prefix|..], prefix, k - 1, rest);
    }
  }

  lemma StrippedPrefixesIdempotent(s: string, prefix: string)
    ensures StrippedPrefixes(StrippedPrefixes(s, prefix), prefix) == StrippedPrefixes(s, prefix)
  {
  }

  /** removeAllPrefixes: returns s for an empty prefix, otherwise strips
      prefixes while the string starts with one. */
  method RemoveAllPrefixes(s: string, prefix: string) returns (r: string)
    ensures r == StrippedPrefixes(s, prefix)
  {
    if |prefix| == 0 {
      return s;
    }
    var str := s;
    while StartsWith(str, prefix)
      invariant StrippedPrefixes(str, prefix) == StrippedPrefixes(s, prefix)
      decreases |str|
    {
      assert str[|prefix|..|str|] == str[|prefix|..];
      str := Slice(str, |prefix|, |str|);
    }
    return str;
  }

  /** What removeAllSuffixes returns: s without its trailing run of
      suffixes; s itself when suffix is empty. */
  function StrippedSuffixes(s: string, suffix: string): (r: string)
    ensures |suffix| == 0 ==> r == s
    ensures |suffix| > 0 ==> !EndsWith(r, suffix)
    decreases |s|
  {
    if |suffix| == 0 || !EndsWith(s, suffix) then s
    else StrippedSuffixes(s[..|s| - |suffix|], suffix)
  }

  function SuffixRun(s: string, suffix: string): nat
    decreases |s|
  {
    if |suffix| == 0 || !EndsWith(s, suffix) then 0
    else 1 + SuffixRun(s[..|s| - |suffix|], suffix)
  }

  lemma {:induction false} StrippedSuffixesSplit(s: string, suffix: string)
    ensures s == StrippedSuffixes(s, suffix) + Repeat(suffix, SuffixRun(s, suffix))
    decreases |s|
  {
    if |suffix| > 0 && EndsWith(s, suffix) {
      var s' := s[..|s| - |suffix|];
      StrippedSuffixesSplit(s', suffix);
      RepeatSnoc(suffix, SuffixRun(s', suffix));
      assert s == s' + suffix;
    }
  }

  lemma {:induction false} StrippedSuffixesUnique(s: string, suffix: string, k: nat, rest: string)
    requires |suffix| > 0
    requires s == rest + Repeat(suffix, k)
    requires !EndsWith(rest, suffix)
    ensures StrippedSuffixes(s, suffix) == rest
    decreases k
  {
    if k > 0 {
      RepeatSnoc(suffix, k - 1);
      assert s == (rest + Repeat(suffix, k - 1)) + suffix;
      assert s[|s| - |suffix|..] == suffix;
      assert s[..|s| - |suffix|] == rest + Repeat(suffix, k - 1);
      StrippedSuffixesUnique(s[..|s| - |suffix|], suffix, k - 1, rest);
    }
  }

  lemma StrippedSuffixesIdempotent(s: string, suffix: string)
    ensures StrippedSuffixes(StrippedSuffixes(s, suffix), suffix) == StrippedSuffixes(s, suffix)
  {
  }

  /** removeAllSuffixes: returns s for an empty suffix, otherwise strips
      suffixes with slice(0, -suffix.length) while the string ends with
      one. */
  method RemoveAllSuffixes(s: string, suffix: string) returns (r: string)
    ensures r == StrippedSuffixes(s, suffix)
  {
    if |suffix| == 0 {
      return s;
    }
    var str := s;
    while EndsWith(str, suffix)
      invariant StrippedSuffixes(str, suffix) == StrippedSuffixes(s, suffix)
      decreases |str|
    {
      SliceDropsLast(str, |suffix|);
      str := Slice(str, 0, -(|suffix| as int));
    }
    return str;
  }

  // ---------------------------------------------------------------------
  // toCamelCase: every "-" followed by a-z becomes that letter uppercased,
  // matches taken left to right without overlap
  // ---------------------------------------------------------------------

  /** A "-" at i directly followed by a lowercase letter. */
  predicate DashLowerAt(s: string, i: int)
  {
    0 <= i && i + 1 < |s| && s[i] == '-' && IsLower(s[i + 1])
  }

  function ToCamelCase(s: string): (r: string)
    ensures (forall i :: !DashLowerAt(s, i)) ==> r == s
    ensures forall i :: !DashLowerAt(r, i)
    ensures |s| > 0 ==> |r| > 0 && (IsLower(r[0]) <==> IsLower(s[0]))
    decreases |s|
  {
    if |s| == 0 then []
    else if DashLowerAt(s, 0) then
      assert forall i :: DashLowerAt(s[2..], i) ==> DashLowerAt(s, i + 2);
      var rest := ToCamelCase(s[2..]);
      assert forall i :: DashLowerAt([UpperChar(s[1])] + rest, i) ==> 1 <= i && DashLowerAt(rest, i - 1);
      [UpperChar(s[1])] + rest
    else
      assert forall i :: DashLowerAt(s[1..], i) ==> DashLowerAt(s, i + 1);
      var rest := ToCamelCase(s[1..]);
      assert forall i :: DashLowerAt([s[0]] + rest, i) ==> 1 <= i && DashLowerAt(rest, i - 1);
      [s[0]] + rest
  }

  /** toCamelCase leaves its own output unchanged. */
  lemma ToCamelCaseIdempotent(s: string)
    ensures ToCamelCase(ToCamelCase(s)) == ToCamelCase(s)
  {
  }

  // ---------------------------------------------------------------------
  // toKebabCase: "-" between each [a-z0-9][A-Z] pair (left to right, no
  // overlap), then lowercase everything
  // ---------------------------------------------------------------------

  predicate IsLowerOrDigit(c: char) { IsLower(c) || IsDigit(c) }

  /** A boundary the kebab-case pattern matches at i. */
  predicate BoundaryAt(s: string, i: int)
  {
    0 <= i && i + 1 < |s| && IsLowerOrDigit(s[i]) && IsUpper(s[i + 1])
  }

  function HyphenateBoundaries(s: string): (r: string)
    ensures (forall i :: 0 <= i < |s| ==> !IsUpper(s[i])) ==> r == s
    decreases |s|
  {
    if |s| == 0 then []
    else if BoundaryAt(s, 0) then [s[0], '-', s[1]] + HyphenateBoundaries(s[2..])
    else [s[0]] + HyphenateBoundaries(s[1..])
  }

  function ToKebabCase(s: string): (r: string)
    ensures forall i :: 0 <= i < |r| ==> !IsUpper(r[i])
    ensures (forall i :: 0 <= i < |s| ==> !IsUpper(s[i])) ==> r == s
  {
    ToLowerProperties(HyphenateBoundaries(s));
    ToLower(HyphenateBoundaries(s))
  }

  /** A camel-case word: no "-", and every uppercase letter directly
      follows a lowercase letter or a digit. */
  predicate CamelWord(s: string)
  {
    && (forall i :: 0 <= i < |s| ==> s[i] != '-')
    && (forall i :: 0 <= i < |s| && IsUpper(s[i]) ==> 0 < i && IsLowerOrDigit(s[i - 1]))
  }

  lemma CaseInverse(c: char)
    requires IsUpper(c)
    ensures UpperChar(LowerChar(c)) == c
  {
  }

  lemma ToLowerTriple(a: char, b: char, c: char)
    ensures ToLower([a, b, c]) == [LowerChar(a), LowerChar(b), LowerChar(c)]
  {
    assert [a, b, c][1..] == [b, c];
    assert [b, c][1..] == [c];
    assert [c][1..] == [];
    assert ToLower([c]) == [LowerChar(c)];
    assert ToLower([b, c]) == [LowerChar(b)] + ToLower([c]);
    assert ToLower([a, b, c]) == [LowerChar(a)] + ToLower([b, c]);
  }

  lemma CamelKeeps(c: char, k: string)
    requires c != '-'
    ensures ToCamelCase([c] + k) == [c] + ToCamelCase(k)
  {
    assert ([c] + k)[1..] == k;
  }

  lemma CamelJoins(u: char, k: string)
    requires IsLower(u)
    ensures ToCamelCase(['-', u] + k) == [UpperChar(u)] + ToCamelCase(k)
  {
    assert (['-', u] + k)[2..] == k;
  }

  /** Dropping the first n characters of a camel-case word leaves one, when
      the new first character is not uppercase. */
  lemma CamelWordTail(s: string, n: nat)
    requires CamelWord(s) && n < |s|
    requires !IsUpper(s[n])
    ensures CamelWord(s[n..])
  {
    var t := s[n..];
    forall i | 0 <= i < |t| && IsUpper(t[i])
      ensures 0 < i && IsLowerOrDigit(t[i - 1])
    {
      assert IsUpper(s[i + n]);
    }
  }

  /** toCamelCase undoes toKebabCase on camel-case words. */
  lemma {:induction false} CamelKebabRoundTrip(s: string)
    requires CamelWord(s)
    ensures ToCamelCase(ToKebabCase(s)) == s
    decreases |s|
  {
    if |s| == 0 {
    } else if BoundaryAt(s, 0) {
      if |s| > 2 {
        CamelWordTail(s, 2);
      }
      CamelKebabRoundTrip(s[2..]);
      RoundTripAtBoundary(s);
    } else {
      if |s| > 1 {
        assert !IsUpper(s[1]);
        CamelWordTail(s, 1);
      }
      CamelKebabRoundTrip(s[1..]);
      RoundTripPlain(s);
    }
  }

  lemma HyphenateAtBoundary(a: char, b: char, t: string)
    requires IsLowerOrDigit(a) && IsUpper(b)
    ensures HyphenateBoundaries([a, b] + t) == [a, '-', b] + HyphenateBoundaries(t)
  {
    assert ([a, b] + t)[2..] == t;
  }

  lemma KebabAtBoundary(a: char, b: char, t: string)
    requires IsLowerOrDigit(a) && IsUpper(b)
    ensures ToKebabCase([a, b] + t) == [a] + (['-', LowerChar(b)] + ToKebabCase(t))
  {
    HyphenateAtBoundary(a, b, t);
    ToLowerAppend([a, '-', b], HyphenateBoundaries(t));
    ToLowerTriple(a, '-', b);
    assert [LowerChar(a), LowerChar('-'), LowerChar(b)] + ToKebabCase(t)
        == [a] + (['-', LowerChar(b)] + ToKebabCase(t));
  }

  lemma KebabPlain(s: string)
    requires |s| > 0 && !BoundaryAt(s, 0) && !IsUpper(s[0])
    ensures ToKebabCase(s) == [s[0]] + ToKebabCase(s[1..])
  {
    assert HyphenateBoundaries(s) == [s[0]] + HyphenateBoundaries(s[1..]);
    ToLowerAppend([s[0]], HyphenateBoundaries(s[1..]));
    assert ToLower([s[0]]) == [s[0]];
  }

  lemma RoundTripAtBoundary(s: string)
    requires BoundaryAt(s, 0)
    requires ToCamelCase(ToKebabCase(s[2..])) == s[2..]
    ensures ToCamelCase(ToKebabCase(s)) == s
  {
    var k := ToKebabCase(s[2..]);
    assert s == [s[0], s[1]] + s[2..];
    KebabAtBoundary(s[0], s[1], s[2..]);
    CamelJoins(LowerChar(s[1]), k);
    CaseInverse(s[1]);
    CamelKeeps(s[0], ['-', LowerChar(s[1])] + k);
    assert s == [s[0]] + ([s[1]] + s[2..]);
  }

  lemma RoundTripPlain(s: string)
    requires |s| > 0 && !BoundaryAt(s, 0)
    requires s[0] != '-' && !IsUpper(s[0])
    requires ToCamelCase(ToKebabCase(s[1..])) == s[1..]
    ensures ToCamelCase(ToKebabCase(s)) == s
  {
    KebabPlain(s);
    CamelKeeps(s[0], ToKebabCase(s[1..]));
    assert s == [s[0]] + s[1..];
  }
}
