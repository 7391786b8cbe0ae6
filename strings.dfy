/** The string functions of strings.js, over ECMAScript strings (sequences of
    UTF-16 code units). Functions whose source builds a regular expression from
    an argument are modelled for arguments without pattern metacharacters, where
    the pattern matches the argument literally. */
module Strings {
  import opened JsString

  datatype Option<T> = None | Some(value: T)

  // =====================================================================
  // Substring extraction: after, afterLast, before, beforeLast, between
  // =====================================================================

  /** after: the remainder following the first occurrence of `search`; the
      subject itself when it is empty or `search` does not occur. */
  function After(subject: Text, search: Text): (r: Text)
    ensures IsSuffix(r, subject)
    ensures subject == [] || !Occurs(subject, search) ==> r == subject
    ensures subject != [] && Occurs(subject, search) ==>
              |r| + |search| <= |subject| && FirstAt(subject, search, |subject| - |r| - |search|)
  {
    if subject == [] then subject
    else
      var index := IndexOf(subject, search);
      if index == -1 then subject else subject[index + |search|..]
  }

  /** The empty search string occurs at 0, so nothing is cut. */
  lemma AfterEmptySearch(subject: Text)
    ensures After(subject, []) == subject
  {
    assert OccursAt(subject, [], 0);
  }

  /** afterLast: the piece after the final separator of `split`. */
  function AfterLast(subject: Text, search: Text): (r: Text)
    ensures IsSuffix(r, subject)
    ensures subject == [] ==> r == []
    ensures subject != [] && search == [] ==> r == [subject[|subject| - 1]]
    ensures search != [] ==> !Occurs(r, search)
    ensures search != [] && !Occurs(subject, search) ==> r == subject
    ensures search != [] && Occurs(subject, search) ==>
              |r| + |search| <= |subject| && OccursAt(subject, search, |subject| - |r| - |search|)
  {
    if subject == [] then subject
    else
      var parts := Split(subject, search);
      if search == [] then LastOf(parts)
      else
        SplitLastSuffix(subject, search);
        SplitLastFree(subject, search);
        if Includes(subject, search) then SplitLastPreceded(subject, search); LastOf(parts)
        else LastOf(parts)
  }

  /** Matching is left to right without overlap: "aaa" split on "aa" is
      ["", "a"]. */
  lemma AfterLastNonOverlapping()
    ensures AfterLast(Lit("aaa"), Lit("aa")) == Lit("a")
  {
    var s, t := Lit("aaa"), Lit("aa");
    assert OccursAt(s, t, 0);
    assert IndexOf(s, t) == 0;
    SplitOnFound(s, t);
    assert s[2..] == Lit("a");
    assert IndexOf(s[2..], t) == -1;
    LastCons(s[..0], SplitOn(s[2..], t));
  }

  /** Cutting after the first occurrence leaves the last piece in place. */
  lemma AfterLastAfter(subject: Text, search: Text)
    ensures search != [] && Occurs(subject, search) ==>
              AfterLast(subject, search) == AfterLast(After(subject, search), search)
  {
    if search != [] && Occurs(subject, search) {
      var i := IndexOf(subject, search);
      var rest := subject[i + |search|..];
      SplitOnFound(subject, search);
      LastCons(subject[..i], SplitOn(rest, search));
      if |rest| == 0 {
        assert IndexOf(rest, search) == -1;
      }
    }
  }

  /** before: the text preceding the first occurrence of `search`. The
      source finds it with `search`, which compiles `search` into a pattern;
      for a literal pattern that is the position `indexOf` returns. */
  function Before(subject: Text, search: Text): (r: Text)
    requires IsLiteralPattern(search)
    ensures r <= subject
    ensures search == [] || !Occurs(subject, search) ==> r == subject
    ensures search != [] && Occurs(subject, search) ==> FirstAt(subject, search, |r|)
  {
    if search == [] then subject
    else if IndexOf(subject, search) == -1 then subject
    else Split(subject, search)[0]
  }

  /** beforeLast: the text preceding the last occurrence of `search`. */
  function BeforeLast(subject: Text, search: Text): (r: Text)
    ensures r <= subject
    ensures search == [] || !Occurs(subject, search) ==> r == subject
    ensures search != [] && Occurs(subject, search) ==> LastAt(subject, search, |r|)
  {
    if search == [] then subject
    else
      var index := LastIndexOf(subject, search);
      if index == -1 then subject else subject[..index]
  }

  /** between: the text after the first `from` and before the last `to`
      that follows it; always a contiguous part of the subject. */
  function Between(subject: Text, from: Text, to: Text): (r: Text)
    ensures from == [] || to == [] ==> r == subject
    ensures from != [] && to != [] ==> r == BeforeLast(After(subject, from), to)
    ensures Occurs(subject, r)
  {
    if from == [] || to == [] then
      assert OccursAt(subject, subject, 0);
      subject
    else
      var tail := After(subject, from);
      var r := BeforeLast(tail, to);
      var k := |subject| - |tail|;
      assert subject[k..k + |r|] == tail[..|r|];
      assert OccursAt(subject, r, k);
      r
  }

  // =====================================================================
  // Containment: arrayWrap, contains, containsAll, endsWith
  // =====================================================================

  /** A `needles` argument: a single string or an array of strings. */
  datatype Needles = One(needle: Text) | Many(list: seq<Text>)

  /** arrayWrap: an array stays as it is, the empty string (which is falsy)
      becomes no needles, any other string a single needle. */
  function ArrayWrap(value: Needles): (r: seq<Text>)
    ensures value.Many? ==> r == value.list
    ensures value.One? ==> |r| <= 1 && (r == [] <==> value.needle == [])
    ensures value.One? ==> forall n :: n in r ==> n == value.needle
  {
    match value
    case One(needle) => if needle == [] then [] else [needle]
    case Many(list) => list
  }

  /** The test of contains: some non-empty needle is part of the haystack. */
  function AnyFound(haystack: Text, needles: seq<Text>): (b: bool)
    ensures b <==> exists k :: 0 <= k < |needles| && needles[k] != [] && Occurs(haystack, needles[k])
  {
    exists k :: 0 <= k < |needles| && needles[k] != [] && Includes(haystack, needles[k])
  }

  /** contains: whether some non-empty needle occurs in the haystack. */
  method Contains(haystack: Text, needles: Needles) returns (found: bool)
    ensures found == AnyFound(haystack, ArrayWrap(needles))
  {
    var list := ArrayWrap(needles);
    for i := 0 to |list|
      invariant forall k :: 0 <= k < i ==> !(list[k] != [] && Includes(haystack, list[k]))
    {
      var needle := list[i];
      if needle != [] && Includes(haystack, needle) {
        return true;
      }
    }
    return false;
  }

  /** contains with a single needle: that needle is non-empty and occurs. */
  lemma ContainsOne(haystack: Text, needle: Text)
    ensures AnyFound(haystack, ArrayWrap(One(needle))) <==> needle != [] && Occurs(haystack, needle)
  {
    if needle != [] {
      assert ArrayWrap(One(needle))[0] == needle;
    }
  }

  /** The test of containsAll: contains holds for each needle on its own. */
  function AllFound(haystack: Text, needles: seq<Text>): (b: bool)
    ensures b <==> forall k :: 0 <= k < |needles| ==> needles[k] != [] && Occurs(haystack, needles[k])
  {
    assert forall k :: 0 <= k < |needles| ==>
      (AnyFound(haystack, ArrayWrap(One(needles[k]))) <==> needles[k] != [] && Occurs(haystack, needles[k])) by {
      forall k | 0 <= k < |needles| {
        ContainsOne(haystack, needles[k]);
      }
    }
    forall k :: 0 <= k < |needles| ==> AnyFound(haystack, ArrayWrap(One(needles[k])))
  }

  /** containsAll: whether every needle is non-empty and occurs. */
  method ContainsAll(haystack: Text, needles: seq<Text>) returns (all: bool)
    ensures all == AllFound(haystack, needles)
  {
    for i := 0 to |needles|
      invariant forall k :: 0 <= k < i ==> AnyFound(haystack, ArrayWrap(One(needles[k])))
    {
      var found := Contains(haystack, One(needles[i]));
      if !found {
        return false;
      }
    }
    return true;
  }

  /** The position `endsWith` compares up to: the given length, clamped to the
      haystack, or the whole haystack when no length is given. */
  function EndPosition(haystack: Text, length: Option<nat>): (e: nat)
    ensures e <= |haystack|
    ensures length.None? ==> e == |haystack|
  {
    if length.Some? && length.value < |haystack| then length.value else |haystack|
  }

  /** The test of endsWith: the haystack, cut to `length` units when given,
      ends with one of the needles. */
  function EndsWithAny(haystack: Text, needles: seq<Text>, length: Option<nat>): (b: bool)
    ensures b <==> exists k :: 0 <= k < |needles| && IsSuffix(needles[k], haystack[..EndPosition(haystack, length)])
  {
    exists k :: 0 <= k < |needles| && EndsWithBefore(haystack, needles[k], if length.Some? then length.value else |haystack|)
  }

  /** endsWith: whether the (cut) haystack ends with one of the needles. */
  method EndsWith(haystack: Text, needles: Needles, length: Option<nat>) returns (found: bool)
    ensures found == EndsWithAny(haystack, ArrayWrap(needles), length)
  {
    var list := ArrayWrap(needles);
    var end := if length.Some? then length.value else |haystack|;
    for i := 0 to |list|
      invariant forall k :: 0 <= k < i ==> !EndsWithBefore(haystack, list[k], end)
    {
      if EndsWithBefore(haystack, list[i], end) {
        return true;
      }
    }
    return false;
  }

  /** A bare empty needle is wrapped into no needles at all, while an array
      holding the empty needle matches every haystack. */
  lemma EndsWithEmptyNeedle(haystack: Text, length: Option<nat>)
    ensures !EndsWithAny(haystack, ArrayWrap(One([])), length)
    ensures EndsWithAny(haystack, ArrayWrap(Many([[]])), length)
  {
    var list := ArrayWrap(Many([[]]));
    assert list[0] == [] && IsSuffix(list[0], haystack[..EndPosition(haystack, length)]);
  }

  // =====================================================================
  // Capping, trimming, paths: finish, ltrim, dirname
  // =====================================================================

  /** x is `cap` repeated zero or more times. */
  predicate IsRepetition(x: Text, cap: Text)
    requires cap != []
    decreases |x|
  {
    x == [] || (IsSuffix(cap, x) && IsRepetition(x[..|x| - |cap|], cap))
  }

  /** Of two repetitions of `cap`, one a shorter suffix of the other, the
      longer one holds one more `cap` just before the shorter. */
  lemma {:induction false} RepetitionStep(x: Text, y: Text, cap: Text)
    requires cap != [] && IsRepetition(x, cap) && IsRepetition(y, cap)
    requires IsSuffix(y, x) && |y| < |x|
    ensures |y| + |cap| <= |x| && x[|x| - |y| - |cap|..|x| - |y|] == cap
    decreases |y|
  {
    if y != [] {
      var x', y' := x[..|x| - |cap|], y[..|y| - |cap|];
      assert x != [];
      assert |cap| <= |y| && |cap| <= |x|;
      assert y'[|y'| - |y'|..] == y'[..] by {
        assert x[|x| - |y|..] == y;
      }
      assert x'[|x'| - |y'|..] == y' by {
        assert x[|x| - |y|..|x| - |cap|] == y[..|y| - |cap|];
      }
      RepetitionStep(x', y', cap);
      assert x[|x| - |y| - |cap|..|x| - |y|] == x'[|x'| - |y'| - |cap|..|x'| - |y'|];
    }
  }

  /** The replacement of `(?:cap)+$` by "": the match starts at the leftmost
      position from which the rest of the value is a repetition of `cap`, so
      what is left is the value without its longest trailing run of `cap`. */
  function StripTrailing(value: Text, cap: Text): (r: Text)
    ensures r <= value
    ensures cap == [] ==> r == value
    ensures cap != [] ==> IsRepetition(value[|r|..], cap) && !IsSuffix(cap, r)
    ensures cap != [] ==> forall p :: 0 <= p < |r| ==> !IsRepetition(value[p..], cap)
    decreases |value|
  {
    if |cap| > 0 && IsSuffix(cap, value) then
      var y := value[..|value| - |cap|];
      var r := StripTrailing(y, cap);
      assert y + cap == value;
      StripStep(y, cap, r);
      r
    else if |cap| > 0 then
      assert value[|value|..] == [];
      LeftmostRun(value, cap, value);
      value
    else value
  }

  /** What is left of y once its trailing run is stripped is also what is
      left of y + cap. */
  lemma StripStep(y: Text, cap: Text, r: Text)
    requires cap != [] && r <= y && IsRepetition(y[|r|..], cap) && !IsSuffix(cap, r)
    ensures r <= y + cap && IsRepetition((y + cap)[|r|..], cap)
    ensures forall p :: 0 <= p < |r| ==> !IsRepetition((y + cap)[p..], cap)
  {
    DropConcat(y, cap, |r|);
    RepetitionExtend(y[|r|..], cap);
    LeftmostRun(y + cap, cap, r);
  }

  lemma DropConcat(y: Text, z: Text, k: nat)
    requires k <= |y|
    ensures (y + z)[k..] == y[k..] + z
  {
  }

  /** A repetition of `cap` followed by one more `cap` is a repetition. */
  lemma RepetitionExtend(y: Text, cap: Text)
    requires cap != [] && IsRepetition(y, cap)
    ensures IsRepetition(y + cap, cap)
  {
    var x := y + cap;
    assert x[..|x| - |cap|] == y && x[|x| - |cap|..] == cap;
  }

  lemma LeftmostRun(value: Text, cap: Text, r: Text)
    requires cap != [] && r <= value
    requires IsRepetition(value[|r|..], cap) && !IsSuffix(cap, r)
    ensures forall p :: 0 <= p < |r| ==> !IsRepetition(value[p..], cap)
  {
    forall p | 0 <= p < |r| && IsRepetition(value[p..], cap)
      ensures false
    {
      var x, y := value[p..], value[|r|..];
      assert x[|x| - |y|..] == y;
      RepetitionStep(x, y, cap);
    }
  }

  /** A text that ends in two caps once a cap is appended already ended in
      one. */
  lemma DoubleCap(x: Text, cap: Text)
    ensures IsSuffix(cap + cap, x + cap) ==> IsSuffix(cap, x)
  {
    if IsSuffix(cap + cap, x + cap) {
      var n := |x + cap|;
      assert (x + cap)[n - 2 * |cap|..n - |cap|] == x[|x| - |cap|..];
    }
  }

  /** finish: the value with its trailing run of `cap` replaced by a single
      `cap`. */
  function Finish(value: Text, cap: Text): (r: Text)
    requires IsLiteralUnicodePattern(cap)
    ensures cap == [] ==> r == value
    ensures cap != [] ==> IsSuffix(cap, r) && !IsSuffix(cap + cap, r)
    ensures cap != [] ==> r == StripTrailing(value, cap) + cap
  {
    var stripped := StripTrailing(value, cap);
    DoubleCap(stripped, cap);
    stripped + cap
  }

  /** Capping twice is capping once. */
  lemma FinishIdempotent(value: Text, cap: Text)
    requires IsLiteralUnicodePattern(cap)
    ensures Finish(Finish(value, cap), cap) == Finish(value, cap)
  {
    if cap != [] {
      var s := StripTrailing(value, cap);
      var once := s + cap;
      assert once[..|once| - |cap|] == s;
      assert StripTrailing(once, cap) == StripTrailing(s, cap);
    }
  }

  /** The value without its maximal leading run of `c`. */
  function DropLeading(s: Text, c: CodeUnit): (r: Text)
    ensures IsSuffix(r, s)
    ensures r == [] || r[0] != c
    ensures forall i :: 0 <= i < |s| - |r| ==> s[i] == c
    decreases |s|
  {
    if s != [] && s[0] == c then DropLeading(s[1..], c) else s
  }

  /** ltrim: the pattern `^characters+` repeats only the last unit of
      `characters`, so what is removed is a leading copy of all but the last
      unit followed by the longest run of the last unit. */
  function Ltrim(value: Text, characters: Text): (r: Text)
    requires characters != [] && IsLiteralPattern(characters)
    ensures IsSuffix(r, value)
    ensures var lead, last := characters[..|characters| - 1], characters[|characters| - 1];
              if lead <= value && |lead| < |value| && value[|lead|] == last then
                && |lead| < |value| - |r|
                && (forall i :: |lead| <= i < |value| - |r| ==> value[i] == last)
                && (r == [] || r[0] != last)
              else r == value
  {
    var lead, last := characters[..|characters| - 1], characters[|characters| - 1];
    if lead <= value && |lead| < |value| && value[|lead|] == last then
      DropLeading(value[|lead|..], last)
    else value
  }

  /** A run of the unit is removed in full: ltrim("//a", "/") is "a". */
  lemma LtrimExample()
    ensures Ltrim([0x2F, 0x2F, 0x61], [0x2F]) == [0x61]
  {
    var v: Text := [0x2F, 0x2F, 0x61];
    assert v[0..][1..] == [0x2F, 0x61];
    assert v[0..][1..][1..] == [0x61];
  }

  /** The path separator of the host. */
  const PathSep: Text := [0x2F]

  /** Joining the first k pieces of a split gives a prefix of the text, which
      is followed by a separator unless all pieces were taken. */
  lemma JoinPrefixOfSplit(s: Text, sep: Text, k: nat)
    requires sep != [] && k <= |SplitOn(s, sep)|
    ensures Join(SplitOn(s, sep)[..k], sep) <= s
    ensures 0 < k < |SplitOn(s, sep)| ==> OccursAt(s, sep, |Join(SplitOn(s, sep)[..k], sep)|)
  {
    JoinSplitOn(s, sep);
    if 0 < k < |SplitOn(s, sep)| {
      JoinAt(SplitOn(s, sep), sep, k);
      SeparatorAfter(Join(SplitOn(s, sep)[..k], sep), sep, Join(SplitOn(s, sep)[k..], sep));
    } else if k == |SplitOn(s, sep)| {
      assert SplitOn(s, sep)[..k] == SplitOn(s, sep);
    }
  }

  lemma SeparatorAfter(front: Text, sep: Text, back: Text)
    ensures front <= front + sep + back
    ensures OccursAt(front + sep + back, sep, |front|)
  {
    assert (front + sep + back)[|front|..|front| + |sep|] == sep;
  }

  /** dirname: the value split on the separator without its last `level`
      pieces, rejoined. A level beyond the number of pieces is a negative
      `slice` end, which counts back from the end once more. */
  function Dirname(value: Text, level: nat): (r: Text)
    ensures r <= value
    ensures level == 0 ==> r == value
    ensures r == [] || r == value || OccursAt(value, PathSep, |r|)
    ensures level > 0 && value != [] ==> |r| < |value|
  {
    var parts := Split(value, PathSep);
    var end := |parts| - level;
    var stop := if end >= 0 then end else if |parts| + end > 0 then |parts| + end else 0;
    JoinPrefixOfSplit(value, PathSep, stop);
    if stop == |parts| then
      JoinSplit(value, PathSep);
      assert parts[..stop] == parts;
      Join(parts[..stop], PathSep)
    else
      Join(parts[..stop], PathSep)
  }

  /** One level up is the text before the last separator, and nothing when
      there is no separator. */
  lemma DirnameParent(value: Text)
    ensures Dirname(value, 1) == if Occurs(value, PathSep) then BeforeLast(value, PathSep) else []
  {
    var parts := SplitOn(value, PathSep);
    SplitFirst(value, PathSep);
    if Occurs(value, PathSep) {
      SplitOnFound(value, PathSep);
      JoinSplitOn(value, PathSep);
      JoinLast(parts, PathSep);
      SplitLastFree(value, PathSep);
      var front := Join(parts[..|parts| - 1], PathSep);
      UnitBeforeFree(front, 0x2F, LastOf(parts));
      LastAtIsLastIndexOf(value, PathSep);
    } else {
      assert parts[..0] == [];
    }
  }

  /** Going up k + 1 levels is going up k levels and then one more, as long
      as k is below the number of pieces. */
  lemma DirnameStep(value: Text, k: nat)
    ensures k < |Split(value, PathSep)| ==> Dirname(value, k + 1) == Dirname(Dirname(value, k), 1)
  {
    var parts := Split(value, PathSep);
    if k < |parts| {
      var m := |parts| - k;
      var up := Join(parts[..m], PathSep);
      assert Dirname(value, k) == up;
      SplitPiecesFree(value, PathSep);
      assert forall i :: 0 <= i < m ==> parts[..m][i] == parts[i];
      SplitJoinUnit(parts[..m], 0x2F);
      assert parts[..m][..m - 1] == parts[..m - 1];
    }
  }

  // =====================================================================
  // Pattern tests: is, isAscii
  // =====================================================================

  /** The anchored pattern `is` compiles: `^literal`, or `^head.*tail`
      when the first `*` of the pattern was turned into `.*`. */
  datatype Anchored = Prefix(literal: Text) | Wildcard(head: Text, tail: Text)

  /** No `*` starts at a position before n: no unit before n is a `*`. */
  lemma NoStarBefore(pattern: Text, n: nat)
    requires n <= |pattern|
    requires forall i :: 0 <= i < n ==> !OccursAt(pattern, [0x2A], i)
    ensures 0x2A !in pattern[..n]
  {
    forall i | 0 <= i < n
      ensures pattern[i] != 0x2A
    {
      assert !OccursAt(pattern, [0x2A], i) && pattern[i..i + 1] == [pattern[i]];
    }
  }

  /** `pattern.replace(/[*]/, ".*")` prefixed with `^`. */
  function CompilePattern(pattern: Text): (re: Anchored)
    ensures re.Prefix? ==> re.literal == pattern && 0x2A !in pattern
    ensures re.Wildcard? ==> pattern == re.head + [0x2A] + re.tail && 0x2A !in re.head
    ensures 0x2A !in pattern ==> re == Prefix(pattern)
  {
    if IndexOf(pattern, [0x2A]) == -1 then
      NoStarBefore(pattern, |pattern|);
      assert pattern[..|pattern|] == pattern;
      Prefix(pattern)
    else
      NoStarBefore(pattern, IndexOf(pattern, [0x2A]));
      assert pattern[IndexOf(pattern, [0x2A])..IndexOf(pattern, [0x2A]) + 1] == [0x2A];
      assert pattern
             == pattern[..IndexOf(pattern, [0x2A])] + [0x2A] + pattern[IndexOf(pattern, [0x2A]) + 1..];
      Wildcard(pattern[..IndexOf(pattern, [0x2A])], pattern[IndexOf(pattern, [0x2A]) + 1..])
  }

  predicate NoLineTerminatorIn(s: Text, from: nat, to: nat)
    requires from <= to <= |s|
  {
    forall i :: from <= i < to ==> !IsLineTerminator(s[i])
  }

  /** `test` of an anchored pattern: `.*` spans any units but line
      terminators. */
  predicate Test(re: Anchored, value: Text)
  {
    match re
    case Prefix(literal) => literal <= value
    case Wildcard(head, tail) =>
      head <= value &&
      exists j :: |head| <= j <= |value| && OccursAt(value, tail, j) && NoLineTerminatorIn(value, |head|, j)
  }

  /** A pattern `is` handles as intended: at most one `*`, and no other unit
      that is a metacharacter or a surrogate. */
  predicate IsWildcardPattern(pattern: Text)
  {
    && (forall i :: 0 <= i < |pattern| && pattern[i] != 0x2A ==> !IsRegexMeta(pattern[i]) && !IsSurrogate(pattern[i]))
    && (forall i, j :: 0 <= i < j < |pattern| && pattern[i] == 0x2A ==> pattern[j] != 0x2A)
  }

  /** The test of `is` for one pattern. */
  predicate Matches(pattern: Text, value: Text)
  {
    pattern == value || Test(CompilePattern(pattern), value)
  }

  /** is: whether the value equals the pattern or its compiled form matches
      at the start of the value. */
  method Is(pattern: Text, value: Text) returns (matched: bool)
    requires IsWildcardPattern(pattern)
    ensures matched == Matches(pattern, value)
  {
    var patterns := [pattern];
    for i := 0 to |patterns|
      invariant i == 0 || !Matches(pattern, value)
    {
      var p := patterns[i];
      assert p == pattern;
      if p == value {
        return true;
      }
      var re := CompilePattern(p);
      if Test(re, value) {
        return true;
      }
    }
    return false;
  }

  /** Without a `*` the match is anchored at the start only: the pattern must
      be a prefix of the value. */
  lemma IsWithoutStar(pattern: Text, value: Text)
    requires 0x2A !in pattern
    ensures Matches(pattern, value) <==> pattern <= value
  {
    assert CompilePattern(pattern) == Prefix(pattern);
  }

  /** With one `*`, on a value without line terminators: the value equals the
      pattern, or starts with the part before the `*` and holds the part after
      it at or after that point. */
  lemma {:induction false} IsWithStar(head: Text, tail: Text, value: Text)
    requires 0x2A !in head
    requires forall i :: 0 <= i < |value| ==> !IsLineTerminator(value[i])
    ensures Matches(head + [0x2A] + tail, value) <==>
              || value == head + [0x2A] + tail
              || (head <= value && exists j :: |head| <= j && OccursAt(value, tail, j))
  {
    CompileStar(head, tail);
    TestWildcardFree(head, tail, value);
  }

  /** The first `*` of head + "*" + tail is the one after head. */
  lemma CompileStar(head: Text, tail: Text)
    requires 0x2A !in head
    ensures CompilePattern(head + [0x2A] + tail) == Wildcard(head, tail)
  {
    var pattern := head + [0x2A] + tail;
    var re := CompilePattern(pattern);
    assert pattern[|head|] == 0x2A;
    assert re.Wildcard?;
    assert pattern[|re.head|] == 0x2A;
    assert re.head == head && re.tail == tail;
  }

  /** Without line terminators, `.*` spans whatever lies between head and
      the tail. */
  lemma TestWildcardFree(head: Text, tail: Text, value: Text)
    requires forall i :: 0 <= i < |value| ==> !IsLineTerminator(value[i])
    ensures Test(Wildcard(head, tail), value) <==>
              head <= value && exists j :: |head| <= j && OccursAt(value, tail, j)
  {
    if head <= value && exists j :: |head| <= j && OccursAt(value, tail, j) {
      var j :| |head| <= j && OccursAt(value, tail, j);
      assert NoLineTerminatorIn(value, |head|, j);
    }
  }

  /** "*a" matches "ba": the `*` becomes `.*`, which spans the "b". */
  lemma IsExampleStar()
    ensures Matches([0x2A, 0x61], [0x62, 0x61])
  {
    var p: Text, v: Text := [0x2A, 0x61], [0x62, 0x61];
    assert OccursAt(p, [0x2A], 0) by {
      assert p[0..1] == [0x2A];
    }
    assert CompilePattern(p) == Wildcard([], [0x61]);
    assert OccursAt(v, [0x61], 1) && NoLineTerminatorIn(v, 0, 1) by {
      assert v[1..2] == [0x61];
    }
  }

  /** "a" does not match "ba": the match is anchored at the start. */
  lemma IsExampleAnchored()
    ensures !Matches([0x61], [0x62, 0x61])
  {
    var p: Text, v: Text := [0x61], [0x62, 0x61];
    assert p != v;
    assert !(p <= v) by {
      assert v[0] != p[0];
    }
  }

  /** The units the class of isAscii admits: tab, 0x10, 0x13, line feed,
      carriage return and 0x20 to 0x7E. */
  predicate IsAsciiUnit(c: CodeUnit)
  {
    c == 0x09 || c == 0x10 || c == 0x13 || c == 0x0A || c == 0x0D || (0x20 <= c <= 0x7E)
  }

  /** isAscii: no unit outside the class, looked for from left to right. */
  function IsAscii(value: Text): (b: bool)
    ensures b <==> forall i :: 0 <= i < |value| ==> IsAsciiUnit(value[i])
  {
    value == [] || (IsAsciiUnit(value[0]) && IsAscii(value[1..]))
  }

  // =====================================================================
  // Case conversion: ucwords, lcfirst, studly, camel, kebab, lower
  // =====================================================================

  /** Where `\b[a-zA-Z]` matches: a letter whose predecessor (the unit
      before `s` when i is 0) is not a word character. */
  predicate WordStart(s: Text, i: nat, wordBefore: bool)
    requires i < |s|
  {
    IsLetter(s[i]) && !(if i == 0 then wordBefore else IsWordChar(s[i - 1]))
  }

  /** The global replacement of `\b[a-zA-Z]`, scanned from left to right;
      `wordBefore` says whether the unit before `s` is a word character. */
  function UcwordsAfter(s: Text, wordBefore: bool): (r: Text)
    ensures |r| == |s|
    ensures forall i {:trigger r[i]} :: 0 <= i < |s| ==>
              r[i] == if WordStart(s, i, wordBefore) then ToUpperUnit(s[i]) else s[i]
    decreases |s|
  {
    if s == [] then []
    else
      var rest := UcwordsAfter(s[1..], IsWordChar(s[0]));
      assert forall i :: 1 <= i < |s| ==> (WordStart(s, i, wordBefore) <==> WordStart(s[1..], i - 1, IsWordChar(s[0])));
      [if WordStart(s, 0, wordBefore) then ToUpperUnit(s[0]) else s[0]] + rest
  }

  /** ucwords: a letter at the start or after a unit outside `[A-Za-z0-9_]`
      is upper-cased; every other unit is kept. */
  function Ucwords(value: Text): (r: Text)
    ensures |r| == |value|
    ensures forall i {:trigger r[i]} :: 0 <= i < |value| ==>
              r[i] == if IsLetter(value[i]) && (i == 0 || !IsWordChar(value[i - 1]))
                      then ToUpperUnit(value[i]) else value[i]
  {
    UcwordsAfter(value, false)
  }

  /** lcfirst: the first unit lower-cased, the rest kept. */
  function Lcfirst(value: Text): (r: Text)
    ensures |r| == |value|
    ensures value != [] ==> r[1..] == value[1..] && r[0] == ToLowerUnit(value[0]) && !IsUpper(r[0])
  {
    if |value| == 0 then value else [ToLowerUnit(value[0])] + value[1..]
  }

  predicate IsSeparator(c: CodeUnit)
  {
    c == 0x2D || c == 0x5F || IsWhiteSpace(c)
  }

  /** `replace(/[-_]/g, " ")`. */
  function DashesToSpaces(s: Text): (r: Text)
    ensures |r| == |s|
    ensures forall i :: 0 <= i < |s| ==> r[i] == if s[i] == 0x2D || s[i] == 0x5F then 0x20 else s[i]
  {
    seq(|s|, i requires 0 <= i < |s| => if s[i] == 0x2D || s[i] == 0x5F then 0x20 else s[i])
  }

  /** studly: dashes and underscores become spaces, words are capitalised,
      and all white space is deleted, so no separator is left. */
  function Studly(value: Text): (r: Text)
    ensures forall c :: c in r ==> !IsSeparator(c)
  {
    var spaced := DashesToSpaces(value);
    var words := Ucwords(spaced);
    assert forall c :: c in words ==> c != 0x2D && c != 0x5F by {
      forall c | c in words ensures c != 0x2D && c != 0x5F {
        var i :| 0 <= i < |words| && words[i] == c;
        var u := value[i];
        assert spaced[i] == if u == 0x2D || u == 0x5F then 0x20 else u;
        assert |words| == |spaced|;
        assert words[i] == if IsLetter(spaced[i]) && (i == 0 || !IsWordChar(spaced[i - 1]))
                           then ToUpperUnit(spaced[i]) else spaced[i];
      }
    }
    RemoveWhiteSpace(words)
  }

  /** camel: studly case with the first unit lower-cased. */
  function Camel(value: Text): (r: Text)
    ensures forall c :: c in r ==> !IsSeparator(c)
    ensures r == [] || !IsUpper(r[0])
  {
    var studly := Studly(value);
    var r := Lcfirst(studly);
    assert forall c :: c in r ==> c in studly || c == r[0];
    assert r != [] ==> !IsSeparator(r[0]) by {
      if r != [] {
        assert studly[0] in studly;
      }
    }
    r
  }

  /** The text with every separator deleted. */
  function DropSeparators(s: Text): Text
    decreases |s|
  {
    if |s| == 0 then []
    else (if IsSeparator(s[0]) then [] else [s[0]]) + DropSeparators(s[1..])
  }

  /** Unit i of v begins a word once dashes and underscores are spaces: a
      letter at the start, after a unit outside `[A-Za-z0-9]`, or after an
      underscore. */
  predicate StartsWord(v: Text, i: nat)
    requires i < |v|
  {
    IsLetter(v[i]) && (i == 0 || !IsWordChar(v[i - 1]) || v[i - 1] == 0x5F)
  }

  /** Unit j of the capitalised words: white space exactly where v has a
      separator, and otherwise v's unit, upper-cased at a word start. */
  lemma WordsAt(v: Text, j: nat)
    requires j < |v|
    ensures IsWhiteSpace(Ucwords(DashesToSpaces(v))[j]) <==> IsSeparator(v[j])
    ensures !IsSeparator(v[j]) ==>
              Ucwords(DashesToSpaces(v))[j] == if StartsWord(v, j) then ToUpperUnit(v[j]) else v[j]
  {
    var spaced := DashesToSpaces(v);
    assert spaced[j] == if v[j] == 0x2D || v[j] == 0x5F then 0x20 else v[j];
    if j > 0 {
      assert spaced[j - 1] == if v[j - 1] == 0x2D || v[j - 1] == 0x5F then 0x20 else v[j - 1];
    }
  }

  /** Where white space in x lines up with separators in w, deleting the one
      keeps as many units as deleting the other. */
  lemma {:induction false} SeparatorCount(x: Text, w: Text)
    requires |x| == |w|
    requires forall j :: 0 <= j < |x| ==> (IsWhiteSpace(x[j]) <==> IsSeparator(w[j]))
    ensures |RemoveWhiteSpace(x)| == |DropSeparators(w)|
    decreases |x|
  {
    if |x| > 0 {
      assert IsWhiteSpace(x[0]) <==> IsSeparator(w[0]);
      SeparatorCount(x[1..], w[1..]);
    }
  }

  /** studly keeps every non-separator unit of the value, in order, and
      upper-cases exactly the letters that begin a word. */
  lemma StudlyUnits(v: Text)
    ensures |Studly(v)| == |DropSeparators(v)|
    ensures forall i :: 0 <= i < |v| && !IsSeparator(v[i]) ==>
              && |DropSeparators(v[..i])| < |Studly(v)|
              && Studly(v)[|DropSeparators(v[..i])|] == if StartsWord(v, i) then ToUpperUnit(v[i]) else v[i]
  {
    var words := Ucwords(DashesToSpaces(v));
    forall j | 0 <= j < |v|
      ensures IsWhiteSpace(words[j]) <==> IsSeparator(v[j])
    {
      WordsAt(v, j);
    }
    SeparatorCount(words, v);
    forall i | 0 <= i < |v| && !IsSeparator(v[i])
      ensures |DropSeparators(v[..i])| < |Studly(v)|
      ensures Studly(v)[|DropSeparators(v[..i])|] == if StartsWord(v, i) then ToUpperUnit(v[i]) else v[i]
    {
      WordsAt(v, i);
      assert forall j :: 0 <= j < i ==> words[..i][j] == words[j] && v[..i][j] == v[j];
      SeparatorCount(words[..i], v[..i]);
      RemoveWhiteSpaceAt(words, i);
    }
  }

  /** camel is studly with the first kept unit lower-cased. */
  lemma CamelUnits(v: Text)
    ensures |Camel(v)| == |DropSeparators(v)|
    ensures forall i :: 0 <= i < |v| && !IsSeparator(v[i]) ==>
              && |DropSeparators(v[..i])| < |Camel(v)|
              && Camel(v)[|DropSeparators(v[..i])|] ==
                   if |DropSeparators(v[..i])| == 0 then ToLowerUnit(v[i])
                   else if StartsWord(v, i) then ToUpperUnit(v[i]) else v[i]
  {
    StudlyUnits(v);
    var studly := Studly(v);
    assert Camel(v) == Lcfirst(studly);
    forall i | 0 <= i < |v| && !IsSeparator(v[i])
      ensures |DropSeparators(v[..i])| < |Camel(v)|
      ensures Camel(v)[|DropSeparators(v[..i])|] ==
                if |DropSeparators(v[..i])| == 0 then ToLowerUnit(v[i])
                else if StartsWord(v, i) then ToUpperUnit(v[i]) else v[i]
    {
      var k := |DropSeparators(v[..i])|;
      if k > 0 {
        assert Camel(v)[k] == Camel(v)[1..][k - 1] == studly[1..][k - 1];
      }
    }
  }

  /** studly(" foo_bar- baz  Vvs") is "FooBarBazVvs". */
  lemma StudlyExample()
    ensures Studly(Lit(" foo_bar- baz  Vvs")) == Lit("FooBarBazVvs")
  {
    var v := Lit(" foo_bar- baz  Vvs");
    StudlyExampleWords(v);
    StudlyExampleChunks();
    ExampleJoined(0, Ucwords(DashesToSpaces(v)));
  }

  /** camel("foo_bar_baz") is "fooBarBaz". */
  lemma CamelExample()
    ensures Camel(Lit("foo_bar_baz")) == Lit("fooBarBaz")
  {
    var v := Lit("foo_bar_baz");
    CamelExampleWords(v);
    CamelExampleChunks();
    ExampleJoined(1, Ucwords(DashesToSpaces(v)));
  }

  lemma StudlyExampleWords(v: Text)
    requires v == Lit(" foo_bar- baz  Vvs")
    ensures Ucwords(DashesToSpaces(v)) == [0x20, 0x46, 0x6F, 0x6F, 0x20, 0x42, 0x61, 0x72, 0x20, 0x20, 0x42, 0x61, 0x7A, 0x20, 0x20, 0x56, 0x76, 0x73]
  {
    StudlyExampleSpaced(v);
    CapitaliseStudlyExample(DashesToSpaces(v));
  }

  lemma StudlyExampleSpaced(v: Text)
    requires v == Lit(" foo_bar- baz  Vvs")
    ensures DashesToSpaces(v) == [0x20, 0x66, 0x6F, 0x6F, 0x20, 0x62, 0x61, 0x72, 0x20, 0x20, 0x62, 0x61, 0x7A, 0x20, 0x20, 0x56, 0x76, 0x73]
  {
  }

  lemma CapitaliseStudlyExample(s: Text)
    requires s == [0x20, 0x66, 0x6F, 0x6F, 0x20, 0x62, 0x61, 0x72, 0x20, 0x20, 0x62, 0x61, 0x7A, 0x20, 0x20, 0x56, 0x76, 0x73]
    ensures Ucwords(s) == [0x20, 0x46, 0x6F, 0x6F, 0x20, 0x42, 0x61, 0x72, 0x20, 0x20, 0x42, 0x61, 0x7A, 0x20, 0x20, 0x56, 0x76, 0x73]
  {
  }

  lemma CapitaliseCamelExample(s: Text)
    requires s == [0x66, 0x6F, 0x6F, 0x20, 0x62, 0x61, 0x72, 0x20, 0x62, 0x61, 0x7A]
    ensures Ucwords(s) == [0x46, 0x6F, 0x6F, 0x20, 0x42, 0x61, 0x72, 0x20, 0x42, 0x61, 0x7A]
  {
  }

  lemma CamelExampleWords(v: Text)
    requires v == Lit("foo_bar_baz")
    ensures Ucwords(DashesToSpaces(v)) == [0x46, 0x6F, 0x6F, 0x20, 0x42, 0x61, 0x72, 0x20, 0x42, 0x61, 0x7A]
  {
    assert DashesToSpaces(v) == [0x66, 0x6F, 0x6F, 0x20, 0x62, 0x61, 0x72, 0x20, 0x62, 0x61, 0x7A];
    CapitaliseCamelExample(DashesToSpaces(v));
  }

  /** The capitalised words of example e (0 for studly, 1 for camel), piece
      by piece: piece k is some white space followed by a word. */
  function ExampleBlank(e: nat, k: nat): Text
  {
    if e == 0 then (if k < 2 then [0x20] else [0x20, 0x20])
    else if k == 1 || k == 2 then [0x20] else []
  }

  function ExampleWord(e: nat, k: nat): Text
  {
    if k == 0 then [0x46, 0x6F, 0x6F]
    else if k == 1 then [0x42, 0x61, 0x72]
    else if k == 2 then [0x42, 0x61, 0x7A]
    else if e == 0 then [0x56, 0x76, 0x73] else []
  }

  function ExampleChunk(e: nat, k: nat): Text
  {
    ExampleBlank(e, k) + ExampleWord(e, k)
  }

  function ExampleWords(e: nat): Text
  {
    ExampleWord(e, 0) + ExampleWord(e, 1) + ExampleWord(e, 2) + ExampleWord(e, 3)
  }

  lemma StudlyExampleChunks()
    ensures [0x20, 0x46, 0x6F, 0x6F, 0x20, 0x42, 0x61, 0x72, 0x20, 0x20, 0x42, 0x61, 0x7A, 0x20, 0x20, 0x56, 0x76, 0x73] == ExampleChunk(0, 0) + ExampleChunk(0, 1) + ExampleChunk(0, 2) + ExampleChunk(0, 3)
    ensures ExampleWords(0) == Lit("FooBarBazVvs")
  {
  }

  lemma CamelExampleChunks()
    ensures [0x46, 0x6F, 0x6F, 0x20, 0x42, 0x61, 0x72, 0x20, 0x42, 0x61, 0x7A] == ExampleChunk(1, 0) + ExampleChunk(1, 1) + ExampleChunk(1, 2) + ExampleChunk(1, 3)
    ensures Lcfirst(ExampleWords(1)) == Lit("fooBarBaz")
  {
  }

  lemma ExampleChunkJoined(e: nat, k: nat)
    ensures RemoveWhiteSpace(ExampleChunk(e, k)) == ExampleWord(e, k)
  {
    BlankThenWord(ExampleBlank(e, k), ExampleWord(e, k));
  }

  lemma ExampleJoined(e: nat, w: Text)
    requires w == ExampleChunk(e, 0) + ExampleChunk(e, 1) + ExampleChunk(e, 2) + ExampleChunk(e, 3)
    ensures RemoveWhiteSpace(w) == ExampleWords(e)
  {
    var a, b, c, d := ExampleChunk(e, 0), ExampleChunk(e, 1), ExampleChunk(e, 2), ExampleChunk(e, 3);
    RemoveWhiteSpaceConcat(a + b + c, d);
    RemoveWhiteSpaceConcat(a + b, c);
    RemoveWhiteSpaceConcat(a, b);
    ExampleChunkJoined(e, 0);
    ExampleChunkJoined(e, 1);
    ExampleChunkJoined(e, 2);
    ExampleChunkJoined(e, 3);
  }

  /** A run of white space followed by a word without any. */
  lemma BlankThenWord(blank: Text, word: Text)
    requires forall i :: 0 <= i < |blank| ==> IsWhiteSpace(blank[i])
    requires forall i :: 0 <= i < |word| ==> !IsWhiteSpace(word[i])
    ensures RemoveWhiteSpace(blank + word) == word
  {
    RemoveWhiteSpaceConcat(blank, word);
    RemoveWhiteSpaceBlank(blank);
  }

  /** The index of the first upper-case letter at or after k, or |s|. */
  function FirstUpperFrom(s: Text, k: nat): (i: nat)
    requires k <= |s|
    ensures k <= i <= |s|
    ensures i < |s| ==> IsUpper(s[i])
    ensures forall j :: k <= j < i ==> !IsUpper(s[j])
    decreases |s| - k
  {
    if k == |s| || IsUpper(s[k]) then k else FirstUpperFrom(s, k + 1)
  }

  /** kebab: white space deleted, the delimiter inserted before the first
      upper-case letter that follows some unit (the pattern is not global, so
      only there), and the whole lower-cased, delimiter included. */
  function Kebab(value: Text, delimiter: Text): (r: Text)
    ensures forall j :: 0 <= j < |r| ==> !IsUpper(r[j])
  {
    var w := RemoveWhiteSpace(value);
    var i := if w == [] then 0 else FirstUpperFrom(w, 1);
    if 0 < i < |w| then ToLowerCase(w[..i] + delimiter + w[i..])
    else ToLowerCase(w)
  }

  /** The delimiter goes before the first upper-case letter past the first
      unit of the text without white space, and nowhere else. */
  lemma KebabAtBoundary(value: Text, delimiter: Text, i: nat)
    requires var w := RemoveWhiteSpace(value);
             1 <= i < |w| && IsUpper(w[i]) && forall j :: 1 <= j < i ==> !IsUpper(w[j])
    ensures var w := RemoveWhiteSpace(value);
            Kebab(value, delimiter) == ToLowerCase(w[..i] + delimiter + w[i..])
  {
    var w := RemoveWhiteSpace(value);
    assert FirstUpperFrom(w, 1) == i;
  }

  /** Without such a letter, kebab only deletes white space and lower-cases. */
  lemma KebabNoBoundary(value: Text, delimiter: Text)
    requires forall j :: 1 <= j < |RemoveWhiteSpace(value)| ==> !IsUpper(RemoveWhiteSpace(value)[j])
    ensures Kebab(value, delimiter) == ToLowerCase(RemoveWhiteSpace(value))
  {
    var w := RemoveWhiteSpace(value);
    if w != [] {
      assert FirstUpperFrom(w, 1) == |w|;
    }
  }

  /** Only the first boundary gets a delimiter: "aBC" becomes "a_bc". */
  lemma KebabFirstBoundaryOnly()
    ensures Kebab([0x61, 0x42, 0x43], [0x5F]) == [0x61, 0x5F, 0x62, 0x63]
  {
    var v: Text := [0x61, 0x42, 0x43];
    forall i | 0 <= i < |v| ensures !IsWhiteSpace(v[i]) {
      assert i == 0 || i == 1 || i == 2;
    }
    assert RemoveWhiteSpace(v) == v;
    KebabAtBoundary(v, [0x5F], 1);
    KebabExampleText(v);
  }

  lemma KebabExampleText(v: Text)
    requires v == [0x61, 0x42, 0x43]
    ensures ToLowerCase(v[..1] + [0x5F] + v[1..]) == [0x61, 0x5F, 0x62, 0x63]
  {
    var u := v[..1] + [0x5F] + v[1..];
    assert u == [0x61, 0x5F, 0x42, 0x43];
    var l := ToLowerCase(u);
    assert l[0] == 0x61 && l[1] == 0x5F && l[2] == 0x62 && l[3] == 0x63;
  }

  /** lower: every upper-case letter lower-cased, every other unit kept. */
  function Lower(value: Text): (r: Text)
    ensures |r| == |value|
    ensures forall i :: 0 <= i < |r| ==> !IsUpper(r[i])
    ensures forall i :: 0 <= i < |r| ==> IsUpper(value[i]) || r[i] == value[i]
    ensures forall i :: 0 <= i < |r| ==> r[i] == ToLowerUnit(value[i])
  {
    ToLowerCase(value)
  }

  lemma LowerIdempotent(value: Text)
    ensures Lower(Lower(value)) == Lower(value)
  {
  }

  // =====================================================================
  // Padding and truncation: padLeft, padRight, padBoth, limit
  // =====================================================================

  /** padLeft: `pad` repeated in front of the value up to `length` units. */
  function PadLeft(value: Text, length: nat, pad: Text): (r: Text)
    ensures length <= |value| || pad == [] ==> r == value
    ensures length > |value| && pad != [] ==>
              |r| == length && IsSuffix(value, r) && r[..length - |value|] == Filler(pad, length - |value|)
  {
    PadStart(value, length, pad)
  }

  /** padRight: `pad` repeated after the value up to `length` units. */
  function PadRight(value: Text, length: nat, pad: Text): (r: Text)
    ensures length <= |value| || pad == [] ==> r == value
    ensures length > |value| && pad != [] ==>
              |r| == length && value <= r && r[|value|..] == Filler(pad, length - |value|)
  {
    PadEnd(value, length, pad)
  }

  /** padBoth: the start is padded to the midpoint (|value| + length) / 2,
      truncated to an integer, and the end to `length`; so the smaller half of
      the filler goes before the value. */
  function PadBoth(value: Text, length: nat, pad: Text): (r: Text)
    ensures length <= |value| || pad == [] ==> r == value
    ensures length > |value| && pad != [] ==>
              var left := (length - |value|) / 2;
              && |r| == length
              && r[left..left + |value|] == value
              && r[..left] == Filler(pad, left)
              && r[left + |value|..] == Filler(pad, length - |value| - left)
  {
    var started := PadStart(value, (|value| + length) / 2, pad);
    PadEnd(started, length, pad)
  }

  /** limit: a value longer than `limit` is cut to `limit` units, stripped of
      trailing white space and followed by `end`. */
  function Limit(value: Text, limit: nat, end: Text): (r: Text)
    ensures |value| <= limit ==> r == value
    ensures |value| > limit ==>
              var kept := |r| - |end|;
              && |end| <= |r| <= limit + |end|
              && r[kept..] == end
              && r[..kept] == value[..kept]
              && (kept == 0 || !IsWhiteSpace(value[kept - 1]))
              && (forall i :: kept <= i < limit ==> IsWhiteSpace(value[i]))
  {
    if |value| <= limit then value
    else TrimEnd(value[..limit]) + end
  }

  // =====================================================================
  // Concatenation: append, prepend
  // =====================================================================

  /** append: the value followed by all the values. */
  function Append(value: Text, values: seq<Text>): (r: Text)
    ensures value <= r
    ensures |values| == 0 ==> r == value
    ensures |values| == 1 ==> r == value + values[0]
  {
    value + Join(values, [])
  }

  /** Appending in two calls is appending once. */
  lemma AppendTwice(value: Text, xs: seq<Text>, ys: seq<Text>)
    ensures Append(Append(value, xs), ys) == Append(value, xs + ys)
  {
    JoinAppend(xs, ys);
  }

  /** prepend: all the values followed by the value. */
  function Prepend(value: Text, values: seq<Text>): (r: Text)
    ensures IsSuffix(value, r)
    ensures |values| == 0 ==> r == value
    ensures |values| == 1 ==> r == values[0] + value
  {
    Join(values, []) + value
  }

  /** Prepending in two calls is prepending once, the later values first. */
  lemma PrependTwice(value: Text, xs: seq<Text>, ys: seq<Text>)
    ensures Prepend(Prepend(value, ys), xs) == Prepend(value, xs + ys)
  {
    JoinAppend(xs, ys);
  }

  // =====================================================================
  // Replacement: replace, replaceFirst, replaceLast, replaceArray
  // =====================================================================

  /** replace: every occurrence of `search` replaced; for a non-empty search
      and a replacement without `$` that is joining the pieces between the
      occurrences with the replacement. */
  function Replace(value: Text, search: Text, replacement: Text): (r: Text)
    ensures search != [] && NoDollar(replacement) ==> r == Join(Split(value, search), replacement)
  {
    if search != [] && NoDollar(replacement) then
      ReplaceAllIsSplitJoin(value, search, replacement);
      ReplaceAll(value, search, replacement)
    else ReplaceAll(value, search, replacement)
  }

  /** An empty search replaced by nothing changes nothing. */
  lemma ReplaceEmptyByEmpty(value: Text)
    ensures Replace(value, [], []) == value
  {
    var sub := SubstituteAt(value, [], []);
    assert forall i: nat :: sub(i) == [];
    ReplaceAllInEmpty(value, sub, 0);
  }

  /** An empty search matches before every unit and at the end, so a
      replacement without `$` goes in at each of those places. */
  lemma ReplaceEmptySearch(value: Text, replacement: Text)
    ensures NoDollar(replacement) ==>
              Replace(value, [], replacement) ==
                if value == [] then replacement
                else replacement + Join(Split(value, []), replacement) + replacement
  {
    if NoDollar(replacement) {
      var sub := SubstituteAt(value, [], replacement);
      assert forall i: nat :: sub(i) == replacement;
      ReplaceAllInEmptySearch(value, sub, replacement, 0);
    }
  }

  /** Replacing a string without `$` by itself changes nothing. */
  lemma ReplaceIdentity(value: Text, search: Text)
    requires NoDollar(search)
    ensures Replace(value, search, search) == value
  {
    if search == [] {
      ReplaceEmptyByEmpty(value);
    } else {
      JoinSplit(value, search);
    }
  }

  /** A search string that does not occur leaves the value unchanged. */
  lemma ReplaceAbsent(value: Text, search: Text, replacement: Text)
    requires search != [] && !Occurs(value, search)
    ensures Replace(value, search, replacement) == value
  {
    assert IndexFrom(value, search, 0) == -1;
  }

  /** `$&` in the replacement stands for the match: wrapping the first "a"
      of "ba" in brackets. */
  lemma ReplaceFirstDollarMatch()
    ensures ReplaceFirst([0x62, 0x61], [0x61], [0x5B, 0x24, 0x26, 0x5D]) == [0x62, 0x5B, 0x61, 0x5D]
  {
    var v, a: Text := [0x62, 0x61], [0x61];
    assert FirstAt(v, a, 1) by {
      assert v[1..2] == a;
      assert !OccursAt(v, a, 0) by { assert v[0..1] == [0x62]; }
    }
    DollarMatchText(v, a);
    assert v[..1] + [0x5B, 0x61, 0x5D] + v[2..] == [0x62, 0x5B, 0x61, 0x5D];
  }

  /** The replacement "[$&]" for a one-unit match at position 1. */
  lemma DollarMatchText(v: Text, a: Text)
    requires |v| == 2 && a == v[1..]
    ensures Substitute([0x5B, 0x24, 0x26, 0x5D], v, 1, a) == [0x5B] + a + [0x5D]
  {
    var rep: Text := [0x5B, 0x24, 0x26, 0x5D];
    assert rep[1..] == [0x24, 0x26, 0x5D] && rep[1..][2..] == [0x5D] && rep[1..][2..][1..] == [];
  }

  /** replaceFirst: the first occurrence of `search` replaced. */
  function ReplaceFirst(value: Text, search: Text, replacement: Text): (r: Text)
    ensures !Occurs(value, search) ==> r == value
    ensures forall i :: FirstAt(value, search, i) ==>
              r == value[..i] + Substitute(replacement, value, i, search) + value[i + |search|..]
  {
    ReplaceOnce(value, search, replacement)
  }

  /** replaceLast, as written: the same call as replaceFirst, so the first
      occurrence is the one replaced. */
  function ReplaceLast(value: Text, search: Text, replacement: Text): (r: Text)
    ensures !Occurs(value, search) ==> r == value
    ensures forall i :: FirstAt(value, search, i) ==>
              r == value[..i] + Substitute(replacement, value, i, search) + value[i + |search|..]
  {
    ReplaceOnce(value, search, replacement)
  }

  /** With two occurrences, replaceLast changes the first one where the last
      was meant. */
  lemma ReplaceLastReplacesFirst()
    ensures ReplaceLast([0x61, 0x2D, 0x61], [0x61], [0x62]) == [0x62, 0x2D, 0x61]
    ensures ReplaceLastOccurrence([0x61, 0x2D, 0x61], [0x61], [0x62]) == [0x61, 0x2D, 0x62]
  {
    var v, a, b: Text := [0x61, 0x2D, 0x61], [0x61], [0x62];
    assert NoDollar(b);
    assert OccursAt(v, a, 0);
    assert IndexOf(v, a) == 0;
    assert OccursAt(v, a, 2) && !OccursAt(v, a, 3);
    assert LastIndexOf(v, a) == 2;
  }

  /** What replaceLast is documented to do: the last occurrence replaced. */
  function ReplaceLastOccurrence(value: Text, search: Text, replacement: Text): (r: Text)
    ensures !Occurs(value, search) ==> r == value
    ensures forall i :: LastAt(value, search, i) ==>
              r == value[..i] + Substitute(replacement, value, i, search) + value[i + |search|..]
  {
    LastAtIsLastIndexOf(value, search);
    var i := LastIndexOf(value, search);
    if i == -1 then value else value[..i] + Substitute(replacement, value, i, search) + value[i + |search|..]
  }

  /** `reduce` with an initial value: the callback applied to the
      accumulator and each element in turn, from the left. */
  function Reduce(xs: seq<Text>, f: (Text, Text) -> Text, init: Text): (r: Text)
    ensures |xs| == 0 ==> r == init
    ensures |xs| == 1 ==> r == f(init, xs[0])
    decreases |xs|
  {
    if |xs| == 0 then init else Reduce(xs[1..], f, f(init, xs[0]))
  }

  /** Reducing over two lists in turn is reducing over their concatenation. */
  lemma {:induction false} ReduceConcat(xs: seq<Text>, ys: seq<Text>, f: (Text, Text) -> Text, init: Text)
    ensures Reduce(ys, f, Reduce(xs, f, init)) == Reduce(xs + ys, f, init)
    decreases |xs|
  {
    if |xs| == 0 {
      assert xs + ys == ys;
    } else {
      assert (xs + ys)[0] == xs[0] && (xs + ys)[1..] == xs[1..] + ys;
      ReduceConcat(xs[1..], ys, f, f(init, xs[0]));
    }
  }

  /** A callback that leaves the accumulator unchanged whatever the element
      leaves it unchanged over any list. */
  lemma {:induction false} ReduceFixed(xs: seq<Text>, f: (Text, Text) -> Text, init: Text)
    requires forall x :: f(init, x) == init
    ensures Reduce(xs, f, init) == init
    decreases |xs|
  {
    if |xs| > 0 {
      ReduceFixed(xs[1..], f, init);
    }
  }

  /** The callback replaceArray hands to `reduce`: `str.replace(search, x)`. */
  function ReplaceStep(search: Text): (Text, Text) -> Text
  {
    (str, replacement) => ReplaceOnce(str, search, replacement)
  }

  /** replaceArray: a left fold of the single replacement over
      `replacements`, each step searching the text produced so far. */
  function ReplaceArray(value: Text, search: Text, replacements: seq<Text>): (r: Text)
    ensures |replacements| == 0 ==> r == value
  {
    Reduce(replacements, ReplaceStep(search), value)
  }

  /** Replacing with one list and then another is replacing with their
      concatenation. */
  lemma ReplaceArrayConcat(value: Text, search: Text, xs: seq<Text>, ys: seq<Text>)
    ensures ReplaceArray(ReplaceArray(value, search, xs), search, ys) == ReplaceArray(value, search, xs + ys)
  {
    ReduceConcat(xs, ys, ReplaceStep(search), value);
  }

  /** A list of one replacement is replaceFirst; a longer list applies
      replaceFirst once per element, in order. */
  lemma ReplaceArrayStep(value: Text, search: Text, x: Text, xs: seq<Text>)
    ensures ReplaceArray(value, search, [x] + xs) == ReplaceArray(ReplaceFirst(value, search, x), search, xs)
    ensures ReplaceArray(value, search, [x]) == ReplaceFirst(value, search, x)
  {
    assert ([x] + xs)[1..] == xs;
  }

  /** A search string that does not occur leaves the value unchanged,
      whatever the replacements. */
  lemma ReplaceArrayAbsent(value: Text, search: Text, replacements: seq<Text>)
    requires !Occurs(value, search)
    ensures ReplaceArray(value, search, replacements) == value
  {
    ReduceFixed(replacements, ReplaceStep(search), value);
  }
}
