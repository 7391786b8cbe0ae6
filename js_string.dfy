/** Models of the ECMAScript string and regular-expression behaviour that the
    string library is built on: strings as sequences of UTF-16 code units,
    searching, splitting, joining, replacing, padding and trimming. */
module JsString {

  /** A UTF-16 code unit, the element of an ECMAScript string. */
  newtype CodeUnit = x: int | 0 <= x < 0x1_0000

  /** An ECMAScript string value. */
  type Text = seq<CodeUnit>

  /** The code units of an ASCII literal. */
  function Lit(s: string): Text
    requires forall i :: 0 <= i < |s| ==> s[i] as int < 0x80
  {
    seq(|s|, i requires 0 <= i < |s| => s[i] as int as CodeUnit)
  }

  // ---------------------------------------------------------------------
  // Character classes
  // ---------------------------------------------------------------------

  /** The units matched by `\s` and removed by `trimEnd`: WhiteSpace and
      LineTerminator of the ECMAScript grammar. */
  predicate IsWhiteSpace(c: CodeUnit)
  {
    || (0x09 <= c <= 0x0D) || c == 0x20 || c == 0xA0 || c == 0x1680
    || (0x2000 <= c <= 0x200A) || c == 0x2028 || c == 0x2029
    || c == 0x202F || c == 0x205F || c == 0x3000 || c == 0xFEFF
  }

  /** The units that `.` in a regular expression does not match. */
  predicate IsLineTerminator(c: CodeUnit)
  {
    c == 0x0A || c == 0x0D || c == 0x2028 || c == 0x2029
  }

  predicate IsSurrogate(c: CodeUnit)
  {
    0xD800 <= c <= 0xDFFF
  }

  predicate IsUpper(c: CodeUnit)
  {
    0x41 <= c <= 0x5A
  }

  predicate IsLower(c: CodeUnit)
  {
    0x61 <= c <= 0x7A
  }

  predicate IsLetter(c: CodeUnit)
  {
    IsUpper(c) || IsLower(c)
  }

  /** The class `\w`, which decides where `\b` sits. */
  predicate IsWordChar(c: CodeUnit)
  {
    IsLetter(c) || (0x30 <= c <= 0x39) || c == 0x5F
  }

  /** `toLowerCase` of one unit, on the ASCII range. */
  function ToLowerUnit(c: CodeUnit): (r: CodeUnit)
    ensures !IsUpper(r)
    ensures IsLetter(c) <==> IsLetter(r)
    ensures IsWhiteSpace(c) <==> IsWhiteSpace(r)
    ensures !IsUpper(c) ==> r == c
    ensures IsUpper(c) ==> r as int == c as int + 0x20
  {
    if IsUpper(c) then c + 0x20 else c
  }

  /** `toUpperCase` of one unit, on the ASCII range. */
  function ToUpperUnit(c: CodeUnit): (r: CodeUnit)
    ensures !IsLower(r)
    ensures IsLetter(c) <==> IsLetter(r)
    ensures ToLowerUnit(r) == ToLowerUnit(c)
    ensures IsWhiteSpace(c) <==> IsWhiteSpace(r)
    ensures !IsLower(c) ==> r == c
    ensures IsLower(c) ==> r as int == c as int - 0x20
  {
    if IsLower(c) then c - 0x20 else c
  }

  /** The code units that a pattern source treats specially:
      \ ^ $ . | ? * + ( ) [ ] { } */
  predicate IsRegexMeta(c: CodeUnit)
  {
    c in {0x5C, 0x5E, 0x24, 0x2E, 0x7C, 0x3F, 0x2A, 0x2B, 0x28, 0x29, 0x5B, 0x5D, 0x7B, 0x7D}
  }

  /** Text that, interpolated into a pattern, matches itself literally. */
  predicate IsLiteralPattern(t: Text)
  {
    forall i :: 0 <= i < |t| ==> !IsRegexMeta(t[i])
  }

  /** Text that matches itself literally in a pattern with the "u" flag,
      where matching steps over code points: without surrogates every match
      starts and ends on a code-point boundary, so code-unit matching agrees. */
  predicate IsLiteralUnicodePattern(t: Text)
  {
    forall i :: 0 <= i < |t| ==> !IsRegexMeta(t[i]) && !IsSurrogate(t[i])
  }

  /** A replacement string without `$`, so that `replace` inserts it verbatim. */
  predicate NoDollar(t: Text)
  {
    0x24 !in t
  }

  // ---------------------------------------------------------------------
  // Searching
  // ---------------------------------------------------------------------

  predicate OccursAt(s: Text, t: Text, i: int)
  {
    0 <= i && i + |t| <= |s| && s[i..i + |t|] == t
  }

  ghost predicate Occurs(s: Text, t: Text)
  {
    exists i :: OccursAt(s, t, i)
  }

  ghost predicate FirstAt(s: Text, t: Text, i: int)
  {
    OccursAt(s, t, i) && forall j :: 0 <= j < i ==> !OccursAt(s, t, j)
  }

  ghost predicate LastAt(s: Text, t: Text, i: int)
  {
    OccursAt(s, t, i) && forall j :: i < j ==> !OccursAt(s, t, j)
  }

  predicate IsSuffix(x: Text, s: Text)
  {
    |x| <= |s| && s[|s| - |x|..] == x
  }

  function IndexFrom(s: Text, t: Text, k: nat): (r: int)
    requires k <= |s|
    ensures r == -1 || (k <= r && OccursAt(s, t, r))
    ensures forall j :: k <= j && (r == -1 || j < r) ==> !OccursAt(s, t, j)
    decreases |s| - k
  {
    if OccursAt(s, t, k) then k
    else if k == |s| then -1
    else IndexFrom(s, t, k + 1)
  }

  /** `indexOf`: the first position of t in s, or -1. */
  function IndexOf(s: Text, t: Text): (r: int)
    ensures r == -1 || 0 <= r <= |s| - |t|
    ensures r == -1 || FirstAt(s, t, r)
    ensures r == -1 <==> !Occurs(s, t)
  {
    IndexFrom(s, t, 0)
  }

  function LastFrom(s: Text, t: Text, k: nat): (r: int)
    requires k <= |s|
    ensures r == -1 || (r <= k && OccursAt(s, t, r))
    ensures forall j :: j <= k && r < j ==> !OccursAt(s, t, j)
    decreases k
  {
    if OccursAt(s, t, k) then k
    else if k == 0 then -1
    else LastFrom(s, t, k - 1)
  }

  /** `lastIndexOf`: the last position of t in s, or -1. */
  function LastIndexOf(s: Text, t: Text): (r: int)
    ensures r == -1 || 0 <= r <= |s| - |t|
    ensures r == -1 || LastAt(s, t, r)
    ensures r == -1 <==> !Occurs(s, t)
  {
    LastFrom(s, t, |s|)
  }

  /** Only one occurrence is the first: it is the one indexOf finds. */
  lemma FirstAtIsIndexOf(s: Text, t: Text)
    ensures forall i :: FirstAt(s, t, i) ==> i == IndexOf(s, t)
  {
    forall i | FirstAt(s, t, i)
      ensures i == IndexOf(s, t)
    {
      var k := IndexOf(s, t);
      assert k != -1;
      assert !(i < k) && !(k < i);
    }
  }

  /** Only one occurrence is the last: it is the one lastIndexOf finds. */
  lemma LastAtIsLastIndexOf(s: Text, t: Text)
    ensures forall i :: LastAt(s, t, i) ==> i == LastIndexOf(s, t)
  {
    forall i | LastAt(s, t, i)
      ensures i == LastIndexOf(s, t)
    {
      var k := LastIndexOf(s, t);
      assert k != -1;
      assert !(i < k) && !(k < i);
    }
  }

  /** `includes`. */
  function Includes(s: Text, t: Text): (b: bool)
    ensures b <==> Occurs(s, t)
  {
    IndexOf(s, t) != -1
  }

  /** `endsWith(t, end)`: whether s[..end] ends with t, where `end` is
      the length of s when absent and is clamped to it otherwise. */
  function EndsWithBefore(s: Text, t: Text, end: nat): (b: bool)
    ensures b <==> var e := if end < |s| then end else |s|; IsSuffix(t, s[..e])
  {
    var e := if end < |s| then end else |s|;
    |t| <= e && s[e - |t|..e] == t
  }

  // ---------------------------------------------------------------------
  // Splitting and joining
  // ---------------------------------------------------------------------

  /** `split` on a non-empty separator: the pieces between the
      non-overlapping occurrences found from left to right. */
  function SplitOn(s: Text, sep: Text): (parts: seq<Text>)
    requires sep != []
    ensures |parts| >= 1
    decreases |s|
  {
    if IndexOf(s, sep) == -1 then [s]
    else [s[..IndexOf(s, sep)]] + SplitOn(s[IndexOf(s, sep) + |sep|..], sep)
  }

  /** `split`: an empty separator yields the single code units. */
  function Split(s: Text, sep: Text): (parts: seq<Text>)
    ensures sep != [] || s != [] ==> |parts| >= 1
    ensures sep == [] ==> |parts| == |s| && forall i :: 0 <= i < |s| ==> parts[i] == [s[i]]
  {
    if sep == [] then seq(|s|, i requires 0 <= i < |s| => [s[i]]) else SplitOn(s, sep)
  }

  /** `join`. */
  function Join(parts: seq<Text>, sep: Text): Text
  {
    if |parts| == 0 then []
    else if |parts| == 1 then parts[0]
    else parts[0] + sep + Join(parts[1..], sep)
  }

  /** A text cut at two positions is the concatenation of the three pieces. */
  lemma Cut3(s: Text, i: nat, j: nat)
    requires i <= j <= |s|
    ensures s[..i] + s[i..j] + s[j..] == s
  {
  }

  /** Joining a list of at least two pieces starts with the first piece and
      the separator. */
  lemma JoinCons(x: Text, xs: seq<Text>, sep: Text)
    requires |xs| >= 1
    ensures Join([x] + xs, sep) == x + sep + Join(xs, sep)
  {
    assert ([x] + xs)[1..] == xs;
  }

  /** One unfolding of a split at its first separator. */
  lemma SplitOnFound(s: Text, sep: Text)
    requires sep != [] && IndexOf(s, sep) != -1
    ensures SplitOn(s, sep) == [s[..IndexOf(s, sep)]] + SplitOn(s[IndexOf(s, sep) + |sep|..], sep)
  {
  }

  /** The first piece of a split is the text before the first separator,
      and the whole text when there is none. */
  lemma SplitFirst(s: Text, sep: Text)
    requires sep != []
    ensures SplitOn(s, sep)[0] <= s
    ensures Occurs(s, sep) ==> FirstAt(s, sep, |SplitOn(s, sep)[0]|)
    ensures !Occurs(s, sep) ==> SplitOn(s, sep) == [s]
  {
    if IndexOf(s, sep) != -1 {
      SplitOnFound(s, sep);
    }
  }

  /** An occurrence inside a prefix is an occurrence in the text. */
  lemma OccursInPrefix(s: Text, t: Text, n: nat, j: int)
    requires n <= |s| && OccursAt(s[..n], t, j)
    ensures OccursAt(s, t, j) && j + |t| <= n
  {
    assert s[..n][j..j + |t|] == s[j..j + |t|];
  }

  /** The text before the first separator holds no separator. */
  lemma FirstPieceFree(s: Text, sep: Text)
    requires sep != [] && IndexOf(s, sep) != -1
    ensures !Occurs(s[..IndexOf(s, sep)], sep)
  {
    var i := IndexOf(s, sep);
    if Occurs(s[..i], sep) {
      var j :| OccursAt(s[..i], sep, j);
      OccursInPrefix(s, sep, i, j);
      assert false;
    }
  }

  /** No piece of a split holds the separator. */
  lemma {:induction false} SplitPiecesFree(s: Text, sep: Text)
    requires sep != []
    ensures forall k :: 0 <= k < |SplitOn(s, sep)| ==> !Occurs(SplitOn(s, sep)[k], sep)
    decreases |s|
  {
    if IndexOf(s, sep) != -1 {
      SplitOnFound(s, sep);
      FirstPieceFree(s, sep);
      var rest := s[IndexOf(s, sep) + |sep|..];
      SplitPiecesFree(rest, sep);
      forall k | 0 <= k < |SplitOn(s, sep)|
        ensures !Occurs(SplitOn(s, sep)[k], sep)
      {
        if k > 0 {
          assert SplitOn(s, sep)[k] == SplitOn(rest, sep)[k - 1];
        }
      }
    }
  }

  lemma {:induction false} JoinSplitOn(s: Text, sep: Text)
    requires sep != []
    ensures Join(SplitOn(s, sep), sep) == s
    decreases |s|
  {
    var i := IndexOf(s, sep);
    if i != -1 {
      SplitOnFound(s, sep);
      var j := i + |sep|;
      var rest := s[j..];
      JoinSplitOn(rest, sep);
      JoinCons(s[..i], SplitOn(rest, sep), sep);
      Cut3(s, i, j);
    }
  }

  lemma {:induction false} JoinUnits(s: Text)
    ensures Join(Split(s, []), []) == s
  {
    if |s| > 1 {
      JoinUnits(s[1..]);
      assert Split(s, [])[1..] == Split(s[1..], []);
      assert s == [s[0]] + s[1..];
    }
  }

  /** Joining the pieces of a split with its separator gives the text back. */
  lemma JoinSplit(s: Text, sep: Text)
    ensures Join(Split(s, sep), sep) == s
  {
    if sep == [] { JoinUnits(s); } else { JoinSplitOn(s, sep); }
  }

  lemma {:induction false} JoinAppend(xs: seq<Text>, ys: seq<Text>)
    ensures Join(xs + ys, []) == Join(xs, []) + Join(ys, [])
    decreases |xs|
  {
    if xs == [] {
      assert xs + ys == ys;
    } else if |xs| == 1 {
      if ys != [] {
        assert (xs + ys)[1..] == ys;
      }
    } else {
      JoinAppend(xs[1..], ys);
      assert (xs + ys)[1..] == xs[1..] + ys;
    }
  }

  /** The last element of a non-empty list (what `pop` returns). */
  function LastOf(parts: seq<Text>): Text
    requires |parts| > 0
  {
    parts[|parts| - 1]
  }

  lemma LastCons(x: Text, xs: seq<Text>)
    requires |xs| >= 1
    ensures LastOf([x] + xs) == LastOf(xs)
  {
  }

  /** A join cut between two elements: the two halves joined apart, with one
      separator between them. */
  lemma {:induction false} JoinAt(parts: seq<Text>, sep: Text, k: nat)
    requires 0 < k < |parts|
    ensures Join(parts, sep) == Join(parts[..k], sep) + sep + Join(parts[k..], sep)
    decreases k
  {
    if k > 1 {
      JoinAt(parts[1..], sep, k - 1);
      assert parts[1..][..k - 1] == parts[..k][1..];
      assert parts[1..][k - 1..] == parts[k..];
    }
  }

  lemma JoinLast(parts: seq<Text>, sep: Text)
    requires |parts| >= 2
    ensures Join(parts, sep) == Join(parts[..|parts| - 1], sep) + sep + LastOf(parts)
  {
    JoinAt(parts, sep, |parts| - 1);
    assert parts[|parts| - 1..] == [LastOf(parts)];
  }

  /** The last piece of a split is a suffix of the input. */
  lemma SplitLastSuffix(s: Text, sep: Text)
    requires sep != []
    ensures IsSuffix(LastOf(SplitOn(s, sep)), s)
  {
    var parts := SplitOn(s, sep);
    if |parts| >= 2 {
      JoinSplitOn(s, sep);
      JoinLast(parts, sep);
      var front := Join(parts[..|parts| - 1], sep);
      assert s[|front| + |sep|..] == LastOf(parts);
    }
  }

  /** The last piece of a split holds no separator. */
  lemma {:induction false} SplitLastFree(s: Text, sep: Text)
    requires sep != []
    ensures !Occurs(LastOf(SplitOn(s, sep)), sep)
    decreases |s|
  {
    if IndexOf(s, sep) != -1 {
      SplitOnFound(s, sep);
      LastCons(s[..IndexOf(s, sep)], SplitOn(s[IndexOf(s, sep) + |sep|..], sep));
      SplitLastFree(s[IndexOf(s, sep) + |sep|..], sep);
    }
  }

  /** Pieces without a one-unit separator, joined with it, split back into
      themselves. */
  lemma {:induction false} SplitJoinUnit(ps: seq<Text>, c: CodeUnit)
    requires |ps| >= 1
    requires forall k :: 0 <= k < |ps| ==> !Occurs(ps[k], [c])
    ensures SplitOn(Join(ps, [c]), [c]) == ps
    decreases |ps|
  {
    if |ps| == 1 {
      SplitFirst(ps[0], [c]);
    } else {
      var joined := Join(ps, [c]);
      JoinCons(ps[0], ps[1..], [c]);
      assert [ps[0]] + ps[1..] == ps;
      UnitAfterFree(ps[0], c, Join(ps[1..], [c]));
      FirstAtIsIndexOf(joined, [c]);
      SplitOnFound(joined, [c]);
      assert joined[|ps[0]| + 1..] == Join(ps[1..], [c]);
      SplitJoinUnit(ps[1..], c);
    }
  }

  /** The first occurrence of a one-unit separator that follows a piece free
      of it is the one right after the piece. */
  lemma UnitAfterFree(x: Text, c: CodeUnit, y: Text)
    requires !Occurs(x, [c])
    ensures FirstAt(x + [c] + y, [c], |x|)
    ensures (x + [c] + y)[..|x|] == x
  {
    var s := x + [c] + y;
    assert s[|x|..|x| + 1] == [c];
    forall j | 0 <= j < |x|
      ensures !OccursAt(s, [c], j)
    {
      assert s[j..j + 1] == x[j..j + 1];
      assert OccursAt(s, [c], j) ==> OccursAt(x, [c], j);
    }
  }

  /** Likewise the last occurrence of a one-unit separator that precedes a
      piece free of it is the one right before the piece. */
  lemma UnitBeforeFree(x: Text, c: CodeUnit, y: Text)
    requires !Occurs(y, [c])
    ensures LastAt(x + [c] + y, [c], |x|)
    ensures (x + [c] + y)[..|x|] == x
  {
    var s := x + [c] + y;
    assert s[|x|..|x| + 1] == [c];
    forall j | |x| < j
      ensures !OccursAt(s, [c], j)
    {
      if j + 1 <= |s| {
        assert s[j..j + 1] == y[j - |x| - 1..j - |x|];
        assert OccursAt(s, [c], j) ==> OccursAt(y, [c], j - |x| - 1);
      }
    }
  }

  /** When the separator occurs, the last piece is preceded by one. */
  lemma SplitLastPreceded(s: Text, sep: Text)
    requires sep != [] && Occurs(s, sep)
    ensures |LastOf(SplitOn(s, sep))| + |sep| <= |s|
    ensures OccursAt(s, sep, |s| - |LastOf(SplitOn(s, sep))| - |sep|)
  {
    var parts := SplitOn(s, sep);
    assert |parts| >= 2;
    JoinSplitOn(s, sep);
    JoinLast(parts, sep);
    var front := Join(parts[..|parts| - 1], sep);
    assert s[|front|..|front| + |sep|] == sep;
  }

  // ---------------------------------------------------------------------
  // Replacing
  // ---------------------------------------------------------------------

  /** The number of replacement units one step of GetSubstitution consumes:
      two for `$$`, `$&`, `` $` `` and `$'`, one for anything else. */
  function TokenWidth(replacement: Text): (w: nat)
    requires replacement != []
    ensures 1 <= w <= |replacement|
  {
    if replacement[0] == 0x24 && |replacement| >= 2
       && (replacement[1] == 0x24 || replacement[1] == 0x26 || replacement[1] == 0x60 || replacement[1] == 0x27)
    then 2
    else 1
  }

  /** What that step produces: a dollar sign for `$$`, the match for `$&`,
      the text before it for `` $` ``, the text after it for `$'`, and the
      unit itself otherwise (a lone `$` included). */
  function TokenText(replacement: Text, s: Text, pos: nat, matched: Text): Text
    requires replacement != [] && pos + |matched| <= |s|
  {
    if TokenWidth(replacement) == 1 then [replacement[0]]
    else if replacement[1] == 0x24 then [0x24]
    else if replacement[1] == 0x26 then matched
    else if replacement[1] == 0x60 then s[..pos]
    else s[pos + |matched|..]
  }

  /** The replacement text of one match (GetSubstitution without capture
      groups), token by token. */
  function Substitute(replacement: Text, s: Text, pos: nat, matched: Text): (r: Text)
    requires pos + |matched| <= |s|
    ensures NoDollar(replacement) ==> r == replacement
    decreases |replacement|
  {
    if replacement == [] then []
    else
      var rest := Substitute(replacement[TokenWidth(replacement)..], s, pos, matched);
      assert NoDollar(replacement) ==> TokenWidth(replacement) == 1 && NoDollar(replacement[1..]);
      TokenText(replacement, s, pos, matched) + rest
  }

  /** Text without a dollar sign is copied as it stands. */
  lemma {:induction false} SubstituteLiteralPrefix(a: Text, b: Text, s: Text, pos: nat, matched: Text)
    requires pos + |matched| <= |s| && NoDollar(a)
    ensures Substitute(a + b, s, pos, matched) == a + Substitute(b, s, pos, matched)
    decreases |a|
  {
    if |a| == 0 {
      assert a + b == b;
    } else {
      var ab := a + b;
      assert ab[0] == a[0] != 0x24;
      assert TokenWidth(ab) == 1;
      assert ab[1..] == a[1..] + b;
      SubstituteLiteralPrefix(a[1..], b, s, pos, matched);
      ConcatAssoc([a[0]], a[1..], Substitute(b, s, pos, matched));
      HeadTail(a);
      calc {
        Substitute(ab, s, pos, matched);
        [a[0]] + Substitute(a[1..] + b, s, pos, matched);
        [a[0]] + (a[1..] + Substitute(b, s, pos, matched));
        ([a[0]] + a[1..]) + Substitute(b, s, pos, matched);
        a + Substitute(b, s, pos, matched);
      }
    }
  }

  /** The four two-unit patterns `$$`, `$&`, `` $` `` and `$'`. */
  lemma SubstitutePatterns(rest: Text, s: Text, pos: nat, matched: Text)
    requires pos + |matched| <= |s|
    ensures Substitute([0x24, 0x24] + rest, s, pos, matched) == [0x24] + Substitute(rest, s, pos, matched)
    ensures Substitute([0x24, 0x26] + rest, s, pos, matched) == matched + Substitute(rest, s, pos, matched)
    ensures Substitute([0x24, 0x60] + rest, s, pos, matched) == s[..pos] + Substitute(rest, s, pos, matched)
    ensures Substitute([0x24, 0x27] + rest, s, pos, matched) == s[pos + |matched|..] + Substitute(rest, s, pos, matched)
  {
    SubstituteTwo([0x24, 0x24] + rest, rest, s, pos, matched);
    SubstituteTwo([0x24, 0x26] + rest, rest, s, pos, matched);
    SubstituteTwo([0x24, 0x60] + rest, rest, s, pos, matched);
    SubstituteTwo([0x24, 0x27] + rest, rest, s, pos, matched);
  }

  lemma SubstituteTwo(r: Text, rest: Text, s: Text, pos: nat, matched: Text)
    requires pos + |matched| <= |s|
    requires |r| >= 2 && r[0] == 0x24 && r[2..] == rest
    requires r[1] == 0x24 || r[1] == 0x26 || r[1] == 0x60 || r[1] == 0x27
    ensures Substitute(r, s, pos, matched) == TokenText(r, s, pos, matched) + Substitute(rest, s, pos, matched)
  {
    assert TokenWidth(r) == 2;
  }

  /** A dollar sign that starts none of those patterns stands for itself. */
  lemma SubstituteLoneDollar(rest: Text, s: Text, pos: nat, matched: Text)
    requires pos + |matched| <= |s|
    requires |rest| == 0 || (rest[0] != 0x24 && rest[0] != 0x26 && rest[0] != 0x60 && rest[0] != 0x27)
    ensures Substitute([0x24] + rest, s, pos, matched) == [0x24] + Substitute(rest, s, pos, matched)
  {
    assert ([0x24] + rest)[1..] == rest;
  }

  /** `replace` with a string pattern: the first occurrence only. */
  function ReplaceOnce(s: Text, search: Text, replacement: Text): (r: Text)
    ensures !Occurs(s, search) ==> r == s
    ensures forall i :: FirstAt(s, search, i) ==>
              r == s[..i] + Substitute(replacement, s, i, search) + s[i + |search|..]
  {
    FirstAtIsIndexOf(s, search);
    var i := IndexOf(s, search);
    if i == -1 then s else s[..i] + Substitute(replacement, s, i, search) + s[i + |search|..]
  }

  /** The replacement text of the match at each position, as `replaceAll`
      computes it: `Substitute` for a match that fits in `s` (every position
      the scan below uses), the bare replacement elsewhere. */
  function SubstituteAt(s: Text, search: Text, replacement: Text): nat -> Text
  {
    (i: nat) => if i + |search| <= |s| then Substitute(replacement, s, i, search) else replacement
  }

  /** `replaceAll` with a string pattern on the rest `t` of a text that
      starts at `offset`, where `sub(p)` is the text put in place of the
      match at position p of the whole text: every occurrence found from
      left to right without overlap, each search resuming right after the
      previous match; an empty pattern matches at every position, the end
      included. */
  function ReplaceAllIn(t: Text, search: Text, sub: nat -> Text, offset: nat): Text
    decreases |t|
  {
    if |search| == 0 then
      sub(offset) + (if |t| == 0 then [] else [t[0]] + ReplaceAllIn(t[1..], search, sub, offset + 1))
    else if IndexOf(t, search) == -1 then t
    else
      t[..IndexOf(t, search)] + sub(offset + IndexOf(t, search))
      + ReplaceAllIn(t[IndexOf(t, search) + |search|..], search, sub, offset + IndexOf(t, search) + |search|)
  }

  function ReplaceAll(s: Text, search: Text, replacement: Text): Text
  {
    ReplaceAllIn(s, search, SubstituteAt(s, search, replacement), 0)
  }

  /** One step of a split joined back with another separator. */
  lemma JoinSplitStep(t: Text, sep: Text, glue: Text)
    requires sep != [] && IndexOf(t, sep) != -1
    ensures Join(SplitOn(t, sep), glue)
            == t[..IndexOf(t, sep)] + glue + Join(SplitOn(t[IndexOf(t, sep) + |sep|..], sep), glue)
  {
    SplitOnFound(t, sep);
    JoinCons(t[..IndexOf(t, sep)], SplitOn(t[IndexOf(t, sep) + |sep|..], sep), glue);
  }

  /** One step of the scan, with `glue` put in place of the match. */
  lemma ReplaceAllInStep(t: Text, search: Text, sub: nat -> Text, glue: Text, offset: nat)
    requires |search| > 0 && IndexOf(t, search) != -1 && sub(offset + IndexOf(t, search)) == glue
    ensures ReplaceAllIn(t, search, sub, offset)
            == t[..IndexOf(t, search)] + glue
               + ReplaceAllIn(t[IndexOf(t, search) + |search|..], search, sub, offset + IndexOf(t, search) + |search|)
  {
  }

  /** Putting the same text in place of every match of a non-empty pattern
      is joining the pieces of the split on it with that text. */
  lemma {:induction false} ReplaceAllInIsSplitJoin(t: Text, search: Text, sub: nat -> Text, glue: Text, offset: nat)
    requires |search| > 0
    requires forall p: nat :: sub(p) == glue
    ensures ReplaceAllIn(t, search, sub, offset) == Join(SplitOn(t, search), glue)
    decreases |t|
  {
    if IndexOf(t, search) != -1 {
      ReplaceAllInStep(t, search, sub, glue, offset);
      JoinSplitStep(t, search, glue);
      ReplaceAllInIsSplitJoin(t[IndexOf(t, search) + |search|..], search, sub, glue, offset + IndexOf(t, search) + |search|);
    }
  }

  /** Replacing every occurrence of a non-empty pattern by a text without `$`
      is joining the pieces of the split on it with that text. */
  lemma ReplaceAllIsSplitJoin(s: Text, search: Text, replacement: Text)
    requires search != [] && NoDollar(replacement)
    ensures ReplaceAll(s, search, replacement) == Join(SplitOn(s, search), replacement)
  {
    var sub := SubstituteAt(s, search, replacement);
    assert forall p: nat :: sub(p) == replacement;
    ReplaceAllInIsSplitJoin(s, search, sub, replacement, 0);
  }

  /** With an empty pattern and nothing put in place of the matches, the scan
      gives back the text. */
  lemma {:induction false} ReplaceAllInEmpty(t: Text, sub: nat -> Text, offset: nat)
    requires forall p: nat :: sub(p) == []
    ensures ReplaceAllIn(t, [], sub, offset) == t
    decreases |t|
  {
    if |t| > 0 {
      ReplaceAllInEmpty(t[1..], sub, offset + 1);
      assert t == [t[0]] + t[1..];
    }
  }

  /** With an empty pattern the same text goes in before every unit and at
      the end. */
  lemma {:induction false} ReplaceAllInEmptySearch(t: Text, sub: nat -> Text, glue: Text, offset: nat)
    requires forall p: nat :: sub(p) == glue
    ensures ReplaceAllIn(t, [], sub, offset) == if |t| == 0 then glue else glue + Join(Split(t, []), glue) + glue
    decreases |t|
  {
    if |t| > 0 {
      var tail := ReplaceAllIn(t[1..], [], sub, offset + 1);
      assert ReplaceAllIn(t, [], sub, offset) == glue + ([t[0]] + tail);
      ReplaceAllInEmptySearch(t[1..], sub, glue, offset + 1);
      if |t| == 1 {
        assert Split(t, []) == [[t[0]]];
      } else {
        assert Split(t, []) == [[t[0]]] + Split(t[1..], []);
        JoinCons([t[0]], Split(t[1..], []), glue);
      }
    }
  }

  // ---------------------------------------------------------------------
  // Padding, trimming, case
  // ---------------------------------------------------------------------

  /** The filler of `padStart`/`padEnd`: `pad` repeated and cut to n units,
      that is, it starts like `pad` and repeats with period |pad|. */
  function Filler(pad: Text, n: nat): (f: Text)
    requires pad != []
    ensures |f| == n
    ensures forall i :: 0 <= i < n && i < |pad| ==> f[i] == pad[i]
    ensures forall i :: |pad| <= i < n ==> f[i] == f[i - |pad|]
    decreases n
  {
    if n <= |pad| then pad[..n] else pad + Filler(pad, n - |pad|)
  }

  /** `padStart(maxLength, fill)`. */
  function PadStart(s: Text, maxLength: nat, fill: Text): Text
  {
    if maxLength <= |s| || fill == [] then s else Filler(fill, maxLength - |s|) + s
  }

  /** `padEnd(maxLength, fill)`. */
  function PadEnd(s: Text, maxLength: nat, fill: Text): Text
  {
    if maxLength <= |s| || fill == [] then s else s + Filler(fill, maxLength - |s|)
  }

  /** `trimEnd`: the longest prefix that does not end in white space. */
  function TrimEnd(s: Text): (r: Text)
    ensures r <= s
    ensures r == [] || !IsWhiteSpace(r[|r| - 1])
    ensures forall i :: |r| <= i < |s| ==> IsWhiteSpace(s[i])
    decreases |s|
  {
    if s != [] && IsWhiteSpace(s[|s| - 1]) then TrimEnd(s[..|s| - 1]) else s
  }

  /** `replace(/\s/g, "")`: the text with every white-space unit deleted. */
  function RemoveWhiteSpace(s: Text): (r: Text)
    ensures |r| <= |s|
    ensures forall c :: c in r ==> c in s && !IsWhiteSpace(c)
    ensures (forall i :: 0 <= i < |s| ==> !IsWhiteSpace(s[i])) ==> r == s
  {
    if |s| == 0 then []
    else (if IsWhiteSpace(s[0]) then [] else [s[0]]) + RemoveWhiteSpace(s[1..])
  }

  /** Deleting white space from a concatenation deletes it from each part. */
  lemma {:induction false} RemoveWhiteSpaceConcat(a: Text, b: Text)
    ensures RemoveWhiteSpace(a + b) == RemoveWhiteSpace(a) + RemoveWhiteSpace(b)
    decreases |a|
  {
    if |a| == 0 {
      assert a + b == b;
      assert RemoveWhiteSpace(a) == [];
    } else {
      var ab := a + b;
      assert ab[0] == a[0];
      assert ab[1..] == a[1..] + b;
      RemoveWhiteSpaceConcat(a[1..], b);
      var head: Text := if IsWhiteSpace(a[0]) then [] else [a[0]];
      assert RemoveWhiteSpace(ab) == head + RemoveWhiteSpace(a[1..] + b);
      assert RemoveWhiteSpace(a) == head + RemoveWhiteSpace(a[1..]);
      ConcatAssoc(head, RemoveWhiteSpace(a[1..]), RemoveWhiteSpace(b));
    }
  }

  /** A text of white space only is deleted entirely. */
  lemma {:induction false} RemoveWhiteSpaceBlank(s: Text)
    requires forall i :: 0 <= i < |s| ==> IsWhiteSpace(s[i])
    ensures RemoveWhiteSpace(s) == []
    decreases |s|
  {
    if |s| > 0 {
      assert IsWhiteSpace(s[0]);
      RemoveWhiteSpaceBlank(s[1..]);
    }
  }

  lemma HeadTail(x: Text)
    requires |x| > 0
    ensures x == [x[0]] + x[1..]
  {
  }

  lemma ConcatAssoc(x: Text, y: Text, z: Text)
    ensures x + (y + z) == (x + y) + z
  {
  }

  /** One unit is deleted exactly when it is white space. */
  lemma RemoveWhiteSpaceUnit(c: CodeUnit)
    ensures RemoveWhiteSpace([c]) == if IsWhiteSpace(c) then [] else [c]
  {
    assert [c][1..] == [];
  }

  /** A kept unit lands right after what is kept of the text before it. */
  lemma RemoveWhiteSpaceAt(s: Text, i: nat)
    requires i < |s| && !IsWhiteSpace(s[i])
    ensures |RemoveWhiteSpace(s[..i])| < |RemoveWhiteSpace(s)|
    ensures RemoveWhiteSpace(s)[|RemoveWhiteSpace(s[..i])|] == s[i]
  {
    assert s == s[..i] + [s[i]] + s[i + 1..];
    RemoveWhiteSpaceConcat(s[..i] + [s[i]], s[i + 1..]);
    RemoveWhiteSpaceConcat(s[..i], [s[i]]);
    RemoveWhiteSpaceUnit(s[i]);
  }

  /** `toLowerCase`, on the ASCII range. */
  function ToLowerCase(s: Text): (r: Text)
    ensures |r| == |s|
    ensures forall i :: 0 <= i < |s| ==> r[i] == ToLowerUnit(s[i])
  {
    seq(|s|, i requires 0 <= i < |s| => ToLowerUnit(s[i]))
  }
}
