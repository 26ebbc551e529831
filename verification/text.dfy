/**
 The Python `str` operations the scraper relies on (`strip`, `lower`, `title`,
 `in`, `find`, `startswith`, `endswith`, `split`, `replace`), modelled on
 `string == seq<char>` where a `char` is one Unicode scalar value, as a
 Python code point is.
 */
module Text {

  /* ---------------------------------------------------------------------- */
  /* Whitespace and `strip`                                                  */
  /* ---------------------------------------------------------------------- */

  /** Python's `str.isspace` on one code point: the code points CPython
      treats as whitespace, range by range (tab to carriage return, the four
      separators U+001C..U+001F, space, NEL, no-break space, the Ogham space
      mark, the typographic spaces U+2000..U+200A, the line and paragraph
      separators, the narrow no-break and medium mathematical spaces, and the
      ideographic space). */
  predicate IsSpace(c: char) {
    ('\t' <= c <= '\r') || ('\U{1c}' <= c <= '\U{1f}') || c == ' '
    || c == '\U{85}' || c == '\U{a0}' || c == '\U{1680}'
    || ('\U{2000}' <= c <= '\U{200a}') || c == '\U{2028}' || c == '\U{2029}'
    || c == '\U{202f}' || c == '\U{205f}' || c == '\U{3000}'
  }

  predicate AllSpace(s: string) {
    forall k :: 0 <= k < |s| ==> IsSpace(s[k])
  }

  /** Neither end of `s` is whitespace: what `strip()` guarantees. */
  predicate IsStripped(s: string) {
    |s| == 0 || (!IsSpace(s[0]) && !IsSpace(s[|s| - 1]))
  }

  /** `s` is `r` with only whitespace added on either side, `r` starting at
      index `lo`. */
  ghost predicate TrimsAt(s: string, r: string, lo: int) {
    0 <= lo <= |s| - |r| && s[lo..lo + |r|] == r
    && AllSpace(s[..lo]) && AllSpace(s[lo + |r|..])
  }

  /** `s` is `r` with only whitespace added on either side. */
  ghost predicate Trims(s: string, r: string) {
    exists lo :: TrimsAt(s, r, lo)
  }

  /** Python `s.strip()`: `s` without the whitespace at either end, removed
      one character at a time. */
  function Strip(s: string): (r: string)
    ensures |r| <= |s|
    ensures IsStripped(r)
    decreases |s|
  {
    if |s| > 0 && IsSpace(s[0]) then Strip(s[1..])
    else if |s| > 0 && IsSpace(s[|s| - 1]) then Strip(s[..|s| - 1])
    else s
  }

  /** All that `strip()` removes is whitespace, from the two ends. */
  lemma {:induction false} StripTrims(s: string)
    ensures Trims(s, Strip(s))
    decreases |s|
  {
    if |s| > 0 && IsSpace(s[0]) {
      StripTrims(s[1..]);
      var lo :| TrimsAt(s[1..], Strip(s[1..]), lo);
      TrimsFront(s, Strip(s[1..]), lo);
    } else if |s| > 0 && IsSpace(s[|s| - 1]) {
      StripTrims(s[..|s| - 1]);
      var lo :| TrimsAt(s[..|s| - 1], Strip(s[..|s| - 1]), lo);
      TrimsBack(s, Strip(s[..|s| - 1]), lo);
    } else {
      assert s[0..|s|] == s && s[..0] == [] && s[|s|..] == [];
      assert TrimsAt(s, s, 0);
    }
  }

  /** A whitespace character in front keeps the trimming. */
  lemma TrimsFront(s: string, r: string, lo: int)
    requires |s| > 0 && IsSpace(s[0]) && TrimsAt(s[1..], r, lo)
    ensures TrimsAt(s, r, lo + 1)
  {
    var t := s[1..];
    assert s[lo + 1..lo + 1 + |r|] == t[lo..lo + |r|];
    assert s[lo + 1 + |r|..] == t[lo + |r|..];
    SpacesFront(s[..lo + 1], t[..lo]);
  }

  lemma SpacesFront(u: string, t: string)
    requires |u| == |t| + 1 && IsSpace(u[0]) && AllSpace(t)
    requires forall k :: 0 <= k < |t| ==> u[k + 1] == t[k]
    ensures AllSpace(u)
  {
    forall k | 1 <= k < |u|
      ensures IsSpace(u[k])
    {
      assert u[k] == t[k - 1];
    }
  }

  /** A whitespace character behind keeps the trimming. */
  lemma TrimsBack(s: string, r: string, lo: int)
    requires |s| > 0 && IsSpace(s[|s| - 1]) && TrimsAt(s[..|s| - 1], r, lo)
    ensures TrimsAt(s, r, lo)
  {
    var t := s[..|s| - 1];
    assert s[lo..lo + |r|] == t[lo..lo + |r|];
    assert s[..lo] == t[..lo];
    SpacesBack(s[lo + |r|..], t[lo + |r|..]);
  }

  lemma SpacesBack(u: string, t: string)
    requires |u| == |t| + 1 && IsSpace(u[|u| - 1]) && AllSpace(t)
    requires forall k :: 0 <= k < |t| ==> u[k] == t[k]
    ensures AllSpace(u)
  {
  }

  /* ---------------------------------------------------------------------- */
  /* Letter case                                                             */
  /* ---------------------------------------------------------------------- */

  /** Upper-case letters: ASCII and Latin-1 (À..Þ without ×). */
  predicate IsUpper(c: char) {
    ('A' <= c <= 'Z') || ('\U{c0}' <= c <= '\U{de}' && c != '\U{d7}')
  }

  /** Lower-case letters: ASCII and Latin-1 (ß..ÿ without ÷, and the
      feminine and masculine ordinals ª, º and the micro sign µ). */
  predicate IsLower(c: char) {
    ('a' <= c <= 'z') || ('\U{df}' <= c <= '\U{ff}' && c != '\U{f7}')
    || c == '\U{aa}' || c == '\U{b5}' || c == '\U{ba}'
  }

  /** Lower-case letters whose upper-case form is also in Latin-1, 32 code
      points below: a..z and à..þ without ÷. */
  predicate HasLatinUpper(c: char) {
    ('a' <= c <= 'z') || ('\U{e0}' <= c <= '\U{fe}' && c != '\U{f7}')
  }

  /** A cased character, in the sense of Python's `str.title`. */
  predicate IsCased(c: char) {
    IsUpper(c) || IsLower(c)
  }

  function LowerChar(c: char): (d: char)
    ensures IsUpper(c) ==> IsLower(d)
    ensures !IsUpper(c) ==> d == c
  {
    if IsUpper(c) then (c as int + 32) as char else c
  }

  /** ß, ÿ, ª, º and µ have no upper-case form inside Latin-1 and are left
      as they are. */
  function UpperChar(c: char): (d: char)
    ensures IsLower(c) ==> IsCased(d)
    ensures HasLatinUpper(c) ==> IsUpper(d) && LowerChar(d) == c
    ensures !HasLatinUpper(c) ==> d == c
  {
    if HasLatinUpper(c) then (c as int - 32) as char else c
  }

  /** Python `s.lower()`. */
  function Lower(s: string): (r: string)
    ensures |r| == |s|
    decreases |s|
  {
    if |s| == 0 then [] else [LowerChar(s[0])] + Lower(s[1..])
  }

  /** `lower()` works character by character. */
  lemma {:induction false} LowerAt(s: string)
    ensures forall k :: 0 <= k < |s| ==> Lower(s)[k] == LowerChar(s[k])
    decreases |s|
  {
    if |s| > 0 {
      LowerAt(s[1..]);
      forall k | 1 <= k < |s|
        ensures Lower(s)[k] == LowerChar(s[k])
      {
        assert Lower(s)[k] == Lower(s[1..])[k - 1];
        assert s[k] == s[1..][k - 1];
      }
    }
  }

  /** After `lower()` no upper-case letter is left. */
  lemma LowerHasNoUpper(s: string)
    ensures forall k :: 0 <= k < |Lower(s)| ==> !IsUpper(Lower(s)[k])
  {
    LowerAt(s);
  }

  /** The character `title()` writes for `c`: a cased character is
      upper-cased when the character before it is uncased (or it starts the
      text) and lower-cased otherwise; an uncased one is kept. */
  function TitleChar(c: char, prevCased: bool): char {
    if !IsCased(c) then c else if prevCased then LowerChar(c) else UpperChar(c)
  }

  /** Python `str.title()` continued from a state where the previous
      character was (or was not) cased. */
  function TitleFrom(s: string, prevCased: bool): (r: string)
    ensures |r| == |s|
    decreases |s|
  {
    if |s| == 0 then ""
    else [TitleChar(s[0], prevCased)] + TitleFrom(s[1..], IsCased(s[0]))
  }

  /** Python `s.title()`. */
  function Title(s: string): string {
    TitleFrom(s, false)
  }

  /** `title()` works position by position: each character is written as
      `TitleChar` decides from whether the character before it in the input
      is cased. */
  lemma {:induction false} TitleFromAt(s: string, prevCased: bool)
    ensures forall k :: 0 <= k < |s| ==>
              TitleFrom(s, prevCased)[k] == TitleChar(s[k], if k == 0 then prevCased else IsCased(s[k - 1]))
    decreases |s|
  {
    if |s| > 0 {
      TitleFromAt(s[1..], IsCased(s[0]));
      assert TitleFrom(s, prevCased)[0] == TitleChar(s[0], prevCased);
      forall k | 1 <= k < |s|
        ensures TitleFrom(s, prevCased)[k] == TitleChar(s[k], IsCased(s[k - 1]))
      {
        assert TitleFrom(s, prevCased)[k] == TitleFrom(s[1..], IsCased(s[0]))[k - 1];
        assert s[k] == s[1..][k - 1];
        if k > 1 {
          assert s[k - 1] == s[1..][k - 2];
        }
      }
    }
  }

  /** Each word starts upper-case and continues lower-case; the micro sign
      is a cased letter, so the letter after it is lower-cased. */
  lemma TitleExample(s: string)
    requires s == "ab c\U{b5}D"
    ensures Title(s) == "Ab C\U{b5}d"
  {
    TitleFromAt(s, false);
    var r := Title(s);
    assert r[0] == 'A' && r[1] == 'b' && r[2] == ' ';
    assert r[3] == TitleChar('c', false) == 'C';
    assert IsCased(s[3]) && IsLower('\U{b5}') && !IsUpper('\U{b5}');
    assert r[4] == TitleChar('\U{b5}', true) == '\U{b5}';
    assert r[5] == TitleChar('D', true) == 'd';
  }

  /** `title()` only changes case: lower-casing the title gives the lower-cased
      input back, and a character is cased after `title()` exactly when it
      was before. */
  lemma {:induction false} TitleFromPreservesLetters(s: string, prevCased: bool)
    ensures Lower(TitleFrom(s, prevCased)) == Lower(s)
    ensures forall k :: 0 <= k < |s| ==> (IsCased(TitleFrom(s, prevCased)[k]) <==> IsCased(s[k]))
    decreases |s|
  {
    if |s| > 0 {
      TitleFromPreservesLetters(s[1..], IsCased(s[0]));
      var r := TitleFrom(s, prevCased);
      assert r[1..] == TitleFrom(s[1..], IsCased(s[0]));
      assert LowerChar(r[0]) == LowerChar(s[0]);
      forall k | 1 <= k < |s|
        ensures IsCased(r[k]) <==> IsCased(s[k])
      {
        assert r[k] == r[1..][k - 1];
        assert s[k] == s[1..][k - 1];
      }
    }
  }

  /* ---------------------------------------------------------------------- */
  /* Substring search                                                        */
  /* ---------------------------------------------------------------------- */

  /** `sub` occurs in `s` starting at index `j`. */
  predicate OccursAt(s: string, sub: string, j: int) {
    0 <= j && j + |sub| <= |s| && s[j..j + |sub|] == sub
  }

  /** Python `s.find(sub, i)` for `0 <= i <= |s|`: the first index at or after
      `i` where `sub` occurs, or -1. */
  function FindFrom(s: string, sub: string, i: nat): (r: int)
    requires i <= |s|
    ensures r == -1 || (i <= r && OccursAt(s, sub, r))
    ensures r == -1 ==> forall j :: i <= j <= |s| ==> !OccursAt(s, sub, j)
    ensures r >= 0 ==> forall j :: i <= j < r ==> !OccursAt(s, sub, j)
    decreases |s| - i
  {
    if i + |sub| > |s| then -1
    else if s[i..i + |sub|] == sub then i
    else FindFrom(s, sub, i + 1)
  }

  /** Python `s.find(sub)`. */
  function Find(s: string, sub: string): (r: int)
    ensures r == -1 || OccursAt(s, sub, r)
    ensures r == -1 ==> forall j :: 0 <= j <= |s| ==> !OccursAt(s, sub, j)
    ensures r >= 0 ==> forall j :: 0 <= j < r ==> !OccursAt(s, sub, j)
  {
    FindFrom(s, sub, 0)
  }

  /** Python `sub in s`. */
  predicate Contains(s: string, sub: string) {
    Find(s, sub) >= 0
  }

  /** `in` holds as soon as one occurrence is known. */
  lemma OccursContains(s: string, sub: string, j: int)
    requires OccursAt(s, sub, j)
    ensures Contains(s, sub)
  {
  }

  /** Python `s.startswith(p)`. */
  predicate StartsWith(s: string, p: string) {
    |p| <= |s| && s[..|p|] == p
  }

  /** Python `s.endswith(p)`. */
  predicate EndsWith(s: string, p: string) {
    |p| <= |s| && s[|s| - |p|..] == p
  }

  /** The first occurrence of a character `c` in `p + [c] + q`, when `p`
      does not hold it, is right after `p`. */
  lemma FindChar(p: string, c: char, q: string)
    requires forall k :: 0 <= k < |p| ==> p[k] != c
    ensures Find(p + [c] + q, [c]) == |p|
  {
    var z := p + [c] + q;
    assert z[|p|..|p| + 1] == [c];
    assert OccursAt(z, [c], |p|);
    forall j | 0 <= j < |p|
      ensures !OccursAt(z, [c], j)
    {
      assert z[j] == p[j] != c;
      assert z[j..j + 1] == [p[j]];
    }
  }

  /** `m` occurs in `a + m + b`. */
  lemma ContainsMiddle(a: string, m: string, b: string)
    ensures Contains(a + m + b, m)
  {
    assert (a + m + b)[|a|..|a| + |m|] == m;
    assert OccursAt(a + m + b, m, |a|);
  }

  /** An occurrence in `a` stays one in `a + b`. */
  lemma ContainsExtend(a: string, b: string, sub: string)
    requires Contains(a, sub)
    ensures Contains(a + b, sub)
  {
    var j := Find(a, sub);
    assert (a + b)[j..j + |sub|] == a[j..j + |sub|];
    assert OccursAt(a + b, sub, j);
  }

  /** A marker like `[BODY]`: it opens with `[`, which occurs nowhere else in
      it. Such a marker cannot overlap itself or another such marker. */
  predicate Bracketed(m: string) {
    |m| >= 2 && m[0] == '[' && forall k :: 1 <= k < |m| ==> m[k] != '['
  }

  /** A prefix of `s` holds only the occurrences that `s` holds there. */
  lemma NoOccurrenceInPrefix(s: string, sub: string, i: nat)
    requires |sub| > 0 && i <= |s|
    requires forall j :: 0 <= j < i ==> !OccursAt(s, sub, j)
    ensures !Contains(s[..i], sub)
  {
    forall j | 0 <= j <= i
      ensures !OccursAt(s[..i], sub, j)
    {
      if j + |sub| <= i {
        assert !OccursAt(s, sub, j);
        assert s[..i][j..j + |sub|] == s[j..j + |sub|];
      }
    }
  }

  /** The first occurrence of a bracketed marker `m` in `a + m + b`, when `a`
      does not contain it, is the one right after `a`. */
  lemma {:induction false} FindAfterPrefix(a: string, m: string, b: string)
    requires Bracketed(m)
    requires !Contains(a, m)
    ensures Find(a + m + b, m) == |a|
  {
    var z := a + m + b;
    assert z[|a|..|a| + |m|] == m;
    assert OccursAt(z, m, |a|);
    forall j | 0 <= j < |a|
      ensures !OccursAt(z, m, j)
    {
      if j + |m| <= |a| {
        assert z[j..j + |m|] == a[j..j + |m|];
        assert !OccursAt(a, m, j);
      } else {
        var k := |a| - j;
        assert z[j..j + |m|][k] == z[|a|] == '[';
        assert m[k] != '[';
      }
    }
  }

  /** Two bracketed markers that differ in their second character cannot
      form an occurrence of one across a copy of the other: if neither `x`
      nor `y` contains `m`, neither does `x + n + y`. */
  lemma {:induction false} NotContainsAround(x: string, n: string, y: string, m: string)
    requires Bracketed(m) && Bracketed(n) && m[1] != n[1]
    requires !Contains(x, m) && !Contains(y, m)
    ensures !Contains(x + n + y, m)
  {
    var z := x + n + y;
    forall j | 0 <= j <= |z|
      ensures !OccursAt(z, m, j)
    {
      if j + |m| <= |z| {
        var w := z[j..j + |m|];
        if j + |m| <= |x| {
          assert w == x[j..j + |m|];
          assert !OccursAt(x, m, j);
        } else if j >= |x| + |n| {
          var j' := j - |x| - |n|;
          assert w == y[j'..j' + |m|];
          assert !OccursAt(y, m, j');
        } else if j < |x| {
          var k := |x| - j;
          assert w[k] == n[0] == '[';
          assert m[k] != '[';
        } else if j == |x| {
          assert w[1] == n[1];
        } else {
          assert w[0] == n[j - |x|];
          assert n[j - |x|] != '[';
        }
      }
    }
  }

  /* ---------------------------------------------------------------------- */
  /* split, join and replace                                                 */
  /* ---------------------------------------------------------------------- */

  /** Python `s.split(sep)` for a non-empty separator: the pieces between
      the successive left-most, non-overlapping occurrences of `sep`. */
  function Split(s: string, sep: string): (r: seq<string>)
    requires |sep| > 0
    ensures |r| >= 1
    ensures |r| >= 2 <==> Contains(s, sep)
    decreases |s|
  {
    var i := Find(s, sep);
    if i < 0 then [s] else [s[..i]] + Split(s[i + |sep|..], sep)
  }

  /** Python `sep.join(parts)`. */
  function Join(parts: seq<string>, sep: string): string
    decreases |parts|
  {
    if |parts| == 0 then ""
    else if |parts| == 1 then parts[0]
    else parts[0] + sep + Join(parts[1..], sep)
  }

  lemma JoinCons(p: string, ps: seq<string>, sep: string)
    requires |ps| >= 1
    ensures Join([p] + ps, sep) == p + sep + Join(ps, sep)
  {
    assert ([p] + ps)[1..] == ps;
  }

  /** One step of `split`: the piece before the first separator, then the
      split of what follows it. */
  lemma SplitUnfold(s: string, sep: string)
    requires |sep| > 0 && Find(s, sep) >= 0
    ensures Split(s, sep) == [s[..Find(s, sep)]] + Split(s[Find(s, sep) + |sep|..], sep)
    ensures s == s[..Find(s, sep)] + sep + s[Find(s, sep) + |sep|..]
  {
    var i := Find(s, sep);
    assert s[i..i + |sep|] == sep;
    assert s == s[..i] + s[i..i + |sep|] + s[i + |sep|..];
  }

  /** `split` loses nothing: joining the pieces with the separator gives the
      input back. */
  lemma {:induction false} SplitJoin(s: string, sep: string)
    requires |sep| > 0
    ensures Join(Split(s, sep), sep) == s
    decreases |s|
  {
    var i := Find(s, sep);
    if i >= 0 {
      var rest := s[i + |sep|..];
      SplitUnfold(s, sep);
      SplitJoin(rest, sep);
      JoinCons(s[..i], Split(rest, sep), sep);
    }
  }

  /** No piece of `split` contains the separator. */
  lemma {:induction false} SplitPiecesFree(s: string, sep: string)
    requires |sep| > 0
    ensures forall k :: 0 <= k < |Split(s, sep)| ==> !Contains(Split(s, sep)[k], sep)
    decreases |s|
  {
    var i := Find(s, sep);
    if i >= 0 {
      var rest := s[i + |sep|..];
      SplitPiecesFree(rest, sep);
      var r := Split(s, sep);
      assert r[1..] == Split(rest, sep);
      NoOccurrenceInPrefix(s, sep, i);
      forall k | 1 <= k < |r|
        ensures !Contains(r[k], sep)
      {
        assert r[k] == Split(rest, sep)[k - 1];
      }
    }
  }

  /** A string without the separator splits into itself alone. */
  lemma SplitAbsent(s: string, sep: string)
    requires |sep| > 0 && !Contains(s, sep)
    ensures Split(s, sep) == [s]
  {
  }

  /** Splitting at a bracketed marker that `a` does not contain cuts right
      after `a`. */
  lemma SplitAfterPrefix(a: string, m: string, b: string)
    requires Bracketed(m)
    requires !Contains(a, m)
    ensures Split(a + m + b, m) == [a] + Split(b, m)
  {
    var z := a + m + b;
    FindAfterPrefix(a, m, b);
    assert z[..|a|] == a;
    assert z[|a| + |m|..] == b;
  }

  /** Python `s.replace(pat, rep)` for a non-empty `pat`: every left-most,
      non-overlapping occurrence of `pat` is replaced by `rep`. */
  function Replace(s: string, pat: string, rep: string): (r: string)
    requires |pat| > 0
    decreases |s|
  {
    var i := Find(s, pat);
    if i < 0 then s else s[..i] + rep + Replace(s[i + |pat|..], pat, rep)
  }

  /** `replace` is `split` followed by `join`, as Python documents it. */
  lemma {:induction false} ReplaceIsSplitJoin(s: string, pat: string, rep: string)
    requires |pat| > 0
    ensures Replace(s, pat, rep) == Join(Split(s, pat), rep)
    decreases |s|
  {
    var i := Find(s, pat);
    if i >= 0 {
      var rest := s[i + |pat|..];
      ReplaceIsSplitJoin(rest, pat, rep);
      var r := Split(s, pat);
      assert r[1..] == Split(rest, pat);
    }
  }

  /** Replacing one character by another is a character-wise substitution. */
  lemma {:induction false} ReplaceChar(s: string, a: char, b: char)
    ensures |Replace(s, [a], [b])| == |s|
    ensures forall k :: 0 <= k < |s| ==>
              Replace(s, [a], [b])[k] == (if s[k] == a then b else s[k])
    decreases |s|
  {
    var i := Find(s, [a]);
    if i < 0 {
      forall k | 0 <= k < |s|
        ensures s[k] != a
      {
        assert !OccursAt(s, [a], k);
        assert s[k..k + 1] == [s[k]];
      }
    } else {
      var rest := s[i + 1..];
      ReplaceChar(rest, a, b);
      var r := Replace(s, [a], [b]);
      assert r == s[..i] + [b] + Replace(rest, [a], [b]);
      forall k | 0 <= k < |s|
        ensures r[k] == (if s[k] == a then b else s[k])
      {
        if k < i {
          assert !OccursAt(s, [a], k);
          assert s[k..k + 1] == [s[k]];
        } else if k == i {
          assert s[i..i + 1] == [a];
        } else {
          assert s[k] == rest[k - i - 1];
        }
      }
    }
  }
}
