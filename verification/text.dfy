/** The Python string operations the core relies on, over `string` (a
    sequence of Unicode code points, as a Python `str` is). */
module Text {

  /** `s.startswith(p)` */
  predicate StartsWith(s: string, p: string) {
    |p| <= |s| && s[..|p|] == p
  }

  /** `s.endswith(p)` */
  predicate EndsWith(s: string, p: string) {
    |p| <= |s| && s[|s| - |p|..] == p
  }

  /** A prefix stays a prefix when text is appended. */
  lemma StartsWithAppend(s: string, p: string, t: string)
    requires StartsWith(s, p)
    ensures StartsWith(s + t, p)
  {
    assert (s + t)[..|p|] == s[..|p|];
  }

  /** A common tail appended to a string and to its suffix keeps the suffix. */
  lemma EndsWithAppend(s: string, p: string, t: string)
    requires EndsWith(s, p)
    ensures EndsWith(s + t, p + t)
  {
    assert (s + t)[|s + t| - |p + t|..] == s[|s| - |p|..] + t;
  }

  /** `p in s`: `p` occurs somewhere in `s` (the empty string occurs everywhere). */
  predicate Contains(s: string, p: string)
    decreases |s|
  {
    StartsWith(s, p) || (|s| > 0 && Contains(s[1..], p))
  }

  /** `p` occurs in `s` at position `i`. */
  predicate OccursAt(s: string, p: string, i: nat) {
    i + |p| <= |s| && s[i..i + |p|] == p
  }

  /** `Contains` agrees with the positional definition of a substring. */
  lemma {:induction false} ContainsIffOccurs(s: string, p: string)
    ensures Contains(s, p) <==> exists i: nat :: OccursAt(s, p, i)
    decreases |s|
  {
    if StartsWith(s, p) {
      assert OccursAt(s, p, 0);
    } else if |s| == 0 {
    } else {
      ContainsIffOccurs(s[1..], p);
      if Contains(s[1..], p) {
        var j: nat :| OccursAt(s[1..], p, j);
        assert s[j + 1..j + 1 + |p|] == s[1..][j..j + |p|];
        assert OccursAt(s, p, j + 1);
      } else {
        forall i: nat | OccursAt(s, p, i)
          ensures false
        {
          if i > 0 {
            var j: nat := i - 1;
            assert s[1..][j..j + |p|] == s[j + 1..j + 1 + |p|];
            assert OccursAt(s[1..], p, j);
          }
        }
      }
    }
  }

  /** A string shorter than the pattern does not contain it. */
  lemma {:induction false} ShortLacks(s: string, p: string)
    requires |s| < |p|
    ensures !Contains(s, p)
    decreases |s|
  {
    if |s| > 0 {
      ShortLacks(s[1..], p);
    }
  }

  /** Every string contains itself. */
  lemma {:induction false} ContainsSelf(s: string)
    ensures Contains(s, s)
  {
    assert s[..|s|] == s;
  }

  /** `s[:n]` for a non-negative `n`. */
  function Take(s: string, n: nat): (r: string)
    ensures |r| == if |s| <= n then |s| else n
    ensures StartsWith(s, r)
    ensures |s| <= n ==> r == s
  {
    if |s| <= n then s else s[..n]
  }

  // ---------------------------------------------------------------------
  // Python's `<` on str: lexicographic by code point, a proper prefix first.
  // ---------------------------------------------------------------------

  /** `a < b` on Python strings. */
  predicate Below(a: string, b: string)
    decreases |a|
  {
    |b| > 0 && (|a| == 0 || a[0] < b[0] || (a[0] == b[0] && Below(a[1..], b[1..])))
  }

  /** `a <= b` on Python strings. */
  predicate AtMost(a: string, b: string) {
    !Below(b, a)
  }

  lemma {:induction false} BelowIrreflexive(a: string)
    ensures !Below(a, a)
    decreases |a|
  {
    if |a| > 0 {
      BelowIrreflexive(a[1..]);
    }
  }

  lemma {:induction false} BelowTransitive(a: string, b: string, c: string)
    requires Below(a, b) && Below(b, c)
    ensures Below(a, c)
    decreases |a|
  {
    if |a| > 0 && a[0] == b[0] && b[0] == c[0] {
      BelowTransitive(a[1..], b[1..], c[1..]);
    }
  }

  lemma {:induction false} BelowTrichotomy(a: string, b: string)
    ensures Below(a, b) || a == b || Below(b, a)
    decreases |a|
  {
    if |a| > 0 && |b| > 0 && a[0] == b[0] {
      BelowTrichotomy(a[1..], b[1..]);
      if a[1..] == b[1..] {
        assert a == [a[0]] + a[1..] && b == [b[0]] + b[1..];
      }
    }
  }

  lemma BelowAsymmetric(a: string, b: string)
    requires Below(a, b)
    ensures !Below(b, a)
  {
    if Below(b, a) {
      BelowTransitive(a, b, a);
      BelowIrreflexive(a);
    }
  }

  /** `<=` is a total order on strings. */
  lemma AtMostTotalOrder(a: string, b: string, c: string)
    ensures AtMost(a, b) || AtMost(b, a)
    ensures AtMost(a, b) && AtMost(b, a) ==> a == b
    ensures AtMost(a, b) && AtMost(b, c) ==> AtMost(a, c)
  {
    BelowTrichotomy(a, b);
    BelowTrichotomy(b, c);
    BelowTrichotomy(a, c);
    if Below(a, b) { BelowAsymmetric(a, b); }
    if Below(c, b) && Below(b, a) { BelowTransitive(c, b, a); }
    if Below(c, a) && Below(a, b) { BelowTransitive(c, a, b); }
  }

  /** The empty string sorts strictly before every other string. */
  lemma EmptyIsLeast(b: string)
    ensures b != "" ==> Below("", b)
    ensures AtMost("", b)
  {
  }

  // ---------------------------------------------------------------------
  // str.replace(pat, rep): every non-overlapping occurrence, left to right.
  // ---------------------------------------------------------------------

  function Replace(s: string, pat: string, rep: string): (r: string)
    requires |pat| > 0
    decreases |s|
  {
    if |s| < |pat| then s
    else if s[..|pat|] == pat then rep + Replace(s[|pat|..], pat, rep)
    else [s[0]] + Replace(s[1..], pat, rep)
  }

  /** A prefix holding none of the pattern's first character passes through. */
  lemma {:induction false} ReplaceSkipsPrefix(x: string, y: string, pat: string, rep: string)
    requires |pat| > 0
    requires pat[0] !in x
    ensures Replace(x + y, pat, rep) == x + Replace(y, pat, rep)
    decreases |x|
  {
    if |x| > 0 {
      var s := x + y;
      assert x[0] in x;
      assert s[0] == x[0] != pat[0];
      if |s| >= |pat| {
        assert s[..|pat|][0] == x[0];
        assert s[..|pat|] != pat;
        assert s[1..] == x[1..] + y;
        assert forall c :: c in x[1..] ==> c in x;
        ReplaceSkipsPrefix(x[1..], y, pat, rep);
        assert Replace(s, pat, rep) == [s[0]] + Replace(s[1..], pat, rep);
        assert [x[0]] + x[1..] == x;
      } else {
        assert Replace(y, pat, rep) == y;
      }
    } else {
      assert x + y == y;
    }
  }

  /** Number of leading backquotes. */
  function Ticks(s: string): (n: nat)
    ensures n <= |s|
  {
    if |s| > 0 && s[0] == '`' then 1 + Ticks(s[1..]) else 0
  }

  lemma {:induction false} TicksStartsTriple(s: string)
    ensures StartsWith(s, "```") <==> Ticks(s) >= 3
  {
    if |s| >= 1 && s[0] == '`' {
      var s1 := s[1..];
      assert Ticks(s) == 1 + Ticks(s1);
      if |s1| >= 1 && s1[0] == '`' {
        var s2 := s1[1..];
        assert Ticks(s1) == 1 + Ticks(s2);
        if |s2| >= 1 && s2[0] == '`' {
          assert Ticks(s2) == 1 + Ticks(s2[1..]);
          assert s[..3] == "```";
        } else {
          assert Ticks(s2) == 0;
        }
      } else {
        assert Ticks(s1) == 0;
      }
    }
  }

  lemma TicksCons(c: char, t: string)
    ensures Ticks([c] + t) == if c == '`' then 1 + Ticks(t) else 0
  {
    assert ([c] + t)[1..] == t;
  }

  lemma ContainsCons(c: char, t: string, p: string)
    ensures Contains([c] + t, p) <==> StartsWith([c] + t, p) || Contains(t, p)
  {
    assert ([c] + t)[1..] == t;
  }

  lemma TicksOfFence(s: string)
    requires StartsWith(s, "```")
    ensures Ticks(s) == 3 + Ticks(s[3..])
  {
    assert s[0] == '`' && s[1] == '`' && s[2] == '`';
    assert s == [s[0]] + ([s[1]] + ([s[2]] + s[3..]));
    TicksCons(s[2], s[3..]);
    TicksCons(s[1], [s[2]] + s[3..]);
    TicksCons(s[0], [s[1]] + ([s[2]] + s[3..]));
  }

  lemma ReplaceStep(s: string, pat: string)
    requires 0 < |pat| <= |s|
    ensures s[..|pat|] == pat ==> Replace(s, pat, "") == Replace(s[|pat|..], pat, "")
    ensures s[..|pat|] != pat ==> Replace(s, pat, "") == [s[0]] + Replace(s[1..], pat, "")
  {
    assert "" + Replace(s[|pat|..], pat, "") == Replace(s[|pat|..], pat, "");
  }

  /** What removing "```" from `s` leaves: no fence, and the leading run of
      backquotes shortened modulo three. */
  predicate FenceFree(s: string) {
    var r := Replace(s, "```", "");
    !Contains(r, "```") && Ticks(r) == Ticks(s) % 3
  }

  lemma FenceFreeAtFence(s: string)
    requires StartsWith(s, "```")
    requires FenceFree(s[3..])
    ensures FenceFree(s)
  {
    ReplaceStep(s, "```");
    TicksOfFence(s);
  }

  lemma FenceFreePassing(s: string)
    requires |s| >= 3 && !StartsWith(s, "```")
    requires FenceFree(s[1..])
    ensures FenceFree(s)
  {
    var pat := "```";
    ReplaceStep(s, pat);
    var tail := Replace(s[1..], pat, "");
    var r := [s[0]] + tail;
    assert s == [s[0]] + s[1..];
    TicksCons(s[0], s[1..]);
    TicksCons(s[0], tail);
    TicksStartsTriple(s);
    TicksStartsTriple(r);
    ContainsCons(s[0], tail, pat);
  }

  /** Removing every "```" leaves none behind: runs of backquotes shrink
      modulo three and never merge. */
  lemma {:induction false} RemoveFenceLeavesNone(s: string)
    ensures FenceFree(s)
    decreases |s|
  {
    if |s| < 3 {
      ShortLacks(s, "```");
    } else if s[..3] == "```" {
      RemoveFenceLeavesNone(s[3..]);
      FenceFreeAtFence(s);
    } else {
      RemoveFenceLeavesNone(s[1..]);
      FenceFreePassing(s);
    }
  }

  // ---------------------------------------------------------------------
  // sep.join(parts)
  // ---------------------------------------------------------------------

  function Join(parts: seq<string>, sep: string): string
    decreases |parts|
  {
    if |parts| == 0 then ""
    else if |parts| == 1 then parts[0]
    else Join(parts[..|parts| - 1], sep) + sep + parts[|parts| - 1]
  }

  /** The texts `f(x)` of the elements of `xs`, one after the other. */
  function ConcatMap<T>(xs: seq<T>, f: T -> string): string
    decreases |xs|
  {
    if xs == [] then "" else ConcatMap(xs[..|xs| - 1], f) + f(xs[|xs| - 1])
  }

  lemma {:induction false} ConcatMapAppend<T>(a: seq<T>, b: seq<T>, f: T -> string)
    ensures ConcatMap(a + b, f) == ConcatMap(a, f) + ConcatMap(b, f)
    decreases |b|
  {
    if b == [] {
      assert a + b == a;
    } else {
      var b', last := b[..|b| - 1], b[|b| - 1];
      assert (a + b)[..|a + b| - 1] == a + b';
      assert (a + b)[|a + b| - 1] == last;
      ConcatMapAppend(a, b', f);
    }
  }

  /** Element `i` contributes its text right after those of the elements
      before it. */
  lemma ConcatMapAt<T>(xs: seq<T>, i: nat, f: T -> string)
    requires i < |xs|
    ensures ConcatMap(xs, f) == ConcatMap(xs[..i], f) + f(xs[i]) + ConcatMap(xs[i + 1..], f)
  {
    var before, after := xs[..i], xs[i + 1..];
    assert xs == (before + [xs[i]]) + after;
    ConcatMapAppend(before + [xs[i]], after, f);
    ConcatMapAppend(before, [xs[i]], f);
    assert [xs[i]][..0] == [];
  }

  // ---------------------------------------------------------------------
  // str.strip() and str.lower()
  // ---------------------------------------------------------------------

  /** The characters for which Python's `str.isspace()` holds. */
  predicate IsSpace(c: char) {
    c == ' ' || ('\t' <= c <= '\r') || ('\U{1c}' <= c <= '\U{1f}')
    || c == '\U{85}' || c == '\U{a0}' || c == '\U{1680}'
    || ('\U{2000}' <= c <= '\U{200a}') || c == '\U{2028}' || c == '\U{2029}'
    || c == '\U{202f}' || c == '\U{205f}' || c == '\U{3000}'
  }

  predicate AllSpace(s: string) {
    forall i :: 0 <= i < |s| ==> IsSpace(s[i])
  }

  function StripLeft(s: string): string
    decreases |s|
  {
    if |s| > 0 && IsSpace(s[0]) then StripLeft(s[1..]) else s
  }

  function StripRight(s: string): string
    decreases |s|
  {
    if |s| > 0 && IsSpace(s[|s| - 1]) then StripRight(s[..|s| - 1]) else s
  }

  /** `s.strip()` */
  function Strip(s: string): string {
    StripRight(StripLeft(s))
  }

  lemma {:induction false} StripLeftSplits(s: string)
    ensures var r := StripLeft(s);
            |r| <= |s| && AllSpace(s[..|s| - |r|]) && s[|s| - |r|..] == r
            && (|r| > 0 ==> !IsSpace(r[0]))
    decreases |s|
  {
    if |s| > 0 && IsSpace(s[0]) {
      StripLeftSplits(s[1..]);
      var r := StripLeft(s);
      assert s[1..][..|s| - 1 - |r|] == s[1..|s| - |r|];
    }
  }

  lemma {:induction false} StripRightSplits(s: string)
    ensures var r := StripRight(s);
            |r| <= |s| && s[..|r|] == r && AllSpace(s[|r|..])
            && (|r| > 0 ==> !IsSpace(r[|r| - 1]))
    decreases |s|
  {
    if |s| > 0 && IsSpace(s[|s| - 1]) {
      var init := s[..|s| - 1];
      StripRightSplits(init);
      var r := StripRight(s);
      assert s[..|r|] == init[..|r|];
      assert s[|r|..] == init[|r|..] + [s[|s| - 1]];
    }
  }

  /** `s.strip()` cuts `s` into leading whitespace, the result and trailing
      whitespace, and the result neither starts nor ends with whitespace. */
  lemma StripSplits(s: string)
    ensures var r := Strip(s);
            exists lead, trail :: s == lead + r + trail && AllSpace(lead) && AllSpace(trail)
    ensures var r := Strip(s);
            |r| > 0 ==> !IsSpace(r[0]) && !IsSpace(r[|r| - 1])
  {
    var l := StripLeft(s);
    var r := Strip(s);
    StripLeftSplits(s);
    StripRightSplits(l);
    var lead, trail := s[..|s| - |l|], l[|r|..];
    assert l == r + trail;
    assert s == lead + l;
    assert s == lead + r + trail && AllSpace(lead) && AllSpace(trail);
    if |r| > 0 {
      assert r[0] == l[0];
    }
  }

  function LowerChar(c: char): char {
    if 'A' <= c <= 'Z' then (c as int + 32) as char else c
  }

  /** `s.lower()`, on the ASCII letters. */
  function Lower(s: string): (r: string)
    ensures |r| == |s|
    ensures forall i :: 0 <= i < |s| ==> r[i] == LowerChar(s[i])
  {
    seq(|s|, i requires 0 <= i < |s| => LowerChar(s[i]))
  }

  /** Lower-casing twice is lower-casing once. */
  lemma LowerIdempotent(s: string)
    ensures Lower(Lower(s)) == Lower(s)
  {
    assert forall i :: 0 <= i < |s| ==> LowerChar(LowerChar(s[i])) == LowerChar(s[i]);
  }
}
