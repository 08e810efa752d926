/**
 * Paths and the prefix substitution that maps a path of one tree to the
 * corresponding path of the other (`str.replace(root, other_root, 1)`).
 *
 * A path is the sequence of its components below the filesystem root; the
 * root itself is `[]`. `Render` gives the string the program works on.
 */
module Paths {
  import opened Wrappers

  /** One directory or file name: never empty, and never holding the separator. */
  type Name = n: string | n != "" && '/' !in n witness "a"

  type Path = seq<Name>

  /** `p` is `root` itself or lies somewhere below it. */
  predicate Under(p: Path, root: Path) {
    |root| <= |p| && p[..|root|] == root
  }

  /** The directory that holds `p` (`os.path.dirname`). */
  function Parent(p: Path): Path
    requires p != []
  {
    p[..|p| - 1]
  }

  /** The intended correspondence: strip the root `from` and rejoin the rest onto `to`. */
  function Rebase(p: Path, from: Path, to: Path): (r: Path)
    requires Under(p, from)
  {
    to + p[|from|..]
  }

  /** Neither root lies inside the other. */
  predicate Disjoint(a: Path, b: Path) {
    !Under(a, b) && !Under(b, a)
  }

  lemma UnderTransitive(p: Path, a: Path, b: Path)
    requires Under(p, a) && Under(a, b)
    ensures Under(p, b)
  {
    assert p[..|b|] == p[..|a|][..|b|];
  }

  /** Two roots that share a path are nested one in the other. */
  lemma UnderBoth(p: Path, a: Path, b: Path)
    requires Under(p, a) && Under(p, b)
    ensures Under(a, b) || Under(b, a)
  {
    if |a| <= |b| {
      assert b[..|a|] == p[..|b|][..|a|];
    } else {
      assert a[..|b|] == p[..|a|][..|b|];
    }
  }

  /** A path strictly below `from` has its parent below `from`, and the correspondence commutes with taking the parent. */
  lemma ParentCorresponds(p: Path, from: Path, to: Path)
    requires Under(p, from) && |p| > |from|
    ensures Under(Parent(p), from)
    ensures Rebase(p, from, to) != [] && Parent(Rebase(p, from, to)) == Rebase(Parent(p), from, to)
    ensures Rebase(p, from, to) == Rebase(Parent(p), from, to) + [p[|p| - 1]]
  {
    assert Parent(p)[..|from|] == p[..|from|];
    assert Parent(p)[|from|..] == p[|from|..][..|p| - 1 - |from|];
  }

  /** The correspondence is one-to-one. */
  lemma RebaseInjective(p: Path, q: Path, from: Path, to: Path)
    requires Under(p, from) && Under(q, from) && Rebase(p, from, to) == Rebase(q, from, to)
    ensures p == q
  {
    CorrespondingPath(p, from, to);
    CorrespondingPath(q, from, to);
  }

  /** An element of greatest length. */
  lemma Longest(s: set<Path>) returns (p: Path)
    requires s != {}
    ensures p in s && forall q :: q in s ==> |q| <= |p|
  {
    var x :| x in s;
    if s == {x} {
      p := x;
    } else {
      var y := Longest(s - {x});
      p := if |x| >= |y| then x else y;
    }
  }

  /** An element of least length. */
  lemma Shortest(s: set<Path>) returns (p: Path)
    requires s != {}
    ensures p in s && forall q :: q in s ==> |p| <= |q|
  {
    var x :| x in s;
    if s == {x} {
      p := x;
    } else {
      var y := Shortest(s - {x});
      p := if |x| <= |y| then x else y;
    }
  }

  // ---------------------------------------------------------------------------
  // First-occurrence replacement, as `str.replace(pat, repl, 1)` does it.
  // ---------------------------------------------------------------------------

  predicate OccursAt<T(==)>(s: seq<T>, pat: seq<T>, i: nat) {
    i + |pat| <= |s| && s[i..i + |pat|] == pat
  }

  /** The least index at or after `from` where `pat` occurs in `s` (`str.find`). */
  function FirstOccurrence<T(==)>(s: seq<T>, pat: seq<T>, from: nat): (r: Option<nat>)
    decreases |s| - from
    ensures r.Some? ==> from <= r.value && OccursAt(s, pat, r.value)
    ensures r.Some? ==> forall j :: from <= j < r.value ==> !OccursAt(s, pat, j)
    ensures r.None? ==> forall j :: from <= j ==> !OccursAt(s, pat, j)
  {
    if from + |pat| > |s| then None
    else if OccursAt(s, pat, from) then Some(from)
    else FirstOccurrence(s, pat, from + 1)
  }

  /** Replaces the first occurrence of `pat` in `s` by `repl`; `s` itself when there is none. */
  function ReplaceFirst<T(==)>(s: seq<T>, pat: seq<T>, repl: seq<T>): (r: seq<T>)
    ensures (forall j: nat :: !OccursAt(s, pat, j)) ==> r == s
    ensures (exists j: nat :: OccursAt(s, pat, j)) ==> |r| == |s| - |pat| + |repl|
  {
    match FirstOccurrence(s, pat, 0)
    case None => s
    case Some(i) => s[..i] + repl + s[i + |pat|..]
  }

  /** Only the leftmost occurrence is replaced; everything around it is kept. */
  lemma ReplaceFirstAtLeastOccurrence<T>(s: seq<T>, pat: seq<T>, repl: seq<T>, i: nat)
    requires OccursAt(s, pat, i)
    requires forall j :: 0 <= j < i ==> !OccursAt(s, pat, j)
    ensures ReplaceFirst(s, pat, repl) == s[..i] + repl + s[i + |pat|..]
  {
    var k := FirstOccurrence(s, pat, 0);
    assert k == Some(i);
  }

  /** A path walked from `from` starts with `from`: the result is `to` followed by the unchanged rest. */
  lemma ReplaceFirstAtStart<T>(s: seq<T>, pat: seq<T>, repl: seq<T>)
    requires |pat| <= |s| && s[..|pat|] == pat
    ensures ReplaceFirst(s, pat, repl) == repl + s[|pat|..]
  {
    assert OccursAt(s, pat, 0);
    ReplaceFirstAtLeastOccurrence(s, pat, repl, 0);
  }

  /**
   * On paths under `from` the substitution is the correspondence `Rebase`, its
   * result lies under `to`, and substituting back gives the original path.
   */
  lemma CorrespondingPath(p: Path, from: Path, to: Path)
    requires Under(p, from)
    ensures ReplaceFirst(p, from, to) == Rebase(p, from, to)
    ensures Under(Rebase(p, from, to), to)
    ensures Rebase(Rebase(p, from, to), to, from) == p
    ensures |Rebase(p, from, to)| - |to| == |p| - |from|
  {
    ReplaceFirstAtStart(p, from, to);
    var r := to + p[|from|..];
    assert r[..|to|] == to;
    assert r[|to|..] == p[|from|..];
    assert from + p[|from|..] == p;
  }

  // ---------------------------------------------------------------------------
  // Paths as the strings the program manipulates.
  // ---------------------------------------------------------------------------

  /** `["a", "b"]` is rendered "/a/b"; the root renders as the empty string. */
  function Render(p: Path): string {
    if p == [] then "" else "/" + p[0] + Render(p[1..])
  }

  lemma {:induction false} RenderConcat(a: Path, b: Path)
    ensures Render(a + b) == Render(a) + Render(b)
  {
    if a == [] {
      assert a + b == b;
    } else {
      assert (a + b)[0] == a[0];
      assert (a + b)[1..] == a[1..] + b;
      RenderConcat(a[1..], b);
    }
  }

  /** Two names each followed by a rendered path (empty or starting with a separator) can only match when the names are equal. */
  lemma SameLeadingName(x: Name, r1: string, y: Name, r2: string)
    requires r1 == [] || r1[0] == '/'
    requires r2 == [] || r2[0] == '/'
    requires x + r1 == y + r2
    ensures x == y && r1 == r2
  {
    assert x == (x + r1)[..|x|];
    assert y == (y + r2)[..|y|];
    assert r1 == (x + r1)[|x|..];
    assert r2 == (y + r2)[|y|..];
  }

  /** Distinct paths render as distinct strings, so the program's string paths and the component form are interchangeable. */
  lemma {:induction false} RenderInjective(a: Path, b: Path)
    requires Render(a) == Render(b)
    ensures a == b
    decreases |a|
  {
    if a != [] && b != [] {
      var ra, rb := Render(a[1..]), Render(b[1..]);
      assert Render(a) == "/" + (a[0] + ra);
      assert Render(b) == "/" + (b[0] + rb);
      assert a[0] + ra == Render(a)[1..];
      assert b[0] + rb == Render(b)[1..];
      SameLeadingName(a[0], ra, b[0], rb);
      RenderInjective(a[1..], b[1..]);
      assert a == [a[0]] + a[1..];
      assert b == [b[0]] + b[1..];
    }
  }

  /**
   * The string substitution the program performs on a walked path agrees with
   * the component-wise correspondence: replacing the first occurrence of the
   * rendered root gives the rendered corresponding path.
   */
  lemma WalkedPathSubstitution(p: Path, from: Path, to: Path)
    requires Under(p, from)
    ensures ReplaceFirst(Render(p), Render(from), Render(to)) == Render(Rebase(p, from, to))
  {
    var rest := p[|from|..];
    assert p == from + rest;
    RenderConcat(from, rest);
    RenderConcat(to, rest);
    var s := Render(p);
    assert s[..|Render(from)|] == Render(from);
    assert s[|Render(from)|..] == Render(rest);
    ReplaceFirstAtStart(s, Render(from), Render(to));
  }
}
