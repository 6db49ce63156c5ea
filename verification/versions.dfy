/** Versions and their ordering (js/src/index.ts, `versionEq`, `versionCmp`), with the
    JavaScript string order they rest on. */
module Versions {

  /** JavaScript `a < b` on strings: lexicographic comparison, character by character.
      Dafny characters are Unicode scalar values, so this orders by code point, which
      agrees with the UTF-16 code-unit order of JavaScript only below U+10000. */
  predicate StrLess(a: string, b: string): (r: bool)
    ensures |a| < |b| && a == b[..|a|] ==> r
    ensures |b| <= |a| && b == a[..|b|] ==> !r
  {
    if |b| == 0 then false
    else if |a| == 0 then true
    else if a[0] != b[0] then a[0] < b[0]
    else
      assert |a| < |b| && a == b[..|a|] ==> a[1..] == b[1..][..|a| - 1];
      assert |b| <= |a| && b == a[..|b|] ==> b[1..] == a[1..][..|b| - 1];
      StrLess(a[1..], b[1..])
  }

  /** Past a common prefix, the first differing characters decide the order. */
  lemma {:induction false} StrLessAtFirstDifference(a: string, b: string, i: nat)
    requires i < |a| && i < |b| && a[..i] == b[..i] && a[i] != b[i]
    ensures StrLess(a, b) <==> a[i] < b[i]
  {
    if i > 0 {
      assert a[0] == a[..i][0] == b[..i][0] == b[0];
      assert a[1..][..i - 1] == a[..i][1..] == b[..i][1..] == b[1..][..i - 1];
      StrLessAtFirstDifference(a[1..], b[1..], i - 1);
    }
  }

  lemma {:induction false} StrLessIrreflexive(a: string)
    ensures !StrLess(a, a)
  {
    if |a| > 0 {
      StrLessIrreflexive(a[1..]);
    }
  }

  lemma {:induction false} StrLessAsymmetric(a: string, b: string)
    requires StrLess(a, b)
    ensures !StrLess(b, a)
  {
    if |a| > 0 && |b| > 0 && a[0] == b[0] {
      StrLessAsymmetric(a[1..], b[1..]);
    }
  }

  lemma {:induction false} StrLessTransitive(a: string, b: string, c: string)
    requires StrLess(a, b) && StrLess(b, c)
    ensures StrLess(a, c)
  {
    if |a| > 0 && a[0] == b[0] && b[0] == c[0] {
      StrLessTransitive(a[1..], b[1..], c[1..]);
    }
  }

  lemma {:induction false} StrLessTotal(a: string, b: string)
    ensures a == b || StrLess(a, b) || StrLess(b, a)
  {
    if |a| > 0 && |b| > 0 && a[0] == b[0] {
      StrLessTotal(a[1..], b[1..]);
      if a[1..] == b[1..] {
        assert a == [a[0]] + a[1..] && b == [b[0]] + b[1..];
      }
    }
  }

  /** An operation identifier: the authoring agent and its per-agent sequence number. */
  datatype Version = Version(agent: string, seqNum: int)

  /** The identifier of the document's root map. */
  const ROOT: Version := Version("ROOT", 0)

  function VersionEq(a: Version, b: Version): (r: bool)
    ensures r <==> a == b
  {
    a.agent == b.agent && a.seqNum == b.seqNum
  }

  /** Comparator handed to the sort: negative when `a` sorts before `b`. A larger agent
      name sorts first; for one agent, a smaller sequence number sorts first. */
  function VersionCmp(a: Version, b: Version): (r: int)
    ensures r == 0 <==> VersionEq(a, b)
    ensures StrLess(b.agent, a.agent) ==> r < 0
    ensures StrLess(a.agent, b.agent) ==> r > 0
    ensures a.agent == b.agent ==> (r < 0 <==> a.seqNum < b.seqNum)
  {
    StrLessIrreflexive(a.agent);
    StrLessTotal(a.agent, b.agent);
    if StrLess(a.agent, b.agent) then (StrLessAsymmetric(a.agent, b.agent); 1)
    else if StrLess(b.agent, a.agent) then -1
    else a.seqNum - b.seqNum
  }

  /** `a` may stand before `b` in a list sorted with `VersionCmp`. */
  predicate VersionLe(a: Version, b: Version)
  {
    VersionCmp(a, b) <= 0
  }

  /** `VersionLe` is a total order, so sorting by `VersionCmp` is well defined. */
  lemma VersionLeTotalOrder(a: Version, b: Version, c: Version)
    ensures VersionLe(a, a)
    ensures VersionLe(a, b) && VersionLe(b, a) ==> a == b
    ensures VersionLe(a, b) && VersionLe(b, c) ==> VersionLe(a, c)
    ensures VersionLe(a, b) || VersionLe(b, a)
  {
    StrLessTotal(a.agent, b.agent);
    StrLessTotal(b.agent, c.agent);
    StrLessTotal(a.agent, c.agent);
    if StrLess(a.agent, b.agent) && StrLess(b.agent, c.agent) {
      StrLessTransitive(a.agent, b.agent, c.agent);
    }
    if StrLess(b.agent, a.agent) && StrLess(c.agent, b.agent) {
      StrLessTransitive(c.agent, b.agent, a.agent);
    }
  }

  /** The comparator is antisymmetric: swapping the arguments negates the result. */
  lemma VersionCmpAntisymmetric(a: Version, b: Version)
    ensures VersionCmp(a, b) == -VersionCmp(b, a)
  {
    StrLessTotal(a.agent, b.agent);
    if StrLess(a.agent, b.agent) {
      StrLessAsymmetric(a.agent, b.agent);
    }
  }
}
