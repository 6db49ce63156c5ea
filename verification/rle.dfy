/** The run-length key/value span algebra of
    crates/diamond-types-positional/src/rle/mod.rs: a `KVPair` is a key (the first
    time it covers) and an inner run; the inner run is modelled by its length alone. */
module Rle {
  import opened Wrappers

  /** A half-open range of times `[start, end)`. */
  datatype TimeSpan = TimeSpan(start: nat, end: nat)

  /** The inner value: a run of consecutive items, known only by its length. */
  datatype Run = Run(len: nat)

  datatype KVPair = KVPair(key: nat, run: Run)

  function Len(p: KVPair): nat
  {
    p.run.len
  }

  /** The first time after the pair. */
  function End(p: KVPair): (e: nat)
    ensures e >= p.key && e - p.key == Len(p)
  {
    p.key + p.run.len
  }

  /** The times the pair covers. */
  function Span(p: KVPair): (s: TimeSpan)
    ensures s.start == p.key && s.end == End(p)
    ensures s.end - s.start == Len(p)
  {
    TimeSpan(p.key, p.key + p.run.len)
  }

  /** `truncate`: keep the first `at` items; return the rest, keyed where it starts. */
  function Truncate(p: KVPair, at: nat): (r: (KVPair, KVPair))
    requires at <= Len(p)
    ensures r.0.key == p.key && Len(r.0) == at
    ensures r.1.key == p.key + at && Len(r.1) == Len(p) - at
    ensures End(r.0) == r.1.key && End(r.1) == End(p)
  {
    (KVPair(p.key, Run(at)), KVPair(p.key + at, Run(p.run.len - at)))
  }

  /** `truncate_keeping_right`: drop the first `at` items; return them under the old key. */
  function TruncateKeepingRight(p: KVPair, at: nat): (r: (KVPair, KVPair))
    requires at <= Len(p)
    ensures r.0.key == p.key + at && Len(r.0) == Len(p) - at
    ensures r.1.key == p.key && Len(r.1) == at
    ensures End(r.1) == r.0.key && End(r.0) == End(p)
  {
    (KVPair(p.key + at, Run(p.run.len - at)), KVPair(p.key, Run(at)))
  }

  /** Two runs of consecutive items can always join. */
  predicate RunCanAppend(a: Run, b: Run)
  {
    true
  }

  /** `can_append`: `b` starts exactly where `a` ends and the inner runs join. */
  predicate CanAppend(a: KVPair, b: KVPair): (r: bool)
    ensures r <==> Span(b).start == Span(a).end
  {
    b.key == End(a) && RunCanAppend(a.run, b.run)
  }

  /** `append`: grow `a` by `b`, keeping `a`'s key. */
  function Append(a: KVPair, b: KVPair): (r: KVPair)
    ensures r.key == a.key && Len(r) == Len(a) + Len(b)
    ensures CanAppend(a, b) ==> Span(r) == TimeSpan(a.key, End(b))
  {
    KVPair(a.key, Run(a.run.len + b.run.len))
  }

  /** `prepend`: grow `a` by `other` in front, taking `other`'s key. */
  function Prepend(a: KVPair, other: KVPair): (r: KVPair)
    ensures r.key == other.key && Len(r) == Len(other) + Len(a)
    ensures CanAppend(other, a) ==> Span(r) == TimeSpan(other.key, End(a))
  {
    KVPair(other.key, Run(other.run.len + a.run.len))
  }

  /** Cutting a pair and appending the pieces gives the pair back. */
  lemma TruncateAppend(p: KVPair, at: nat)
    requires at <= Len(p)
    ensures var (kept, rest) := Truncate(p, at);
            CanAppend(kept, rest) && Append(kept, rest) == p
  {
  }

  /** Cutting a pair from the left and prepending the left piece gives the pair back. */
  lemma TruncateKeepingRightPrepend(p: KVPair, at: nat)
    requires at <= Len(p)
    ensures var (kept, left) := TruncateKeepingRight(p, at);
            CanAppend(left, kept) && Prepend(kept, left) == p
  {
  }

  /** Appending `b` to `a` and prepending `a` to `b` build the same pair. */
  lemma AppendPrependAgree(a: KVPair, b: KVPair)
    requires CanAppend(a, b)
    ensures Append(a, b) == Prepend(b, a)
  {
  }

  function Max(a: nat, b: nat): nat
  {
    if a < b then b else a
  }

  function Min(a: nat, b: nat): nat
  {
    if a < b then a else b
  }

  /** `try_trim` exactly as written: in the case where both ends need cutting, the
      second cut is measured from the original start instead of the new one. The cut
      must not exceed what is left of the run. */
  function TryTrimAsWritten(x: KVPair, target: TimeSpan): (r: Option<KVPair>)
    requires target.start <= target.end
    requires (x.key < target.start && End(x) > target.end) ==> target.end - x.key <= End(x) - target.start
    ensures r.None? <==> (x.key < target.start && End(x) <= target.start)
                         || (End(x) > target.end && x.key >= target.end)
    ensures r.Some? && x.key >= target.start ==> Span(r.value) == TimeSpan(x.key, Min(End(x), target.end))
    ensures r.Some? && x.key < target.start && End(x) <= target.end ==> Span(r.value) == TimeSpan(target.start, End(x))
    ensures r.Some? && x.key < target.start && End(x) > target.end ==>
              r.value.key == target.start && End(r.value) == target.end + (target.start - x.key)
  {
    var xSpan := Span(x);
    var y :=
      if xSpan.start < target.start then
        if xSpan.end <= target.start then None
        else Some(TruncateKeepingRight(x, target.start - xSpan.start).0)
      else Some(x);
    match y
    case None => None
    case Some(z) =>
      if xSpan.end > target.end then
        if xSpan.start >= target.end then None
        else Some(Truncate(z, target.end - xSpan.start).0)
      else Some(z)
  }

  /** The concrete input: trimming `[0, 10)` to `[2, 5)` yields `[2, 7)`, which reaches
      past the target. */
  lemma TryTrimAsWrittenOvershoots()
    ensures var r := TryTrimAsWritten(KVPair(0, Run(10)), TimeSpan(2, 5));
            r == Some(KVPair(2, Run(5))) && End(r.value) > 5
  {
  }

  /** `try_trim` with the second cut measured from the current start: the part of `x`
      inside `target`, or `None` when `x` lies wholly on one side of it. */
  function TryTrim(x: KVPair, target: TimeSpan): (r: Option<KVPair>)
    requires target.start <= target.end
    ensures r.None? <==> (x.key < target.start && End(x) <= target.start)
                         || (End(x) > target.end && x.key >= target.end)
    ensures r.Some? ==> Span(r.value) == TimeSpan(Max(x.key, target.start), Min(End(x), target.end))
  {
    var y :=
      if x.key < target.start then
        if End(x) <= target.start then None
        else Some(TruncateKeepingRight(x, target.start - x.key).0)
      else Some(x);
    match y
    case None => None
    case Some(z) =>
      if End(x) > target.end then
        if x.key >= target.end then None
        else Some(Truncate(z, target.end - z.key).0)
      else Some(z)
  }

  /** Where only one end needs cutting the written code is right. */
  lemma TryTrimOneSidedAgrees(x: KVPair, target: TimeSpan)
    requires target.start <= target.end
    requires x.key >= target.start || End(x) <= target.end
    ensures TryTrimAsWritten(x, target) == TryTrim(x, target)
  {
  }

  /** A trimmed pair lies inside the target and inside `x`. */
  lemma TryTrimWithin(x: KVPair, target: TimeSpan)
    requires target.start <= target.end && TryTrim(x, target).Some?
    ensures var s := Span(TryTrim(x, target).value);
            target.start <= s.start && s.end <= target.end && x.key <= s.start && s.end <= End(x)
  {
  }

  /** `trim` as written: `try_trim` as written, which must succeed. It starts where the
      target and `x` overlap; only when at most one end is cut does it stay inside the
      target. */
  function Trim(x: KVPair, target: TimeSpan): (r: KVPair)
    requires target.start <= target.end
    requires (x.key < target.start && End(x) > target.end) ==> target.end - x.key <= End(x) - target.start
    requires !(x.key < target.start && End(x) <= target.start) && !(End(x) > target.end && x.key >= target.end)
    ensures Some(r) == TryTrimAsWritten(x, target)
    ensures r.key == Max(x.key, target.start)
    ensures x.key >= target.start || End(x) <= target.end ==>
              Span(r) == TimeSpan(Max(x.key, target.start), Min(End(x), target.end))
  {
    TryTrimAsWritten(x, target).value
  }

  /** `trim` over the corrected `try_trim`: exactly the overlap of `x` and the target. */
  function TrimCorrected(x: KVPair, target: TimeSpan): (r: KVPair)
    requires target.start <= target.end
    requires !(x.key < target.start && End(x) <= target.start) && !(End(x) > target.end && x.key >= target.end)
    ensures Some(r) == TryTrim(x, target)
    ensures Span(r) == TimeSpan(Max(x.key, target.start), Min(End(x), target.end))
    ensures target.start <= r.key && End(r) <= target.end
  {
    TryTrim(x, target).value
  }
}
