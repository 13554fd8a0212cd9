/**
 * Maximal runs of equal bytes, and the 2-byte `(count, value)` units that
 * carry them in a run-encoded frame (schemes/RunLength.hh:11-15, 43-73).
 */
module MaximalRuns {
  import opened Bytes

  /** `count` copies of `value`. */
  datatype Run = Run(count: nat, value: uint8)

  function Repeat(v: uint8, n: nat): (r: seq<uint8>)
    ensures |r| == n
    ensures forall k :: 0 <= k < n ==> r[k] == v
  {
    seq(n, _ => v)
  }

  lemma RepeatAppend(v: uint8, n: nat)
    ensures Repeat(v, n) + [v] == Repeat(v, n + 1)
  {
  }

  /**
   * The end (exclusive) of the maximal run that starts at `i`: the first
   * index after `i` whose byte differs from `b[i]`, or `|b|`.
   */
  function RunEnd(b: seq<uint8>, i: nat): (j: nat)
    requires i < |b|
    ensures i < j <= |b|
    ensures j == |b| || b[j] != b[i]
    decreases |b| - i
  {
    if i + 1 < |b| && b[i + 1] == b[i] then RunEnd(b, i + 1) else i + 1
  }

  /** Every byte before RunEnd(b, i) equals `b[i]`. */
  lemma {:induction false} RunEndSpan(b: seq<uint8>, i: nat)
    requires i < |b|
    ensures forall k :: i <= k < RunEnd(b, i) ==> b[k] == b[i]
    decreases |b| - i
  {
    if i + 1 < |b| && b[i + 1] == b[i] {
      RunEndSpan(b, i + 1);
      assert RunEnd(b, i) == RunEnd(b, i + 1);
    } else {
      assert RunEnd(b, i) == i + 1;
    }
  }

  /** The three properties of RunEnd determine it. */
  lemma {:induction false} RunEndUnique(b: seq<uint8>, i: nat, j: nat)
    requires i < j <= |b|
    requires forall k :: i <= k < j ==> b[k] == b[i]
    requires j == |b| || b[j] != b[i]
    ensures j == RunEnd(b, i)
    decreases j - i
  {
    if i + 1 < j {
      assert b[i + 1] == b[i];
      RunEndUnique(b, i + 1, j);
    }
  }

  /** The maximal runs of `b[i..]`, left to right. */
  function RunsFrom(b: seq<uint8>, i: nat): seq<Run>
    requires i <= |b|
    decreases |b| - i
  {
    if i == |b| then []
    else
      var j := RunEnd(b, i);
      [Run(j - i, b[i])] + RunsFrom(b, j)
  }

  function Runs(b: seq<uint8>): seq<Run>
  {
    RunsFrom(b, 0)
  }

  /** The bytes a list of runs stands for. */
  function Expand(rs: seq<Run>): seq<uint8>
  {
    if rs == [] then [] else Repeat(rs[0].value, rs[0].count) + Expand(rs[1..])
  }

  /** The sum of the counts of `rs`. */
  function Total(rs: seq<Run>): nat
  {
    if rs == [] then 0 else rs[0].count + Total(rs[1..])
  }

  /** `rs` splits `b` into maximal runs: it covers `b`, no run is empty, and neighbours differ. */
  ghost predicate IsRunDecomposition(rs: seq<Run>, b: seq<uint8>)
  {
    && Expand(rs) == b
    && (forall k :: 0 <= k < |rs| ==> rs[k].count > 0)
    && (forall k, l :: 0 <= k && l == k + 1 && l < |rs| ==> rs[k].value != rs[l].value)
  }

  lemma {:induction false} ExpandLength(rs: seq<Run>)
    ensures |Expand(rs)| == Total(rs)
  {
    if rs != [] {
      ExpandLength(rs[1..]);
    }
  }

  lemma {:induction false} ExpandAppend(a: seq<Run>, c: seq<Run>)
    ensures Expand(a + c) == Expand(a) + Expand(c)
  {
    if a == [] {
      assert a + c == c;
    } else {
      assert (a + c)[1..] == a[1..] + c;
      ExpandAppend(a[1..], c);
    }
  }

  /** RunsFrom splits `b[i..]` into maximal runs. */
  lemma {:induction false} RunsFromDecompose(b: seq<uint8>, i: nat)
    requires i <= |b|
    ensures IsRunDecomposition(RunsFrom(b, i), b[i..])
    ensures RunsFrom(b, i) != [] ==> RunsFrom(b, i)[0].value == b[i]
    decreases |b| - i
  {
    if i < |b| {
      var j := RunEnd(b, i);
      var rs := RunsFrom(b, i);
      var rest := RunsFrom(b, j);
      RunEndSpan(b, i);
      RunsFromDecompose(b, j);
      assert rs[1..] == rest;
      assert Repeat(b[i], j - i) == b[i..j];
      assert b[i..] == b[i..j] + b[j..];
      forall k, l | 0 <= k && l == k + 1 && l < |rs|
        ensures rs[k].value != rs[l].value
      {
        if k > 0 {
          assert rs[k] == rest[k - 1] && rs[l] == rest[k];
        }
      }
    }
  }

  /** Runs(b) is a decomposition of `b` into maximal runs. */
  lemma RunsDecompose(b: seq<uint8>)
    ensures IsRunDecomposition(Runs(b), b)
  {
    RunsFromDecompose(b, 0);
  }
}
