/**
 * The payload of a run-encoded frame: one 2-byte unit `(count, value)` per
 * run. The count field is a `uint8_t` (schemes/RunLength.hh:13), so a run's
 * length is stored modulo 256 (schemes/RunLength.hh:56).
 */
module Units {
  import opened Bytes
  import opened MaximalRuns

  const UNIT_SIZE: nat := 2

  /** The units the encoder writes for `rs`, in order. */
  function UnitBytes(rs: seq<Run>): (u: seq<uint8>)
    ensures |u| == UNIT_SIZE * |rs|
  {
    if rs == [] then []
    else [(rs[0].count % 256) as uint8, rs[0].value] + UnitBytes(rs[1..])
  }

  /** What the decoder makes of a run payload: each unit's value, repeated `count` times. */
  function ExpandUnits(p: seq<uint8>): seq<uint8>
    requires |p| % UNIT_SIZE == 0
  {
    if p == [] then [] else Repeat(p[1], p[0] as nat) + ExpandUnits(p[2..])
  }

  /** The runs as the units carry them: every count reduced modulo 256. */
  function Truncate(rs: seq<Run>): (t: seq<Run>)
    ensures |t| == |rs|
    ensures forall k :: 0 <= k < |rs| ==> t[k] == Run(rs[k].count % 256, rs[k].value)
  {
    if rs == [] then [] else [Run(rs[0].count % 256, rs[0].value)] + Truncate(rs[1..])
  }

  /** Unit `k` of the payload holds run `k`'s count modulo 256, then its value. */
  lemma {:induction false} UnitBytesAt(rs: seq<Run>, k: nat)
    requires k < |rs|
    ensures UnitBytes(rs)[2 * k] as int == rs[k].count % 256
    ensures UnitBytes(rs)[2 * k + 1] == rs[k].value
  {
    if k > 0 {
      UnitBytesAt(rs[1..], k - 1);
    }
  }

  lemma {:induction false} UnitBytesAppend(a: seq<Run>, c: seq<Run>)
    ensures UnitBytes(a + c) == UnitBytes(a) + UnitBytes(c)
  {
    if a == [] {
      assert a + c == c;
    } else {
      assert (a + c)[1..] == a[1..] + c;
      UnitBytesAppend(a[1..], c);
    }
  }

  /** Appending a run appends its unit. */
  lemma UnitBytesSnoc(rs: seq<Run>, r: Run)
    ensures UnitBytes(rs + [r]) == UnitBytes(rs) + [(r.count % 256) as uint8, r.value]
  {
    UnitBytesAppend(rs, [r]);
    assert UnitBytes([r]) == [(r.count % 256) as uint8, r.value];
  }

  /** Decoding the units gives back the runs with their counts reduced modulo 256. */
  lemma {:induction false} ExpandUnitBytes(rs: seq<Run>)
    ensures ExpandUnits(UnitBytes(rs)) == Expand(Truncate(rs))
  {
    if rs != [] {
      var u := UnitBytes(rs);
      assert u[2..] == UnitBytes(rs[1..]);
      assert Truncate(rs)[1..] == Truncate(rs[1..]);
      ExpandUnitBytes(rs[1..]);
    }
  }

  /** Every run is short enough for its count to fit in one unit byte. */
  predicate CountsFit(rs: seq<Run>) {
    forall k :: 0 <= k < |rs| ==> rs[k].count < 256
  }

  /** Counts below 256 survive the truncation. */
  lemma {:induction false} TruncateShortRuns(rs: seq<Run>)
    requires CountsFit(rs)
    ensures Truncate(rs) == rs
  {
  }

  /** A run of 256 or more makes the decoded bytes strictly fewer than the runs cover. */
  lemma {:induction false} TruncateLongRun(rs: seq<Run>, k: nat)
    requires k < |rs| && rs[k].count >= 256
    ensures Total(Truncate(rs)) < Total(rs)
  {
    TruncateNotLonger(rs[1..]);
    assert Truncate(rs)[1..] == Truncate(rs[1..]);
    if k > 0 {
      TruncateLongRun(rs[1..], k - 1);
    }
  }

  lemma {:induction false} TruncateNotLonger(rs: seq<Run>)
    ensures Total(Truncate(rs)) <= Total(rs)
  {
    if rs != [] {
      assert Truncate(rs)[1..] == Truncate(rs[1..]);
      TruncateNotLonger(rs[1..]);
    }
  }

  /** Units round trip exactly when every run is shorter than 256. */
  lemma UnitsRoundTrip(rs: seq<Run>)
    ensures ExpandUnits(UnitBytes(rs)) == Expand(rs) <==> CountsFit(rs)
  {
    ExpandUnitBytes(rs);
    if CountsFit(rs) {
      TruncateShortRuns(rs);
    } else {
      var k :| 0 <= k < |rs| && rs[k].count >= 256;
      TruncateLongRun(rs, k);
      ExpandLength(rs);
      ExpandLength(Truncate(rs));
    }
  }
}
