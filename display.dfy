/**
 * The two displays the controller sends back to the simulator with every
 * steering command (src/main.cpp): the trajectory the optimiser predicts,
 * split out of its flat result vector, and the fitted reference line,
 * sampled at fixed steps ahead of the vehicle.  All points are in the
 * vehicle's own frame.
 */
module Display {

  import opened Polynomial

  /** `a[0], b[0], a[1], b[1], …`: the flat layout of alternating x and y values. */
  function Interleave(a: seq<real>, b: seq<real>): seq<real>
    requires |b| <= |a| <= |b| + 1
    decreases |a| + |b|
  {
    if |a| == 0 then [] else [a[0]] + Interleave(b, a[1..])
  }

  /** Interleaving puts `a[k]` at position `2k` and `b[k]` at position `2k + 1`. */
  lemma {:induction false} InterleaveAt(a: seq<real>, b: seq<real>)
    requires |b| <= |a| <= |b| + 1
    ensures |Interleave(a, b)| == |a| + |b|
    ensures forall k :: 0 <= k < |a| ==> Interleave(a, b)[2 * k] == a[k]
    ensures forall k :: 0 <= k < |b| ==> Interleave(a, b)[2 * k + 1] == b[k]
    decreases |a| + |b|
  {
    if |a| > 0 {
      var rest := Interleave(b, a[1..]);
      InterleaveAt(b, a[1..]);
      assert Interleave(a, b) == [a[0]] + rest;
      forall k | 0 < k < |a| ensures Interleave(a, b)[2 * k] == a[k] {
        assert Interleave(a, b)[2 * k] == rest[2 * (k - 1) + 1];
      }
      forall k | 0 <= k < |b| ensures Interleave(a, b)[2 * k + 1] == b[k] {
        assert Interleave(a, b)[2 * k + 1] == rest[2 * k];
      }
    }
  }

  /**
   * The `mpc_x` / `mpc_y` loop: from index 2 on (indices 0 and 1 hold the
   * steering angle and the throttle), even positions of the solver result
   * are x values and odd positions are y values.
   */
  method SplitTrajectory(result: seq<real>) returns (mpcX: seq<real>, mpcY: seq<real>)
    ensures |mpcX| == if |result| >= 2 then (|result| - 1) / 2 else 0
    ensures |mpcY| == if |result| >= 2 then (|result| - 2) / 2 else 0
    ensures forall k :: 0 <= k < |mpcX| ==> mpcX[k] == result[2 + 2 * k]
    ensures forall k :: 0 <= k < |mpcY| ==> mpcY[k] == result[3 + 2 * k]
    ensures |result| >= 2 ==> Interleave(mpcX, mpcY) == result[2..]
  {
    mpcX, mpcY := [], [];
    var i := 2;
    while i < |result|
      invariant 2 <= i <= if |result| >= 2 then |result| else 2
      invariant |mpcX| == (i - 1) / 2 && |mpcY| == (i - 2) / 2
      invariant forall k :: 0 <= k < |mpcX| ==> mpcX[k] == result[2 + 2 * k]
      invariant forall k :: 0 <= k < |mpcY| ==> mpcY[k] == result[3 + 2 * k]
    {
      if i % 2 == 0 {
        mpcX := mpcX + [result[i]];
      } else {
        mpcY := mpcY + [result[i]];
      }
      i := i + 1;
    }
    if |result| >= 2 {
      InterleaveAt(mpcX, mpcY);
      var both := Interleave(mpcX, mpcY);
      forall n | 0 <= n < |both| ensures both[n] == result[2..][n] {
        if n % 2 == 0 {
          assert both[2 * (n / 2)] == mpcX[n / 2];
        } else {
          assert both[2 * (n / 2) + 1] == mpcY[n / 2];
        }
      }
    }
  }

  /** Spacing of the reference-line samples along the vehicle's x axis. */
  const PolyInc: real := 2.5

  /** Number of reference-line samples. */
  const NumPoints: nat := 25

  /**
   * The `next_x` / `next_y` loop: 25 points of the fitted polynomial at
   * `x = 0, 2.5, 5, …, 60`, ahead of the vehicle and in increasing order.
   */
  method ReferenceLine(coeffs: seq<real>) returns (nextX: seq<real>, nextY: seq<real>)
    ensures |nextX| == NumPoints && |nextY| == NumPoints
    ensures forall i :: 0 <= i < NumPoints ==> nextX[i] == (i as real) * PolyInc
    ensures forall i :: 0 <= i < NumPoints ==> nextY[i] == Poly(coeffs, PolyInc * (i as real))
    ensures forall i, j :: 0 <= i < j < NumPoints ==> nextX[i] < nextX[j]
    ensures |coeffs| > 0 ==> nextX[0] == 0.0 && nextY[0] == coeffs[0]
  {
    nextX, nextY := [], [];
    for i := 0 to NumPoints
      invariant |nextX| == i && |nextY| == i
      invariant forall k :: 0 <= k < i ==> nextX[k] == (k as real) * PolyInc
      invariant forall k :: 0 <= k < i ==> nextY[k] == Poly(coeffs, PolyInc * (k as real))
    {
      nextX := nextX + [(i as real) * PolyInc];
      var y := PolyEval(coeffs, PolyInc * (i as real));
      nextY := nextY + [y];
    }
    PolyAtZero(coeffs);
  }
}
