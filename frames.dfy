/**
  The streamed-frame side of the recorder: the 32-bit frame counter and its
  save-every-Nth throttle, the camera image handed to the analyzer, and the
  repacking of its three planes into one NV21 byte array.
 */
module Frames {

  newtype byte = b: int | 0 <= b < 256

  /** A Kotlin `Int`. */
  newtype int32 = x: int | -0x8000_0000 <= x < 0x8000_0000

  const MaxInt32: int32 := 0x7fff_ffff
  const MinInt32: int32 := -0x8000_0000

  /** FRAME_SAVE_INTERVAL: with 1, every processed frame is saved. */
  const FrameSaveInterval: int := 1

  /** `frameCount++` on a Kotlin `Int`, which wraps around past the maximum:
      the one 32-bit value congruent to c + 1 modulo 2^32. */
  function Increment(c: int32): (r: int32)
    ensures c < MaxInt32 ==> r as int == c as int + 1
    ensures (r as int - c as int - 1) % 0x1_0000_0000 == 0
  {
    if c == MaxInt32 then MinInt32 else c + 1
  }

  /** Kotlin's `/` on integers: division truncated toward zero. */
  function Quot(a: int, b: int): int
    requires b > 0
  {
    if a >= 0 then a / b else -((-a) / b)
  }

  /** Kotlin's `%` on integers: the remainder of truncating division, which
      takes the sign of the dividend (Dafny's own `%` never goes negative). */
  function Rem(a: int, b: int): (r: int)
    requires b > 0
    ensures a == Quot(a, b) * b + r
    ensures -b < r < b
    ensures a >= 0 ==> r >= 0
    ensures a <= 0 ==> r <= 0
  {
    if a >= 0 then
      assert a == (a / b) * b + a % b;
      a % b
    else
      assert -a == ((-a) / b) * b + (-a) % b;
      assert a == -((-a) / b) * b - (-a) % b;
      -((-a) % b)
  }

  /** A truncated remainder is zero exactly when the divisor divides the dividend. */
  lemma RemZeroIffDivides(a: int, b: int)
    requires b > 0
    ensures Rem(a, b) == 0 <==> a % b == 0
  {
    if a < 0 {
      if (-a) % b == 0 {
        var q := (-a) / b;
        assert a == (-q) * b;
        DivUnique(a, b, -q, 0);
      }
      if a % b == 0 {
        var q := a / b;
        assert -a == (-q) * b;
        DivUnique(-a, b, -q, 0);
      }
    }
  }

  /** The throttle test on the counter, for any interval: the frame is saved
      exactly when the interval divides the counter. */
  predicate Saves(count: int32, interval: int)
    requires interval > 0
    ensures Saves(count, interval) <==> count as int % interval == 0
  {
    RemZeroIffDivides(count as int, interval);
    Rem(count as int, interval) == 0
  }

  /** With the shipped interval every processed frame is saved, thanks to the
      counter's value, including after it has wrapped to negative values. */
  lemma EveryFrameSaved(count: int32)
    ensures Saves(count, FrameSaveInterval)
  {
  }

  /** The save decisions for `n` successive processed frames, starting from a
      counter value `c`: each frame first increments, then tests the counter. */
  function SaveDecisions(c: int32, n: nat, interval: int): (d: seq<bool>)
    requires interval > 0
    ensures |d| == n
    decreases n
  {
    if n == 0 then []
    else [Saves(Increment(c), interval)] + SaveDecisions(Increment(c), n - 1, interval)
  }

  function Trues(bs: seq<bool>): nat
  {
    if bs == [] then 0 else (if bs[0] then 1 else 0) + Trues(bs[1..])
  }

  lemma MulAtLeast(m: int, b: int)
    requires m >= 1 && b > 0
    ensures m * b >= b
  {
    assert m * b == (m - 1) * b + b;
  }

  lemma DivUnique(x: int, b: int, q: int, r: int)
    requires b > 0 && 0 <= r < b && x == q * b + r
    ensures x / b == q && x % b == r
  {
    var q', r' := x / b, x % b;
    assert x == q' * b + r';
    if q' > q {
      assert (q' - q) * b == r - r';
      MulAtLeast(q' - q, b);
    } else if q' < q {
      assert (q - q') * b == r' - r;
      MulAtLeast(q - q', b);
    }
  }

  /** Stepping a non-negative counter by one crosses a multiple of the interval
      exactly when the new value is one. */
  lemma QuotientStep(c: nat, interval: int)
    requires interval > 0
    ensures (c + 1) / interval == c / interval + (if (c + 1) % interval == 0 then 1 else 0)
  {
    var q, r := c / interval, c % interval;
    if r == interval - 1 {
      DivUnique(c + 1, interval, q + 1, 0);
    } else {
      DivUnique(c + 1, interval, q, r + 1);
    }
  }

  /** Below the wrap-around, frame k after the counter value c is saved iff
      c + k + 1 is a multiple of the interval, and the frames saved number
      (c + n) / interval - c / interval. */
  lemma {:induction false} SaveDecisionsBelowWrap(c: int32, n: nat, interval: int)
    requires interval > 0 && 0 <= c as int && c as int + n <= MaxInt32 as int
    ensures forall k :: 0 <= k < n ==>
      SaveDecisions(c, n, interval)[k] == ((c as int + k + 1) % interval == 0)
    ensures Trues(SaveDecisions(c, n, interval)) == (c as int + n) / interval - c as int / interval
    decreases n
  {
    if n > 0 {
      var c' := Increment(c);
      assert c' as int == c as int + 1;
      SaveDecisionsBelowWrap(c', n - 1, interval);
      QuotientStep(c as nat, interval);
      var d := SaveDecisions(c, n, interval);
      assert d[1..] == SaveDecisions(c', n - 1, interval);
      forall k | 0 <= k < n
        ensures d[k] == ((c as int + k + 1) % interval == 0)
      {
        if k > 0 {
          assert d[k] == d[1..][k - 1];
        }
      }
    }
  }

  /** From a reset counter, among n processed frames exactly the numbers
      divisible by the interval are saved, n / interval of them. */
  lemma SavedAfterReset(n: nat, interval: int)
    requires interval > 0 && n <= MaxInt32 as int
    ensures forall k :: 1 <= k <= n ==> SaveDecisions(0, n, interval)[k - 1] == (k % interval == 0)
    ensures Trues(SaveDecisions(0, n, interval)) == n / interval
  {
    SaveDecisionsBelowWrap(0, n, interval);
  }

  /** Ten frames at interval three: frames 3, 6 and 9 are saved, and no others. */
  lemma TenFramesAtIntervalThree()
    ensures SaveDecisions(0, 10, 3) ==
      [false, false, true, false, false, true, false, false, true, false]
    ensures Trues(SaveDecisions(0, 10, 3)) == 3
  {
    SavedAfterReset(10, 3);
  }

  /** A camera frame as delivered to the analyzer: the bytes remaining in its
      Y, U and V plane buffers, and how often it has been closed. */
  class Image {
    const yPlane: seq<byte>
    const uPlane: seq<byte>
    const vPlane: seq<byte>
    var closeCount: nat

    constructor (y: seq<byte>, u: seq<byte>, v: seq<byte>)
      ensures yPlane == y && uPlane == u && vPlane == v && closeCount == 0
    {
      yPlane, uPlane, vPlane := y, u, v;
      closeCount := 0;
    }

    method Close()
      modifies this`closeCount
      ensures closeCount == old(closeCount) + 1
    {
      closeCount := closeCount + 1;
    }
  }

  /** The plane copy of yuvToJpegBytes: one array of ySize + uSize + vSize
      bytes holding the Y plane, then the V plane, then the U plane (NV21
      order, V before U). */
  method RepackNv21(y: seq<byte>, u: seq<byte>, v: seq<byte>) returns (nv21: array<byte>)
    ensures nv21.Length == |y| + |u| + |v|
    ensures forall i :: 0 <= i < |y| ==> nv21[i] == y[i]
    ensures forall i :: 0 <= i < |v| ==> nv21[|y| + i] == v[i]
    ensures forall i :: 0 <= i < |u| ==> nv21[|y| + |v| + i] == u[i]
  {
    nv21 := new byte[|y| + |u| + |v|];
    // the Y plane into [0, |y|)
    var i := 0;
    while i < |y|
      invariant 0 <= i <= |y|
      invariant forall k :: 0 <= k < i ==> nv21[k] == y[k]
    {
      nv21[i] := y[i];
      i := i + 1;
    }
    // the V plane into [|y|, |y| + |v|)
    i := 0;
    while i < |v|
      invariant 0 <= i <= |v|
      invariant forall k :: 0 <= k < |y| ==> nv21[k] == y[k]
      invariant forall k :: 0 <= k < i ==> nv21[|y| + k] == v[k]
    {
      nv21[|y| + i] := v[i];
      i := i + 1;
    }
    // the U plane after it
    i := 0;
    while i < |u|
      invariant 0 <= i <= |u|
      invariant forall k :: 0 <= k < |y| ==> nv21[k] == y[k]
      invariant forall k :: 0 <= k < |v| ==> nv21[|y| + k] == v[k]
      invariant forall k :: 0 <= k < i ==> nv21[|y| + |v| + k] == u[k]
    {
      nv21[|y| + |v| + i] := u[i];
      i := i + 1;
    }
  }

  /** The layout above, as a sequence: the Y plane, the V plane, the U plane. */
  lemma Nv21Layout(y: seq<byte>, u: seq<byte>, v: seq<byte>, nv21: seq<byte>)
    requires |nv21| == |y| + |u| + |v|
    requires forall i :: 0 <= i < |y| ==> nv21[i] == y[i]
    requires forall i :: 0 <= i < |v| ==> nv21[|y| + i] == v[i]
    requires forall i :: 0 <= i < |u| ==> nv21[|y| + |v| + i] == u[i]
    ensures nv21 == y + v + u
    ensures nv21[..|y|] == y && nv21[|y|..|y| + |v|] == v && nv21[|y| + |v|..] == u
  {
    assert forall i :: 0 <= i < |nv21| ==> nv21[i] == (y + v + u)[i] by {
      forall i | 0 <= i < |nv21| ensures nv21[i] == (y + v + u)[i] {
        if i >= |y| + |v| {
          assert nv21[|y| + |v| + (i - |y| - |v|)] == u[i - |y| - |v|];
        } else if i >= |y| {
          assert nv21[|y| + (i - |y|)] == v[i - |y|];
        }
      }
    }
  }
}
