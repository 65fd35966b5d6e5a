/**
 * `floats_to_ints` of fakesampler.py: each pitch value is truncated to an
 * integer and clamped to the 12-bit range the pitch code can carry, and a
 * warning is due when some value had to be clamped.
 */
module PyClamp {
  import opened PitchCode
  import opened CArith

  /** Python's `int(f)` on a finite float: rounds toward zero. */
  function Trunc(f: real): (i: int)
    ensures 0.0 <= f ==> i as real <= f < i as real + 1.0
    ensures f < 0.0 ==> i as real - 1.0 < f <= i as real
  {
    if f >= 0.0 then f.Floor else -((-f).Floor)
  }

  /** The branches of the loop body: above 2047 or below -2048 is clipped. */
  function Clamp12(i: int): (v: int)
    ensures InRange12(v)
    ensures v == i <==> !Clipped(i)
  {
    if i > 2047 then 2047 else if i < -2048 then -2048 else i
  }

  predicate Clipped(i: int)
  {
    i > 2047 || i < -2048
  }

  /** The clamped value is the 12-bit value nearest to i. */
  lemma ClampNearest(i: int, v: int)
    requires InRange12(v)
    ensures Abs(Clamp12(i) - i) <= Abs(v - i)
  {
  }

  /**
   * `floats_to_ints`: the list of clamped integers, same length and order, and
   * whether the warning is printed (it goes to standard error, which is not modelled).
   */
  method FloatsToInts(x: seq<real>) returns (out: seq<int>, warned: bool)
    ensures |out| == |x| && AllInRange12(out)
    ensures forall k :: 0 <= k < |x| ==> out[k] == Clamp12(Trunc(x[k]))
    ensures warned <==> exists k :: 0 <= k < |x| && Clipped(Trunc(x[k]))
  {
    out := [];
    warned := false;
    for j := 0 to |x|
      invariant |out| == j && AllInRange12(out)
      invariant forall k :: 0 <= k < j ==> out[k] == Clamp12(Trunc(x[k]))
      invariant warned <==> exists k :: 0 <= k < j && Clipped(Trunc(x[k]))
    {
      var i := Trunc(x[j]);
      if i > 2047 {
        warned := true;
        out := out + [2047];
      } else if i < -2048 {
        warned := true;
        out := out + [-2048];
      } else {
        out := out + [i];
      }
    }
  }
}
