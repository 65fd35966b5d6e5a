/**
 * The pitch-bend codec of the `cpp/` revision: a three-state automaton that
 * reads symbol pairs and `#count#` run markers (resetting the count after every
 * marker), and an encoder that writes runs of two or more equal values as
 * `pair#count#`.
 */
module CppCodec {
  import opened Wrappers
  import opened CText
  import opened Base64
  import opened PitchCode

  /** Runs at least this long are written as `pair#count#`. */
  const Threshold: nat := 2

  /** `state` 1, 2 and 3 of the decoder. */
  datatype Phase = High | Low | Count

  /**
   * The decoder's variables, or `Undefined` once the decoder has read
   * `out.back()` of an empty vector.
   */
  datatype Machine =
    | Running(phase: Phase, val: int, reps: int, out: seq<int16>)
    | Undefined

  const Start: Machine := Running(High, 0, 0, [])

  /** `n` copies of the last element of out; none when n is not positive. */
  function Copies(out: seq<int16>, n: int): seq<int16>
  {
    if n <= 0 || out == [] then [] else Repeat(out[|out| - 1], n)
  }

  /** One pass of the decoder's loop body on character c. */
  function Step(m: Machine, c: char): (r: Machine)
    ensures r.Undefined? <==>
      m.Undefined? || (m.phase == Count && c == '#' && m.reps > 1 && m.out == [])
    ensures m.Running? && r.Running? ==> m.out <= r.out
  {
    match m
    case Undefined => Undefined
    case Running(phase, val, reps, out) =>
      match phase
      case High =>
        Running(if c == '#' then Count else Low, B64ToI(c as int), reps, out)
      case Low =>
        var v := (val * 64 + B64ToI(c as int)) % 65536;
        Running(High, v, reps, out + [ShiftSignExtend(v)])
      case Count =>
        if c == '#' then
          if reps - 1 > 0 && out == [] then Undefined
          else Running(High, val, 0, out + Copies(out, reps - 1))
        else Running(Count, val, reps * 10 + (c as int - '0' as int), out)
  }

  /** The decoder's state after reading s from state m. */
  function RunFrom(m: Machine, s: string): (r: Machine)
    ensures m.Running? && r.Running? ==> m.out <= r.out
    decreases |s|
  {
    if s == [] then m else RunFrom(Step(m, s[0]), s[1..])
  }

  /** Every value held by a running machine is a 12-bit offset. */
  predicate InRange(m: Machine)
  {
    m.Running? ==> AllInRange12(m.out)
  }

  /** `pitch_string_to_cents(in)`: the offsets, or None where the C++ behaviour is undefined. */
  function Decode(s: string): (r: Option<seq<int16>>)
    ensures r.Some? ==> AllInRange12(r.value)
    ensures CString(s) == [] ==> r == Some([])
  {
    RunFromInRange(Start, CString(s));
    match RunFrom(Start, CString(s))
    case Undefined => None
    case Running(_, _, _, out) => Some(out)
  }

  /** The decoder only ever appends sign-extended 12-bit values, whatever the input. */
  lemma {:induction false} RunFromInRange(m: Machine, s: string)
    requires InRange(m)
    ensures InRange(RunFrom(m, s))
    decreases |s|
  {
    if s != [] {
      var n := Step(m, s[0]);
      assert InRange(n) by {
        if m.Running? && m.phase == Count && s[0] == '#' && n.Running? {
          assert AllInRange12(m.out + Copies(m.out, m.reps - 1));
        }
      }
      RunFromInRange(n, s[1..]);
    }
  }

  lemma {:induction false} RunFromUndefined(s: string)
    ensures RunFrom(Undefined, s) == Undefined
    decreases |s|
  {
    if s != [] {
      RunFromUndefined(s[1..]);
    }
  }

  lemma RunFromStep(m: Machine, t: string, i: nat)
    requires i < |t|
    ensures RunFrom(m, t[i..]) == RunFrom(Step(m, t[i]), t[i + 1..])
  {
    assert t[i..][0] == t[i] && t[i..][1..] == t[i + 1..];
  }

  lemma {:induction false} RunFromAppend(m: Machine, a: string, b: string)
    ensures RunFrom(m, a + b) == RunFrom(RunFrom(m, a), b)
    decreases |a|
  {
    if a == [] {
      assert a + b == b;
    } else {
      assert (a + b)[0] == a[0];
      assert (a + b)[1..] == a[1..] + b;
      RunFromAppend(Step(m, a[0]), a[1..], b);
    }
  }

  /** Reading a pair from state 1 appends the pair's value. */
  lemma ReadPair(val: int, reps: int, out: seq<int16>, p: string)
    requires IsPair(p)
    ensures RunFrom(Running(High, val, reps, out), p) == Running(High, Word(p), reps, out + [PairValue(p) as int16])
  {
    PairWord(p);
    var m0 := Running(High, val, reps, out);
    var m1 := Running(Low, B64ToI(p[0] as int), reps, out);
    var m2 := Running(High, Word(p), reps, out + [PairValue(p) as int16]);
    assert Step(m0, p[0]) == m1;
    assert Step(m1, p[1]) == m2;
    var rest := p[1..];
    assert |rest| == 1 && rest[0] == p[1];
    assert |rest[1..]| == 0;
    calc {
      RunFrom(m0, p);
      RunFrom(m1, rest);
      RunFrom(m2, rest[1..]);
    }
  }

  /** Digits after a `#` accumulate decimally into `reps`. */
  lemma {:induction false} ReadDigits(val: int, reps: int, out: seq<int16>, d: string)
    requires AllDigits(d)
    ensures RunFrom(Running(Count, val, reps, out), d) == Running(Count, val, Accumulate(reps, d), out)
    decreases |d|
  {
    if d != [] {
      var init := d[..|d| - 1];
      ReadDigits(val, reps, out, init);
      RunFromAppend(Running(Count, val, reps, out), init, [d[|d| - 1]]);
      assert init + [d[|d| - 1]] == d;
    }
  }

  /**
   * A marker `#d#` read in state 1 appends DigitsValue(d) - 1 copies of the
   * last value and resets the count; with nothing decoded yet and a count of
   * two or more it reads `out.back()` of an empty vector.
   */
  lemma MarkerRepeats(val: int, out: seq<int16>, d: string)
    requires AllDigits(d)
    ensures var k := DigitsValue(d);
      RunFrom(Running(High, val, 0, out), "#" + d + "#")
        == if k - 1 > 0 && out == [] then Undefined
           else Running(High, NotASymbol, 0, out + Copies(out, k - 1))
  {
    var m0 := Running(High, val, 0, out);
    var m1 := Running(Count, NotASymbol, 0, out);
    assert Step(m0, '#') == m1;
    assert RunFrom(m0, "#") == m1;
    RunFromAppend(m0, "#", d);
    ReadDigits(NotASymbol, 0, out, d);
    RunFromAppend(m0, "#" + d, "#");
  }

  /** A run read from state 1 appends `count` copies of the pair's value. */
  lemma ReadRun(val: int, out: seq<int16>, r: Run<string>, threshold: nat)
    requires IsPair(r.item) && r.count >= 1
    ensures var m := RunFrom(Running(High, val, 0, out), EmitRun(r, threshold));
      m.Running? && m.phase == High && m.reps == 0
      && m.out == out + Repeat(PairValue(r.item) as int16, r.count)
  {
    if r.count < threshold {
      ReadPairs(val, out, r.item, r.count);
    } else {
      var p, d := r.item, NatToString(r.count);
      ReadPair(val, 0, out, p);
      MarkerAfterPair(Word(p), out, PairValue(p) as int16, r.count);
      assert p + "#" + d + "#" == p + ("#" + d + "#");
      RunFromAppend(Running(High, val, 0, out), p, "#" + d + "#");
    }
  }

  /** The marker of a compressed run, read right after its pair. */
  lemma MarkerAfterPair(w: int, out: seq<int16>, v: int16, count: nat)
    requires count >= 1
    ensures RunFrom(Running(High, w, 0, out + [v]), "#" + NatToString(count) + "#")
         == Running(High, NotASymbol, 0, out + Repeat(v, count))
  {
    MarkerRepeats(w, out + [v], NatToString(count));
    CopiesAfterValue(out, v, count);
  }

  /** A value followed by the copies a marker of count k makes of it is a block of k. */
  lemma CopiesAfterValue(out: seq<int16>, v: int16, k: nat)
    requires k >= 1
    ensures out + [v] + Copies(out + [v], k - 1) == out + Repeat(v, k)
  {
    if k > 1 {
      assert Copies(out + [v], k - 1) == Repeat(v, k - 1);
    }
    AppendBlock(out, v, k);
  }

  /** A pair written n times appends its value n times. */
  lemma {:induction false} ReadPairs(val: int, out: seq<int16>, p: string, n: nat)
    requires IsPair(p)
    ensures var m := RunFrom(Running(High, val, 0, out), RepeatText(p, n));
      m.Running? && m.phase == High && m.reps == 0
      && m.out == out + Repeat(PairValue(p) as int16, n)
    decreases n
  {
    if n > 0 {
      var v := PairValue(p) as int16;
      ReadPairs(val, out, p, n - 1);
      var m := RunFrom(Running(High, val, 0, out), RepeatText(p, n - 1));
      assert RepeatText(p, n) == RepeatText(p, n - 1) + p;
      RunFromAppend(Running(High, val, 0, out), RepeatText(p, n - 1), p);
      ReadPair(m.val, 0, m.out, p);
      assert out + Repeat(v, n - 1) + [v] == out + Repeat(v, n);
    }
  }

  /** The text of a list of pair runs appends the runs' values in order. */
  lemma {:induction false} ReadRuns(out: seq<int16>, rs: seq<Run<string>>, threshold: nat)
    requires PairRuns(rs)
    ensures var m := RunFrom(Running(High, 0, 0, out), EmitAll(rs, threshold));
      m.Running? && m.phase == High && m.reps == 0 && m.out == out + RunValues(rs)
    decreases |rs|
  {
    if rs != [] {
      var init, r := rs[..|rs| - 1], rs[|rs| - 1];
      assert init + [r] == rs;
      ReadRuns(out, init, threshold);
      EmitAllSnoc(init, r, threshold);
      RunFromAppend(Running(High, 0, 0, out), EmitAll(init, threshold), EmitRun(r, threshold));
      var m := RunFrom(Running(High, 0, 0, out), EmitAll(init, threshold));
      ReadRun(m.val, m.out, r, threshold);
    }
  }

  /**
   * Round trip: decoding the encoding of offsets in [-2048, 2047] gives them
   * back, whatever the compression threshold (so in particular for this
   * revision's threshold of 2).
   */
  lemma RoundTrip(xs: seq<int16>, threshold: nat)
    requires AllInRange12(xs)
    ensures Decode(Encoding(xs, threshold)) == Some(xs)
  {
    var rs := Runs(Pairs(xs));
    EncodingValues(xs);
    EmitAllText(rs, threshold);
    EncodingTextIsCString(Encoding(xs, threshold));
    ReadRuns([], rs, threshold);
    var m := RunFrom(Start, EmitAll(rs, threshold));
    assert m.out == xs;
  }

  /** `pitch_string_to_cents`: the three-state loop over the C string. */
  method PitchStringToCents(s: string) returns (r: Option<seq<int16>>)
    requires Ascii(CString(s))
    ensures r == Decode(s)
  {
    ghost var t := CString(s);
    var out: seq<int16> := [];
    var reps := 0;
    var phase := High;
    var val := 0;
    var i := 0;
    while i < |s| && s[i] != '\0'
      invariant 0 <= i <= |t|
      invariant RunFrom(Running(phase, val, reps, out), t[i..]) == RunFrom(Start, t)
      decreases |s| - i
    {
      var c := s[i];
      assert t[i] == c;
      RunFromStep(Running(phase, val, reps, out), t, i);
      var next := Advance(phase, val, reps, out, c);
      if next.Undefined? {
        RunFromUndefined(t[i + 1..]);
        return None;
      }
      phase, val, reps, out := next.phase, next.val, next.reps, next.out;
      i := i + 1;
    }
    assert t[i..] == [];
    r := Some(out);
  }

  /**
   * `for (i = 0; i < n; i++) out.push_back(out.back())`; None when that reads
   * the back of an empty vector.
   */
  method PushBackCopies(out: seq<int16>, n: int) returns (r: Option<seq<int16>>)
    ensures r == if n > 0 && out == [] then None else Some(out + Copies(out, n))
  {
    var o := out;
    var k := 0;
    while k < n
      invariant 0 <= k && (k <= n || k == 0)
      invariant o == out + Copies(out, k)
      invariant k > 0 ==> out != []
      decreases n - k
    {
      if o == [] {
        return None;
      }
      assert out != [] && o[|o| - 1] == out[|out| - 1];
      o := o + [o[|o| - 1]];
      k := k + 1;
    }
    assert Copies(out, k) == Copies(out, n);
    r := Some(o);
  }

  /** The body of the decoder's loop: the `switch (state)` on one character. */
  method Advance(phase: Phase, val: int, reps: int, out: seq<int16>, c: char) returns (next: Machine)
    ensures next == Step(Running(phase, val, reps, out), c)
  {
    var phase, val, reps, out := phase, val, reps, out;
    match phase {
      case High =>
        val := B64ToI(c as int);
        phase := if c == '#' then Count else Low;
      case Low =>
        val := (val * 64 + B64ToI(c as int)) % 65536;
        out := out + [ShiftSignExtend(val)];
        phase := High;
      case Count =>
        if c == '#' {
          phase := High;
          var copied := PushBackCopies(out, reps - 1);
          if copied.None? {
            return Undefined;
          }
          out := copied.value;
          reps := 0;
        } else {
          reps := reps * 10 + (c as int - '0' as int);
        }
    }
    next := Running(phase, val, reps, out);
  }

  /** One run's text appended to the output, as both branches of the encoder write it. */
  method AppendRun(out: string, pair: string, cnt: nat) returns (o: string)
    ensures o == out + EmitRun(Run(pair, cnt), Threshold)
  {
    o := out;
    if cnt < Threshold {
      var k := 0;
      while k < cnt
        invariant 0 <= k <= cnt && o == out + RepeatText(pair, k)
      {
        o := o + pair;
        k := k + 1;
      }
    } else {
      o := o + pair + "#" + NatToString(cnt) + "#";
    }
  }

  /** The encoder's first loop: `i & 0xFFF` split into two symbols, for every value. */
  method PairsOf(xs: seq<int16>) returns (pairs: seq<string>)
    ensures pairs == Pairs(xs)
  {
    pairs := [];
    for j := 0 to |xs|
      invariant pairs == Pairs(xs[..j])
    {
      var n := xs[j] % 4096;
      B64ToIOfAlphabet(n / 64);
      B64ToIOfAlphabet(n % 64);
      PairsSnoc(xs, j);
      pairs := pairs + [[Alphabet[n / 64], Alphabet[n % 64]]];
    }
    assert xs[..|xs|] == xs;
  }

  /** `cents_to_pitch_string`: pairs first, then one pass counting equal neighbours. */
  method CentsToPitchString(xs: seq<int16>) returns (out: string)
    requires |xs| > 0
    ensures out == Encoding(xs, Threshold)
  {
    var pairs := PairsOf(xs);
    var lastPair := pairs[0];
    var cnt := 1;
    ghost var done: seq<Run<string>> := [];
    out := "";
    assert pairs[..1] == [pairs[0]];
    RunsSingleton(lastPair);
    var i := 1;
    while i < |pairs|
      invariant 1 <= i <= |pairs| && cnt >= 1
      invariant Runs(pairs[..i]) == done + [Run(lastPair, cnt)]
      invariant out == EmitAll(done, Threshold)
    {
      var pair := pairs[i];
      TakeSnoc(pairs, i);
      RunsSnoc(pairs[..i], done, Run(lastPair, cnt), pair);
      if pair == lastPair {
        cnt := cnt + 1;
      } else {
        out := AppendRun(out, lastPair, cnt);
        EmitAllSnoc(done, Run(lastPair, cnt), Threshold);
        done := done + [Run(lastPair, cnt)];
        cnt := 1;
        lastPair := pair;
      }
      i := i + 1;
    }
    assert pairs[..i] == pairs;
    EmitAllSnoc(done, Run(lastPair, cnt), Threshold);
    out := AppendRun(out, lastPair, cnt);
  }
}
