/**
 * The pitch-bend codec of the top-level revision: the same three-state
 * automaton as the `cpp/` revision except that the repeat count `reps` is
 * never reset after a closing `#`, and an encoder that writes runs of six or
 * more equal values as `pair#count#`.
 */
module RootCodec {
  import opened Wrappers
  import opened CText
  import opened Base64
  import opened PitchCode
  import CppCodec

  /** Runs at least this long are written as `pair#count#`. */
  const Threshold: nat := 6

  /** `state` 1, 2 and 3 of the decoder. */
  datatype Phase = High | Low | Count

  /**
   * The decoder's variables, or `Undefined` once the decoder has read
   * `out.back()` of an empty vector.
   */
  datatype Machine =
    | Running(phase: Phase, val: int, reps: int, out: seq<int16>)
    | Undefined

  const Start: Machine := Running(High, 0, 0, [])

  /** One pass of the decoder's loop body on character c; a closing `#` leaves `reps` as it is. */
  function Step(m: Machine, c: char): (r: Machine)
    ensures r.Undefined? <==>
      m.Undefined? || (m.phase == Count && c == '#' && m.reps > 1 && m.out == [])
    ensures m.Running? && r.Running? ==> m.out <= r.out
  {
    match m
    case Undefined => Undefined
    case Running(phase, val, reps, out) =>
      match phase
      case High =>
        Running(if c == '#' then Count else Low, B64ToI(c as int), reps, out)
      case Low =>
        var v := (val * 64 + B64ToI(c as int)) % 65536;
        Running(High, v, reps, out + [ShiftSignExtend(v)])
      case Count =>
        if c == '#' then
          if reps - 1 > 0 && out == [] then Undefined
          else Running(High, val, reps, out + CppCodec.Copies(out, reps - 1))
        else Running(Count, val, reps * 10 + (c as int - '0' as int), out)
  }

  /** The decoder's state after reading s from state m. */
  function RunFrom(m: Machine, s: string): (r: Machine)
    ensures m.Running? && r.Running? ==> m.out <= r.out
    decreases |s|
  {
    if s == [] then m else RunFrom(Step(m, s[0]), s[1..])
  }

  predicate InRange(m: Machine)
  {
    m.Running? ==> AllInRange12(m.out)
  }

  /** `pitch_string_to_cents(in)`: the offsets, or None where the C++ behaviour is undefined. */
  function Decode(s: string): (r: Option<seq<int16>>)
    ensures r.Some? ==> AllInRange12(r.value)
    ensures CString(s) == [] ==> r == Some([])
  {
    RunFromInRange(Start, CString(s));
    match RunFrom(Start, CString(s))
    case Undefined => None
    case Running(_, _, _, out) => Some(out)
  }

  /** The decoder only ever appends sign-extended 12-bit values, whatever the input. */
  lemma {:induction false} RunFromInRange(m: Machine, s: string)
    requires InRange(m)
    ensures InRange(RunFrom(m, s))
    decreases |s|
  {
    if s != [] {
      var n := Step(m, s[0]);
      assert InRange(n) by {
        if m.Running? && m.phase == Count && s[0] == '#' && n.Running? {
          assert AllInRange12(m.out + CppCodec.Copies(m.out, m.reps - 1));
        }
      }
      RunFromInRange(n, s[1..]);
    }
  }

  lemma {:induction false} RunFromUndefined(s: string)
    ensures RunFrom(Undefined, s) == Undefined
    decreases |s|
  {
    if s != [] {
      RunFromUndefined(s[1..]);
    }
  }

  lemma RunFromStep(m: Machine, t: string, i: nat)
    requires i < |t|
    ensures RunFrom(m, t[i..]) == RunFrom(Step(m, t[i]), t[i + 1..])
  {
    assert t[i..][0] == t[i] && t[i..][1..] == t[i + 1..];
  }

  lemma {:induction false} RunFromAppend(m: Machine, a: string, b: string)
    ensures RunFrom(m, a + b) == RunFrom(RunFrom(m, a), b)
    decreases |a|
  {
    if a == [] {
      assert a + b == b;
    } else {
      assert (a + b)[0] == a[0];
      assert (a + b)[1..] == a[1..] + b;
      RunFromAppend(Step(m, a[0]), a[1..], b);
    }
  }

  /** Reading a pair from state 1 appends the pair's value and keeps `reps`. */
  lemma ReadPair(val: int, reps: int, out: seq<int16>, p: string)
    requires IsPair(p)
    ensures RunFrom(Running(High, val, reps, out), p) == Running(High, Word(p), reps, out + [PairValue(p) as int16])
  {
    PairWord(p);
    var m0 := Running(High, val, reps, out);
    var m1 := Running(Low, B64ToI(p[0] as int), reps, out);
    var m2 := Running(High, Word(p), reps, out + [PairValue(p) as int16]);
    assert Step(m0, p[0]) == m1;
    assert Step(m1, p[1]) == m2;
    var rest := p[1..];
    assert |rest| == 1 && rest[0] == p[1];
    assert |rest[1..]| == 0;
    calc {
      RunFrom(m0, p);
      RunFrom(m1, rest);
      RunFrom(m2, rest[1..]);
    }
  }

  /** Digits after a `#` accumulate decimally onto whatever `reps` holds. */
  lemma {:induction false} ReadDigits(val: int, reps: int, out: seq<int16>, d: string)
    requires AllDigits(d)
    ensures RunFrom(Running(Count, val, reps, out), d) == Running(Count, val, Accumulate(reps, d), out)
    decreases |d|
  {
    if d != [] {
      var init := d[..|d| - 1];
      ReadDigits(val, reps, out, init);
      RunFromAppend(Running(Count, val, reps, out), init, [d[|d| - 1]]);
      assert init + [d[|d| - 1]] == d;
    }
  }

  /**
   * A marker `#d#` read in state 1 with count `reps` already held accumulates
   * the digits of d onto it, appends that many copies of the last value minus
   * one, and keeps that number as the count.
   */
  lemma MarkerRepeats(val: int, reps: int, out: seq<int16>, d: string)
    requires AllDigits(d)
    ensures var k := Accumulate(reps, d);
      RunFrom(Running(High, val, reps, out), "#" + d + "#")
        == if k - 1 > 0 && out == [] then Undefined
           else Running(High, NotASymbol, k, out + CppCodec.Copies(out, k - 1))
  {
    var m0 := Running(High, val, reps, out);
    var m1 := Running(Count, NotASymbol, reps, out);
    assert Step(m0, '#') == m1;
    assert RunFrom(m0, "#") == m1;
    RunFromAppend(m0, "#", d);
    ReadDigits(NotASymbol, reps, out, d);
    RunFromAppend(m0, "#" + d, "#");
  }

  /** A pair written n times appends its value n times. */
  lemma {:induction false} ReadPairs(val: int, reps: int, out: seq<int16>, p: string, n: nat)
    requires IsPair(p)
    ensures var m := RunFrom(Running(High, val, reps, out), RepeatText(p, n));
      m.Running? && m.phase == High && m.reps == reps
      && m.out == out + Repeat(PairValue(p) as int16, n)
    decreases n
  {
    if n > 0 {
      var v := PairValue(p) as int16;
      ReadPairs(val, reps, out, p, n - 1);
      var m := RunFrom(Running(High, val, reps, out), RepeatText(p, n - 1));
      assert RepeatText(p, n) == RepeatText(p, n - 1) + p;
      RunFromAppend(Running(High, val, reps, out), RepeatText(p, n - 1), p);
      ReadPair(m.val, reps, m.out, p);
      assert out + Repeat(v, n - 1) + [v] == out + Repeat(v, n);
    }
  }

  /**
   * The count the decoder acts on for a marker spelling `count` when `held`
   * is still in `reps`: the digits are appended to the held count.
   */
  function HeldCount(held: nat, count: nat): (k: nat)
    ensures k >= count && k >= held && (held > 0 <==> k > count)
  {
    HeldCountGrows(held, Pow10(|NatToString(count)|), count);
    held * Pow10(|NatToString(count)|) + count
  }

  /** A count already held only ever adds to the count a marker spells. */
  lemma HeldCountGrows(held: int, scale: int, count: int)
    requires held >= 0 && scale >= 1
    requires count >= 0
    ensures held * scale + count >= count && held * scale + count >= held
    ensures held > 0 ==> held * scale + count > count
  {
    assert held * scale >= held;
  }

  /** A compressed run read with `reps` already holding `held` repeats the pair HeldCount(held, count) times. */
  lemma ReadCompressedRun(val: int, held: nat, out: seq<int16>, r: Run<string>)
    requires IsPair(r.item) && r.count >= 1
    ensures var m := RunFrom(Running(High, val, held, out), r.item + "#" + NatToString(r.count) + "#");
      m.Running? && m.phase == High && m.reps == HeldCount(held, r.count)
      && m.out == out + Repeat(PairValue(r.item) as int16, HeldCount(held, r.count))
  {
    var p, d := r.item, NatToString(r.count);
    var v := PairValue(p) as int16;
    var m0 := Running(High, val, held, out);
    var m1 := Running(High, Word(p), held, out + [v]);
    ReadPair(val, held, out, p);
    MarkerAfterPair(Word(p), held, out, v, r.count);
    assert p + "#" + d + "#" == p + ("#" + d + "#");
    RunFromAppend(m0, p, "#" + d + "#");
  }

  /** The marker of a compressed run, read right after its pair with `held` in `reps`. */
  lemma MarkerAfterPair(w: int, held: nat, out: seq<int16>, v: int16, count: nat)
    requires count >= 1
    ensures var k := HeldCount(held, count);
      RunFrom(Running(High, w, held, out + [v]), "#" + NatToString(count) + "#")
        == Running(High, NotASymbol, k, out + Repeat(v, k))
  {
    var d := NatToString(count);
    AccumulateShift(held, d);
    MarkerRepeats(w, held, out + [v], d);
    CppCodec.CopiesAfterValue(out, v, HeldCount(held, count));
  }

  /** How many of the runs the encoder writes as `pair#count#`. */
  function CompressedCount(rs: seq<Run<string>>, threshold: nat): (n: nat)
    ensures n <= |rs|
  {
    if rs == [] then 0
    else CompressedCount(rs[..|rs| - 1], threshold) + (if rs[|rs| - 1].count >= threshold then 1 else 0)
  }

  /** What reading the text of runs does when `reps` is never reset. */
  ghost predicate ReadOutcome(m: Machine, reps: nat, out: seq<int16>, rs: seq<Run<string>>, threshold: nat)
    requires PairRuns(rs)
  {
    var c := CompressedCount(rs, threshold);
    && m.Running? && m.phase == High && m.reps >= reps
    && (c == 0 ==> m.reps == reps)
    && (c >= 1 ==> m.reps >= 1)
    && |m.out| >= |out| + |RunValues(rs)|
    && (reps == 0 && c <= 1 ==> m.out == out + RunValues(rs))
    && ((reps > 0 && c >= 1) || c >= 2 ==> |m.out| > |out| + |RunValues(rs)|)
  }

  /**
   * Reading the text of runs: the values come out right as long as no
   * compressed run follows another one (or a count already held), and every
   * later compressed run produces too many values.
   */
  lemma {:induction false} ReadRuns(reps: nat, out: seq<int16>, rs: seq<Run<string>>, threshold: nat)
    requires PairRuns(rs) && threshold >= 1
    ensures ReadOutcome(RunFrom(Running(High, 0, reps, out), EmitAll(rs, threshold)), reps, out, rs, threshold)
    decreases |rs|
  {
    var m0 := Running(High, 0, reps, out);
    if rs == [] {
      assert RunFrom(m0, EmitAll(rs, threshold)) == m0;
    } else {
      var init, r := rs[..|rs| - 1], rs[|rs| - 1];
      assert init + [r] == rs;
      RunValuesSnoc(init, r);
      ReadRuns(reps, out, init, threshold);
      EmitAllSnoc(init, r, threshold);
      RunFromAppend(m0, EmitAll(init, threshold), EmitRun(r, threshold));
      var m := RunFrom(m0, EmitAll(init, threshold));
      ReadLastRun(m, reps, out, init, r, threshold);
    }
  }

  lemma ReadLastRun(m: Machine, reps: nat, out: seq<int16>, init: seq<Run<string>>, r: Run<string>, threshold: nat)
    requires PairRuns(init + [r]) && threshold >= 1
    requires PairRuns(init) && ReadOutcome(m, reps, out, init, threshold)
    ensures ReadOutcome(RunFrom(m, EmitRun(r, threshold)), reps, out, init + [r], threshold)
  {
    var rs := init + [r];
    RunValuesSnoc(init, r);
    assert rs[..|rs| - 1] == init && rs[|rs| - 1] == r;
    if r.count < threshold {
      ReadLastShort(m, reps, out, init, r, threshold);
    } else {
      ReadLastCompressed(m, reps, out, init, r, threshold);
    }
  }

  lemma ReadLastShort(m: Machine, reps: nat, out: seq<int16>, init: seq<Run<string>>, r: Run<string>, threshold: nat)
    requires IsPair(r.item) && 1 <= r.count < threshold
    requires PairRuns(init) && PairRuns(init + [r]) && ReadOutcome(m, reps, out, init, threshold)
    requires CompressedCount(init + [r], threshold) == CompressedCount(init, threshold)
    requires RunValues(init + [r]) == RunValues(init) + Repeat(PairValue(r.item), r.count)
    ensures ReadOutcome(RunFrom(m, EmitRun(r, threshold)), reps, out, init + [r], threshold)
  {
    ReadPairs(m.val, m.reps, m.out, r.item, r.count);
    var m' := RunFrom(m, EmitRun(r, threshold));
    var v := PairValue(r.item) as int16;
    assert m'.reps == m.reps && m'.out == m.out + Repeat(v, r.count);
    assert |RunValues(init + [r])| == |RunValues(init)| + r.count;
  }

  lemma ReadLastCompressed(m: Machine, reps: nat, out: seq<int16>, init: seq<Run<string>>, r: Run<string>, threshold: nat)
    requires IsPair(r.item) && 1 <= threshold <= r.count
    requires PairRuns(init) && PairRuns(init + [r]) && ReadOutcome(m, reps, out, init, threshold)
    requires CompressedCount(init + [r], threshold) == CompressedCount(init, threshold) + 1
    requires RunValues(init + [r]) == RunValues(init) + Repeat(PairValue(r.item), r.count)
    ensures ReadOutcome(RunFrom(m, EmitRun(r, threshold)), reps, out, init + [r], threshold)
  {
    ReadCompressedRun(m.val, m.reps, m.out, r);
    var v := PairValue(r.item) as int16;
    var k := HeldCount(m.reps, r.count);
    var m' := RunFrom(m, EmitRun(r, threshold));
    var c0 := CompressedCount(init, threshold);
    var before := |out| + |RunValues(init)|;
    assert m'.reps == k && m'.out == m.out + Repeat(v, k);
    assert |m'.out| == |m.out| + k;
    assert |out| + |RunValues(init + [r])| == before + r.count;
    if reps == 0 && c0 == 0 {
      assert m.reps == 0 && k == r.count;
      assert m.out == out + RunValues(init);
      assert m'.out == out + RunValues(init + [r]);
    }
    if (reps > 0 && c0 + 1 >= 1) || c0 + 1 >= 2 {
      assert m.reps > 0;
      assert k > r.count;
    }
  }

  /**
   * The round trip holds exactly when the encoding has at most one compressed
   * run: with two or more, the second count is read on top of the first.
   */
  lemma RoundTripIff(xs: seq<int16>)
    requires AllInRange12(xs)
    ensures Decode(Encoding(xs, Threshold)) == Some(xs) <==> CompressedCount(Runs(Pairs(xs)), Threshold) <= 1
  {
    var rs := Runs(Pairs(xs));
    EncodingValues(xs);
    EmitAllText(rs, Threshold);
    EncodingTextIsCString(Encoding(xs, Threshold));
    ReadRuns(0, [], rs, Threshold);
    var m := RunFrom(Start, EmitAll(rs, Threshold));
    if CompressedCount(rs, Threshold) <= 1 {
      assert m.out == xs;
    } else {
      assert |m.out| > |xs|;
    }
  }

  /**
   * Two compressed runs of different values: the second count is read with the
   * first still held, so the second value comes out HeldCount(c1, c2) times.
   */
  lemma SecondCountAppended(a: int16, b: int16, c1: nat, c2: nat)
    requires InRange12(a) && InRange12(b) && a != b
    requires c1 >= Threshold && c2 >= Threshold
    ensures Decode(Encoding(Repeat(a, c1) + Repeat(b, c2), Threshold))
         == Some(Repeat(a, c1) + Repeat(b, HeldCount(c1, c2)))
  {
    var r1, r2 := Run(Pair(a), c1), Run(Pair(b), c2);
    TwoRunText(a, b, c1, c2);
    PairValueOfPair(a);
    PairValueOfPair(b);
    ReadCompressedRun(0, 0, [], r1);
    assert HeldCount(0, c1) == c1;
    var m1 := RunFrom(Start, EmitRun(r1, Threshold));
    assert m1.reps == c1 && m1.out == Repeat(a, c1);
    ReadCompressedRun(m1.val, c1, m1.out, r2);
    var m2 := RunFrom(m1, EmitRun(r2, Threshold));
    assert m2.Running? && m2.out == Repeat(a, c1) + Repeat(b, HeldCount(c1, c2));
    RunFromAppend(Start, EmitRun(r1, Threshold), EmitRun(r2, Threshold));
  }

  /** The encoding of two compressed blocks: one marker run after the other, with no NUL inside. */
  lemma TwoRunText(a: int16, b: int16, c1: nat, c2: nat)
    requires InRange12(a) && InRange12(b) && a != b
    requires c1 >= Threshold && c2 >= Threshold
    ensures var text := EmitRun(Run(Pair(a), c1), Threshold) + EmitRun(Run(Pair(b), c2), Threshold);
      Encoding(Repeat(a, c1) + Repeat(b, c2), Threshold) == text && CString(text) == text
    ensures EmitRun(Run(Pair(a), c1), Threshold) == Pair(a) + "#" + NatToString(c1) + "#"
    ensures EmitRun(Run(Pair(b), c2), Threshold) == Pair(b) + "#" + NatToString(c2) + "#"
  {
    var xs: seq<int16> := Repeat(a, c1) + Repeat(b, c2);
    var pa, pb := Pair(a), Pair(b);
    PairValueOfPair(a);
    PairValueOfPair(b);
    var r1, r2 := Run(pa, c1), Run(pb, c2);
    TwoBlockRuns(a, b, c1, c2);
    var rs := [r1, r2];
    assert PairRuns(rs);
    EmitTwo(r1, r2, Threshold);
    var text := EmitRun(r1, Threshold) + EmitRun(r2, Threshold);
    assert Encoding(xs, Threshold) == EmitAll(rs, Threshold);
    EmitAllText(rs, Threshold);
    EncodingTextIsCString(text);
  }

  /** The runs of a block of a followed by a block of b. */
  lemma TwoBlockRuns(a: int16, b: int16, c1: nat, c2: nat)
    requires InRange12(a) && InRange12(b) && a != b && c1 >= 1 && c2 >= 1
    ensures Runs(Pairs(Repeat(a, c1) + Repeat(b, c2))) == [Run(Pair(a), c1), Run(Pair(b), c2)]
  {
    PairValueOfPair(a);
    PairValueOfPair(b);
    var pa, pb := Pair(a), Pair(b);
    PairsOfBlocks(a, b, c1, c2);
    BlockRuns(pa, pb, c1, c2);
  }

  /**
   * Six zeros followed by six ones: the encoder writes `AA#6#AB#6#`, and the
   * decoder reads the second count as 66, so the round trip fails.
   */
  lemma NoResetCounterexample()
    ensures Encoding(Repeat(0, 6) + Repeat(1, 6), Threshold) == "AA#6#AB#6#"
    ensures HeldCount(6, 6) == 66
    ensures Decode("AA#6#AB#6#") == Some(Repeat(0 as int16, 6) + Repeat(1 as int16, 66))
  {
    CounterexampleRuns();
    CounterexampleText();
    assert NatToString(6) == "6" && Pow10(1) == 10;
    SecondCountAppended(0, 1, 6, 6);
  }

  /** The runs of the pairs of six zeros and six ones. */
  lemma CounterexampleRuns()
    ensures Runs(Pairs(Repeat(0, 6) + Repeat(1, 6))) == [Run("AA", 6), Run("AB", 6)]
  {
    AlphabetByRanges();
    assert Alphabet[0] == IToB64(0) && Alphabet[1] == IToB64(1);
    assert Pair(0) == "AA";
    assert Pair(1) == "AB";
    PairsOfBlocks(0, 1, 6, 6);
    BlockRuns("AA", "AB", 6, 6);
  }

  lemma CounterexampleText()
    ensures EmitAll([Run("AA", 6), Run("AB", 6)], Threshold) == "AA#6#AB#6#"
  {
    var rs := [Run("AA", 6), Run("AB", 6)];
    assert NatToString(6) == "6";
    assert EmitRun(rs[0], Threshold) == "AA#6#";
    assert EmitRun(rs[1], Threshold) == "AB#6#";
    assert rs[1..][1..] == [];
    assert EmitAll(rs, Threshold) == "AA#6#" + "AB#6#";
  }

  /** `pitch_string_to_cents`: the three-state loop over the C string, without the reset. */
  method PitchStringToCents(s: string) returns (r: Option<seq<int16>>)
    requires Ascii(CString(s))
    ensures r == Decode(s)
  {
    ghost var t := CString(s);
    var out: seq<int16> := [];
    var reps := 0;
    var phase := High;
    var val := 0;
    var i := 0;
    while i < |s| && s[i] != '\0'
      invariant 0 <= i <= |t|
      invariant RunFrom(Running(phase, val, reps, out), t[i..]) == RunFrom(Start, t)
      decreases |s| - i
    {
      var c := s[i];
      assert t[i] == c;
      RunFromStep(Running(phase, val, reps, out), t, i);
      var next := Advance(phase, val, reps, out, c);
      if next.Undefined? {
        RunFromUndefined(t[i + 1..]);
        return None;
      }
      phase, val, reps, out := next.phase, next.val, next.reps, next.out;
      i := i + 1;
    }
    assert t[i..] == [];
    r := Some(out);
  }

  /** The body of the decoder's loop: the `switch (state)` on one character. */
  method Advance(phase: Phase, val: int, reps: int, out: seq<int16>, c: char) returns (next: Machine)
    ensures next == Step(Running(phase, val, reps, out), c)
  {
    var phase, val, reps, out := phase, val, reps, out;
    match phase {
      case High =>
        val := B64ToI(c as int);
        phase := if c == '#' then Count else Low;
      case Low =>
        val := (val * 64 + B64ToI(c as int)) % 65536;
        out := out + [ShiftSignExtend(val)];
        phase := High;
      case Count =>
        if c == '#' {
          phase := High;
          var copied := CppCodec.PushBackCopies(out, reps - 1);
          if copied.None? {
            return Undefined;
          }
          out := copied.value;
        } else {
          reps := reps * 10 + (c as int - '0' as int);
        }
    }
    next := Running(phase, val, reps, out);
  }

  /** One run's text appended to the output, as both branches of the encoder write it. */
  method AppendRun(out: string, pair: string, cnt: nat) returns (o: string)
    ensures o == out + EmitRun(Run(pair, cnt), Threshold)
  {
    o := out;
    if cnt < Threshold {
      var k := 0;
      while k < cnt
        invariant 0 <= k <= cnt && o == out + RepeatText(pair, k)
      {
        o := o + pair;
        k := k + 1;
      }
    } else {
      o := o + pair + "#" + NatToString(cnt) + "#";
    }
  }

  /** `cents_to_pitch_string`: pairs first, then one pass counting equal neighbours. */
  method CentsToPitchString(xs: seq<int16>) returns (out: string)
    requires |xs| > 0
    ensures out == Encoding(xs, Threshold)
  {
    var pairs := CppCodec.PairsOf(xs);
    var lastPair := pairs[0];
    var cnt := 1;
    ghost var done: seq<Run<string>> := [];
    out := "";
    assert pairs[..1] == [pairs[0]];
    RunsSingleton(lastPair);
    var i := 1;
    while i < |pairs|
      invariant 1 <= i <= |pairs| && cnt >= 1
      invariant Runs(pairs[..i]) == done + [Run(lastPair, cnt)]
      invariant out == EmitAll(done, Threshold)
    {
      var pair := pairs[i];
      TakeSnoc(pairs, i);
      RunsSnoc(pairs[..i], done, Run(lastPair, cnt), pair);
      if pair == lastPair {
        cnt := cnt + 1;
      } else {
        out := AppendRun(out, lastPair, cnt);
        EmitAllSnoc(done, Run(lastPair, cnt), Threshold);
        done := done + [Run(lastPair, cnt)];
        cnt := 1;
        lastPair := pair;
      }
      i := i + 1;
    }
    assert pairs[..i] == pairs;
    EmitAllSnoc(done, Run(lastPair, cnt), Threshold);
    out := AppendRun(out, lastPair, cnt);
  }
}
