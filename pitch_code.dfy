/**
 * The pitch-bend code shared by all three revisions: a cent offset is stored as
 * its low 12 bits, written as two alphabet symbols (high six bits first), and a
 * run of equal symbol pairs may be written once followed by `#count#`.
 */
module PitchCode {
  import opened Base64
  import opened CText

  /** `int16_t`. */
  type int16 = x: int | -32768 <= x < 32768

  /** The range of a 12-bit two's-complement field: exactly the offsets the code carries. */
  predicate InRange12(v: int)
  {
    -2048 <= v < 2048
  }

  predicate AllInRange12(xs: seq<int>)
  {
    forall i :: 0 <= i < |xs| ==> InRange12(xs[i])
  }

  /** The 12-bit field u read as a two's-complement number (bit 11 is the sign). */
  function SignExtend12(u: int): (v: int)
    requires 0 <= u < 4096
    ensures InRange12(v) && v % 4096 == u
  {
    if u < 2048 then u else u - 4096
  }

  /**
   * `(int16_t)(val << 4) >> 4` for a `uint16_t` val: shift the low 12 bits to the
   * top of a 16-bit word, read that word as signed, and shift back arithmetically.
   */
  function ShiftSignExtend(val: int): (v: int16)
    requires 0 <= val < 65536
    ensures v == SignExtend12(val % 4096)
  {
    var w := (val * 16) % 65536;
    var q := val / 4096;
    assert val * 16 == 65536 * q + (val % 4096) * 16;
    assert w == (val % 4096) * 16;
    var signed := if w >= 32768 then w - 65536 else w;
    signed / 16
  }

  /** A character `b64_to_i` maps below 64, that is, one of the alphabet (SymbolIff). */
  predicate IsSymbol(c: char)
  {
    B64ToI(c as int) < 64
  }

  /** Two alphabet symbols: the text of one encoded value. */
  predicate IsPair(p: string)
  {
    |p| == 2 && IsSymbol(p[0]) && IsSymbol(p[1])
  }

  /** The two symbols for v: `i_to_b64[(v & 0xFFF) >> 6]` then `i_to_b64[v & 0x3F]`. */
  function Pair(v: int): (p: string)
    ensures IsPair(p)
  {
    var n := v % 4096;
    B64ToIOfAlphabet(n / 64);
    B64ToIOfAlphabet(n % 64);
    [Alphabet[n / 64], Alphabet[n % 64]]
  }

  /** The value a decoder reads back from a pair of symbols. */
  function PairValue(p: string): (v: int)
    requires IsPair(p)
    ensures InRange12(v)
  {
    SignExtend12(B64ToI(p[0] as int) * 64 + B64ToI(p[1] as int))
  }

  /** Encoding a 12-bit value and reading it back gives the value. */
  lemma PairValueOfPair(v: int)
    requires InRange12(v)
    ensures PairValue(Pair(v)) == v
  {
    var n := v % 4096;
    B64ToIOfAlphabet(n / 64);
    B64ToIOfAlphabet(n % 64);
  }

  /** Reading a pair and encoding the value again gives the same pair. */
  lemma PairOfPairValue(p: string)
    requires IsPair(p)
    ensures Pair(PairValue(p)) == p
  {
    var hi, lo := B64ToI(p[0] as int), B64ToI(p[1] as int);
    var n := hi * 64 + lo;
    assert PairValue(p) % 4096 == n;
    assert n / 64 == hi && n % 64 == lo;
    AlphabetOfB64ToI(p[0] as int);
    AlphabetOfB64ToI(p[1] as int);
    assert Pair(PairValue(p)) == [Alphabet[hi], Alphabet[lo]];
  }

  /** Repetition of one element. */
  function Repeat<T>(x: T, n: nat): (r: seq<T>)
    ensures |r| == n && forall i :: 0 <= i < n ==> r[i] == x
  {
    if n == 0 then [] else Repeat(x, n - 1) + [x]
  }

  /** A block of n copies is one copy followed by the other n - 1. */
  lemma {:induction false} RepeatCons<T>(x: T, n: nat)
    requires n >= 1
    ensures [x] + Repeat(x, n - 1) == Repeat(x, n)
  {
    if n > 1 {
      RepeatCons(x, n - 1);
    }
  }

  /** One copy appended to out and then n - 1 more is a block of n after out. */
  lemma AppendBlock<T>(out: seq<T>, x: T, n: nat)
    requires n >= 1
    ensures out + [x] + Repeat(x, n - 1) == out + Repeat(x, n)
  {
    RepeatCons(x, n);
    assert out + [x] + Repeat(x, n - 1) == out + ([x] + Repeat(x, n - 1));
  }

  /** A run of `count` equal items. */
  datatype Run<T> = Run(item: T, count: nat)

  /** The sequence a list of runs stands for. */
  function Expand<T>(rs: seq<Run<T>>): seq<T>
  {
    if rs == [] then [] else Expand(rs[..|rs| - 1]) + Repeat(rs[|rs| - 1].item, rs[|rs| - 1].count)
  }

  /** No empty run, and no two neighbouring runs of the same item. */
  ghost predicate Maximal<T>(rs: seq<Run<T>>)
  {
    && (forall i :: 0 <= i < |rs| ==> rs[i].count >= 1)
    && (forall i :: 0 < i < |rs| ==> rs[i - 1].item != rs[i].item)
  }

  /**
   * One more item: the last run grows when it holds that item, otherwise a run
   * of one opens (one step of the encoders' counting loop).
   */
  function AddItem<T(==)>(rs: seq<Run<T>>, x: T): (r: seq<Run<T>>)
    ensures r != [] && r[|r| - 1].item == x && |r| <= |rs| + 1
  {
    if rs != [] && rs[|rs| - 1].item == x then rs[..|rs| - 1] + [Run(x, rs[|rs| - 1].count + 1)]
    else rs + [Run(x, 1)]
  }

  /** The maximal runs of xs, built left to right as the encoders' loops do. */
  function Runs<T(==)>(xs: seq<T>): (rs: seq<Run<T>>)
    ensures |rs| <= |xs|
    ensures xs != [] ==> rs != [] && rs[|rs| - 1].item == xs[|xs| - 1]
  {
    if xs == [] then [] else AddItem(Runs(xs[..|xs| - 1]), xs[|xs| - 1])
  }

  lemma RunsAddItem<T>(xs: seq<T>, x: T)
    ensures Runs(xs + [x]) == AddItem(Runs(xs), x)
  {
    assert (xs + [x])[..|xs|] == xs;
  }

  lemma ExpandSnoc<T>(rs: seq<Run<T>>, r: Run<T>)
    ensures Expand(rs + [r]) == Expand(rs) + Repeat(r.item, r.count)
  {
    assert (rs + [r])[..|rs|] == rs;
  }

  /**
   * One more item either lengthens the last run (when it is that run's item)
   * or starts a new run of one: the step of the encoders' counting loop.
   */
  lemma RunsSnoc<T>(xs: seq<T>, done: seq<Run<T>>, last: Run<T>, x: T)
    requires Runs(xs) == done + [last]
    ensures Runs(xs + [x]) == if x == last.item then done + [Run(x, last.count + 1)] else done + [last, Run(x, 1)]
  {
    RunsAddItem(xs, x);
    var rs := done + [last];
    assert rs[..|rs| - 1] == done && rs[|rs| - 1] == last;
  }

  /** Adding an item to runs adds it to their expansion. */
  lemma ExpandAddItem<T>(rs: seq<Run<T>>, x: T)
    ensures Expand(AddItem(rs, x)) == Expand(rs) + [x]
  {
    if rs != [] && rs[|rs| - 1].item == x {
      var front, last := rs[..|rs| - 1], rs[|rs| - 1];
      assert rs == front + [last];
      ExpandSnoc(front, last);
      ExpandSnoc(front, Run(x, last.count + 1));
    } else {
      ExpandSnoc(rs, Run(x, 1));
      assert Repeat(x, 1) == [x];
    }
  }

  /** The runs expand back to xs. */
  lemma {:induction false} RunsExpand<T>(xs: seq<T>)
    ensures Expand(Runs(xs)) == xs
    decreases |xs|
  {
    if xs != [] {
      var init, x := xs[..|xs| - 1], xs[|xs| - 1];
      assert init + [x] == xs;
      RunsExpand(init);
      RunsExpandStep(init, x);
    }
  }

  lemma RunsExpandStep<T>(init: seq<T>, x: T)
    requires Expand(Runs(init)) == init
    ensures Expand(Runs(init + [x])) == init + [x]
  {
    RunsAddItem(init, x);
    ExpandAddItem(Runs(init), x);
  }

  /** Adding an item keeps runs maximal. */
  lemma MaximalAddItem<T>(rs: seq<Run<T>>, x: T)
    requires Maximal(rs)
    ensures Maximal(AddItem(rs, x))
  {
  }

  /** The runs are maximal. */
  lemma {:induction false} RunsMaximal<T>(xs: seq<T>)
    ensures Maximal(Runs(xs))
    decreases |xs|
  {
    if xs != [] {
      var init := xs[..|xs| - 1];
      RunsMaximal(init);
      MaximalAddItem(Runs(init), xs[|xs| - 1]);
    }
  }

  /** Runs(xs) is a maximal run list that expands to xs. */
  lemma RunsCorrect<T>(xs: seq<T>)
    ensures Expand(Runs(xs)) == xs && Maximal(Runs(xs))
  {
    RunsExpand(xs);
    RunsMaximal(xs);
  }

  /** Appending a block of a new item after a sequence that does not end in it adds one run. */
  lemma {:induction false} RunsAppendBlock<T>(a: seq<T>, y: T, c: nat)
    requires c >= 1
    requires a == [] || a[|a| - 1] != y
    ensures Runs(a + Repeat(y, c)) == Runs(a) + [Run(y, c)]
    decreases c
  {
    if c == 1 {
      RunsAppendNew(a, y);
    } else {
      RunsAppendBlock(a, y, c - 1);
      RunsExtendBlock(a, y, c - 1);
    }
  }

  lemma RunsAppendNew<T>(a: seq<T>, y: T)
    requires a == [] || a[|a| - 1] != y
    ensures Runs(a + Repeat(y, 1)) == Runs(a) + [Run(y, 1)]
  {
    assert Repeat(y, 1) == [y];
    RunsAddItem(a, y);
    assert a == [] || Runs(a)[|Runs(a)| - 1].item != y;
  }

  lemma RunsExtendBlock<T>(a: seq<T>, y: T, n: nat)
    requires Runs(a + Repeat(y, n)) == Runs(a) + [Run(y, n)]
    ensures Runs(a + Repeat(y, n + 1)) == Runs(a) + [Run(y, n + 1)]
  {
    var b := a + Repeat(y, n);
    assert a + Repeat(y, n + 1) == b + [y];
    RunsGrowBlock(Runs(a), b, y, n);
  }

  /** One more copy of the last run's item lengthens that run. */
  lemma RunsGrowBlock<T>(ra: seq<Run<T>>, b: seq<T>, y: T, c: nat)
    requires Runs(b) == ra + [Run(y, c)]
    ensures Runs(b + [y]) == ra + [Run(y, c + 1)]
  {
    RunsAddItem(b, y);
    AddItemGrows(ra, Run(y, c));
  }

  lemma AddItemGrows<T>(rs: seq<Run<T>>, r: Run<T>)
    ensures AddItem(rs + [r], r.item) == rs + [Run(r.item, r.count + 1)]
  {
    assert (rs + [r])[..|rs|] == rs;
  }

  /** Maximal runs are unique: any maximal run list for xs is Runs(xs). */
  lemma {:induction false} RunsUnique<T>(rs: seq<Run<T>>)
    requires Maximal(rs)
    ensures Runs(Expand(rs)) == rs
    decreases |rs|
  {
    if rs != [] {
      var init, last := rs[..|rs| - 1], rs[|rs| - 1];
      assert Maximal(init);
      RunsUnique(init);
      if init != [] {
        ExpandLast(init);
      }
      RunsAppendBlock(Expand(init), last.item, last.count);
      assert rs == init + [last];
    }
  }

  lemma {:induction false} ExpandLast<T>(rs: seq<Run<T>>)
    requires Maximal(rs) && rs != []
    ensures Expand(rs) != [] && Expand(rs)[|Expand(rs)| - 1] == rs[|rs| - 1].item
  {
    ExpandSnoc(rs[..|rs| - 1], rs[|rs| - 1]);
    assert rs[..|rs| - 1] + [rs[|rs| - 1]] == rs;
  }

  /** The text for one run: the pair repeated while the run is short, else `pair#count#`. */
  function EmitRun(r: Run<string>, threshold: nat): (t: string)
    ensures r.count < threshold ==> |t| == r.count * |r.item|
    ensures r.count >= 1 ==> |t| >= |r.item| && t[..|r.item|] == r.item
    ensures r.count >= threshold ==> |t| > |r.item| + 1 && t[|r.item|] == '#' && t[|t| - 1] == '#'
  {
    if r.count < threshold then
      if r.count == 0 then []
      else
        RepeatTextPrefix(r.item, r.count);
        RepeatText(r.item, r.count)
    else r.item + "#" + NatToString(r.count) + "#"
  }

  /** The text for a list of runs, in order. */
  function EmitAll(rs: seq<Run<string>>, threshold: nat): (t: string)
    ensures rs == [] ==> t == []
    ensures rs != [] && rs[0].count >= 1 ==> |t| >= |rs[0].item| && t[..|rs[0].item|] == rs[0].item
  {
    if rs == [] then [] else EmitRun(rs[0], threshold) + EmitAll(rs[1..], threshold)
  }

  /** The text of consecutive lists of runs is the concatenation of their texts. */
  lemma {:induction false} EmitAllAppend(a: seq<Run<string>>, b: seq<Run<string>>, threshold: nat)
    ensures EmitAll(a + b, threshold) == EmitAll(a, threshold) + EmitAll(b, threshold)
    decreases |a|
  {
    if a == [] {
      assert a + b == b;
    } else {
      assert (a + b)[1..] == a[1..] + b;
      EmitAllAppend(a[1..], b, threshold);
    }
  }

  lemma EmitAllSnoc(rs: seq<Run<string>>, r: Run<string>, threshold: nat)
    ensures EmitAll(rs + [r], threshold) == EmitAll(rs, threshold) + EmitRun(r, threshold)
  {
    EmitAllAppend(rs, [r], threshold);
    assert [r][1..] == [];
  }

  /** The text for two runs. */
  lemma EmitTwo(r1: Run<string>, r2: Run<string>, threshold: nat)
    ensures EmitAll([r1, r2], threshold) == EmitRun(r1, threshold) + EmitRun(r2, threshold)
  {
    EmitAllSnoc([r1], r2, threshold);
    EmitAllSnoc([], r1, threshold);
    assert [r1] + [r2] == [r1, r2] && [] + [r1] == [r1];
  }

  predicate AllPairs(ps: seq<string>)
  {
    forall i :: 0 <= i < |ps| ==> IsPair(ps[i])
  }

  /** The pair of every value, in order (the encoders' first loop). */
  function Pairs(xs: seq<int>): (ps: seq<string>)
    ensures |ps| == |xs| && forall i :: 0 <= i < |xs| ==> ps[i] == Pair(xs[i])
  {
    seq(|xs|, i requires 0 <= i < |xs| => Pair(xs[i]))
  }

  /** The values read back from a sequence of pairs. */
  function PairValues(ps: seq<string>): (vs: seq<int>)
    requires AllPairs(ps)
    ensures |vs| == |ps| && forall i :: 0 <= i < |ps| ==> vs[i] == PairValue(ps[i])
  {
    seq(|ps|, i requires 0 <= i < |ps| => PairValue(ps[i]))
  }

  /** Reading back the pairs of in-range values gives the values. */
  lemma PairValuesOfPairs(xs: seq<int>)
    requires AllInRange12(xs)
    ensures PairValues(Pairs(xs)) == xs
  {
    forall i | 0 <= i < |xs|
      ensures PairValues(Pairs(xs))[i] == xs[i]
    {
      PairValueOfPair(xs[i]);
    }
  }

  /** Runs whose items are pairs and which are not empty. */
  ghost predicate PairRuns(rs: seq<Run<string>>)
  {
    forall i :: 0 <= i < |rs| ==> IsPair(rs[i].item) && rs[i].count >= 1
  }

  /** The text `cents_to_pitch_string` produces for xs at a given compression threshold. */
  function Encoding(xs: seq<int>, threshold: nat): (t: string)
    ensures t == [] <==> xs == []
  {
    EncodingRuns(xs);
    EmitAll(Runs(Pairs(xs)), threshold)
  }

  /** The runs of an encoding are non-empty runs of pairs, and expand to the pairs of xs. */
  lemma EncodingRuns(xs: seq<int>)
    ensures PairRuns(Runs(Pairs(xs)))
    ensures Expand(Runs(Pairs(xs))) == Pairs(xs)
  {
    RunsCorrect(Pairs(xs));
    RunsOfPairs(Pairs(xs));
  }

  /** The runs of a sequence of pairs are runs of pairs. */
  lemma {:induction false} RunsOfPairs(ps: seq<string>)
    requires AllPairs(ps)
    ensures PairRuns(Runs(ps))
    decreases |ps|
  {
    if ps != [] {
      var init := ps[..|ps| - 1];
      RunsOfPairs(init);
      PairRunsAddItem(Runs(init), ps[|ps| - 1]);
    }
  }

  lemma PairRunsAddItem(rs: seq<Run<string>>, x: string)
    requires PairRuns(rs) && IsPair(x)
    ensures PairRuns(AddItem(rs, x))
  {
  }

  /** A character an encoding can contain: a symbol, the run marker or a decimal digit. */
  predicate EncodingChar(c: char)
  {
    IsSymbol(c) || c == '#' || IsDigit(c)
  }

  predicate EncodingText(s: string)
  {
    forall i :: 0 <= i < |s| ==> EncodingChar(s[i])
  }

  lemma EncodingTextAppend(a: string, b: string)
    requires EncodingText(a) && EncodingText(b)
    ensures EncodingText(a + b)
  {
  }

  /** Every encoding is written with symbols, `#` and digits only. */
  lemma {:induction false} EmitAllText(rs: seq<Run<string>>, threshold: nat)
    requires PairRuns(rs)
    ensures EncodingText(EmitAll(rs, threshold))
    decreases |rs|
  {
    if rs != [] {
      EmitAllText(rs[1..], threshold);
      EmitRunText(rs[0], threshold);
      EncodingTextAppend(EmitRun(rs[0], threshold), EmitAll(rs[1..], threshold));
    }
  }

  lemma EmitRunText(r: Run<string>, threshold: nat)
    requires IsPair(r.item)
    ensures EncodingText(EmitRun(r, threshold))
  {
    if r.count < threshold {
      RepeatPairText(r.item, r.count);
    } else {
      var digits := NatToString(r.count);
      assert EncodingText(r.item + "#");
      EncodingTextAppend(r.item + "#", digits);
      EncodingTextAppend(r.item + "#" + digits, "#");
    }
  }

  lemma {:induction false} RepeatPairText(p: string, n: nat)
    requires IsPair(p)
    ensures EncodingText(RepeatText(p, n))
  {
    if n > 0 {
      RepeatPairText(p, n - 1);
      EncodingTextAppend(RepeatText(p, n - 1), p);
    }
  }

  /** An encoding has no NUL and only 7-bit characters. */
  lemma EncodingTextIsCString(s: string)
    requires EncodingText(s)
    ensures CString(s) == s && Ascii(s)
  {
    assert forall i :: 0 <= i < |s| ==> s[i] != '\0' && s[i] as int < 128 by {
      forall i | 0 <= i < |s|
        ensures s[i] != '\0' && s[i] as int < 128
      {
        SymbolIff(s[i]);
      }
    }
  }

  /** The values a decoder reads from the text of a list of pair runs: each pair's value, count times. */
  function RunValues(rs: seq<Run<string>>): seq<int>
    requires PairRuns(rs)
  {
    if rs == [] then []
    else RunValues(rs[..|rs| - 1]) + Repeat(PairValue(rs[|rs| - 1].item), rs[|rs| - 1].count)
  }

  /** The expansion of pair runs is made of pairs, and its values are the runs' values. */
  lemma {:induction false} RunValuesExpand(rs: seq<Run<string>>)
    requires PairRuns(rs)
    ensures AllPairs(Expand(rs)) && RunValues(rs) == PairValues(Expand(rs))
    decreases |rs|
  {
    if rs != [] {
      var init, r := rs[..|rs| - 1], rs[|rs| - 1];
      RunValuesExpand(init);
      var e := Expand(init);
      assert Expand(rs) == e + Repeat(r.item, r.count);
      assert PairValues(e + Repeat(r.item, r.count)) == PairValues(e) + Repeat(PairValue(r.item), r.count);
    }
  }

  /** Decoding the runs of an encoding of in-range values gives back the values. */
  lemma EncodingValues(xs: seq<int>)
    requires AllInRange12(xs)
    ensures PairRuns(Runs(Pairs(xs))) && RunValues(Runs(Pairs(xs))) == xs
  {
    EncodingRuns(xs);
    RunValuesExpand(Runs(Pairs(xs)));
    PairValuesOfPairs(xs);
  }

  /** The values of one more run follow the values of the runs before it. */
  lemma RunValuesSnoc(rs: seq<Run<string>>, r: Run<string>)
    requires PairRuns(rs + [r])
    ensures IsPair(r.item) && r.count >= 1 && PairRuns(rs)
    ensures RunValues(rs + [r]) == RunValues(rs) + Repeat(PairValue(r.item), r.count)
  {
    assert (rs + [r])[..|rs|] == rs && (rs + [r])[|rs|] == r;
    assert forall i :: 0 <= i < |rs| ==> rs[i] == (rs + [r])[i];
  }

  /** Consecutive run lists are pair runs exactly when each of them is. */
  lemma PairRunsSplit(a: seq<Run<string>>, b: seq<Run<string>>)
    ensures PairRuns(a + b) <==> PairRuns(a) && PairRuns(b)
  {
    if PairRuns(a + b) {
      assert forall i :: 0 <= i < |a| ==> a[i] == (a + b)[i];
      assert forall i :: 0 <= i < |b| ==> b[i] == (a + b)[|a| + i];
    }
  }

  /** The values of consecutive run lists are the concatenation of their values. */
  lemma {:induction false} RunValuesAppend(a: seq<Run<string>>, b: seq<Run<string>>)
    requires PairRuns(a + b)
    ensures PairRuns(a) && PairRuns(b) && RunValues(a + b) == RunValues(a) + RunValues(b)
    decreases |b|
  {
    PairRunsSplit(a, b);
    if b == [] {
      assert a + b == a;
    } else {
      var init, r := b[..|b| - 1], b[|b| - 1];
      assert b == init + [r];
      assert a + b == (a + init) + [r];
      PairRunsSplit(a + init, [r]);
      RunValuesSnoc(a + init, r);
      RunValuesAppend(a, init);
      RunValuesSnoc(init, r);
      var rep := Repeat(PairValue(r.item), r.count);
      assert RunValues(a + b) == (RunValues(a) + RunValues(init)) + rep;
      assert RunValues(a) + RunValues(b) == RunValues(a) + (RunValues(init) + rep);
    }
  }

  /** The values of a first run, then of the rest. */
  lemma RunValuesCons(r: Run<string>, rest: seq<Run<string>>)
    requires PairRuns([r] + rest)
    ensures IsPair(r.item) && PairRuns(rest)
    ensures RunValues([r] + rest) == Repeat(PairValue(r.item), r.count) + RunValues(rest)
  {
    RunValuesAppend([r], rest);
    RunValuesOne(r);
  }

  /** The values of a single run. */
  lemma RunValuesOne(r: Run<string>)
    requires PairRuns([r])
    ensures IsPair(r.item) && RunValues([r]) == Repeat(PairValue(r.item), r.count)
  {
    assert [r][0] == r && [r][..0] == [];
  }

  /** The first loop of the encoders, one value further. */
  lemma PairsSnoc(xs: seq<int>, j: nat)
    requires j < |xs|
    ensures Pairs(xs[..j + 1]) == Pairs(xs[..j]) + [Pair(xs[j])]
  {
    var p, q := Pairs(xs[..j + 1]), Pairs(xs[..j]);
    assert forall i :: 0 <= i < j ==> xs[..j + 1][i] == xs[..j][i];
    SnocPointwise(p, q, Pair(xs[j]));
  }

  lemma SnocPointwise<T>(p: seq<T>, q: seq<T>, x: T)
    requires |p| == |q| + 1 && p[|q|] == x
    requires forall i :: 0 <= i < |q| ==> p[i] == q[i]
    ensures p == q + [x]
  {
  }

  /** The runs of a single item. */
  lemma RunsSingleton<T>(x: T)
    ensures Runs([x]) == [Run(x, 1)]
  {
    assert [x][..0] == [];
  }

  /** A prefix one longer is the prefix and one more element. */
  lemma TakeSnoc<T>(s: seq<T>, i: nat)
    requires i < |s|
    ensures s[..i + 1] == s[..i] + [s[i]]
  {
  }

  /** The 16-bit word the C++ decoders build from a pair: `(hi << 6) + lo`. */
  function Word(p: string): int
    requires |p| == 2
  {
    B64ToI(p[0] as int) * 64 + B64ToI(p[1] as int)
  }

  /** The word of a pair fits in 12 bits, and the value the C++ decoders push for it is the pair's value. */
  lemma PairWord(p: string)
    requires IsPair(p)
    ensures 0 <= Word(p) < 4096 && Word(p) % 65536 == Word(p) && ShiftSignExtend(Word(p)) == PairValue(p)
  {
    var n := Word(p);
    ModOfSmall(n, 4096);
    ModOfSmall(n, 65536);
  }

  lemma ModOfSmall(n: int, d: int)
    requires 0 <= n < d
    ensures n % d == n
  {
  }

  /** The pairs of two blocks of equal values are two blocks of equal pairs. */
  lemma PairsOfBlocks(a: int16, b: int16, c1: nat, c2: nat)
    ensures Pairs(Repeat(a, c1) + Repeat(b, c2)) == Repeat(Pair(a), c1) + Repeat(Pair(b), c2)
  {
  }

  /** Two blocks of different items are two runs. */
  lemma BlockRuns<T>(x: T, y: T, c1: nat, c2: nat)
    requires x != y && c1 >= 1 && c2 >= 1
    ensures Runs(Repeat(x, c1) + Repeat(y, c2)) == [Run(x, c1), Run(y, c2)]
  {
    var first := Repeat(x, c1);
    RunsAppendBlock([], x, c1);
    assert [] + first == first;
    var r1 := Runs(first);
    assert r1 == [Run(x, c1)];
    RunsAppendBlock(first, y, c2);
    assert r1 + [Run(y, c2)] == [Run(x, c1), Run(y, c2)];
  }
}
