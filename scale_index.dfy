/**
 * Scale-degree arithmetic: `midi_to_cents` of cpp/31TETo.cpp, and
 * `midi_to_cents_12edo` and `Config::scl` of 31TETo.cpp. Each picks a degree
 * of a scale table by a remainder and adds whole octaves (the table's last
 * entry) by a quotient. Scale entries are whole numbers of cents.
 */
module ScaleIndex {
  import opened Wrappers
  import opened CArith

  /** The table `midi_to_cents` falls back to when given none: 12-EDO, listed without its first note. */
  const DefaultScale: seq<int> := [100, 200, 300, 400, 500, 600, 700, 800, 900, 1000, 1100, 1200]

  /** `floor((x - 69.0) / size)`, taken on the real quotient. */
  function FloorQuotient(a: int, n: int): int
    requires n > 0
  {
    (a as real / n as real).Floor
  }

  /** The floor of the real quotient is Dafny's integer quotient. */
  lemma FloorQuotientIsDiv(a: int, n: int)
    requires n > 0
    ensures FloorQuotient(a, n) == a / n
  {
    var q, r := a / n, a % n;
    assert a as real == (n * q) as real + r as real;
    assert (n * q) as real == n as real * q as real;
    assert a as real / n as real == q as real + r as real / n as real;
    assert 0.0 <= r as real / n as real < 1.0;
  }

  /**
   * `midi_to_cents(x, scl)`: degree `WRAPPED_MOD(x - 69, size)` plus whole octaves
   * of `scl.back()`, which is degree `(x - 69) mod size` plus `(x - 69) div size`
   * octaves in Dafny's Euclidean `%` and `/`.
   */
  function MidiToCents(x: int, scl: seq<int>): (c: int)
    ensures var t := if scl == [] then DefaultScale else scl;
      c == t[(x - 69) % |t|] + t[|t| - 1] * ((x - 69) / |t|)
  {
    var t := if scl == [] then DefaultScale else scl;
    WrappedModIsMod(x - 69, |t|);
    FloorQuotientIsDiv(x - 69, |t|);
    t[WrappedMod(x - 69, |t|)] + t[|t| - 1] * FloorQuotient(x - 69, |t|)
  }

  /** The k-th step above 69 reads the table's k-th entry directly. */
  lemma MidiToCentsDegree(t: seq<int>, k: int)
    requires 0 <= k < |t|
    ensures MidiToCents(69 + k, t) == t[k]
  {
    ModUnique(k, |t|, 0, k);
  }

  /** One scale length further up is one `scl.back()` more cents. */
  lemma MidiToCentsOctave(x: int, t: seq<int>)
    requires t != []
    ensures MidiToCents(x + |t|, t) == MidiToCents(x, t) + t[|t| - 1]
  {
    var n := |t|;
    var a := x - 69;
    DivStep(a, n);
    assert t[n - 1] * (a / n + 1) == t[n - 1] * (a / n) + t[n - 1];
  }

  /**
   * With the default table the result is `100 * (x - 69) + 100`: 69 sits on the
   * table's first entry, one 12-EDO step above `midi_to_cents_12edo`.
   */
  lemma DefaultScaleCents(x: int)
    ensures MidiToCents(x, []) == MidiToCents12edo(x) + 100
  {
    var t := DefaultScale;
    var a := x - 69;
    var k := a % 12;
    DefaultEntry(k);
    assert a == 12 * (a / 12) + k;
  }

  /** The default table's k-th entry is k + 1 semitones. */
  lemma DefaultEntry(k: int)
    requires 0 <= k < 12
    ensures DefaultScale[k] == 100 * (k + 1)
  {
    if k == 0 {} else if k == 1 {} else if k == 2 {} else if k == 3 {}
    else if k == 4 {} else if k == 5 {} else if k == 6 {} else if k == 7 {}
    else if k == 8 {} else if k == 9 {} else if k == 10 {} else {}
  }

  /** `midi_to_cents_12edo` of 31TETo.cpp: 100 cents per semitone, 0 exactly at 69. */
  function MidiToCents12edo(m: int): (c: int)
    ensures c == 0 <==> m == 69
    ensures c > 0 <==> m > 69
  {
    100 * (m - 69)
  }

  /** One semitone up is 100 cents more. */
  lemma Cents12edoStep(m: int)
    ensures MidiToCents12edo(m + 1) == MidiToCents12edo(m) + 100
  {
  }

  /**
   * `Config::scl(n)` of 31TETo.cpp: with `scale_steps = size - 1`, the degree
   * `n % scale_steps` plus `n / scale_steps` octaves of `Scale.back()`, with
   * C++ division. None where the C++ behaviour is undefined: an empty table
   * (`back()`), a one-entry table (division by zero) or a negative degree.
   */
  function Scl(scale: seq<int>, n: int): (r: Option<int>)
    ensures r.Some? <==> |scale| >= 2 && CRem(n, |scale| - 1) >= 0
    ensures |scale| >= 2 && n >= 0 ==> r.Some?
  {
    if |scale| < 2 then None
    else
      var steps := |scale| - 1;
      var octave := CDiv(n, steps);
      var degree := CRem(n, steps);
      if degree < 0 then None
      else Some(scale[degree] + octave * scale[|scale| - 1])
  }

  /**
   * For a non-negative n the degree lies in [0, size - 2]: the last entry, the
   * octave, is only ever added, never picked as a degree.
   */
  lemma SclDegreeRange(scale: seq<int>, n: int)
    requires |scale| >= 2 && n >= 0
    ensures 0 <= CRem(n, |scale| - 1) <= |scale| - 2
    ensures Scl(scale, n) == Some(scale[n % (|scale| - 1)] + n / (|scale| - 1) * scale[|scale| - 1])
  {
    CDivNonNegative(n, |scale| - 1);
  }

  /** On a non-negative dividend C++ division agrees with Dafny's. */
  lemma CDivNonNegative(a: int, b: int)
    requires a >= 0 && b > 0
    ensures CDiv(a, b) == a / b && CRem(a, b) == a % b
  {
    ModUnique(a, b, CDiv(a, b), CRem(a, b));
  }

  /** The first `size - 1` indices read the table as it is. */
  lemma SclDegree(scale: seq<int>, k: int)
    requires 0 <= k < |scale| - 1
    ensures Scl(scale, k) == Some(scale[k])
  {
    SclDegreeRange(scale, k);
    ModUnique(k, |scale| - 1, 0, k);
  }

  /** `size - 1` indices further up is one octave, `Scale.back()`, more. */
  lemma SclOctave(scale: seq<int>, n: int)
    requires |scale| >= 2 && n >= 0
    ensures Scl(scale, n + |scale| - 1).value == Scl(scale, n).value + scale[|scale| - 1]
  {
    var s := |scale| - 1;
    SclDegreeRange(scale, n);
    SclDegreeRange(scale, n + s);
    DivStep(n, s);
    assert (n / s + 1) * scale[s] == n / s * scale[s] + scale[s];
  }

  /** Adding the divisor adds one to the quotient and keeps the remainder. */
  lemma DivStep(a: int, n: int)
    requires n > 0
    ensures (a + n) / n == a / n + 1 && (a + n) % n == a % n
  {
    assert n * (a / n + 1) == n * (a / n) + n;
    ModUnique(a + n, n, a / n + 1, a % n);
  }
}
