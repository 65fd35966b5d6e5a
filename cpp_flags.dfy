/**
 * The `Flags` class of cpp/31TETo.cpp: the UTAU flag string is scanned into a
 * map from flag character to number, then the four flags the resampler
 * understands are copied into fields.
 *
 * Keys are the flag characters as signed `char` values, so that the sentinel
 * `last_c = -1` can be a key: the constructor writes `flags[last_c]` before the
 * first flag has been seen, which inserts -1 with value 0.
 */
module CppFlags {
  import opened CText

  /** `flags[k]` read through `operator[]`: 0 when k is not yet a key. */
  function Get(m: map<int, int>, k: int): int
  {
    if k in m then m[k] else 0
  }

  /** The loop's state: the map and `last_c` (`sgn` is 1 after every flag and never read otherwise). */
  datatype FlagState = FlagState(flags: map<int, int>, last: int)

  const Start := FlagState(map[], -1)

  /**
   * One pass of the loop. A non-digit (the `-` included: the `c == '-'` branch
   * sits behind `!isdigit(c)` and is never taken) starts a flag at 0 and writes
   * `flags[last_c] = 1 * flags[last_c]`; a digit is ignored before any flag and
   * otherwise appended to the value of `last_c`.
   */
  function Step(st: FlagState, c: char): (r: FlagState)
    ensures st.flags.Keys <= r.flags.Keys
    ensures !IsDigit(c) ==> r.last == c as int && c as int in r.flags
    ensures !IsDigit(c) ==> r.flags[c as int] == 0
    ensures IsDigit(c) ==> r.last == st.last
  {
    if !IsDigit(c) then
      var m := st.flags[c as int := 0];
      FlagState(m[st.last := Get(m, st.last)], c as int)
    else if st.last == -1 then st
    else FlagState(st.flags[st.last := Get(st.flags, st.last) * 10 + (c as int - '0' as int)], st.last)
  }

  /** The loop from state st over the characters of s. */
  function ScanFrom(st: FlagState, s: string): (r: FlagState)
    ensures st.flags.Keys <= r.flags.Keys
    ensures r.last == st.last || r.last in r.flags
    decreases |s|
  {
    if s == [] then st else Step(ScanFrom(st, s[..|s| - 1]), s[|s| - 1])
  }

  /** The map the constructor builds from the flag string. */
  function FlagMap(s: string): (m: map<int, int>)
    ensures forall k :: k in m ==> m[k] >= 0
  {
    NoNegativeValues(Start, s);
    ScanFrom(Start, s).flags
  }

  /** `get_flags`: the setting of one field, the map's value when the flag is present. */
  function Setting(m: map<int, int>, flag: char, default: int): (v: int)
    ensures flag as int in m ==> v == m[flag as int]
    ensures flag as int !in m ==> v == default
  {
    if flag as int in m then m[flag as int] else default
  }

  class Flags {
    var flags: map<int, int>
    var edo: int
    var centerNote: int
    var tuningFileIndex: int
    var resamplerIndex: int

    /** `get_flags`: copies `#`, `!`, `$` and `^` into their fields when they are present. */
    method GetFlags()
      modifies this
      ensures flags == old(flags)
      ensures edo == Setting(flags, '#', old(edo))
      ensures resamplerIndex == Setting(flags, '!', old(resamplerIndex))
      ensures centerNote == Setting(flags, '$', old(centerNote))
      ensures tuningFileIndex == Setting(flags, '^', old(tuningFileIndex))
    {
      if '#' as int in flags {
        edo := flags['#' as int];
      }
      if '!' as int in flags {
        resamplerIndex := flags['!' as int];
      }
      if '$' as int in flags {
        centerNote := flags['$' as int];
      }
      if '^' as int in flags {
        tuningFileIndex := flags['^' as int];
      }
    }

    /**
     * `Flags(in)`: the fields start at edo -1, center note 69, tuning file -1,
     * resampler 1; the loop fills the map; `get_flags` overwrites the fields whose
     * flag is present. `isdigit` needs a non-negative `char`, hence 7-bit input.
     */
    constructor (input: string)
      requires Ascii(input)
      ensures flags == FlagMap(input)
      ensures edo == Setting(FlagMap(input), '#', -1)
      ensures centerNote == Setting(FlagMap(input), '$', 69)
      ensures tuningFileIndex == Setting(FlagMap(input), '^', -1)
      ensures resamplerIndex == Setting(FlagMap(input), '!', 1)
    {
      edo, centerNote, tuningFileIndex, resamplerIndex := -1, 69, -1, 1;
      flags := map[];
      new;
      var last := -1;
      for i := 0 to |input|
        invariant ScanFrom(Start, input[..i]) == FlagState(flags, last)
        invariant edo == -1 && centerNote == 69 && tuningFileIndex == -1 && resamplerIndex == 1
      {
        assert input[..i + 1][..i] == input[..i];
        var c := input[i];
        if !IsDigit(c) {
          flags := flags[c as int := 0];
          flags := flags[last := Get(flags, last)];
          last := c as int;
        } else if last != -1 {
          flags := flags[last := Get(flags, last) * 10 + (c as int - '0' as int)];
        }
      }
      assert input[..|input|] == input;
      GetFlags();
    }
  }

  /** The loop over two consecutive strings is the loop over the second from where the first left off. */
  lemma {:induction false} ScanFromAppend(st: FlagState, p: string, q: string)
    ensures ScanFrom(st, p + q) == ScanFrom(ScanFrom(st, p), q)
    decreases |q|
  {
    if q == [] {
      assert p + q == p;
    } else {
      assert (p + q)[..|p + q| - 1] == p + q[..|q| - 1];
      ScanFromAppend(st, p, q[..|q| - 1]);
    }
  }

  /** Digits before the first flag are ignored (the constructor only prints a warning). */
  lemma {:induction false} LeadingDigitsIgnored(d: string, rest: string)
    requires AllDigits(d)
    ensures FlagMap(d + rest) == FlagMap(rest)
  {
    DigitsFromStart(d);
    ScanFromAppend(Start, d, rest);
  }

  lemma {:induction false} DigitsFromStart(d: string)
    requires AllDigits(d)
    ensures ScanFrom(Start, d) == Start
    decreases |d|
  {
    if d != [] {
      DigitsFromStart(d[..|d| - 1]);
    }
  }

  /** No flag value is ever negative: nothing in the loop can apply a sign. */
  lemma {:induction false} NoNegativeValues(st: FlagState, s: string)
    requires forall k :: k in st.flags ==> st.flags[k] >= 0
    ensures forall k :: k in ScanFrom(st, s).flags ==> ScanFrom(st, s).flags[k] >= 0
    decreases |s|
  {
    if s != [] {
      NoNegativeValues(st, s[..|s| - 1]);
    }
  }

  /** After the letter c and its digits: c is `last_c` and holds the number the digits spell. */
  lemma {:induction false} FlagDigits(st: FlagState, c: char, d: string)
    requires !IsDigit(c) && AllDigits(d)
    ensures ScanFrom(st, [c] + d).last == c as int
    ensures c as int in ScanFrom(st, [c] + d).flags
    ensures ScanFrom(st, [c] + d).flags[c as int] == DigitsValue(d)
    decreases |d|
  {
    var s := [c] + d;
    if d == [] {
      assert s[..0] == [];
    } else {
      var d0 := d[..|d| - 1];
      assert s[..|s| - 1] == [c] + d0;
      FlagDigits(st, c, d0);
      assert d[..|d| - 1] == d0;
    }
  }

  /** Once another flag has started, c keeps its value. */
  lemma {:induction false} FlagKept(st: FlagState, c: char, t: string)
    requires c as int in st.flags && st.last != c as int && c !in t && c as int != -1
    ensures c as int in ScanFrom(st, t).flags && ScanFrom(st, t).last != c as int
    ensures ScanFrom(st, t).flags[c as int] == st.flags[c as int]
    decreases |t|
  {
    if t != [] {
      assert forall x :: x in t[..|t| - 1] ==> x in t;
      FlagKept(st, c, t[..|t| - 1]);
    }
  }

  /**
   * The value of a flag is the number spelt by the digits right after its last
   * occurrence; whatever follows, from the next flag on, does not change it.
   */
  lemma FlagValue(a: string, c: char, d: string, t: string)
    requires !IsDigit(c) && AllDigits(d) && c !in t && (t == [] || !IsDigit(t[0]))
    ensures c as int in FlagMap(a + [c] + d + t)
    ensures FlagMap(a + [c] + d + t)[c as int] == DigitsValue(d)
  {
    var st := ScanFrom(Start, a);
    ScanThree(a, [c] + d, t);
    assert a + [c] + d + t == a + ([c] + d) + t;
    FlagDigits(st, c, d);
    FlagAfter(ScanFrom(st, [c] + d), c, t);
  }

  lemma ScanThree(a: string, b: string, t: string)
    ensures FlagMap(a + b + t) == ScanFrom(ScanFrom(ScanFrom(Start, a), b), t).flags
  {
    ScanFromAppend(Start, a + b, t);
    ScanFromAppend(Start, a, b);
  }

  /** From the end of c's digits, the rest of the string (which starts with another flag) leaves c alone. */
  lemma FlagAfter(st: FlagState, c: char, t: string)
    requires st.last == c as int && c as int in st.flags && c !in t && (t == [] || !IsDigit(t[0]))
    ensures c as int in ScanFrom(st, t).flags && ScanFrom(st, t).flags[c as int] == st.flags[c as int]
  {
    if t != [] {
      var x := t[0];
      assert t == [x] + t[1..];
      ScanFromAppend(st, [x], t[1..]);
      assert [x][..0] == [];
      FlagKept(ScanFrom(st, [x]), c, t[1..]);
    }
  }

  /**
   * The keys of the map: every flag character of s, and the sentinel -1 of
   * `last_c` as soon as there is one.
   */
  lemma {:induction false} FlagKeys(s: string)
    ensures ScanFrom(Start, s).last == -1 || (ScanFrom(Start, s).last in FlagMap(s) && -1 in FlagMap(s))
    ensures forall c: char :: !IsDigit(c) ==> (c as int in FlagMap(s) <==> c in s)
    ensures -1 in FlagMap(s) <==> exists c :: c in s && !IsDigit(c)
    decreases |s|
  {
    if s != [] {
      var init, x := s[..|s| - 1], s[|s| - 1];
      FlagKeys(init);
      assert s == init + [x];
      forall c: char | !IsDigit(c)
        ensures c as int in FlagMap(s) <==> c in s
      {
        assert c in s <==> c in init || c == x;
      }
      if exists c :: c in init && !IsDigit(c) {
        var c :| c in init && !IsDigit(c);
        assert c in s;
      }
      if exists c :: c in s && !IsDigit(c) {
        var c :| c in s && !IsDigit(c);
        assert c in init || c == x;
      }
    }
  }
}
