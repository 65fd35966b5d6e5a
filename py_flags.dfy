/**
 * `flags_to_new_flags_and_detune` of fakesampler.py, integer part: the flag
 * string is scanned into a dictionary in insertion order, the `Z` flag is
 * removed and its value returned as a signed number of steps, and the other
 * flags are written back as key followed by value. The conversion of the
 * steps to cents (`1200 / 31` per step) is floating point and not modelled.
 */
module PyFlags {
  import opened Wrappers
  import opened CText
  import opened PyCodec

  /** `str.isalpha` on a 7-bit character. */
  predicate IsAlpha(c: char)
  {
    'A' <= c <= 'Z' || 'a' <= c <= 'z'
  }

  /** No key is listed twice. */
  predicate Distinct(keys: seq<char>)
    decreases |keys|
  {
    keys == [] || (keys[|keys| - 1] !in keys[..|keys| - 1] && Distinct(keys[..|keys| - 1]))
  }

  /**
   * The loop's variables: `flags_dict` (its keys in insertion order and its
   * values), `sgn` and `last_c`.
   */
  datatype ScanState = ScanState(keys: seq<char>, values: map<char, nat>, sgn: int, last: Option<char>)

  /** What the loop keeps true: the key list is the dictionary's, without repeats, and `last_c` is one of its keys. */
  predicate Valid(st: ScanState)
  {
    && Distinct(st.keys)
    && (forall k :: k in st.values <==> k in st.keys)
    && (forall k :: k in st.values ==> IsAlpha(k))
    && (st.last.Some? ==> st.last.value in st.values)
    && (st.sgn == 1 || st.sgn == -1)
  }

  const Start := ScanState([], map[], 1, None)

  /**
   * One pass of the loop: a letter (re)sets its flag to 0 where it stands and
   * becomes `last_c`; `-` sets `sgn`; anything else raises `ValueError` before any
   * letter (`if not last_c`) or when `int(c)` fails, and otherwise is a digit
   * appended to the value of `last_c`.
   */
  function Step(st: ScanState, c: char): (r: Result<ScanState, PyError>)
    requires Valid(st)
    ensures r.Ok? ==> Valid(r.value)
    ensures r.Err? ==> r.error == ValueError
  {
    if IsAlpha(c) then
      Ok(ScanState(if c in st.values then st.keys else st.keys + [c], st.values[c := 0], 1, Some(c)))
    else if c == '-' then Ok(st.(sgn := -1))
    else if st.last.None? then Err(ValueError)
    else if !IsDigit(c) then Err(ValueError)
    else
      var l := st.last.value;
      Ok(st.(values := st.values[l := st.values[l] * 10 + (c as int - '0' as int)]))
  }

  /** The loop `for c in flags` on a prefix of the flag string. */
  function Scan(s: string): (r: Result<ScanState, PyError>)
    ensures r.Ok? ==> Valid(r.value)
    ensures r.Err? ==> r.error == ValueError
    decreases |s|
  {
    if s == [] then Ok(Start)
    else
      match Scan(s[..|s| - 1])
      case Err(e) => Err(e)
      case Ok(st) => Step(st, s[|s| - 1])
  }

  /** The dictionary's keys after `pop(k)`, in their order. */
  function Without(keys: seq<char>, k: char): (r: seq<char>)
    ensures forall x :: x in r <==> x in keys && x != k
    ensures Distinct(keys) ==> Distinct(r)
    decreases |keys|
  {
    if keys == [] then []
    else
      var init := Without(keys[..|keys| - 1], k);
      assert forall x :: x in keys[..|keys| - 1] ==> x in keys;
      assert keys == keys[..|keys| - 1] + [keys[|keys| - 1]];
      if keys[|keys| - 1] == k then init
      else
        assert Distinct(keys) ==> keys[|keys| - 1] !in keys[..|keys| - 1];
        init + [keys[|keys| - 1]]
  }

  /** `out_s += f"{key}{value}"` over the keys in order. */
  function Serialize(keys: seq<char>, values: map<char, nat>): (t: string)
    requires forall k :: k in keys ==> k in values
    ensures forall x :: x in t ==> x in keys || IsDigit(x)
    decreases |keys|
  {
    if keys == [] then []
    else
      var k := keys[|keys| - 1];
      assert forall y :: y in keys[..|keys| - 1] ==> y in keys;
      Serialize(keys[..|keys| - 1], values) + [k] + NatToString(values[k])
  }

  /** The result of the function: the new flag string and the signed value of `Z` in steps. */
  datatype NewFlags = NewFlags(flags: string, detuneSteps: int)

  /** `flags_to_new_flags_and_detune`, with the detune in steps of the tuning instead of cents. */
  function FlagsToNewFlags(s: string): (r: Result<NewFlags, PyError>)
    ensures r.Ok? ==> 'Z' !in r.value.flags
    ensures r.Err? ==> r.error == ValueError
  {
    match Scan(s)
    case Err(e) => Err(e)
    case Ok(st) =>
      if 'Z' in st.values then
        Ok(NewFlags(Serialize(Without(st.keys, 'Z'), st.values - {'Z'}), st.sgn * st.values['Z']))
      else Ok(NewFlags(Serialize(st.keys, st.values), 0))
  }

  /** `flags_to_new_flags_and_detune`: the scanning loop, the `pop` of `Z`, the serialising loop. */
  method FlagsToNewFlagsAndDetune(flags: string) returns (r: Result<NewFlags, PyError>)
    ensures r == FlagsToNewFlags(flags)
  {
    var keys: seq<char> := [];
    var values: map<char, nat> := map[];
    var sgn: int := 1;
    var last: Option<char> := None;
    for i := 0 to |flags|
      invariant Scan(flags[..i]) == Ok(ScanState(keys, values, sgn, last))
    {
      var c := flags[i];
      assert flags[..i + 1] == flags[..i] + [c];
      ScanSnoc(flags[..i], c);
      var ok;
      ok, keys, values, sgn, last := ScanChar(keys, values, sgn, last, c);
      if !ok {
        ScanStops(flags, i + 1);
        return Err(ValueError);
      }
    }
    assert flags[..|flags|] == flags;
    var steps := 0;
    if 'Z' in values {
      steps := sgn * values['Z'];
      values := values - {'Z'};
      keys := Without(keys, 'Z');
    }
    var out := SerializeLoop(keys, values);
    r := Ok(NewFlags(out, steps));
  }

  /** One pass of the scanning loop on the character c; `ok` is false where it raises `ValueError`. */
  method ScanChar(keys: seq<char>, values: map<char, nat>, sgn: int, last: Option<char>, c: char)
    returns (ok: bool, keys': seq<char>, values': map<char, nat>, sgn': int, last': Option<char>)
    requires Valid(ScanState(keys, values, sgn, last))
    ensures ok ==> Step(ScanState(keys, values, sgn, last), c) == Ok(ScanState(keys', values', sgn', last'))
    ensures !ok ==> Step(ScanState(keys, values, sgn, last), c) == Err(ValueError)
  {
    ok, keys', values', sgn', last' := true, keys, values, sgn, last;
    if IsAlpha(c) {
      if c !in values {
        keys' := keys + [c];
      }
      values' := values[c := 0];
      sgn' := 1;
      last' := Some(c);
    } else if c == '-' {
      sgn' := -1;
    } else if last.None? || !IsDigit(c) {
      ok := false;
    } else {
      values' := values[last.value := values[last.value] * 10 + (c as int - '0' as int)];
    }
  }

  /** The loop `for key, value in flags_dict.items(): out_s += f"{key}{value}"`. */
  method SerializeLoop(keys: seq<char>, values: map<char, nat>) returns (out: string)
    requires forall k :: k in keys ==> k in values
    ensures out == Serialize(keys, values)
  {
    out := [];
    for j := 0 to |keys|
      invariant out == Serialize(keys[..j], values)
    {
      assert keys[..j + 1][..j] == keys[..j];
      out := out + [keys[j]] + NatToString(values[keys[j]]);
    }
    assert keys[..|keys|] == keys;
  }

  /** Once the loop has raised, the rest of the string does not matter. */
  lemma {:induction false} ScanStops(s: string, j: nat)
    requires j <= |s| && Scan(s[..j]).Err?
    ensures Scan(s) == Scan(s[..j])
    decreases |s|
  {
    if j < |s| {
      var init := s[..|s| - 1];
      assert init[..j] == s[..j];
      ScanStops(init, j);
    } else {
      assert s[..j] == s;
    }
  }

  /** The letters of s in the order of their first occurrence. */
  function FirstLetters(s: string): seq<char>
    decreases |s|
  {
    if s == [] then []
    else
      var init := FirstLetters(s[..|s| - 1]);
      var c := s[|s| - 1];
      if IsAlpha(c) && c !in init then init + [c] else init
  }

  /** The dictionary's keys are the flag letters in the order they first appear. */
  lemma {:induction false} ScanKeys(s: string)
    requires Scan(s).Ok?
    ensures Scan(s).value.keys == FirstLetters(s)
    decreases |s|
  {
    if s != [] {
      ScanKeys(s[..|s| - 1]);
    }
  }

  /** Some character of s is a letter. */
  predicate HasLetter(s: string)
    decreases |s|
  {
    s != [] && (IsAlpha(s[|s| - 1]) || HasLetter(s[..|s| - 1]))
  }

  /** The character at i is one the loop accepts: a letter, a `-`, or a digit after some letter. */
  predicate Accepted(s: string, i: int)
    requires 0 <= i < |s|
  {
    IsAlpha(s[i]) || s[i] == '-' || (IsDigit(s[i]) && HasLetter(s[..i]))
  }

  /** `last_c` is set exactly when a letter has been seen. */
  lemma {:induction false} ScanLast(s: string)
    requires Scan(s).Ok?
    ensures Scan(s).value.last.Some? <==> HasLetter(s)
    decreases |s|
  {
    if s != [] {
      ScanLast(s[..|s| - 1]);
    }
  }

  /** The function raises `ValueError` exactly when some character is not accepted. */
  lemma {:induction false} ScanOkIff(s: string)
    ensures Scan(s).Ok? <==> forall i :: 0 <= i < |s| ==> Accepted(s, i)
    decreases |s|
  {
    if s != [] {
      var init, c := s[..|s| - 1], s[|s| - 1];
      ScanOkIff(init);
      forall i | 0 <= i < |init|
        ensures Accepted(s, i) == Accepted(init, i)
      {
        assert s[..i] == init[..i];
      }
      assert s[..|init|] == init;
      if Scan(init).Ok? {
        ScanLast(init);
        assert Step(Scan(init).value, c).Ok? <==> Accepted(s, |init|);
      } else {
        var i :| 0 <= i < |init| && !Accepted(init, i);
        assert !Accepted(s, i);
      }
    }
  }

  predicate NoLetter(t: string)
  {
    forall i :: 0 <= i < |t| ==> !IsAlpha(t[i])
  }

  /** The digits of t, in order (what `int(c)` reads; the `-` signs are dropped). */
  function DigitsOf(t: string): (d: string)
    ensures AllDigits(d)
    decreases |t|
  {
    if t == [] then []
    else
      var d := DigitsOf(t[..|t| - 1]);
      var c := t[|t| - 1];
      if IsDigit(c) then
        assert forall i :: 0 <= i < |d| ==> (d + [c])[i] == d[i];
        d + [c]
      else d
  }

  /** A prefix of a string the loop accepts is accepted too. */
  lemma {:induction false} ScanPrefix(s: string, j: nat)
    requires j <= |s| && Scan(s).Ok?
    ensures Scan(s[..j]).Ok?
  {
    if Scan(s[..j]).Err? {
      ScanStops(s, j);
    }
  }

  /**
   * After the last letter c: `last_c` is c, the value of c is the number its
   * digits spell, and `sgn` is -1 exactly when a `-` came after c.
   */
  lemma {:induction false} LastFlagValue(a: string, c: char, t: string)
    requires IsAlpha(c) && NoLetter(t) && Scan(a + [c] + t).Ok?
    ensures Scan(a + [c] + t).value.last == Some(c)
    ensures Scan(a + [c] + t).value.values[c] == DigitsValue(DigitsOf(t))
    ensures Scan(a + [c] + t).value.sgn == if '-' in t then -1 else 1
    decreases |t|
  {
    var s := a + [c] + t;
    if t == [] {
      assert s == a + [c] && s[..|a|] == a;
      ScanPrefix(s, |a|);
    } else {
      var t0, x := t[..|t| - 1], t[|t| - 1];
      var p := a + [c] + t0;
      assert s == p + [x];
      ScanSnoc(p, x);
      LastFlagValue(a, c, t0);
      StepAfterLetter(Scan(p).value, c, x);
      DigitsOfSnoc(t);
    }
  }

  /** The loop on one more character: a further step, once the prefix is accepted. */
  lemma ScanSnoc(p: string, x: char)
    ensures Scan(p + [x]) == if Scan(p).Ok? then Step(Scan(p).value, x) else Scan(p)
  {
    assert (p + [x])[..|p|] == p;
  }

  /** One character after the letter c that is not a letter: a sign, or one more digit of c. */
  lemma StepAfterLetter(st: ScanState, c: char, x: char)
    requires Valid(st) && st.last == Some(c) && !IsAlpha(x) && Step(st, x).Ok?
    ensures Step(st, x).value.last == Some(c)
    ensures x == '-' ==> Step(st, x).value.sgn == -1 && Step(st, x).value.values[c] == st.values[c]
    ensures x != '-' ==> IsDigit(x) && Step(st, x).value.sgn == st.sgn
    ensures x != '-' ==> Step(st, x).value.values[c] == st.values[c] * 10 + (x as int - '0' as int)
  {
  }

  /** The last character of t: one more digit read, or one more sign seen. */
  lemma DigitsOfSnoc(t: string)
    requires t != []
    ensures var t0, x := t[..|t| - 1], t[|t| - 1];
      && DigitsValue(DigitsOf(t))
         == (if IsDigit(x) then DigitsValue(DigitsOf(t0)) * 10 + (x as int - '0' as int) else DigitsValue(DigitsOf(t0)))
      && (('-' in t) <==> ('-' in t0 || x == '-'))
  {
    var t0, x := t[..|t| - 1], t[|t| - 1];
    assert t == t0 + [x];
    var d := DigitsOf(t0);
    assert (d + [x])[..|d|] == d;
  }

  /** Steps after another flag has started leave the value of c alone. */
  lemma {:induction false} Untouched(s: string, w: string, c: char)
    requires Scan(s + w).Ok? && Scan(s).Ok? && c in Scan(s).value.values
    requires c !in w && Scan(s).value.last != Some(c)
    ensures c in Scan(s + w).value.values && Scan(s + w).value.values[c] == Scan(s).value.values[c]
    ensures Scan(s + w).value.last != Some(c)
    decreases |w|
  {
    if w == [] {
      assert s + w == s;
    } else {
      var w0 := w[..|w| - 1];
      assert (s + w)[..|s + w| - 1] == s + w0;
      ScanPrefix(s + w, |s + w| - 1);
      Untouched(s, w0, c);
    }
  }

  /**
   * The value of a flag is the number spelt by the digits after its last
   * occurrence, up to the next letter; whatever follows does not change it.
   */
  lemma FlagValue(a: string, c: char, u: string, v: string)
    requires IsAlpha(c) && NoLetter(u) && (v == [] || IsAlpha(v[0])) && c !in v
    requires Scan(a + [c] + u + v).Ok?
    ensures c in Scan(a + [c] + u + v).value.values
    ensures Scan(a + [c] + u + v).value.values[c] == DigitsValue(DigitsOf(u))
  {
    var p := a + [c] + u;
    var s := p + v;
    assert s[..|p|] == p;
    ScanPrefix(s, |p|);
    LastFlagValue(a, c, u);
    if v == [] {
      assert s == p;
    } else {
      var q := p + [v[0]];
      assert s == q + v[1..];
      assert s[..|q|] == q;
      ScanPrefix(s, |q|);
      ScanSnoc(p, v[0]);
      StepOtherLetter(Scan(p).value, c, v[0]);
      assert c !in v[1..];
      Untouched(q, v[1..], c);
    }
  }

  /** A run of digits after a letter accumulates into that letter's value and changes nothing else. */
  lemma {:induction false} ScanDigits(p: string, d: string)
    requires Scan(p).Ok? && Scan(p).value.last.Some? && AllDigits(d)
    ensures Scan(p + d).Ok?
    ensures var st, st' := Scan(p).value, Scan(p + d).value;
      && st'.keys == st.keys && st'.sgn == st.sgn && st'.last == st.last
      && st'.values[st.last.value] == Accumulate(st.values[st.last.value], d)
      && (forall k :: k in st.values && k != st.last.value ==> st'.values[k] == st.values[k])
    decreases |d|
  {
    if d == [] {
      assert p + d == p;
    } else {
      var d0, x := d[..|d| - 1], d[|d| - 1];
      assert p + d == (p + d0) + [x];
      ScanDigits(p, d0);
      ScanSnoc(p + d0, x);
      StepDigit(Scan(p + d0).value, x);
    }
  }

  /** A letter other than c: c keeps its value and stops being `last_c`. */
  lemma StepOtherLetter(st: ScanState, c: char, x: char)
    requires Valid(st) && c in st.values && IsAlpha(x) && x != c
    ensures Step(st, x).Ok? && c in Step(st, x).value.values
    ensures Step(st, x).value.values[c] == st.values[c] && Step(st, x).value.last != Some(c)
  {
  }

  /** A digit after a letter: one more decimal place for `last_c`, nothing else changes. */
  lemma StepDigit(st: ScanState, x: char)
    requires Valid(st) && st.last.Some? && IsDigit(x)
    ensures Step(st, x).Ok?
    ensures var st' := Step(st, x).value;
      && st'.keys == st.keys && st'.sgn == st.sgn && st'.last == st.last
      && st'.values[st.last.value] == st.values[st.last.value] * 10 + (x as int - '0' as int)
      && (forall k :: k in st.values && k != st.last.value ==> st'.values[k] == st.values[k])
  {
  }

  /** The serialisation reads only the values of the keys it lists. */
  lemma {:induction false} SerializeAgree(keys: seq<char>, v1: map<char, nat>, v2: map<char, nat>)
    requires forall k :: k in keys ==> k in v1 && k in v2 && v1[k] == v2[k]
    ensures Serialize(keys, v1) == Serialize(keys, v2)
    decreases |keys|
  {
    if keys != [] {
      SerializeAgree(keys[..|keys| - 1], v1, v2);
    }
  }

  /** Scanning a serialisation gives back its keys, in order, with their values and no sign. */
  lemma {:induction false} ScanSerialize(keys: seq<char>, values: map<char, nat>)
    requires Distinct(keys) && forall k :: k in keys ==> IsAlpha(k) && k in values
    ensures Scan(Serialize(keys, values)).Ok?
    ensures var st := Scan(Serialize(keys, values)).value;
      && st.keys == keys && st.sgn == 1
      && (keys == [] ==> st.last.None?) && (keys != [] ==> st.last.Some?)
      && (forall k :: k in keys ==> st.values[k] == values[k])
    decreases |keys|
  {
    if keys != [] {
      var init, k := keys[..|keys| - 1], keys[|keys| - 1];
      assert keys == init + [k];
      assert forall y :: y in init ==> y in keys;
      assert k !in init;
      ScanSerialize(init, values);
      var p := Serialize(init, values);
      var n := NatToString(values[k]);
      assert Serialize(keys, values) == p + [k] + n;
      NewFlagStep(p, k, n);
      var st0, st2 := Scan(p).value, Scan(p + [k] + n).value;
      forall j | j in keys
        ensures st2.values[j] == values[j]
      {
        if j != k {
          assert j in init;
        }
      }
    }
  }

  /** A letter not seen before, then its digits: one more key at the end, holding the number they spell. */
  lemma NewFlagStep(p: string, k: char, n: string)
    requires Scan(p).Ok? && IsAlpha(k) && k !in Scan(p).value.values && AllDigits(n)
    ensures Scan(p + [k] + n).Ok?
    ensures var st, st' := Scan(p).value, Scan(p + [k] + n).value;
      && st'.keys == st.keys + [k] && st'.sgn == 1 && st'.last == Some(k)
      && st'.values[k] == DigitsValue(n)
      && (forall j :: j in st.values ==> st'.values[j] == st.values[j])
  {
    ScanSnoc(p, k);
    ScanDigits(p + [k], n);
    AccumulateShift(0, n);
  }

  /** Passing the new flag string through the function again changes nothing and detunes by zero. */
  lemma Idempotent(s: string)
    requires FlagsToNewFlags(s).Ok?
    ensures FlagsToNewFlags(FlagsToNewFlags(s).value.flags) == Ok(NewFlags(FlagsToNewFlags(s).value.flags, 0))
  {
    var st := Scan(s).value;
    var keys := if 'Z' in st.values then Without(st.keys, 'Z') else st.keys;
    var values := if 'Z' in st.values then st.values - {'Z'} else st.values;
    var out := Serialize(keys, values);
    assert out == FlagsToNewFlags(s).value.flags;
    ScanSerialize(keys, values);
    var st2 := Scan(out).value;
    assert 'Z' !in st2.values;
    SerializeAgree(keys, values, st2.values);
  }

  /**
   * As written, the sign of the detune is `sgn` at the end of the string: every
   * letter resets it, so only a `-` after the last letter counts, whichever
   * flag that letter is.
   */
  lemma DetuneSignAsWritten(a: string, c: char, t: string)
    requires IsAlpha(c) && NoLetter(t) && FlagsToNewFlags(a + [c] + t).Ok?
    ensures 'Z' in Scan(a + [c] + t).value.values ==>
      FlagsToNewFlags(a + [c] + t).value.detuneSteps
        == (if '-' in t then -1 else 1) * (Scan(a + [c] + t).value.values['Z'] as int)
  {
    LastFlagValue(a, c, t);
  }

  /**
   * A `-` written with `Z` and followed by another flag (`Z-5g3`): as written the
   * detune comes out positive, while the corrected reading keeps the sign.
   */
  lemma SignLost(a: string, u: string, c: char, t: string)
    requires NoLetter(u) && '-' in u && IsAlpha(c) && c != 'Z' && NoLetter(t) && '-' !in t
    requires FlagsToNewFlags(a + ['Z'] + u + ([c] + t)).Ok?
    ensures FlagsToNewFlags(a + ['Z'] + u + ([c] + t)).value.detuneSteps == DigitsValue(DigitsOf(u))
    ensures FlagsToNewFlagsSigned(a + ['Z'] + u + ([c] + t)).value.detuneSteps == -DigitsValue(DigitsOf(u))
  {
    var s := a + ['Z'] + u + ([c] + t);
    assert s == (a + ['Z'] + u) + [c] + t;
    FlagValue(a, 'Z', u, [c] + t);
    DetuneSignAsWritten(a + ['Z'] + u, c, t);
    ZSegmentSign(a, u, [c] + t);
  }

  /** The last letter of s, if any. */
  function LastLetter(s: string): Option<char>
    decreases |s|
  {
    if s == [] then None
    else if IsAlpha(s[|s| - 1]) then Some(s[|s| - 1])
    else LastLetter(s[..|s| - 1])
  }

  /** The sign written with the last occurrence of flag c: -1 when a `-` follows it before the next letter. */
  function FlagSign(s: string, c: char): int
    decreases |s|
  {
    if s == [] then 1
    else
      var init, x := s[..|s| - 1], s[|s| - 1];
      if x == c then 1
      else if x == '-' && LastLetter(init) == Some(c) then -1
      else FlagSign(init, c)
  }

  /** `flags_to_new_flags_and_detune` with the sign of `Z` taken from its own digits. */
  function FlagsToNewFlagsSigned(s: string): Result<NewFlags, PyError>
  {
    match FlagsToNewFlags(s)
    case Err(e) => Err(e)
    case Ok(r) => Ok(r.(detuneSteps := if 'Z' in Scan(s).value.values then FlagSign(s, 'Z') * Scan(s).value.values['Z'] else 0))
  }

  /** In the segment of c itself the sign is the one written there. */
  lemma {:induction false} FlagSignOwn(a: string, c: char, u: string)
    requires IsAlpha(c) && NoLetter(u)
    ensures LastLetter(a + [c] + u) == Some(c)
    ensures FlagSign(a + [c] + u, c) == if '-' in u then -1 else 1
    decreases |u|
  {
    var s := a + [c] + u;
    if u == [] {
      assert s[..|s| - 1] == a;
    } else {
      var u0, x := u[..|u| - 1], u[|u| - 1];
      assert s[..|s| - 1] == a + [c] + u0;
      assert u == u0 + [x];
      FlagSignOwn(a, c, u0);
    }
  }

  /** Once another letter follows, the last letter stays among the later characters. */
  lemma {:induction false} LastLetterIn(p: string, w: string)
    requires w != [] && IsAlpha(w[0])
    ensures LastLetter(p + w).Some? && LastLetter(p + w).value in w
    decreases |w|
  {
    var s := p + w;
    assert s[..|s| - 1] == p + w[..|w| - 1];
    if |w| > 1 {
      LastLetterIn(p, w[..|w| - 1]);
    }
  }

  /** Characters after the segment of c, from a letter other than c on, leave its sign alone. */
  lemma {:induction false} FlagSignAfter(p: string, w: string, c: char)
    requires w != [] && IsAlpha(w[0]) && c !in w
    ensures FlagSign(p + w, c) == FlagSign(p, c)
    decreases |w|
  {
    var s := p + w;
    var w0 := w[..|w| - 1];
    assert s[..|s| - 1] == p + w0;
    if |w| > 1 {
      FlagSignAfter(p, w0, c);
      LastLetterIn(p, w0);
    } else {
      assert p + w0 == p;
    }
  }

  /** With the correction, the detune is `Z`'s own digits with `Z`'s own sign, whatever flags follow. */
  lemma ZSegmentSign(a: string, u: string, v: string)
    requires NoLetter(u) && (v == [] || IsAlpha(v[0])) && 'Z' !in v
    requires FlagsToNewFlagsSigned(a + ['Z'] + u + v).Ok?
    ensures FlagsToNewFlagsSigned(a + ['Z'] + u + v).value.detuneSteps
         == (if '-' in u then -1 else 1) * DigitsValue(DigitsOf(u))
  {
    var p := a + ['Z'] + u;
    FlagValue(a, 'Z', u, v);
    FlagSignOwn(a, 'Z', u);
    if v != [] {
      FlagSignAfter(p, v, 'Z');
    } else {
      assert p + v == p;
    }
  }
}
