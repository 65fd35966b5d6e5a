/**
 * The Python revision of the pitch-bend codec (`fakesampler.py`): dictionaries
 * filled by `_init_b64`, a decoder that splits the text on `#`, and an encoder
 * that compresses runs of six or more. Raised exceptions are `Err` values.
 */
module PyCodec {
  import opened Wrappers
  import opened CText
  import opened Base64
  import opened PitchCode

  /** The exceptions the codec raises. */
  datatype PyError = KeyError | IndexError | ValueError

  /** Runs shorter than this are written out pair by pair. */
  const Threshold: nat := 6

  /** `b64` once `_init_b64` has run: each of the 64 symbols to its index. */
  function B64Dict(): (d: map<char, int>)
    ensures forall c :: c in d ==> 0 <= d[c] < 64 && IToB64(d[c]) == c
    ensures forall k :: 0 <= k < 64 ==> IToB64(k) in d
  {
    IToB64Injective();
    map k | 0 <= k < 64 :: IToB64(k) := k
  }

  /** `anti_b64` once `_init_b64` has run: each index to its symbol. */
  function AntiB64Dict(): map<int, char>
  {
    map k | 0 <= k < 64 :: IToB64(k)
  }

  lemma IToB64Injective()
    ensures forall j, k :: 0 <= j < 64 && 0 <= k < 64 && IToB64(j) == IToB64(k) ==> j == k
  {
    forall j, k | 0 <= j < 64 && 0 <= k < 64 && IToB64(j) == IToB64(k)
      ensures j == k
    {
      B64ToIOfIToB64(j);
      B64ToIOfIToB64(k);
    }
  }

  /** The keys of `b64` are exactly the characters `b64_to_i` maps below 64, with the same values. */
  lemma B64DictKeys(c: char)
    ensures c in B64Dict() <==> B64ToI(c as int) < 64
    ensures c in B64Dict() ==> B64Dict()[c] == B64ToI(c as int)
  {
    var d := B64Dict();
    if B64ToI(c as int) < 64 {
      assert IToB64(B64ToI(c as int)) == c;
    }
    if c in d {
      var k :| 0 <= k < 64 && IToB64(k) == c;
      B64ToIOfIToB64(k);
    }
  }

  /** The alphabet, `b64` and `anti_b64` agree, and the two dictionaries are inverse bijections onto 0..63. */
  lemma DictsInverse()
    ensures forall k :: 0 <= k < 64 ==> Alphabet[k] in B64Dict() && AntiB64Dict()[k] == Alphabet[k]
    ensures forall c :: c in B64Dict() ==> 0 <= B64Dict()[c] < 64 && AntiB64Dict()[B64Dict()[c]] == c
    ensures forall k :: k in AntiB64Dict() <==> 0 <= k < 64
    ensures forall k :: 0 <= k < 64 ==> AntiB64Dict()[k] in B64Dict() && B64Dict()[AntiB64Dict()[k]] == k
  {
    AlphabetByRanges();
    forall c | c in B64Dict()
      ensures 0 <= B64Dict()[c] < 64 && AntiB64Dict()[B64Dict()[c]] == c
    {
      B64DictKeys(c);
    }
    forall k | 0 <= k < 64
      ensures AntiB64Dict()[k] in B64Dict() && B64Dict()[AntiB64Dict()[k]] == k
    {
      B64ToIOfIToB64(k);
      B64DictKeys(IToB64(k));
    }
  }

  /** `_init_b64`: starts from `+` and `/`, adds the letters, then the digits, then inverts the dictionary. */
  method InitB64() returns (b64: map<char, int>, anti: map<int, char>)
    ensures b64 == B64Dict() && anti == AntiB64Dict()
  {
    b64 := map['+' := 62, '/' := 63];
    var a, upper, zero := 'a' as int, 'A' as int, '0' as int;
    for i := 0 to 26
      invariant forall c :: c in b64 <==> c == '+' || c == '/' || a <= c as int < a + i || upper <= c as int < upper + i
      invariant forall c :: c in b64 ==> b64[c] == B64ToI(c as int)
    {
      b64 := b64[(a + i) as char := 26 + i];
      b64 := b64[(upper + i) as char := i];
    }
    for i := 0 to 10
      invariant forall c :: c in b64 <==> c == '+' || c == '/' || a <= c as int < a + 26 || upper <= c as int < upper + 26 || zero <= c as int < zero + i
      invariant forall c :: c in b64 ==> b64[c] == B64ToI(c as int)
    {
      b64 := b64[(zero + i) as char := 52 + i];
    }
    FilledDict(b64);
    DictsInverse();
    anti := map c | c in b64 :: b64[c] := c;
    AntiOfB64Dict(anti);
  }

  /** A dictionary holding B64ToI of exactly `+`, `/`, the letters and the digits is `b64`. */
  lemma FilledDict(b64: map<char, int>)
    requires forall c :: c in b64 <==> c == '+' || c == '/' || 'a' as int <= c as int < 'a' as int + 26 || 'A' as int <= c as int < 'A' as int + 26 || '0' as int <= c as int < '0' as int + 10
    requires forall c :: c in b64 ==> b64[c] == B64ToI(c as int)
    ensures b64 == B64Dict()
  {
    forall c
      ensures c in b64 <==> c in B64Dict()
    {
      B64DictKeys(c);
    }
    forall c | c in b64
      ensures b64[c] == B64Dict()[c]
    {
      B64DictKeys(c);
    }
  }

  /** The dictionary `{value: key for key, value in b64.items()}` is `anti_b64`. */
  lemma AntiOfB64Dict(anti: map<int, char>)
    requires forall k :: k in anti <==> exists c :: c in B64Dict() && B64Dict()[c] == k
    requires forall c :: c in B64Dict() ==> B64Dict()[c] in anti && anti[B64Dict()[c]] == c
    ensures anti == AntiB64Dict()
  {
    DictsInverse();
    forall k
      ensures k in anti <==> k in AntiB64Dict()
    {
      if 0 <= k < 64 {
        assert B64Dict()[AntiB64Dict()[k]] == k;
      }
    }
  }

  /** `u12_to_s12`: `x - 4096 if x & 0x800 else x` (bit 11 of Python's unbounded two's complement). */
  function U12ToS12(x: int): (r: int)
    ensures (x - r) % 4096 == 0
    ensures 0 <= x < 4096 ==> InRange12(r)
  {
    if (x / 2048) % 2 == 1 then x - 4096 else x
  }

  /** `s12_to_u12`: `x & 0xFFF`, the low 12 bits of any int. */
  function S12ToU12(x: int): (u: int)
    ensures 0 <= u < 4096 && (x - u) % 4096 == 0
  {
    x % 4096
  }

  /** On 12-bit fields `u12_to_s12` is the two's-complement reading, onto [-2048, 2047]. */
  lemma U12ToS12Range(u: int)
    requires 0 <= u < 4096
    ensures U12ToS12(u) == SignExtend12(u) && InRange12(U12ToS12(u))
  {
  }

  /** `s12_to_u12` undoes `u12_to_s12` on 12-bit fields. */
  lemma S12OfU12(u: int)
    requires 0 <= u < 4096
    ensures S12ToU12(U12ToS12(u)) == u
  {
    if u >= 2048 {
      assert u - 4096 == u + (-1) * 4096;
    }
  }

  /** `u12_to_s12` undoes `s12_to_u12` on [-2048, 2047]. */
  lemma U12OfS12(v: int)
    requires InRange12(v)
    ensures U12ToS12(S12ToU12(v)) == v
  {
    if v < 0 {
      assert S12ToU12(v) == v + 4096;
    }
  }

  /**
   * `b64_pair_to_int`: `b64[p[0]]` is looked up before `p[1]` is indexed, so a
   * bad first symbol is a KeyError even when the second is missing.
   */
  function B64PairToInt(p: string): (r: Result<int, PyError>)
    ensures r.Ok? ==> InRange12(r.value)
    ensures r.Ok? <==> |p| >= 2 && IsSymbol(p[0]) && IsSymbol(p[1])
  {
    B64DictKeys(if |p| > 0 then p[0] else 'A');
    B64DictKeys(if |p| > 1 then p[1] else 'A');
    if |p| == 0 then Err(IndexError)
    else if p[0] !in B64Dict() then Err(KeyError)
    else if |p| < 2 then Err(IndexError)
    else if p[1] !in B64Dict() then Err(KeyError)
    else
      var u := B64Dict()[p[0]] * 64 + B64Dict()[p[1]];
      U12ToS12Range(u);
      Ok(U12ToS12(u))
  }

  /** The error a bad pair raises: KeyError for a symbol outside the alphabet, IndexError for a lone symbol. */
  lemma B64PairToIntError(p: string)
    requires 1 <= |p| <= 2
    ensures B64PairToInt(p) == Err(KeyError) <==> !IsSymbol(p[0]) || (|p| == 2 && !IsSymbol(p[1]))
    ensures B64PairToInt(p) == Err(IndexError) <==> IsSymbol(p[0]) && |p| == 1
  {
    B64DictKeys(p[0]);
    B64DictKeys(p[|p| - 1]);
  }

  /** A pair of symbols is read as the value the C++ decoders read from it. */
  lemma B64PairToIntOfPair(p: string)
    requires IsPair(p)
    ensures B64PairToInt(p) == Ok(PairValue(p))
  {
    B64DictKeys(p[0]);
    B64DictKeys(p[1]);
    var u := B64ToI(p[0] as int) * 64 + B64ToI(p[1] as int);
    U12ToS12Range(u);
    assert B64PairToInt(p) == Ok(U12ToS12(u));
  }

  function Min(a: int, b: int): int
  {
    if a < b then a else b
  }

  /** `b64_pairs_to_ints`: the values of the slices `pairs[i:i+2]`, stopping at the first exception. */
  function PairsToInts(t: string): (r: Result<seq<int>, PyError>)
    ensures r.Ok? ==> AllInRange12(r.value)
    decreases |t|
  {
    if t == [] then Ok([])
    else
      var p := t[..Min(2, |t|)];
      match B64PairToInt(p)
      case Err(e) => Err(e)
      case Ok(v) =>
        match PairsToInts(t[|p|..])
        case Err(e) => Err(e)
        case Ok(vs) => Ok([v] + vs)
  }

  /** A text that reads without exception gives one value per two characters, rounding up. */
  lemma {:induction false} PairsToIntsLength(t: string)
    requires PairsToInts(t).Ok?
    ensures |PairsToInts(t).value| == (|t| + 1) / 2
    decreases |t|
  {
    if t != [] {
      PairsToIntsLength(t[Min(2, |t|)..]);
    }
  }

  /** Values already read, then the rest of the reading (an exception discards them). */
  function Then(done: seq<int>, rest: Result<seq<int>, PyError>): Result<seq<int>, PyError>
  {
    match rest
    case Err(e) => Err(e)
    case Ok(vs) => Ok(done + vs)
  }

  /** `b64_pairs_to_ints`: the `range(0, len(pairs), 2)` loop appending to `ret`. */
  method B64PairsToInts(pairs: string) returns (r: Result<seq<int>, PyError>)
    ensures r == PairsToInts(pairs)
  {
    var ret: seq<int> := [];
    var i := 0;
    assert pairs[Min(i, |pairs|)..] == pairs;
    ThenNothing(PairsToInts(pairs));
    while i < |pairs|
      invariant 0 <= i && (i <= |pairs| || i == |pairs| + 1)
      invariant PairsToInts(pairs) == Then(ret, PairsToInts(pairs[Min(i, |pairs|)..]))
      decreases |pairs| - i
    {
      var p := pairs[i..Min(i + 2, |pairs|)];
      var v := B64PairToInt(p);
      if v.Err? {
        assert pairs[i..][..Min(2, |pairs| - i)] == p;
        PairsToIntsFails(pairs[i..], ret);
        return Err(v.error);
      }
      PairsToIntsStep(pairs, i, ret, v.value);
      ret := ret + [v.value];
      i := i + 2;
    }
    assert pairs[Min(i, |pairs|)..] == [];
    assert ret + [] == ret;
    r := Ok(ret);
  }

  lemma ThenNothing(r: Result<seq<int>, PyError>)
    ensures Then([], r) == r
  {
    if r.Ok? {
      assert [] + r.value == r.value;
    }
  }

  /** An exception from the next pair is the exception of the whole reading. */
  lemma PairsToIntsFails(t: string, ret: seq<int>)
    requires t != [] && B64PairToInt(t[..Min(2, |t|)]).Err?
    ensures Then(ret, PairsToInts(t)) == Err(B64PairToInt(t[..Min(2, |t|)]).error)
  {
  }

  /** One iteration of `b64_pairs_to_ints` keeps the reading of the whole string. */
  lemma PairsToIntsStep(pairs: string, i: nat, ret: seq<int>, v: int)
    requires i < |pairs| && B64PairToInt(pairs[i..Min(i + 2, |pairs|)]) == Ok(v)
    ensures Then(ret, PairsToInts(pairs[i..])) == Then(ret + [v], PairsToInts(pairs[Min(i + 2, |pairs|)..]))
  {
    var t := pairs[i..];
    assert t[..Min(2, |t|)] == pairs[i..Min(i + 2, |pairs|)];
    assert t[Min(2, |t|)..] == pairs[Min(i + 2, |pairs|)..];
    PairsToIntsCons(t, v);
    ThenThen(ret, [v], PairsToInts(t[Min(2, |t|)..]));
  }

  lemma PairsToIntsCons(t: string, v: int)
    requires t != [] && B64PairToInt(t[..Min(2, |t|)]) == Ok(v)
    ensures PairsToInts(t) == Then([v], PairsToInts(t[Min(2, |t|)..]))
  {
  }

  lemma ThenThen(a: seq<int>, b: seq<int>, r: Result<seq<int>, PyError>)
    ensures Then(a, Then(b, r)) == Then(a + b, r)
  {
    if r.Ok? {
      assert a + (b + r.value) == a + b + r.value;
    }
  }

  /** The reading of two texts one after the other, the first of even length and read without exception. */
  lemma {:induction false} PairsToIntsAppend(a: string, b: string, va: seq<int>)
    requires |a| == 2 * |va| && PairsToInts(a) == Ok(va)
    ensures PairsToInts(a + b) == Then(va, PairsToInts(b))
    decreases |a|
  {
    if a == [] {
      assert a + b == b;
      ThenNothing(PairsToInts(b));
    } else {
      var ab := a + b;
      assert ab[..Min(2, |ab|)] == a[..Min(2, |a|)];
      assert ab[Min(2, |ab|)..] == a[Min(2, |a|)..] + b;
      var v := B64PairToInt(a[..2]).value;
      var w := PairsToInts(a[2..]).value;
      assert va == [v] + w;
      PairsToIntsAppend(a[2..], b, w);
      PairsToIntsCons(ab, v);
      ThenThen([v], w, PairsToInts(b));
    }
  }

  /** A pair written n times reads back as its value n times. */
  lemma {:induction false} PairsToIntsRepeat(p: string, n: nat)
    requires IsPair(p)
    ensures PairsToInts(RepeatText(p, n)) == Ok(Repeat(PairValue(p), n))
  {
    if n > 0 {
      PairsToIntsRepeat(p, n - 1);
      PairsToIntsAppend(RepeatText(p, n - 1), p, Repeat(PairValue(p), n - 1));
      PairsToIntsOne(p);
    }
  }

  lemma PairsToIntsOne(p: string)
    requires IsPair(p)
    ensures PairsToInts(p) == Ok([PairValue(p)])
  {
    B64PairToIntOfPair(p);
    assert p[..Min(2, |p|)] == p && p[2..] == [];
    PairsToIntsCons(p, PairValue(p));
    assert [PairValue(p)] + [] == [PairValue(p)];
  }

  /** `s.split('#')`: the pieces between separators, one more than there are separators. */
  function Split(s: string): (parts: seq<string>)
    ensures |parts| >= 1
    ensures forall i :: 0 <= i < |parts| ==> '#' !in parts[i]
    decreases |s|
  {
    if s == [] then [""]
    else
      var rest := Split(s[1..]);
      if s[0] == '#' then [""] + rest
      else [[s[0]] + rest[0]] + rest[1..]
  }

  /** `'#'.join(parts)`. */
  function Join(parts: seq<string>): string
    requires |parts| >= 1
    decreases |parts|
  {
    if |parts| == 1 then parts[0] else parts[0] + "#" + Join(parts[1..])
  }

  /** Joining the pieces of a split gives back the text. */
  lemma {:induction false} JoinSplit(s: string)
    ensures Join(Split(s)) == s
    decreases |s|
  {
    if s != [] {
      JoinSplit(s[1..]);
      var rest := Split(s[1..]);
      if s[0] == '#' {
        assert ([""] + rest)[1..] == rest;
        assert s == [s[0]] + s[1..];
      } else {
        var parts := [[s[0]] + rest[0]] + rest[1..];
        if |rest| == 1 {
          assert s == [s[0]] + s[1..];
        } else {
          assert parts[1..] == rest[1..];
          assert Join(rest) == rest[0] + "#" + Join(rest[1..]);
          assert s == [s[0]] + s[1..];
        }
      }
    }
  }

  /** Text without a separator is one piece. */
  lemma {:induction false} SplitPlain(a: string)
    requires '#' !in a
    ensures Split(a) == [a]
    decreases |a|
  {
    if a != [] {
      SplitPlain(a[1..]);
      assert [a[0]] + a[1..] == a;
    }
  }

  /** Text without a separator, then a separator: one piece, then the pieces of the rest. */
  lemma {:induction false} SplitSep(a: string, t: string)
    requires '#' !in a
    ensures Split(a + "#" + t) == [a] + Split(t)
    decreases |a|
  {
    var s := a + "#" + t;
    if a == [] {
      assert s[0] == '#' && s[1..] == t;
    } else {
      assert s[0] == a[0] && s[1..] == a[1..] + "#" + t;
      SplitSep(a[1..], t);
      assert [a[0]] + a[1..] == a;
    }
  }

  /** Splitting the join of pieces without separators gives back the pieces. */
  lemma {:induction false} SplitJoin(parts: seq<string>)
    requires |parts| >= 1 && forall i :: 0 <= i < |parts| ==> '#' !in parts[i]
    ensures Split(Join(parts)) == parts
    decreases |parts|
  {
    if |parts| == 1 {
      SplitPlain(parts[0]);
    } else {
      SplitJoin(parts[1..]);
      SplitSep(parts[0], Join(parts[1..]));
      assert [parts[0]] + parts[1..] == parts;
    }
  }

  /** `int(run)` on an optionally signed decimal numeral; anything else raises ValueError. */
  function ParseInt(s: string): (r: Result<int, PyError>)
    ensures r.Ok? <==> (|s| >= 1 && AllDigits(s)) || (|s| >= 2 && (s[0] == '-' || s[0] == '+') && AllDigits(s[1..]))
  {
    if |s| >= 1 && AllDigits(s) then Ok(DigitsValue(s))
    else if |s| >= 2 && (s[0] == '-' || s[0] == '+') && AllDigits(s[1..]) then
      Ok(if s[0] == '-' then -DigitsValue(s[1..]) else DigitsValue(s[1..]))
    else Err(ValueError)
  }

  /** `int` reads back the decimal text of a count. */
  lemma ParseIntOfNat(n: nat)
    ensures ParseInt(NatToString(n)) == Ok(n)
  {
  }

  /** `[x] * n`: no copies when n is zero or negative. */
  function Copies(x: int, n: int): (r: seq<int>)
    ensures |r| == if n > 0 then n else 0
  {
    if n > 0 then Repeat(x, n) else []
  }

  /**
   * The `range(0, len(parts), 2)` loop of `pitch_string_to_cents` from `out`:
   * a chunk of two decodes its pairs, then appends `[out[-1]] * (int(run) - 1)`
   * (`out[-1]` is evaluated before `int(run)`); a last chunk of one only decodes.
   */
  function DecodeChunks(parts: seq<string>, out: seq<int>): (r: Result<seq<int>, PyError>)
    ensures r.Ok? ==> out <= r.value
    decreases |parts|
  {
    if parts == [] then Ok(out)
    else
      match PairsToInts(parts[0])
      case Err(e) => Err(e)
      case Ok(vs) =>
        var o := out + vs;
        if |parts| == 1 then Ok(o)
        else if o == [] then Err(IndexError)
        else
          match ParseInt(parts[1])
          case Err(e) => Err(e)
          case Ok(k) => DecodeChunks(parts[2..], o + Copies(o[|o| - 1], k - 1))
  }

  /** `pitch_string_to_cents` as a function of the text. */
  function Decode(s: string): (r: Result<seq<int>, PyError>)
    ensures r.Ok? ==> AllInRange12(r.value)
  {
    DecodeChunksInRange(Split(s), []);
    DecodeChunks(Split(s), [])
  }

  /** Every value a successful decoding produces is a 12-bit offset or a copy of one. */
  lemma {:induction false} DecodeChunksInRange(parts: seq<string>, out: seq<int>)
    requires AllInRange12(out)
    ensures DecodeChunks(parts, out).Ok? ==> AllInRange12(DecodeChunks(parts, out).value)
    decreases |parts|
  {
    if parts != [] && PairsToInts(parts[0]).Ok? {
      var o := out + PairsToInts(parts[0]).value;
      assert AllInRange12(o);
      if |parts| >= 2 && o != [] && ParseInt(parts[1]).Ok? {
        var k := ParseInt(parts[1]).value;
        DecodeChunksInRange(parts[2..], o + Copies(o[|o| - 1], k - 1));
      }
    }
  }

  /** `pitch_string_to_cents`: split on `#`, then the loop over chunks of two parts. */
  method PitchStringToCents(s: string) returns (r: Result<seq<int>, PyError>)
    ensures r == Decode(s)
  {
    var parts := Split(s);
    var out: seq<int> := [];
    var i := 0;
    assert parts[Min(i, |parts|)..] == parts;
    while i < |parts|
      invariant 0 <= i && (i <= |parts| || i == |parts| + 1)
      invariant DecodeChunks(parts[Min(i, |parts|)..], out) == Decode(s)
      decreases |parts| - i
    {
      var chunk := parts[i..Min(i + 2, |parts|)];
      ghost var rest := parts[Min(i + 2, |parts|)..];
      assert chunk + rest == parts[i..];
      var next := DecodeChunk(chunk, out, rest);
      if next.Err? {
        return next;
      }
      out := next.value;
      i := i + 2;
    }
    assert parts[Min(i, |parts|)..] == [];
    r := Ok(out);
  }

  /**
   * One pass of the loop of `pitch_string_to_cents` on the chunk `parts[i:i+2]`:
   * the error that ends the decoding, or the list of values after the chunk.
   */
  method DecodeChunk(chunk: seq<string>, out: seq<int>, ghost rest: seq<string>) returns (r: Result<seq<int>, PyError>)
    requires 1 <= |chunk| <= 2 && (|chunk| == 1 ==> rest == [])
    ensures r.Err? ==> DecodeChunks(chunk + rest, out) == r
    ensures r.Ok? ==> DecodeChunks(chunk + rest, out) == DecodeChunks(rest, r.value)
  {
    var parts := chunk + rest;
    assert parts[0] == chunk[0];
    var vs := B64PairsToInts(chunk[0]);
    if vs.Err? {
      return Err(vs.error);
    }
    var o := out + vs.value;
    if |chunk| == 1 {
      assert parts == chunk;
      return Ok(o);
    }
    if o == [] {
      return Err(IndexError);
    }
    var k := ParseInt(chunk[1]);
    if k.Err? {
      return Err(k.error);
    }
    assert parts[1] == chunk[1] && parts[2..] == rest;
    r := Ok(o + Copies(o[|o| - 1], k.value - 1));
  }

  /** `int_to_b64_pair`: `anti_b64[x >> 6] + anti_b64[x & 0x3F]` after `x = s12_to_u12(x)`. */
  function IntToB64Pair(x: int): (p: string)
    ensures IsPair(p)
  {
    var u := S12ToU12(x);
    B64ToIOfIToB64(u / 64);
    B64ToIOfIToB64(u % 64);
    [AntiB64Dict()[u / 64]] + [AntiB64Dict()[u % 64]]
  }

  /** The Python pair of a value is the C++ pair of it, for every int. */
  lemma IntToB64PairIsPair(x: int)
    ensures IntToB64Pair(x) == Pair(x)
  {
    AlphabetByRanges();
    var u := x % 4096;
    assert Alphabet[u / 64] == IToB64(u / 64) && Alphabet[u % 64] == IToB64(u % 64);
  }

  /** `cents_to_pitch_string`: pairs by comprehension, then one pass counting equal neighbours. */
  method CentsToPitchString(x: seq<int>) returns (r: Result<string, PyError>)
    ensures r == if x == [] then Err(IndexError) else Ok(Encoding(x, Threshold))
  {
    var outStr := "";
    var cnt := 1;
    var pairs := seq(|x|, i requires 0 <= i < |x| => IntToB64Pair(x[i]));
    PythonPairs(x, pairs);
    if |pairs| == 0 {
      return Err(IndexError);
    }
    var lastPair := pairs[0];
    ghost var done: seq<Run<string>> := [];
    assert pairs[..1] == [pairs[0]];
    RunsSingleton(lastPair);
    for i := 1 to |pairs|
      invariant cnt >= 1
      invariant Runs(pairs[..i]) == done + [Run(lastPair, cnt)]
      invariant outStr == EmitAll(done, Threshold)
    {
      var pair := pairs[i];
      TakeSnoc(pairs, i);
      RunsSnoc(pairs[..i], done, Run(lastPair, cnt), pair);
      if pair == lastPair {
        cnt := cnt + 1;
      } else {
        EmitAllSnoc(done, Run(lastPair, cnt), Threshold);
        outStr := AppendRun(outStr, lastPair, cnt);
        done := done + [Run(lastPair, cnt)];
        cnt := 1;
        lastPair := pair;
      }
    }
    EmitAllSnoc(done, Run(lastPair, cnt), Threshold);
    outStr := AppendRun(outStr, lastPair, cnt);
    assert pairs[..|pairs|] == pairs;
    r := Ok(outStr);
  }

  /** The text of one run, as both places in `cents_to_pitch_string` append it: `last_pair * cnt` or `f"{last_pair}#{cnt}#"`. */
  method AppendRun(outStr: string, lastPair: string, cnt: nat) returns (o: string)
    ensures o == outStr + EmitRun(Run(lastPair, cnt), Threshold)
  {
    if cnt < 6 {
      o := outStr + RepeatText(lastPair, cnt);
    } else {
      o := outStr + (lastPair + "#" + NatToString(cnt) + "#");
    }
  }

  lemma PythonPairs(x: seq<int>, pairs: seq<string>)
    requires |pairs| == |x| && forall i :: 0 <= i < |x| ==> pairs[i] == IntToB64Pair(x[i])
    ensures pairs == Pairs(x)
  {
    forall i | 0 <= i < |x|
      ensures pairs[i] == Pairs(x)[i]
    {
      IntToB64PairIsPair(x[i]);
    }
  }

  /**
   * Decoding the text of pair runs after a pending literal text of pairs, from
   * `out`: the pending values, then every run's value count times.
   */
  lemma {:induction false} DecodeEmitAll(pending: string, pv: seq<int>, rs: seq<Run<string>>, out: seq<int>)
    requires '#' !in pending && |pending| == 2 * |pv| && PairsToInts(pending) == Ok(pv)
    requires PairRuns(rs)
    ensures DecodeChunks(Split(pending + EmitAll(rs, Threshold)), out) == Ok(out + pv + RunValues(rs))
    decreases |rs|, 1
  {
    if rs == [] {
      assert pending + EmitAll(rs, Threshold) == pending;
      SplitPlain(pending);
      assert out + pv + [] == out + pv;
    } else if rs[0].count < Threshold {
      DecodeShortRun(pending, pv, rs, out);
    } else {
      DecodeLongRun(pending, pv, rs, out);
    }
  }

  /** A first run written pair by pair joins the pending text. */
  lemma DecodeShortRun(pending: string, pv: seq<int>, rs: seq<Run<string>>, out: seq<int>)
    requires '#' !in pending && |pending| == 2 * |pv| && PairsToInts(pending) == Ok(pv)
    requires PairRuns(rs) && rs != [] && rs[0].count < Threshold
    ensures DecodeChunks(Split(pending + EmitAll(rs, Threshold)), out) == Ok(out + pv + RunValues(rs))
    decreases |rs|, 0
  {
    var r := rs[0];
    ShortRunText(pending, rs);
    FirstRunValues(out, pv, rs);
    PendingLiteral(pending, pv, r.item, r.count);
    DecodeEmitAll(pending + RepeatText(r.item, r.count), pv + Repeat(PairValue(r.item), r.count), rs[1..], out);
  }

  /** The text of a short first run joins the pending text. */
  lemma ShortRunText(pending: string, rs: seq<Run<string>>)
    requires rs != [] && rs[0].count < Threshold
    ensures pending + EmitAll(rs, Threshold) == (pending + RepeatText(rs[0].item, rs[0].count)) + EmitAll(rs[1..], Threshold)
  {
    var lit, tail := RepeatText(rs[0].item, rs[0].count), EmitAll(rs[1..], Threshold);
    assert EmitAll(rs, Threshold) == lit + tail;
  }

  /** The values of the first run, regrouped around the values of the rest. */
  lemma FirstRunValues(out: seq<int>, pv: seq<int>, rs: seq<Run<string>>)
    requires PairRuns(rs) && rs != []
    ensures PairRuns(rs[1..]) && IsPair(rs[0].item)
    ensures out + (pv + Repeat(PairValue(rs[0].item), rs[0].count)) + RunValues(rs[1..]) == out + pv + RunValues(rs)
    ensures out + pv + Repeat(PairValue(rs[0].item), rs[0].count) + [] + RunValues(rs[1..]) == out + pv + RunValues(rs)
  {
    var r, rest := rs[0], rs[1..];
    assert rs == [r] + rest;
    RunValuesCons(r, rest);
    Regroup(out, pv, Repeat(PairValue(r.item), r.count), RunValues(rest));
  }

  lemma Regroup(out: seq<int>, pv: seq<int>, rep: seq<int>, rv: seq<int>)
    ensures out + (pv + rep) + rv == out + pv + (rep + rv)
    ensures out + pv + rep + [] + rv == out + pv + (rep + rv)
  {
  }

  /** A first run written `pair#count#` ends the pending text and the chunk. */
  lemma DecodeLongRun(pending: string, pv: seq<int>, rs: seq<Run<string>>, out: seq<int>)
    requires '#' !in pending && |pending| == 2 * |pv| && PairsToInts(pending) == Ok(pv)
    requires PairRuns(rs) && rs != [] && rs[0].count >= Threshold
    ensures DecodeChunks(Split(pending + EmitAll(rs, Threshold)), out) == Ok(out + pv + RunValues(rs))
    decreases |rs|, 0
  {
    var r := rs[0];
    var tail := EmitAll(rs[1..], Threshold);
    LongRunText(pending, rs);
    FirstRunValues(out, pv, rs);
    DecodeMarker(pending, pv, r, tail, out);
    PairsToIntsNothing();
    DecodeEmitAll([], [], rs[1..], out + pv + Repeat(PairValue(r.item), r.count));
  }

  /** The text of a long first run, regrouped around the text of the rest. */
  lemma LongRunText(pending: string, rs: seq<Run<string>>)
    requires rs != [] && rs[0].count >= Threshold
    ensures pending + EmitAll(rs, Threshold)
         == pending + (rs[0].item + "#" + NatToString(rs[0].count) + "#") + EmitAll(rs[1..], Threshold)
    ensures [] + EmitAll(rs[1..], Threshold) == EmitAll(rs[1..], Threshold)
  {
    var mark, tail := rs[0].item + "#" + NatToString(rs[0].count) + "#", EmitAll(rs[1..], Threshold);
    assert EmitAll(rs, Threshold) == mark + tail;
  }

  lemma PairsToIntsNothing()
    ensures PairsToInts([]) == Ok([])
  {
  }

  /** A short run joins the pending literal text. */
  lemma PendingLiteral(pending: string, pv: seq<int>, p: string, n: nat)
    requires '#' !in pending && |pending| == 2 * |pv| && PairsToInts(pending) == Ok(pv)
    requires IsPair(p)
    ensures '#' !in pending + RepeatText(p, n) && |pending + RepeatText(p, n)| == 2 * |pv + Repeat(PairValue(p), n)|
    ensures PairsToInts(pending + RepeatText(p, n)) == Ok(pv + Repeat(PairValue(p), n))
  {
    RepeatTextNoMarker(p, n);
    NoMarkerAppend(pending, RepeatText(p, n));
    PairsToIntsRepeat(p, n);
    PairsToIntsAppend(pending, RepeatText(p, n), pv);
  }

  /** A compressed run after the pending text: one chunk of two parts, then the parts of what follows. */
  lemma DecodeMarker(pending: string, pv: seq<int>, r: Run<string>, tail: string, out: seq<int>)
    requires '#' !in pending && |pending| == 2 * |pv| && PairsToInts(pending) == Ok(pv)
    requires IsPair(r.item) && r.count >= 1
    ensures DecodeChunks(Split(pending + (r.item + "#" + NatToString(r.count) + "#") + tail), out)
         == DecodeChunks(Split(tail), out + pv + Repeat(PairValue(r.item), r.count))
  {
    var a, digits := pending + r.item, NatToString(r.count);
    var v := PairValue(r.item);
    SymbolNotMarker(r.item);
    DigitsNoMarker(digits);
    assert pending + (r.item + "#" + digits + "#") + tail == a + "#" + digits + "#" + tail;
    SplitMarker(a, digits, tail);
    PairsToIntsOne(r.item);
    PairsToIntsAppend(pending, r.item, pv);
    ParseIntOfNat(r.count);
    DecodeChunkPair(a, digits, Split(tail), out, pv + [v], r.count);
    CopiesOfLast(out, pv, v, r.count);
  }

  lemma DigitsNoMarker(digits: string)
    requires AllDigits(digits)
    ensures '#' !in digits
  {
    assert forall i :: 0 <= i < |digits| ==> IsDigit(digits[i]);
  }

  /** A pair run marker splits into the pairs part and the count part. */
  lemma SplitMarker(a: string, digits: string, tail: string)
    requires '#' !in a && '#' !in digits
    ensures Split(a + "#" + digits + "#" + tail) == [a, digits] + Split(tail)
  {
    assert a + "#" + digits + "#" + tail == a + "#" + (digits + "#" + tail);
    SplitSep(a, digits + "#" + tail);
    SplitSep(digits, tail);
  }

  /** One chunk of two parts: the pairs, then the copies of the last value. */
  lemma DecodeChunkPair(a: string, digits: string, rest: seq<string>, out: seq<int>, va: seq<int>, k: int)
    requires PairsToInts(a) == Ok(va) && out + va != [] && ParseInt(digits) == Ok(k)
    ensures DecodeChunks([a, digits] + rest, out)
         == DecodeChunks(rest, out + va + Copies((out + va)[|out + va| - 1], k - 1))
  {
    var parts := [a, digits] + rest;
    assert parts[0] == a && parts[1] == digits && parts[2..] == rest;
  }

  lemma CopiesOfLast(out: seq<int>, pv: seq<int>, v: int, n: nat)
    requires n >= 1
    ensures out + (pv + [v]) + Copies((out + (pv + [v]))[|out + (pv + [v])| - 1], n - 1) == out + pv + Repeat(v, n)
  {
    RepeatCons(v, n);
    assert (out + (pv + [v]))[|out + (pv + [v])| - 1] == v;
  }

  lemma NoMarkerAppend(a: string, b: string)
    requires '#' !in a && '#' !in b
    ensures '#' !in a + b
  {
  }

  lemma SymbolNotMarker(p: string)
    requires IsPair(p)
    ensures '#' !in p
  {
  }

  lemma {:induction false} RepeatTextNoMarker(p: string, n: nat)
    requires IsPair(p)
    ensures '#' !in RepeatText(p, n) && |RepeatText(p, n)| == 2 * n
  {
    if n > 0 {
      RepeatTextNoMarker(p, n - 1);
    }
  }

  /** `pitch_string_to_cents(cents_to_pitch_string(x)) == x` for every non-empty list of 12-bit offsets. */
  lemma RoundTrip(x: seq<int>)
    requires AllInRange12(x)
    ensures Decode(Encoding(x, Threshold)) == Ok(x)
  {
    var rs := Runs(Pairs(x));
    EncodingValues(x);
    assert PairsToInts("") == Ok([]);
    DecodeEmitAll("", [], rs, []);
    assert "" + EmitAll(rs, Threshold) == Encoding(x, Threshold);
    assert [] + [] + RunValues(rs) == x;
  }
}
