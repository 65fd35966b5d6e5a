# 31TETo: pitch-bend codec, note names, scale index and parsers

31TETo sits between a singing synthesizer and a resampler and retunes every note
to a microtonal scale. The resampler receives the note's pitch bend as a compact
text. Each control point is a signed 12-bit cent offset, written as two base64
symbols: the high six bits first, then the low six. A run of equal symbol pairs
may be written once, followed by `#count#`. This project models that code and
the small integer parsers around it in three revisions of the program:

- `cpp/31TETo.cpp`. Its decoder is a three-state automaton that resets its
  repeat count after every run marker. Its encoder compresses runs of two or
  more equal values.
- `31TETo.cpp`. Its decoder is the same automaton, except that the repeat count
  is never reset. Its encoder compresses runs of six or more.
- `fakesampler.py`. Its decoder splits the text on `#`. Its encoder compresses
  runs of six or more. Raised exceptions become `Err` values.

Around the codec the project models these pieces:

- `note_to_midi`, `midi_to_note`, `midi_to_cents`, `WRAPPED_MOD` and the
  `Config` and `Flags` classes of `cpp/31TETo.cpp`.
- `midi_to_cents_12edo` and `Config::scl` of `31TETo.cpp`.
- `_init_b64`, `floats_to_ints` and the integer part of
  `flags_to_new_flags_and_detune` of `fakesampler.py`.

How the model is organised:

- Each decoder is a `Step` function folded over the text, and a `method` with a
  loop is proved equal to that fold.
- The encoders are loops proved equal to `Encoding(xs, threshold)`. That
  function writes the maximal runs of the values' pairs (`PitchCode.Runs`, with
  `RunsCorrect` and `RunsUnique`) at the revision's threshold.
- The class-based parsers (`Config`, `Flags`) are Dafny classes whose
  constructors fill map fields with the loops of the source. Each is proved
  equal to a fold of a `Step` function, and the lemmas state what that fold
  does to the maps.

How undefined behaviour and bounded integers are modelled:

- Where the C++ code has undefined behaviour, the model returns `None` or
  `Undefined`. The cases are:
  - reading `out.back()` of an empty vector;
  - reading past a name's terminating NUL;
  - an uninitialised `n` in `note_to_midi`;
  - `Scale.back()` or a division by zero in `scl`;
  - `pairs[0]` of an empty vector in both C++ encoders. This one is excluded
    by a precondition instead (see "## Left out").
- Inputs of the C++ table lookups are restricted to 7-bit characters, so a
  signed `char` index is never negative.
- 16-bit words (`uint16_t`, `int16_t`) are written out with `% 65536` and an
  explicit sign extension.
- C++ division and remainder are modelled as truncating (`CArith.CDiv`,
  `CArith.CRem`). Python's `&` and the `u12_to_s12` test are written on
  unbounded integers.

`note_to_midi` is the same text in both C++ revisions and is modelled once. The
`b64_to_i` table is built by the same `make_b64_table` in both revisions
(`cpp/31TETo.cpp:69-83`, `31TETo.cpp:215-229`), so all 256 entries agree; the
decoders read it at every byte, `#` and bytes outside the alphabet included. The
`i_to_b64` literals (`[65]` at `cpp/31TETo.cpp:85`, `[256]` at `31TETo.cpp:231`)
agree on entries 0..63, the only ones the encoders read. `Base64` models both
tables once.

In a few places the code does not do what its own text shows was meant. The
model follows the code, and the Findings table pairs each as-written member
with a corrected one:

- The comments `// A-1`, `// A#-1` and `// A#1` in `note_to_midi`
  (`cpp/31TETo.cpp:100`, `:108`, `:113`) and the `names` table of
  `midi_to_note` (`cpp/31TETo.cpp:130`) spell sharps and octave -1. Yet the
  code ignores the `#`, and reads the octave of "A-1" from the terminating NUL.
- `midi_to_note` writes octave `midi / 12 - 2` (`cpp/31TETo.cpp:135`). But
  `note_to_midi` reads "A4" as 69, the reference note of `cents_to_midi`
  (`cpp/31TETo.cpp:528`).
- The `cpp/` revision sets `reps = 0` after copying a run
  (`cpp/31TETo.cpp:469`). The root revision does not (`31TETo.cpp:262-268`).
- The comment of `flags_to_new_flags_and_detune` (`fakesampler.py:144`) says
  the function gets the value of the `Z` flag. Yet the sign it applies is the
  one left by the last flag, whichever flag that is.

A letter outside C..B and a name too short for the `s[3]` read are undefined
behaviour and give `None`. "A" and "A#" read the NUL as a digit, as the code
does.

## Model

| member | source | states |
|---|---|---|
| Base64.AlphabetByRanges | cpp/31TETo.cpp:85 | the literal `i_to_b64` has 64 symbols, and symbol k is the k-th of A–Z, a–z, 0–9, `+`, `/` |
| Base64.B64ToI | cpp/31TETo.cpp:69-81 | every entry of `make_b64_table` is either below 64 or 255, and an entry below 64 is the index of the symbol that is that byte |
| Base64.MakeB64Table | cpp/31TETo.cpp:69-81 | the loop over 256 bytes produces the table whose entry i is `B64ToI(i)` |
| Base64.B64ToIOfAlphabet | cpp/31TETo.cpp:69-85 | `b64_to_i[i_to_b64[k]] == k` for every k < 64 |
| Base64.AlphabetOfB64ToI | 31TETo.cpp:215-231 | `i_to_b64[b64_to_i[c]] == c` whenever the entry is below 64: the two tables are inverse on the alphabet |
| Base64.SymbolIff | 31TETo.cpp:215-231 | a byte is one of the 64 symbols exactly when its entry is below 64; every other byte maps to 255 |
| Base64.B64ToIOfIToB64 | 31TETo.cpp:215-224 | the table maps the k-th symbol, by ranges, back to k |
| CArith.CDiv | cpp/31TETo.cpp:135 | C++ `/` rounds toward zero: the remainder lies strictly inside the divisor's magnitude and has the dividend's sign |
| CArith.CRem | cpp/31TETo.cpp:23 | C++ `%`: magnitude below the divisor's, sign of the dividend, and `a == b * (a / b) + a % b` |
| CArith.WrappedMod | cpp/31TETo.cpp:23 | `WRAPPED_MOD(a, b)` lies in [0, b) for b > 0, and in (b, 0] for b < 0 |
| CArith.WrappedModIsMod | cpp/31TETo.cpp:23 | for b > 0, `WRAPPED_MOD(a, b)` equals the mathematical (Euclidean) residue, negative a included |
| CText.CString | cpp/31TETo.cpp:444 | `while (in[i])` visits exactly the prefix before the first NUL |
| CText.NatToString | cpp/31TETo.cpp:512 | `std::to_string` of a count is at least one decimal digit, without a leading zero, and spells the count |
| CText.IntToString | cpp/31TETo.cpp:135 | `std::to_string` of an int starts with `-` exactly when the int is negative |
| CText.AccumulateShift | cpp/31TETo.cpp:472 | `reps = reps * 10 + c - '0'` over digits shifts the value already held by one decimal place per digit, then adds the digits' value |
| CText.AccumulateAppend | cpp/31TETo.cpp:472 | accumulating over two texts in a row accumulates over the second from where the first left off |
| CText.RepeatText | cpp/31TETo.cpp:510 | appending a pair n times gives n times its length |
| PitchCode.SignExtend12 | cpp/31TETo.cpp:458 | the two's-complement reading of a 12-bit field lies in [-2048, 2047] and agrees with the field mod 4096 |
| PitchCode.ShiftSignExtend | cpp/31TETo.cpp:457-458 | `(int16_t)(val << 4) >> 4` on a 16-bit word is the sign extension of its low 12 bits |
| PitchCode.Pair | cpp/31TETo.cpp:490-498 | every value, in range or not, becomes two alphabet symbols |
| PitchCode.PairValue | cpp/31TETo.cpp:455-461 | the value read back from any pair of symbols lies in [-2048, 2047] |
| PitchCode.PairValueOfPair | cpp/31TETo.cpp:455-498 | encoding a value in [-2048, 2047] as a pair and reading the pair back gives the value |
| PitchCode.PairOfPairValue | cpp/31TETo.cpp:455-498 | reading a pair and encoding its value gives the same pair: on 12-bit values pairs and values are a bijection |
| PitchCode.PairWord | cpp/31TETo.cpp:455-461 | `(hi << 6) + lo` of two symbols fits in 12 bits, and the pushed value is the pair's value |
| PitchCode.Repeat | cpp/31TETo.cpp:467-468 | n copies of one element have length n, and each of them is that element |
| PitchCode.AddItem | cpp/31TETo.cpp:502-517 | a counting step leaves a non-empty run list ending in the new item, with at most one run more |
| PitchCode.Runs | cpp/31TETo.cpp:500-522 | the run list of a non-empty sequence ends in a run of its last element and is never longer than the sequence |
| PitchCode.RunsSnoc | cpp/31TETo.cpp:503-516 | one more item either lengthens the last run (`cnt++`) or closes it and opens a run of one |
| PitchCode.RunsExpand | cpp/31TETo.cpp:500-522 | the counted runs expand back to the sequence |
| PitchCode.RunsMaximal | cpp/31TETo.cpp:502-517 | the counted runs are non-empty, and no two neighbours hold the same item |
| PitchCode.RunsCorrect | cpp/31TETo.cpp:500-522 | the counted runs are a maximal run list expanding to the sequence |
| PitchCode.RunsUnique | cpp/31TETo.cpp:500-522 | any maximal run list is the one the loop counts for its expansion, so the run decomposition is unique |
| PitchCode.RunsAppendBlock | cpp/31TETo.cpp:502-517 | a block of c copies of an item different from the last adds exactly one run of count c |
| PitchCode.BlockRuns | cpp/31TETo.cpp:502-517 | two blocks of different items are exactly two runs |
| PitchCode.EmitAllAppend | cpp/31TETo.cpp:502-522 | the text of consecutive run lists is the concatenation of their texts |
| PitchCode.Pairs | cpp/31TETo.cpp:489-498 | the first loop yields one pair per value, in order |
| PitchCode.PairValuesOfPairs | cpp/31TETo.cpp:455-498 | reading back the pairs of 12-bit values gives the values |
| PitchCode.EncodingRuns | cpp/31TETo.cpp:483-525 | an encoding's runs are non-empty runs of pairs that expand to the pairs of the input |
| PitchCode.EmitAllText | cpp/31TETo.cpp:483-525 | an encoding contains only alphabet symbols, `#` and decimal digits |
| PitchCode.EncodingTextIsCString | cpp/31TETo.cpp:444 | an encoding has no NUL and only 7-bit characters, so a C-string decoder reads all of it |
| PitchCode.RunValuesExpand | cpp/31TETo.cpp:455-498 | the values of pair runs are the values of their expansion |
| PitchCode.EncodingValues | cpp/31TETo.cpp:483-525 | the values carried by the runs of an encoding of 12-bit values are those values, in order |
| PitchCode.RunValuesAppend | cpp/31TETo.cpp:483-525 | the values of consecutive run lists are the concatenation of their values |
| PitchCode.PairsOfBlocks | cpp/31TETo.cpp:489-498 | the pairs of two blocks of equal values are two blocks of equal pairs |
| PitchCode.EmitRun | cpp/31TETo.cpp:509-512 | a short run is its pair repeated, count times the pair's length; a non-empty run's text starts with its pair; a long run is the pair, then `#`, and ends in `#` |
| PitchCode.EmitAll | cpp/31TETo.cpp:502-522 | no runs give no text, and the text of a list of runs starts with its first run's pair |
| PitchCode.Encoding | cpp/31TETo.cpp:483-525 | the encoding is empty exactly when the input is |
| CppCodec.Step | cpp/31TETo.cpp:445-475 | a step is undefined exactly when the machine already was, or when a closing `#` needs `out.back()` of an empty vector with a count above 1; a step only appends to `out` |
| CppCodec.RunFrom | cpp/31TETo.cpp:444-478 | reading a text only appends to the values already decoded |
| CppCodec.Decode | cpp/31TETo.cpp:434-481 | every decoded value lies in [-2048, 2047]; an empty C string decodes to the empty sequence |
| CppCodec.RunFromInRange | cpp/31TETo.cpp:455-461 | whatever the input, even bytes outside the alphabet, the decoder appends only sign-extended 12-bit values |
| CppCodec.RunFromUndefined | cpp/31TETo.cpp:467-468 | once `out.back()` has been read from an empty vector, the rest of the decoding is undefined |
| CppCodec.RunFromAppend | cpp/31TETo.cpp:444-478 | decoding two texts in a row is decoding the second from the state the first leaves |
| CppCodec.ReadPair | cpp/31TETo.cpp:447-461 | a pair read in state 1 appends its value and returns to state 1 |
| CppCodec.ReadDigits | cpp/31TETo.cpp:471-473 | digits after `#` accumulate decimally into `reps` |
| CppCodec.MarkerRepeats | cpp/31TETo.cpp:464-470 | a marker `#d#` appends d - 1 copies of the last value and resets `reps` to 0; with count 2 or more and nothing decoded yet, the result is undefined |
| CppCodec.ReadRun | cpp/31TETo.cpp:434-481 | the text of a run, literal or compressed, appends the pair's value count times and leaves `reps` at 0 |
| CppCodec.ReadPairs | cpp/31TETo.cpp:447-461 | a pair written n times appends its value n times |
| CppCodec.ReadRuns | cpp/31TETo.cpp:434-481 | the text of a list of pair runs appends the runs' values in order |
| CppCodec.RoundTrip | cpp/31TETo.cpp:434-525 | decoding the encoding of values in [-2048, 2047] gives them back, at any threshold, including 2 |
| CppCodec.PitchStringToCents | cpp/31TETo.cpp:434-481 | the decoding loop over the C string computes `Decode` |
| CppCodec.PushBackCopies | cpp/31TETo.cpp:467-468 | the copy loop appends n copies of the last value, and is undefined on an empty vector when n > 0 |
| CppCodec.Advance | cpp/31TETo.cpp:445-475 | the `switch (state)` body is one `Step` of the automaton |
| CppCodec.AppendRun | cpp/31TETo.cpp:509-512 | a run under 2 is appended pair by pair, otherwise as `pair#cnt#` |
| CppCodec.PairsOf | cpp/31TETo.cpp:489-498 | the first loop builds `Pairs(xs)` |
| CppCodec.CentsToPitchString | cpp/31TETo.cpp:483-525 | on non-empty input the encoder writes the maximal runs of the pairs at threshold 2 |
| RootCodec.Step | 31TETo.cpp:245-273 | a step is undefined exactly when the machine already was, or when a closing `#` needs `out.back()` of an empty vector with a count above 1; a step only appends to `out` |
| RootCodec.RunFrom | 31TETo.cpp:244-276 | reading a text only appends to the values already decoded |
| RootCodec.Decode | 31TETo.cpp:233-279 | every decoded value lies in [-2048, 2047]; an empty C string decodes to the empty sequence |
| RootCodec.RunFromInRange | 31TETo.cpp:255-258 | whatever the input, the decoder appends only sign-extended 12-bit values |
| RootCodec.RunFromUndefined | 31TETo.cpp:265-266 | once `out.back()` has been read from an empty vector, the rest is undefined |
| RootCodec.RunFromAppend | 31TETo.cpp:244-276 | decoding two texts in a row is decoding the second from the state the first leaves |
| RootCodec.ReadPair | 31TETo.cpp:246-260 | a pair read in state 1 appends its value and leaves `reps` as it was |
| RootCodec.ReadDigits | 31TETo.cpp:269-271 | digits after `#` accumulate onto whatever `reps` already holds |
| RootCodec.MarkerRepeats | 31TETo.cpp:262-272 | a marker `#d#` accumulates d onto the held count k, appends k - 1 copies, and keeps k in `reps` |
| RootCodec.ReadPairs | 31TETo.cpp:246-260 | a pair written n times appends its value n times and keeps `reps` |
| RootCodec.HeldCount | 31TETo.cpp:262-272 | the count acted on is at least both the held and the written count, and exceeds the written one exactly when something was held |
| RootCodec.ReadCompressedRun | 31TETo.cpp:246-272 | a compressed run read with `held` in `reps` repeats its pair `HeldCount(held, count)` times and leaves that in `reps` |
| RootCodec.CompressedCount | 31TETo.cpp:307-320 | the number of runs written as `pair#count#` is at most the number of runs |
| RootCodec.ReadRuns | 31TETo.cpp:233-323 | reading an encoding gives exactly the runs' values while at most one run is compressed and nothing was held in `reps`, and strictly more values in total once a second run is compressed or a count was already held |
| RootCodec.RoundTripIff | 31TETo.cpp:233-323 | decoding the encoding of 12-bit values gives them back exactly when at most one run is 6 or longer |
| RootCodec.SecondCountAppended | 31TETo.cpp:262-268 | after two compressed blocks of different values, the second value comes out `HeldCount(c1, c2)` times instead of c2 |
| RootCodec.TwoRunText | 31TETo.cpp:281-323 | two blocks of 6 or more different values encode as two marker runs in a row, with no NUL |
| RootCodec.TwoBlockRuns | 31TETo.cpp:300-315 | the pairs of two blocks of different values form exactly two runs |
| RootCodec.NoResetCounterexample | 31TETo.cpp:262-268 | six 0s then six 1s encode as `AA#6#AB#6#`, which decodes to six 0s and 66 ones |
| RootCodec.PitchStringToCents | 31TETo.cpp:233-279 | the decoding loop over the C string computes `Decode` |
| RootCodec.Advance | 31TETo.cpp:245-273 | the `switch (state)` body is one `Step` of the automaton without the reset |
| RootCodec.AppendRun | 31TETo.cpp:307-310 | a run under 6 is appended pair by pair, otherwise as `pair#cnt#` |
| RootCodec.CentsToPitchString | 31TETo.cpp:281-323 | on non-empty input the encoder writes the maximal runs of the pairs at threshold 6 |
| PyCodec.B64Dict | fakesampler.py:7-22 | every key of `b64` is the symbol of its value in 0..63, and every one of the 64 symbols is a key |
| PyCodec.B64DictKeys | fakesampler.py:7-22 | `b64` holds exactly the 64 symbols, each with the C++ table's value |
| PyCodec.DictsInverse | fakesampler.py:7-25 | `b64` and `anti_b64` are inverse bijections between the 64 symbols and 0..63, in alphabet order |
| PyCodec.InitB64 | fakesampler.py:12-25 | the loops of `_init_b64` build exactly `b64` and its inverse `anti_b64` |
| PyCodec.FilledDict | fakesampler.py:17-22 | a dictionary holding `+`, `/`, the letters and the digits with the table's values is `b64` |
| PyCodec.AntiOfB64Dict | fakesampler.py:25 | the comprehension `{value: key ...}` over `b64` is `anti_b64` |
| PyCodec.S12ToU12 | fakesampler.py:60-61 | `x & 0xFFF` lies in [0, 4095] and agrees with x mod 4096, for every int |
| PyCodec.U12ToS12 | fakesampler.py:29-30 | `u12_to_s12` keeps the value mod 4096, and maps 12-bit fields into [-2048, 2047] |
| PyCodec.U12ToS12Range | fakesampler.py:29-30 | on [0, 4095], `u12_to_s12` is the two's-complement reading, onto [-2048, 2047] |
| PyCodec.S12OfU12 | fakesampler.py:60-61 | `s12_to_u12` undoes `u12_to_s12` on 12-bit fields |
| PyCodec.U12OfS12 | fakesampler.py:29-30 | `u12_to_s12` undoes `s12_to_u12` on [-2048, 2047] |
| PyCodec.B64PairToInt | fakesampler.py:32-33 | a pair reads without exception exactly when it has two characters that are symbols, and its value is then 12-bit |
| PyCodec.B64PairToIntError | fakesampler.py:32-33 | a non-symbol raises KeyError (the first character is looked up first), and a lone symbol raises IndexError |
| PyCodec.B64PairToIntOfPair | fakesampler.py:32-33 | Python reads a pair of symbols as the value the C++ decoders read |
| PyCodec.PairsToInts | fakesampler.py:35-40 | every value of a successful reading is 12-bit |
| PyCodec.PairsToIntsLength | fakesampler.py:35-40 | a successful reading gives one value per two characters, rounding up |
| PyCodec.B64PairsToInts | fakesampler.py:35-40 | the `range(0, len, 2)` loop computes `PairsToInts`, including the first exception |
| PyCodec.PairsToIntsAppend | fakesampler.py:35-40 | reading an even-length prefix and then the rest is reading the concatenation |
| PyCodec.PairsToIntsRepeat | fakesampler.py:35-40 | a pair written n times reads back as its value n times |
| PyCodec.Split | fakesampler.py:45 | `split('#')` gives at least one part, and no part holds a `#` |
| PyCodec.JoinSplit | fakesampler.py:45 | joining the parts with `#` gives back the text |
| PyCodec.SplitJoin | fakesampler.py:45 | splitting the join of `#`-free parts gives back the parts |
| PyCodec.SplitSep | fakesampler.py:45 | text up to the first `#` is the first part |
| PyCodec.ParseInt | fakesampler.py:52 | `int(run)` succeeds on an optionally signed decimal numeral and raises ValueError otherwise |
| PyCodec.ParseIntOfNat | fakesampler.py:82 | `int` reads back the count written by `f"{cnt}"` |
| PyCodec.Copies | fakesampler.py:52 | `[x] * n` has n elements for positive n, and none otherwise |
| PyCodec.DecodeChunks | fakesampler.py:47-54 | a successful chunk loop only appends to the values it started from |
| PyCodec.Decode | fakesampler.py:28-56 | every value of a successful `pitch_string_to_cents` is a 12-bit offset |
| PyCodec.DecodeChunksInRange | fakesampler.py:47-54 | a successful decoding yields only 12-bit values |
| PyCodec.PitchStringToCents | fakesampler.py:28-56 | the chunk loop computes `Decode`, including its exceptions |
| PyCodec.DecodeChunk | fakesampler.py:48-54 | one pass of the chunk loop either raises the decoding's exception or continues with the values after the chunk |
| PyCodec.IntToB64Pair | fakesampler.py:63-65 | `int_to_b64_pair` gives two alphabet symbols for every int |
| PyCodec.IntToB64PairIsPair | fakesampler.py:63-65 | `int_to_b64_pair` gives the same two symbols as the C++ encoders, for every int |
| PyCodec.PythonPairs | fakesampler.py:71 | the list comprehension of pairs is `Pairs(x)` |
| PyCodec.AppendRun | fakesampler.py:79-82 | a run under 6 is appended as `last_pair * cnt`, otherwise as `f"{last_pair}#{cnt}#"` |
| PyCodec.CentsToPitchString | fakesampler.py:58-92 | empty input raises IndexError; otherwise the encoder writes the maximal runs of the pairs at threshold 6 |
| PyCodec.DecodeEmitAll | fakesampler.py:28-92 | splitting the text of pair runs on `#` and decoding it gives the runs' values, after a pending literal text |
| PyCodec.DecodeMarker | fakesampler.py:47-52 | a compressed run is one chunk of two parts that appends its value count times |
| PyCodec.PendingLiteral | fakesampler.py:35-40 | a literal run joins the pending `#`-free text and reads as its value count times |
| PyCodec.RoundTrip | fakesampler.py:28-92 | `pitch_string_to_cents(cents_to_pitch_string(x)) == x` for every non-empty list of 12-bit offsets |
| PyClamp.Trunc | fakesampler.py:101 | `int(f)` rounds toward zero |
| PyClamp.Clamp12 | fakesampler.py:102-111 | the clamped value is 12-bit, and equals i exactly when i was not clipped |
| PyClamp.ClampNearest | fakesampler.py:102-111 | the clamped value is the 12-bit value nearest to i |
| PyClamp.FloatsToInts | fakesampler.py:97-116 | the output has the input's length, keeps its order, holds each value truncated and clamped, and the warning is due exactly when some value was clipped |
| PyFlags.Step | fakesampler.py:150-161 | one pass of the loop keeps the dictionary's invariant (distinct keys in insertion order, `last_c` among them), and the only exception it raises is ValueError |
| PyFlags.Scan | fakesampler.py:150-161 | the scanning loop ends, when it does not raise, in a state meeting that invariant, and otherwise raises ValueError |
| PyFlags.Serialize | fakesampler.py:171-172 | every character of the serialised flags is one of the keys or a digit |
| PyFlags.Without | fakesampler.py:165 | `pop("Z")` removes exactly `Z` from the keys and keeps them distinct |
| PyFlags.FlagsToNewFlagsAndDetune | fakesampler.py:146-174 | the scan, the `pop` and the serialising loop compute `FlagsToNewFlags` |
| PyFlags.ScanChar | fakesampler.py:151-161 | one pass of the loop body is one `Step`, failing exactly where it raises ValueError |
| PyFlags.SerializeLoop | fakesampler.py:171-172 | the `items()` loop writes `Serialize(keys, values)` |
| PyFlags.ScanStops | fakesampler.py:158-159 | once the loop has raised, the rest of the string does not matter |
| PyFlags.ScanKeys | fakesampler.py:151-152 | the dictionary's keys are the letters in the order of their first occurrence |
| PyFlags.ScanLast | fakesampler.py:154 | `last_c` is set exactly when a letter has been seen |
| PyFlags.ScanOkIff | fakesampler.py:150-161 | the loop raises exactly when some character is neither a letter, nor a `-`, nor a digit after some letter |
| PyFlags.LastFlagValue | fakesampler.py:150-161 | after the last letter c, `last_c` is c, c holds the number its digits spell, and `sgn` is -1 exactly when a `-` followed c |
| PyFlags.Untouched | fakesampler.py:150-161 | once another flag has started, a flag's value no longer changes |
| PyFlags.FlagValue | fakesampler.py:150-161 | the value of a flag is the number spelt by the digits after its last occurrence, whatever follows |
| PyFlags.ScanDigits | fakesampler.py:161 | digits accumulate decimally into the last flag and change nothing else |
| PyFlags.ScanSerialize | fakesampler.py:171-172 | scanning a serialisation gives back its keys in order, with their values and a positive sign |
| PyFlags.FlagsToNewFlags | fakesampler.py:146-174 | the new flag string never contains `Z`, and the only exception is ValueError |
| PyFlags.Idempotent | fakesampler.py:146-174 | running the function on its own output returns that output unchanged, with no detune |
| PyFlags.DetuneSignAsWritten | fakesampler.py:163-164 | as written, the detune's sign is the `sgn` after the last letter, whichever flag that letter is |
| PyFlags.SignLost | fakesampler.py:153-164 | in `Z-5g3` the `-` written with Z is lost: the detune comes out positive, while the corrected reading is negative |
| PyFlags.ZSegmentSign | fakesampler.py:155-164 | with the sign taken from Z's own digits, the detune is Z's value with Z's sign, whatever flags follow |
| CppFlags.Step | cpp/31TETo.cpp:415-429 | a step never removes a key; a non-digit becomes `last_c`, is a key, and starts at 0 (also when it already was `last_c`); a digit leaves `last_c` alone |
| CppFlags.ScanFrom | cpp/31TETo.cpp:415-429 | the loop never removes a key, and ends with `last_c` as it started or among the keys |
| CppFlags.FlagMap | cpp/31TETo.cpp:405-431 | no value in the map the constructor builds is negative |
| CppFlags.Setting | cpp/31TETo.cpp:391-403 | a field takes the map's value when its flag is present, and otherwise keeps its default |
| CppFlags.Flags.GetFlags | cpp/31TETo.cpp:391-403 | `get_flags` overwrites each of the four fields exactly when its flag is present, and leaves the map alone |
| CppFlags.Flags.constructor | cpp/31TETo.cpp:405-431 | the fields default to edo -1, center note 69, tuning file -1, resampler 1, and are overwritten by the map the loop builds |
| CppFlags.ScanFromAppend | cpp/31TETo.cpp:415-429 | scanning two strings in a row is scanning the second from the state the first leaves |
| CppFlags.LeadingDigitsIgnored | cpp/31TETo.cpp:423-425 | digits before the first flag change nothing |
| CppFlags.NoNegativeValues | cpp/31TETo.cpp:415-429 | no flag value is ever negative: the `-` branch is never taken, so no sign can be applied |
| CppFlags.FlagDigits | cpp/31TETo.cpp:416-427 | a non-digit and its digits make that character `last_c` and store the number the digits spell |
| CppFlags.FlagValue | cpp/31TETo.cpp:415-429 | a flag's value is the number spelt by the digits after its last occurrence, whatever follows |
| CppFlags.FlagKeys | cpp/31TETo.cpp:416-420 | the map's keys are the non-digit characters of the string, plus the sentinel -1 as soon as there is one |
| CppConfig.Step | cpp/31TETo.cpp:331-383 | a step never removes a key; only a newline in state 4 changes the maps, storing the path under the index in `executables` after `!` and in `tunings` otherwise, leaving the other map alone and resetting the line state |
| CppConfig.ParseFrom | cpp/31TETo.cpp:331-383 | the loop never removes a key from either map |
| CppConfig.Parse | cpp/31TETo.cpp:326-383 | contents without a newline store nothing |
| CppConfig.Config.constructor | cpp/31TETo.cpp:326-383 | the constructor's loop leaves in the two map fields exactly what `Parse(contents)` computes |
| CppConfig.ParseAppend | cpp/31TETo.cpp:331-383 | parsing two texts in a row is parsing the second from the state the first leaves |
| CppConfig.CommitOnlyOnNewline | cpp/31TETo.cpp:357-371 | a path is stored only when a line ends: text without a newline leaves both maps alone |
| CppConfig.LineStartIsReset | cpp/31TETo.cpp:361-371 | at every line start and in every comment, `idx`, `exclaimed` and `fname` are reset |
| CppConfig.CommentText | cpp/31TETo.cpp:345-348 | the text of a comment line is skipped |
| CppConfig.IndexDigits | cpp/31TETo.cpp:350-355 | digits in state 3 accumulate into a multi-digit index |
| CppConfig.QuotedText | cpp/31TETo.cpp:377-382 | characters between quotes are appended to the path |
| CppConfig.RemarkLine | cpp/31TETo.cpp:332-348 | a `#` line leaves the state as it was |
| CppConfig.EntryIndex | cpp/31TETo.cpp:332-355 | an optional `!`, a decimal index and a space set the index and the `!` mark |
| CppConfig.EntryPath | cpp/31TETo.cpp:357-382 | a quoted path and a newline store the path under the index, in `executables` after `!` and in `tunings` otherwise, and reset the line state |
| CppConfig.LineEffect | cpp/31TETo.cpp:331-383 | a well-formed line read from a line start does to the maps exactly what the line says |
| CppConfig.FileEffect | cpp/31TETo.cpp:326-383 | a file of well-formed lines stores every entry's path under its index, later lines overriding earlier ones |
| NoteNaming.NoteToMidi | cpp/31TETo.cpp:87-126 | the name has a defined value exactly when it starts with C..B and, after a `-`, is long enough for the `s[3]` read |
| NoteNaming.NameTable | cpp/31TETo.cpp:130 | every entry of `names` is a natural letter, followed by `#` on the pitch classes a semitone above it |
| NoteNaming.NaturalName | 31TETo.cpp:35-75 | a natural letter and one octave digit give `(octave + 1) * 12 + n`, from 12 (C0) to 131 (B9) |
| NoteNaming.SharpIgnored | cpp/31TETo.cpp:106-118 | as written, "X#d" gives the same index as "Xd" |
| NoteNaming.MinusReadsTerminator | cpp/31TETo.cpp:101-104 | as written, "X-d" reads the terminating NUL as the octave, giving 49 * 12 + n for any digit d ("A-1" is 597) |
| NoteNaming.MidiToNote | cpp/31TETo.cpp:128-137 | the name is at least two characters and starts with a natural letter; that letter's semitone, plus one when a `#` follows it, is `midi mod 12` |
| NoteNaming.NoteText | cpp/31TETo.cpp:128-137 | `midi_to_note` writes the name of `midi mod 12` and then the digit `midi / 12 - 2`, for 24 ≤ midi < 144 (a one-digit octave) |
| NoteNaming.NameRoundTripAsWritten | cpp/31TETo.cpp:87-137 | as written, reading back `midi_to_note(m)` gives m - 12, or m - 13 on sharp pitch classes |
| NoteNaming.NoteToMidiIntended | cpp/31TETo.cpp:87-126 | the corrected reading is defined exactly when the name starts with C..B |
| NoteNaming.IntendedAgreesOnNaturals | cpp/31TETo.cpp:120-125 | the corrected reading agrees with the code on a letter and one digit |
| NoteNaming.IntendedSharp | cpp/31TETo.cpp:106-118 | in the corrected reading a sharp adds a semitone |
| NoteNaming.IntendedMinus | cpp/31TETo.cpp:100-104 | in the corrected reading "X-1" is in octave -1 ("A-1" is 9) |
| NoteNaming.IntendedSharpMinus | cpp/31TETo.cpp:108-112 | in the corrected reading "X#-1" is one semitone above "X-1" |
| NoteNaming.IntendedName | cpp/31TETo.cpp:87-126 | the corrected reading of letter, optional sharp and octave -1..9 is `(octave + 1) * 12 + n` (+1 with the sharp) |
| NoteNaming.NameRoundTrip | cpp/31TETo.cpp:87-137 | with octave `midi / 12 - 1` and the corrected reading, every index 0..131 names itself back |
| ScaleIndex.FloorQuotientIsDiv | cpp/31TETo.cpp:144 | `floor((x - 69.0) / size)` is the floor quotient of the integers |
| ScaleIndex.MidiToCents | cpp/31TETo.cpp:139-145 | `midi_to_cents` is the degree `(x - 69) mod size` plus `(x - 69) div size` octaves of the last entry, with the 12-EDO default table when none is given |
| ScaleIndex.MidiToCentsDegree | cpp/31TETo.cpp:139-144 | the k-th index above 69 reads the k-th table entry |
| ScaleIndex.MidiToCentsOctave | cpp/31TETo.cpp:139-144 | one table length higher adds one last entry (the equave), for negative offsets too |
| ScaleIndex.DefaultScaleCents | cpp/31TETo.cpp:139-144 | with the default table the value is `100 * (x - 69) + 100` |
| ScaleIndex.MidiToCents12edo | 31TETo.cpp:30-32 | the 12-EDO cents are 0 exactly at 69 and positive exactly above it |
| ScaleIndex.Cents12edoStep | 31TETo.cpp:30-32 | each semitone adds 100 cents |
| ScaleIndex.Scl | 31TETo.cpp:96-103 | `scl(n)` is defined exactly when the table has two entries or more and the C++ remainder is not negative, so always for n ≥ 0 |
| ScaleIndex.SclDegreeRange | 31TETo.cpp:96-103 | for n ≥ 0 the degree lies in [0, size - 2], and the value is `Scale[n % (size-1)] + n / (size-1) * Scale.back()` |
| ScaleIndex.CDivNonNegative | 31TETo.cpp:98-99 | on a non-negative index, C++ division and remainder agree with floor division |
| ScaleIndex.SclDegree | 31TETo.cpp:96-103 | the first size - 1 indices read the table as it is |
| ScaleIndex.SclOctave | 31TETo.cpp:96-103 | size - 1 indices higher is one `Scale.back()` more |

## Left out

- File access is not modelled:
  - `Config` takes the contents of the configuration file. Opening it, the
    "Failed to open file" branch and `std::ifstream` are not modelled.
  - `Scale::parse_tun` and `Scale::parse_scl` are not modelled.
  - The JSON `Config` of `31TETo.cpp` calls a library that is not part of this
    model.
- Process glue is not modelled: every `main`, the argument vector,
  `execvp`/`subprocess.run`, usage text and debug printing.
- Printed diagnostics are not modelled: the warning of `floats_to_ints` (it
  appears as the `warned` result), the "Flag string seems to be invalid"
  message and the `ValueError` message text.
- Floating point is not modelled:
  - Catmull-Rom interpolation, `WRAPPED_FMOD`, `Scale(int edo)`,
    `cents_to_midi`, `generate_mapping` with its `log2`, and the `map_31`
    tables.
  - The `Z` detune in cents: `1200 / 31` per step, held as an integer number
    of steps instead.
  - `main`'s float averaging.
- Value types are simplified:
  - The scale entries of `midi_to_cents` and `scl` are integers of cents,
    not floats.
  - `int(f)` in `floats_to_ints` is modelled on finite reals.
- Non-ASCII input is not modelled. A negative `char` used as a table index is
  undefined behaviour, so the C++ decoders and `Flags` require 7-bit input.
  `str.isalpha` in `flags_to_new_flags_and_detune` is modelled on 7-bit
  letters only.
- Integer overflow of `int` is not modelled. `reps`, `idx`, flag values and
  counts are unbounded; only the 16-bit `val` and the `int16_t` casts of the
  codec wrap explicitly.
- PyCodec.ParseInt: accepts an optionally signed run of ASCII digits. The
  whitespace, underscores and non-ASCII digits that Python's `int()` also
  accepts are not modelled.
- CppCodec.PitchStringToCents: requires 7-bit input up to the terminating
  NUL, because `b64_to_i[in[i]]` with a negative `char` is undefined.
- RootCodec.PitchStringToCents: requires 7-bit input up to the terminating NUL,
  for the same reason.
- CppCodec.CentsToPitchString: requires a non-empty input. On an empty vector
  `pairs[0]` is undefined behaviour, and `main` can pass one when the pitch
  string is empty. The model says nothing about that call.
- RootCodec.CentsToPitchString: requires a non-empty input, for the same reason
  (`pairs[0]` at `31TETo.cpp:298`).

## Findings

| source | as written | input that shows it | evidently intended | confidence | as-written member | corrected member |
|---|---|---|---|---|---|---|
| 31TETo.cpp:262-268 | `reps` is not reset after a closing `#`, so a second run marker's digits are appended to the first count | six 0s then six 1s encode as `AA#6#AB#6#`, which decodes to six 0s and 66 ones | `reps = 0` after the copies, as in `cpp/31TETo.cpp:469`; the round trip then holds | high (not executed) | RootCodec.NoResetCounterexample | CppCodec.RoundTrip |
| cpp/31TETo.cpp:106-118 | a `#` after the letter is skipped but adds no semitone | "A#4" and "A4" both give 69 | a sharp raises the note by one semitone | high (not executed) | NoteNaming.SharpIgnored | NoteNaming.IntendedSharp |
| cpp/31TETo.cpp:101-104 | after "X-" the octave digit is read from `s[3]`, which in "A-1" is the terminating NUL | "A-1" gives 597 | the digit after the minus, `s[2]`: "A-1" is 9 | high (not executed) | NoteNaming.MinusReadsTerminator | NoteNaming.IntendedMinus |
| cpp/31TETo.cpp:135 | `midi_to_note` writes octave `midi / 12 - 2`, one below the convention `note_to_midi` reads | 69 becomes "A3", which reads back as 57 | octave `midi / 12 - 1`, under which name and index are inverse | high (not executed) | NoteNaming.NameRoundTripAsWritten | NoteNaming.NameRoundTrip |
| fakesampler.py:153-164 | every letter resets `sgn`, and the detune takes `sgn` at the end of the string | "Z-5g3" gives a detune of +5 steps | the sign written with `Z`'s own digits: -5 | medium (not executed) | PyFlags.SignLost | PyFlags.ZSegmentSign |
