/**
 * Note names and MIDI indices: `note_to_midi` (the same text in 31TETo.cpp and
 * cpp/31TETo.cpp) and `midi_to_note` of cpp/31TETo.cpp, as written, next to the
 * reading the code evidently intends, under which the two are inverse.
 *
 * The name is read through `note.c_str()`: index |s| holds the terminating NUL
 * and an index beyond it is an undefined read. A first character outside
 * C..B leaves `n` uninitialised, also undefined; both give None here.
 */
module NoteNaming {
  import opened Wrappers
  import opened CText
  import opened CArith

  /** `s[i]` of a C string: the character, or the terminating NUL when i == |s|. */
  function CharAt(s: string, i: nat): char
    requires i <= |s|
  {
    if i < |s| then s[i] else '\0'
  }

  /** The `switch (s[0])` table: the semitone of each natural note above C. */
  function Semitone(c: char): Option<int>
  {
    match c
    case 'C' => Some(0)
    case 'D' => Some(2)
    case 'E' => Some(4)
    case 'F' => Some(5)
    case 'G' => Some(7)
    case 'A' => Some(9)
    case 'B' => Some(11)
    case _ => None
  }

  predicate IsNatural(c: char)
  {
    Semitone(c).Some?
  }

  /** `c - '0'` on any character, digit or not. */
  function Digit(c: char): int
  {
    c as int - '0' as int
  }

  /**
   * The `(sgn, octv)` the branches on `s[1]` set: after `-` the octave is read
   * from `s[3]`, after `#` from `s[3]` behind a `-` and from `s[2]` otherwise,
   * and from `s[1]` in every other case. None when `s[3]` lies past the NUL.
   */
  function SignAndOctave(s: string): Option<(int, int)>
    requires |s| >= 1
  {
    var c1 := CharAt(s, 1);
    if c1 == '-' then
      if |s| >= 3 then Some((-1, Digit(CharAt(s, 3)))) else None
    else if c1 == '#' then
      if CharAt(s, 2) == '-' then Some((-1, Digit(CharAt(s, 3)))) else Some((1, Digit(CharAt(s, 2))))
    else Some((1, Digit(c1)))
  }

  /** `note_to_midi`: `(sgn * octv + 1) * 12 + n`, None where the C++ behaviour is undefined. */
  function NoteToMidi(note: string): (r: Option<int>)
    ensures r.Some? <==> |note| >= 1 && IsNatural(note[0]) && (|note| >= 3 || CharAt(note, 1) != '-')
  {
    if |note| == 0 then None
    else
      match (Semitone(note[0]), SignAndOctave(note))
      case (Some(n), Some((sgn, octv))) => Some((sgn * octv + 1) * 12 + n)
      case _ => None
  }

  /** The `names` array of `midi_to_note`. */
  const Names: seq<string> := ["C", "C#", "D", "D#", "E", "F", "F#", "G", "G#", "A", "A#", "B"]

  /** `midi_to_note`: the name of the pitch class, then `midi / 12 - 2` in decimal. */
  function MidiToNote(midi: int): (r: string)
    ensures |r| >= 2 && Semitone(r[0]).Some?
    ensures Semitone(r[0]).value + (if r[1] == '#' then 1 else 0) == midi % 12
  {
    WrappedModIsMod(midi, 12);
    NameTable(midi % 12);
    Names[WrappedMod(midi, 12)] + IntToString(CDiv(midi, 12) - 2)
  }

  /** 1 for the pitch classes `names` spells with a sharp. */
  function Black(k: int): int
    requires 0 <= k < 12
  {
    if |Names[k]| == 2 then 1 else 0
  }

  /** Every entry of `names` is a natural letter, on the pitch class a semitone below when a sharp follows. */
  lemma NameTable(k: int)
    requires 0 <= k < 12
    ensures 1 <= |Names[k]| <= 2
    ensures Semitone(Names[k][0]) == Some(k - Black(k))
    ensures |Names[k]| == 2 ==> Names[k][1] == '#'
  {
    if k == 0 {} else if k == 1 {} else if k == 2 {} else if k == 3 {}
    else if k == 4 {} else if k == 5 {} else if k == 6 {} else if k == 7 {}
    else if k == 8 {} else if k == 9 {} else if k == 10 {} else {}
  }

  /** A natural letter and one octave digit name the index `(octave + 1) * 12 + n`, from 12 (C0) to 131 (B9). */
  lemma NaturalName(l: char, d: char)
    requires IsNatural(l) && IsDigit(d)
    ensures NoteToMidi([l, d]) == Some((Digit(d) + 1) * 12 + Semitone(l).value)
    ensures 12 <= NoteToMidi([l, d]).value <= 131
  {
  }

  /** As written: the sharp is stepped over but adds no semitone, so "A#4" reads as "A4". */
  lemma SharpIgnored(l: char, d: char)
    requires IsNatural(l) && IsDigit(d)
    ensures NoteToMidi([l, '#', d]) == NoteToMidi([l, d])
  {
  }

  /**
   * As written: after "X-" the octave digit is taken from `s[3]`, which in a
   * three-character name is the terminating NUL, so `octv` is -48 whatever the
   * digit: "A-1" gives 597 instead of 9.
   */
  lemma MinusReadsTerminator(l: char, d: char)
    requires IsNatural(l)
    ensures NoteToMidi([l, '-', d]) == Some(49 * 12 + Semitone(l).value)
  {
    assert CharAt([l, '-', d], 3) == '\0';
  }

  /** The name `midi_to_note` gives, for an index whose octave `midi / 12 - 2` is one digit. */
  lemma NoteText(m: int)
    requires 24 <= m < 144
    ensures MidiToNote(m) == Names[m % 12] + [DigitChar(m / 12 - 2)]
  {
    WrappedModIsMod(m, 12);
  }

  /**
   * As written, `note_to_midi(midi_to_note(m))` is an octave below m, and a
   * further semitone below on the pitch classes named with a sharp.
   */
  lemma NameRoundTripAsWritten(m: int)
    requires 24 <= m < 144
    ensures NoteToMidi(MidiToNote(m)) == Some(m - 12 - Black(m % 12))
  {
    NoteText(m);
    var k, d := m % 12, DigitChar(m / 12 - 2);
    NameTable(k);
    var s := Names[k] + [d];
    if |Names[k]| == 1 {
      assert s == [Names[k][0], d];
    } else {
      assert s == [Names[k][0], '#', d];
    }
  }

  /**
   * The reading the code evidently intends: a sharp raises the natural note by a
   * semitone, and the digit after a minus (`s[2]` in "A-1", `s[3]` in "A#-1")
   * is the octave.
   */
  function NoteToMidiIntended(note: string): (r: Option<int>)
    ensures r.Some? <==> |note| >= 1 && IsNatural(note[0])
  {
    if |note| == 0 then None
    else
      match Semitone(note[0])
      case None => None
      case Some(n) =>
        var c1 := CharAt(note, 1);
        if c1 == '-' then Some((-Digit(CharAt(note, 2)) + 1) * 12 + n)
        else if c1 == '#' then
          if CharAt(note, 2) == '-' then Some((-Digit(CharAt(note, 3)) + 1) * 12 + n + 1)
          else Some((Digit(CharAt(note, 2)) + 1) * 12 + n + 1)
        else Some((Digit(c1) + 1) * 12 + n)
  }

  /** The intended `midi_to_note`: octave `midi / 12 - 1`, the convention `note_to_midi` decodes. */
  function MidiToNoteIntended(midi: int): string
  {
    Names[midi % 12] + IntToString(midi / 12 - 1)
  }

  /** The intended reading agrees with the code on plain natural names. */
  lemma IntendedAgreesOnNaturals(l: char, d: char)
    requires IsNatural(l) && IsDigit(d)
    ensures NoteToMidiIntended([l, d]) == NoteToMidi([l, d])
  {
  }

  /** The intended reading gives a sharp its semitone. */
  lemma IntendedSharp(l: char, d: char)
    requires IsNatural(l) && IsDigit(d)
    ensures NoteToMidiIntended([l, '#', d]) == Some(NoteToMidiIntended([l, d]).value + 1)
  {
  }

  /** The intended reading puts "X-1" in octave -1: "A-1" is 9. */
  lemma IntendedMinus(l: char)
    requires IsNatural(l)
    ensures NoteToMidiIntended([l, '-', '1']) == Some(Semitone(l).value)
  {
  }

  /** The octave text of the intended names: one digit, or "-1". */
  lemma OctaveText(o: int)
    requires -1 <= o <= 9
    ensures o >= 0 ==> IntToString(o) == [DigitChar(o)]
    ensures o == -1 ==> IntToString(o) == ['-', '1']
  {
    if o == -1 {
      assert NatToString(1) == [DigitChar(1)];
    }
  }

  /** The intended reading of "X#-1": octave -1, one semitone above X. */
  lemma IntendedSharpMinus(l: char)
    requires IsNatural(l)
    ensures NoteToMidiIntended([l, '#', '-', '1']) == Some(Semitone(l).value + 1)
  {
  }

  /** The intended reading of a letter, an optional sharp and an octave from -1 to 9. */
  lemma IntendedName(l: char, sharp: bool, o: int)
    requires IsNatural(l) && -1 <= o <= 9
    ensures NoteToMidiIntended([l] + (if sharp then "#" else "") + IntToString(o))
         == Some((o + 1) * 12 + Semitone(l).value + (if sharp then 1 else 0))
  {
    OctaveText(o);
    var s := [l] + (if sharp then "#" else "") + IntToString(o);
    if o >= 0 {
      var d := DigitChar(o);
      if sharp {
        assert s == [l, '#', d];
        IntendedSharp(l, d);
      } else {
        assert s == [l, d];
      }
    } else {
      if sharp {
        assert s == [l, '#', '-', '1'];
        IntendedSharpMinus(l);
      } else {
        assert s == [l, '-', '1'];
        IntendedMinus(l);
      }
    }
  }

  /** With the intended pair, every index from C-1 (0) to B9 (131) names itself back. */
  lemma NameRoundTrip(m: int)
    requires 0 <= m < 132
    ensures NoteToMidiIntended(MidiToNoteIntended(m)) == Some(m)
  {
    var k, o := m % 12, m / 12 - 1;
    NameTable(k);
    var name := Names[k];
    var sharp := |name| == 2;
    assert name == [name[0]] + (if sharp then "#" else "");
    IntendedName(name[0], sharp, o);
  }
}
