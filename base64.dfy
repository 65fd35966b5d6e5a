/**
 * The symbol tables of the pitch-bend code as the two C++ revisions build them
 * (`make_b64_table`, `b64_to_i`, `i_to_b64`; the code is the same in both).
 */
module Base64 {

  /** The k-th symbol by ranges: A-Z, a-z, 0-9, '+', '/'. */
  function IToB64(k: int): char
    requires 0 <= k < 64
  {
    if k < 26 then ('A' as int + k) as char
    else if k < 52 then ('a' as int + k - 26) as char
    else if k < 62 then ('0' as int + k - 52) as char
    else if k == 62 then '+'
    else '/'
  }

  /** The three ranges of `i_to_b64`: upper-case letters, lower-case letters, then digits, '+' and '/'. */
  const Upper: string := "ABCDEFGHIJKLMNOPQRSTUVWXYZ"
  const Lower: string := "abcdefghijklmnopqrstuvwxyz"
  const DigitsPlusSlash: string := "0123456789+/"

  /** `i_to_b64`: the 64 symbols in standard base64 order, the source's literal cut at its range boundaries. */
  const Alphabet: string := Upper + Lower + DigitsPlusSlash

  /** Each symbol is the one its range gives it. */
  lemma AlphabetByRanges()
    ensures |Alphabet| == 64
    ensures forall k :: 0 <= k < 64 ==> Alphabet[k] == IToB64(k)
  {
    UpperCaseRange();
    LowerCaseRange();
    DigitRange();
    forall k | 0 <= k < 64
      ensures Alphabet[k] == IToB64(k)
    {
      if k < 26 {
        assert Alphabet[k] == Upper[k];
      } else if k < 52 {
        assert Alphabet[k] == Lower[k - 26];
      } else {
        assert Alphabet[k] == DigitsPlusSlash[k - 52];
      }
    }
  }

  lemma UpperCaseRange()
    ensures |Upper| == 26
    ensures forall i :: 0 <= i < 26 ==> Upper[i] == IToB64(i)
  {
    assert Upper == seq(26, i requires 0 <= i < 26 => IToB64(i));
  }

  lemma LowerCaseRange()
    ensures |Lower| == 26
    ensures forall i :: 0 <= i < 26 ==> Lower[i] == IToB64(26 + i)
  {
    assert Lower == seq(26, i requires 0 <= i < 26 => IToB64(26 + i));
  }

  lemma DigitRange()
    ensures |DigitsPlusSlash| == 12
    ensures forall i :: 0 <= i < 12 ==> DigitsPlusSlash[i] == IToB64(52 + i)
  {
    assert DigitsPlusSlash == seq(12, i requires 0 <= i < 12 => IToB64(52 + i));
  }

  /** The entry `b64_to_i` holds for every byte that is not a symbol. */
  const NotASymbol := 255

  /** The value `make_b64_table` stores at index i: the position of byte i in the alphabet, or 255. */
  function B64ToI(i: int): (r: int)
    ensures 0 <= r < 64 || r == NotASymbol
    ensures r < 64 ==> IToB64(r) as int == i
  {
    if 'A' as int <= i <= 'Z' as int then i - 'A' as int
    else if 'a' as int <= i <= 'z' as int then i - 'a' as int + 26
    else if '0' as int <= i <= '9' as int then i - '0' as int + 52
    else if i == '+' as int then 62
    else if i == '/' as int then 63
    else NotASymbol
  }

  lemma B64ToIOfIToB64(k: int)
    requires 0 <= k < 64
    ensures B64ToI(IToB64(k) as int) == k
  {
  }

  /** A table entry below 64 names the symbol it was stored for. */
  lemma AlphabetOfB64ToI(i: int)
    requires B64ToI(i) < 64
    ensures Alphabet[B64ToI(i)] as int == i
  {
    AlphabetByRanges();
  }

  /** Looking a symbol up in `b64_to_i` gives back its index in `i_to_b64`. */
  lemma B64ToIOfAlphabet(k: int)
    requires 0 <= k < 64
    ensures B64ToI(Alphabet[k] as int) == k
  {
    AlphabetByRanges();
  }

  /** A character is in the alphabet exactly when the table gives it a value below 64. */
  lemma SymbolIff(c: char)
    ensures c in Alphabet <==> B64ToI(c as int) < 64
  {
    if c in Alphabet {
      var k :| 0 <= k < 64 && Alphabet[k] == c;
      B64ToIOfAlphabet(k);
    }
    if B64ToI(c as int) < 64 {
      AlphabetOfB64ToI(c as int);
      assert Alphabet[B64ToI(c as int)] == c;
    }
  }

  /**
   * `make_b64_table`: fills a 256-entry table byte by byte; entry i is B64ToI(i),
   * which inverts the alphabet (B64ToIOfAlphabet) and marks every other byte (SymbolIff).
   */
  method MakeB64Table() returns (table: seq<int>)
    ensures |table| == 256
    ensures forall i :: 0 <= i < 256 ==> table[i] == B64ToI(i)
  {
    table := [];
    var i := 0;
    while i < 256
      invariant 0 <= i <= 256 && |table| == i
      invariant forall j :: 0 <= j < i ==> table[j] == B64ToI(j)
    {
      table := table + [B64ToI(i)];
      i := i + 1;
    }
  }
}
