/** What the code table and the flat tree of src/main.rs guarantee: the tree
    index of a mark string, the decoding array as the inverse of the table, and
    the byte encoder as its forward direction. */
module MorseTable {
  import opened Ascii
  import opened Morse

  predicate IsMarks(s: seq<Byte>) { forall k :: 0 <= k < |s| ==> IsMark(s[k]) }

  /** The marks of `s`, in order. */
  function Marks(s: seq<Byte>): (r: seq<Byte>)
    ensures IsMarks(r)
  {
    if s == [] then []
    else Marks(s[..|s| - 1]) + (if IsMark(s[|s| - 1]) then [s[|s| - 1]] else [])
  }

  function Pow2(n: nat): (p: nat)
    ensures p >= 1
  {
    if n == 0 then 1 else 2 * Pow2(n - 1)
  }

  /** The path from the root of the tree to slot `h`: a dot for each step to a
      child 2i+1, a dash for each step to a child 2i+2. */
  function Path(h: nat): (p: seq<Byte>)
    ensures IsMarks(p)
  {
    if h == 0 then [] else Path((h - 1) / 2) + [if h % 2 == 1 then '.' else '-']
  }

  // ---------------------------------------------------------------------------
  // The tree index

  /** The fold consumes its input from the front, so one byte more at the back
      is one step more at the end. */
  lemma {:induction false} IndexFromAppend(idx: int, s: seq<Byte>, u: Byte)
    requires idx >= 0
    ensures IndexFrom(idx, s + [u]) == IndexStep(IndexFrom(idx, s), u)
    decreases |s|
  {
    if s == [] {
      assert ([] + [u])[1..] == [];
    } else {
      assert (s + [u])[1..] == s[1..] + [u];
      IndexFromAppend(IndexStep(idx, s[0]), s[1..], u);
    }
  }

  lemma CharacterIndexAppend(s: seq<Byte>, u: Byte)
    ensures CharacterIndex(s + [u]) == IndexStep(CharacterIndex(s), u)
  {
    IndexFromAppend(0, s, u);
  }

  /** Following the path to a slot leads to that slot. */
  lemma {:induction false} IndexOfPath(h: nat)
    ensures CharacterIndex(Path(h)) == h
  {
    if h > 0 {
      IndexOfPath((h - 1) / 2);
      CharacterIndexAppend(Path((h - 1) / 2), if h % 2 == 1 then '.' else '-');
    }
  }

  /** A mark string is the path to its own index: the index forgets nothing. */
  lemma {:induction false} PathOfIndex(s: seq<Byte>)
    requires IsMarks(s)
    ensures Path(CharacterIndex(s)) == s
    decreases |s|
  {
    if s != [] {
      var p, u := s[..|s| - 1], s[|s| - 1];
      assert IsMarks(p);
      PathOfIndex(p);
      LastSplit(s);
      CharacterIndexAppend(p, u);
      var h := CharacterIndex(s);
      if u == '.' {
        assert h == 2 * CharacterIndex(p) + 1 && (h - 1) / 2 == CharacterIndex(p) && h % 2 == 1;
      } else {
        assert h == 2 * CharacterIndex(p) + 2 && (h - 1) / 2 == CharacterIndex(p) && h % 2 == 0;
      }
      assert Path(h) == Path((h - 1) / 2) + [u];
    }
  }

  /** `character_index` is injective on mark strings (although the table is not
      prefix-free, see TableNotPrefixFree). */
  lemma CharacterIndexInjective(s: seq<Byte>, t: seq<Byte>)
    requires IsMarks(s) && IsMarks(t)
    requires CharacterIndex(s) == CharacterIndex(t)
    ensures s == t
  {
    PathOfIndex(s);
    PathOfIndex(t);
  }

  /** A mark string of length k indexes tree level k, the slots
      2^k - 1 .. 2^(k+1) - 2. */
  lemma {:induction false} CharacterIndexRange(s: seq<Byte>)
    requires IsMarks(s)
    ensures Pow2(|s|) - 1 <= CharacterIndex(s) <= Pow2(|s| + 1) - 2
    decreases |s|
  {
    if s != [] {
      var p, u := s[..|s| - 1], s[|s| - 1];
      assert IsMarks(p);
      CharacterIndexRange(p);
      LastSplit(s);
      CharacterIndexAppend(p, u);
    }
  }

  /** Bytes other than '.' and '-' do not move the index. */
  lemma {:induction false} CharacterIndexSkips(s: seq<Byte>)
    ensures CharacterIndex(s) == CharacterIndex(Marks(s))
    decreases |s|
  {
    if s != [] {
      var p, u := s[..|s| - 1], s[|s| - 1];
      CharacterIndexSkips(p);
      LastSplit(s);
      CharacterIndexAppend(p, u);
      if IsMark(u) {
        assert Marks(s) == Marks(p) + [u];
        CharacterIndexAppend(Marks(p), u);
      } else {
        assert Marks(s) == Marks(p) + [];
        assert Marks(p) + [] == Marks(p);
        assert IndexStep(CharacterIndex(p), u) == CharacterIndex(p);
      }
    }
  }

  lemma {:induction false} MarksOfMarks(s: seq<Byte>)
    requires IsMarks(s)
    ensures Marks(s) == s
    decreases |s|
  {
    if s != [] {
      var p := s[..|s| - 1];
      assert IsMarks(p);
      MarksOfMarks(p);
      LastSplit(s);
    }
  }

  // ---------------------------------------------------------------------------
  // The two literal tables against each other

  /** Code `j` is a mark string leading to a slot that holds symbol `j`. */
  predicate CodeAtSlot(j: int)
    requires 0 <= j < |EncodedSequences|
  {
    DecodingArray(CharacterIndex(EncodedSequences[j])) == Some(Symbol(j))
  }

  /** A filled slot `h` holds a symbol whose code leads back to `h`. */
  predicate SlotHolds(h: int)
  {
    DecodingArray(h).Some? ==>
      IsSymbol(DecodingArray(h).value) &&
      CharacterIndex(EncodedSequences[SymbolIndex(DecodingArray(h).value)]) == h
  }

  lemma CodesAreMarks()
    ensures forall j | 0 <= j < |EncodedSequences| :: IsMarks(EncodedSequences[j])
  {
  }

  lemma CodesAtSlotsAtoD()
    ensures |EncodedSequences| == 36 && forall j | 0 <= j < 4 :: CodeAtSlot(j)
  {
    assert CharacterIndex(EncodedSequences[0]) == 4;
    assert CharacterIndex(EncodedSequences[1]) == 23;
    assert CharacterIndex(EncodedSequences[2]) == 25;
    assert CharacterIndex(EncodedSequences[3]) == 11;
  }

  lemma CodesAtSlotsEtoH()
    ensures |EncodedSequences| == 36 && forall j | 4 <= j < 8 :: CodeAtSlot(j)
  {
    assert CharacterIndex(EncodedSequences[4]) == 1;
    assert CharacterIndex(EncodedSequences[5]) == 17;
    assert CharacterIndex(EncodedSequences[6]) == 13;
    assert CharacterIndex(EncodedSequences[7]) == 15;
  }

  lemma CodesAtSlotsItoL()
    ensures |EncodedSequences| == 36 && forall j | 8 <= j < 12 :: CodeAtSlot(j)
  {
    assert CharacterIndex(EncodedSequences[8]) == 3;
    assert CharacterIndex(EncodedSequences[9]) == 22;
    assert CharacterIndex(EncodedSequences[10]) == 12;
    assert CharacterIndex(EncodedSequences[11]) == 19;
  }

  lemma CodesAtSlotsMtoP()
    ensures |EncodedSequences| == 36 && forall j | 12 <= j < 16 :: CodeAtSlot(j)
  {
    assert CharacterIndex(EncodedSequences[12]) == 6;
    assert CharacterIndex(EncodedSequences[13]) == 5;
    assert CharacterIndex(EncodedSequences[14]) == 14;
    assert CharacterIndex(EncodedSequences[15]) == 21;
  }

  lemma CodesAtSlotsQtoT()
    ensures |EncodedSequences| == 36 && forall j | 16 <= j < 20 :: CodeAtSlot(j)
  {
    assert CharacterIndex(EncodedSequences[16]) == 28;
    assert CharacterIndex(EncodedSequences[17]) == 9;
    assert CharacterIndex(EncodedSequences[18]) == 7;
    assert CharacterIndex(EncodedSequences[19]) == 2;
  }

  lemma CodesAtSlotsUtoX()
    ensures |EncodedSequences| == 36 && forall j | 20 <= j < 24 :: CodeAtSlot(j)
  {
    assert CharacterIndex(EncodedSequences[20]) == 8;
    assert CharacterIndex(EncodedSequences[21]) == 16;
    assert CharacterIndex(EncodedSequences[22]) == 10;
    assert CharacterIndex(EncodedSequences[23]) == 24;
  }

  lemma CodesAtSlotsYto1()
    ensures |EncodedSequences| == 36 && forall j | 24 <= j < 28 :: CodeAtSlot(j)
  {
    assert CharacterIndex(EncodedSequences[24]) == 26;
    assert CharacterIndex(EncodedSequences[25]) == 27;
    assert CharacterIndex(EncodedSequences[26]) == 62;
    assert CharacterIndex(EncodedSequences[27]) == 46;
  }

  lemma CodesAtSlots2to5()
    ensures |EncodedSequences| == 36 && forall j | 28 <= j < 32 :: CodeAtSlot(j)
  {
    assert CharacterIndex(EncodedSequences[28]) == 38;
    assert CharacterIndex(EncodedSequences[29]) == 34;
    assert CharacterIndex(EncodedSequences[30]) == 32;
    assert CharacterIndex(EncodedSequences[31]) == 31;
  }

  lemma CodesAtSlots6to9()
    ensures |EncodedSequences| == 36 && forall j | 32 <= j < 36 :: CodeAtSlot(j)
  {
    assert CharacterIndex(EncodedSequences[32]) == 47;
    assert CharacterIndex(EncodedSequences[33]) == 55;
    assert CharacterIndex(EncodedSequences[34]) == 59;
    assert CharacterIndex(EncodedSequences[35]) == 61;
  }

  /** Every code leads to the slot of its own symbol. */
  lemma CodesAtSlots()
    ensures forall j | 0 <= j < |EncodedSequences| :: CodeAtSlot(j)
  {
    CodesAtSlotsAtoD();
    CodesAtSlotsEtoH();
    CodesAtSlotsItoL();
    CodesAtSlotsMtoP();
    CodesAtSlotsQtoT();
    CodesAtSlotsUtoX();
    CodesAtSlotsYto1();
    CodesAtSlots2to5();
    CodesAtSlots6to9();
  }

  lemma SlotsHold0to3()
    ensures forall h | 0 <= h < 4 :: SlotHolds(h)
  {
  }

  lemma SlotsHold4to7()
    ensures forall h | 4 <= h < 8 :: SlotHolds(h)
  {
  }

  lemma SlotsHold8to11()
    ensures forall h | 8 <= h < 12 :: SlotHolds(h)
  {
  }

  lemma SlotsHold12to15()
    ensures forall h | 12 <= h < 16 :: SlotHolds(h)
  {
  }

  lemma SlotsHold16to19()
    ensures forall h | 16 <= h < 20 :: SlotHolds(h)
  {
  }

  lemma SlotsHold20to23()
    ensures forall h | 20 <= h < 24 :: SlotHolds(h)
  {
  }

  lemma SlotsHold24to27()
    ensures forall h | 24 <= h < 28 :: SlotHolds(h)
  {
  }

  lemma SlotsHold28to31()
    ensures forall h | 28 <= h < 32 :: SlotHolds(h)
  {
  }

  lemma SlotsHold32to35()
    ensures forall h | 32 <= h < 36 :: SlotHolds(h)
  {
  }

  lemma SlotsHold36to39()
    ensures forall h | 36 <= h < 40 :: SlotHolds(h)
  {
  }

  lemma SlotsHold40to43()
    ensures forall h | 40 <= h < 44 :: SlotHolds(h)
  {
  }

  lemma SlotsHold44to47()
    ensures forall h | 44 <= h < 48 :: SlotHolds(h)
  {
  }

  lemma SlotsHold48to51()
    ensures forall h | 48 <= h < 52 :: SlotHolds(h)
  {
  }

  lemma SlotsHold52to55()
    ensures forall h | 52 <= h < 56 :: SlotHolds(h)
  {
  }

  lemma SlotsHold56to59()
    ensures forall h | 56 <= h < 60 :: SlotHolds(h)
  {
  }

  lemma SlotsHold60to62()
    ensures forall h | 60 <= h < 63 :: SlotHolds(h)
  {
  }

  /** Every filled slot is reached by the code of the symbol it holds. */
  lemma SlotsHold()
    ensures forall h :: SlotHolds(h)
  {
    SlotsHold0to3();
    SlotsHold4to7();
    SlotsHold8to11();
    SlotsHold12to15();
    SlotsHold16to19();
    SlotsHold20to23();
    SlotsHold24to27();
    SlotsHold28to31();
    SlotsHold32to35();
    SlotsHold36to39();
    SlotsHold40to43();
    SlotsHold44to47();
    SlotsHold48to51();
    SlotsHold52to55();
    SlotsHold56to59();
    SlotsHold60to62();
  }

  // ---------------------------------------------------------------------------
  // What the tables guarantee

  lemma {:induction false} Pow2Monotone(m: nat, n: nat)
    requires m <= n
    ensures Pow2(m) <= Pow2(n)
    decreases n
  {
    if m < n {
      Pow2Monotone(m, n - 1);
    }
  }

  /** The symbols of different table entries differ. */
  lemma SymbolInjective(i: int, j: int)
    requires 0 <= i < 36 && 0 <= j < 36 && Symbol(i) == Symbol(j)
    ensures i == j
  {
  }

  /** Every code is a string of one to five marks, and no two codes are equal. */
  lemma CodesWellFormed()
    ensures forall j | 0 <= j < |EncodedSequences| ::
              IsMarks(EncodedSequences[j]) && 1 <= |EncodedSequences[j]| <= 5
    ensures forall i, j | 0 <= i < j < |EncodedSequences| :: EncodedSequences[i] != EncodedSequences[j]
  {
    CodesAreMarks();
    CodesAtSlots();
    forall j | 0 <= j < |EncodedSequences|
      ensures 1 <= |EncodedSequences[j]| <= 5
    {
      var code := EncodedSequences[j];
      assert CodeAtSlot(j);
      assert DecodingArray(0).None?;
      CharacterIndexRange(code);
      if |code| >= 6 {
        Pow2Monotone(6, |code|);
      }
    }
    forall i, j | 0 <= i < j < |EncodedSequences|
      ensures EncodedSequences[i] != EncodedSequences[j]
    {
      assert CodeAtSlot(i) && CodeAtSlot(j);
      if EncodedSequences[i] == EncodedSequences[j] {
        SymbolInjective(i, j);
      }
    }
  }

  /** The table is not prefix-free: the code of E is the start of the code of A. */
  lemma TableNotPrefixFree()
    ensures EncodedSequences[4] == EncodedSequences[0][..1] && EncodedSequences[4] != EncodedSequences[0]
  {
  }

  /** `decode_character` inverts the table: each code decodes to its symbol. */
  lemma DecodeCode(j: int)
    requires 0 <= j < |EncodedSequences|
    ensures DecodeCharacter(EncodedSequences[j]) == Ok(Symbol(j))
  {
    CodesAtSlots();
    assert CodeAtSlot(j);
  }

  /** `decode_character` succeeds exactly on the tokens whose marks form a code,
      and then gives that code's symbol; the other bytes of a token are skipped. */
  lemma DecodeCharacterExact(s: seq<Byte>)
    ensures DecodeCharacter(s).Ok? <==> Marks(s) in EncodedSequences
    ensures DecodeCharacter(s).Ok? ==>
              IsSymbol(DecodeCharacter(s).value) &&
              EncodedSequences[SymbolIndex(DecodeCharacter(s).value)] == Marks(s)
  {
    CharacterIndexSkips(s);
    var h := CharacterIndex(s);
    if DecodeCharacter(s).Ok? {
      var c := DecodeCharacter(s).value;
      SlotsHold();
      assert SlotHolds(h);
      var code := EncodedSequences[SymbolIndex(c)];
      CodesAreMarks();
      CharacterIndexInjective(Marks(s), code);
    } else if Marks(s) in EncodedSequences {
      var j :| 0 <= j < |EncodedSequences| && EncodedSequences[j] == Marks(s);
      DecodeCode(j);
      assert false;
    }
  }

  /** The symbol a token decodes to is the one whose code its marks spell. */
  lemma DecodeCharacterCode(s: seq<Byte>, c: Byte)
    ensures DecodeCharacter(s) == Ok(c) <==> IsSymbol(c) && Marks(s) == EncodedSequences[SymbolIndex(c)]
  {
    DecodeCharacterExact(s);
    if IsSymbol(c) && Marks(s) == EncodedSequences[SymbolIndex(c)] {
      var d := DecodeCharacter(s).value;
      CodesWellFormed();
      assert EncodedSequences[SymbolIndex(d)] == EncodedSequences[SymbolIndex(c)];
      assert SymbolIndex(d) == SymbolIndex(c);
    }
  }

  /** The empty token fails: slot 0 is the root and holds nothing. */
  lemma DecodeEmpty()
    ensures DecodeCharacter([]) == Err(Decode([]))
  {
  }

  /** A mark string of six marks or more fails: its index is past the array. */
  lemma DecodeTooLong(s: seq<Byte>)
    requires IsMarks(s) && |s| >= 6
    ensures CharacterIndex(s) >= DecodingArrayLength
    ensures DecodeCharacter(s) == Err(Decode(s))
  {
    CharacterIndexRange(s);
    Pow2Monotone(6, |s|);
    assert Pow2(6) == 64;
  }

  /** The decoded symbols are upper-case letters and digits. */
  lemma DecodedIsSymbol(s: seq<Byte>)
    ensures DecodeCharacter(s).Ok? ==> IsSymbol(DecodeCharacter(s).value)
  {
    DecodeCharacterExact(s);
  }

  /** A token with a byte other than a mark is still decoded, by its marks;
      one without any mark stays at the empty root and fails. */
  lemma DecodeSkipsOtherBytes()
    ensures DecodeCharacter(".x") == Ok('E')
    ensures DecodeCharacter("x-") == Ok('T')
    ensures DecodeCharacter("x") == Err(Decode("x"))
  {
  }

  // ---------------------------------------------------------------------------
  // The encoder against the decoder

  /** `encode_byte` gives the code of the upper-case symbol, at an index inside
      the table. */
  lemma EncodeByteIndex(u: Byte)
    ensures IsAlphabetic(u) ==> EncodeByte(u) == Ok(EncodedSequences[ToUpper(u) as int - 'A' as int])
    ensures IsDigit(u) ==> EncodeByte(u) == Ok(EncodedSequences[u as int - '0' as int + 26])
    ensures IsAlphanumeric(u) ==> IsSymbol(ToUpper(u)) && 0 <= SymbolIndex(ToUpper(u)) < |EncodedSequences|
  {
  }

  /** The code of a letter or digit is a non-empty mark string. */
  lemma EncodeByteMarks(u: Byte)
    requires IsAlphanumeric(u)
    ensures IsMarks(EncodeByte(u).value) && IsToken(EncodeByte(u).value)
    ensures '/' !in EncodeByte(u).value && ' ' !in EncodeByte(u).value
  {
    CodesWellFormed();
    EncodeByteIndex(u);
  }

  /** Upper and lower case encode alike. */
  lemma EncodeByteCaseInsensitive(u: Byte)
    ensures EncodeByte(u) == EncodeByte(ToUpper(u)) || EncodeByte(u) == Err(Encode(u))
    ensures IsAlphanumeric(u) ==> EncodeByte(u) == EncodeByte(ToUpper(u))
  {
  }

  /** Decoding the code of a letter or digit gives back the byte, upper-cased. */
  lemma EncodeDecode(u: Byte)
    requires IsAlphanumeric(u)
    ensures DecodeCharacter(EncodeByte(u).value) == Ok(ToUpper(u))
  {
    DecodeCode(SymbolIndex(ToUpper(u)));
  }

  /** Encoding the symbol of a decoded token gives back the token's marks. */
  lemma DecodeEncode(s: seq<Byte>)
    requires DecodeCharacter(s).Ok?
    ensures EncodeByte(DecodeCharacter(s).value) == Ok(Marks(s))
  {
    DecodeCharacterExact(s);
    var c := DecodeCharacter(s).value;
    assert ToUpper(c) == c;
  }

  /** The lower-case letters, in order. */
  const LowerCase: seq<Byte> := "abcdefghijklmnopqrstuvwxyz"

  /** The decimal digits, in order. */
  const Digits: seq<Byte> := "0123456789"

  /** The bytes the unit test of src/main.rs encodes, in order. */
  const TestSequence: seq<Byte> := "abcdefghijklmnopqrstuvwxyz0123456789"

  lemma LowerCaseLetters()
    ensures |LowerCase| == 26 && forall i | 0 <= i < |LowerCase| :: LowerCase[i] as int == 'a' as int + i
  {
  }

  lemma DecimalDigits()
    ensures |Digits| == 10 && forall i | 0 <= i < |Digits| :: Digits[i] as int == '0' as int + i
  {
  }

  /** The `i`-th lower-case letter encodes to code `i`. */
  lemma EncodeLetter(u: Byte, i: int)
    requires 0 <= i < 26 && u as int == 'a' as int + i
    ensures EncodeByte(u) == Ok(EncodedSequences[i])
  {
    assert IsAlphabetic(u) && ToUpperOffset(u) == i;
  }

  /** The `i`-th digit encodes to code `i + 26`. */
  lemma EncodeDigit(u: Byte, i: int)
    requires 0 <= i < 10 && u as int == '0' as int + i
    ensures EncodeByte(u) == Ok(EncodedSequences[i + 26])
  {
    assert !IsAlphabetic(u) && '0' <= u <= '9';
  }

  /** The lower-case letters encode to the first 26 codes, in order. */
  lemma LettersEncode()
    ensures forall i | 0 <= i < |LowerCase| :: EncodeByte(LowerCase[i]) == Ok(EncodedSequences[i])
  {
    forall i | 0 <= i < |LowerCase|
      ensures EncodeByte(LowerCase[i]) == Ok(EncodedSequences[i])
    {
      LowerCaseLetters();
      EncodeLetter(LowerCase[i], i);
    }
  }

  /** The digits encode to the last 10 codes, in order. */
  lemma DigitsEncode()
    ensures forall i | 0 <= i < |Digits| :: EncodeByte(Digits[i]) == Ok(EncodedSequences[i + 26])
  {
    forall i | 0 <= i < |Digits|
      ensures EncodeByte(Digits[i]) == Ok(EncodedSequences[i + 26])
    {
      DecimalDigits();
      EncodeDigit(Digits[i], i);
    }
  }

  /** The unit test of src/main.rs: the lower-case letters and the digits, in
      order, encode to the table's codes in order. */
  lemma CharToCodeWorks()
    ensures |TestSequence| == |EncodedSequences|
    ensures forall i | 0 <= i < |TestSequence| :: EncodeByte(TestSequence[i]) == Ok(EncodedSequences[i])
  {
    assert TestSequence == LowerCase + Digits;
    forall i | 0 <= i < |TestSequence|
      ensures EncodeByte(TestSequence[i]) == Ok(EncodedSequences[i])
    {
      if i < 26 {
        assert TestSequence[i] == LowerCase[i];
        LettersEncode();
      } else {
        assert TestSequence[i] == Digits[i - 26];
        DigitsEncode();
      }
    }
  }
}
