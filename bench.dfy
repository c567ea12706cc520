/** The three character decoders that benches/decode.rs compares: the
    original hash map from code to symbol, the "flat tree" indexed by a signed
    offset, and the heap-ordered tree that src/main.rs ships. */
module Bench {
  import opened Ascii
  import opened Morse
  import opened MorseTable

  /** The benchmark's own copy of `data::ENCODED_SEQUENCES`. */
  const BenchSequences: seq<seq<Byte>> := [
    ".-", "-...", "-.-.", "-..", ".", "..-.", "--.", "....", "..", ".---", "-.-", ".-..", "--",
    "-.", "---", ".--.", "--.-", ".-.", "...", "-", "..-", "...-", ".--", "-..-", "-.--",
    "--..", "-----", ".----", "..---", "...--", "....-", ".....", "-....", "--...", "---..",
    "----."
  ]

  /** The benchmark's table of codes is the program's. */
  lemma SameSequences()
    ensures BenchSequences == EncodedSequences
  {
  }

  // ---------------------------------------------------------------------------
  // The hash map decoder

  /** `CharacterDecoder`: a map from each code to its symbol. */
  datatype CharacterDecoder = CharacterDecoder(codes: map<seq<Byte>, Byte>)

  /** The symbols that `CharacterDecoder::new` pairs with the letter codes. */
  const UpperCase: seq<Byte> := "ABCDEFGHIJKLMNOPQRSTUVWXYZ"

  /** `Iterator::zip`: the pairs of equal position, as many as the shorter side
      has. */
  function Zip(ks: seq<seq<Byte>>, vs: seq<Byte>): (ps: seq<(seq<Byte>, Byte)>)
    ensures |ps| == if |ks| <= |vs| then |ks| else |vs|
    ensures forall i | 0 <= i < |ps| :: ps[i] == (ks[i], vs[i])
  {
    if ks == [] || vs == [] then [] else [(ks[0], vs[0])] + Zip(ks[1..], vs[1..])
  }

  /** `collect` into a map: the pairs inserted in order, a later pair replacing
      an earlier one with the same key. */
  function Collect(ps: seq<(seq<Byte>, Byte)>): map<seq<Byte>, Byte>
  {
    if ps == [] then map[]
    else Collect(ps[..|ps| - 1])[ps[|ps| - 1].0 := ps[|ps| - 1].1]
  }

  /** The keys of the collected map are the keys of the pairs. */
  lemma {:induction false} CollectKeys(ps: seq<(seq<Byte>, Byte)>, k: seq<Byte>)
    ensures k in Collect(ps) <==> exists i | 0 <= i < |ps| :: ps[i].0 == k
    decreases |ps|
  {
    if ps != [] {
      var p := ps[..|ps| - 1];
      CollectKeys(p, k);
      if k in Collect(p) {
        var i :| 0 <= i < |p| && p[i].0 == k;
        assert ps[i].0 == k;
      }
      if exists i | 0 <= i < |ps| :: ps[i].0 == k {
        var i :| 0 <= i < |ps| && ps[i].0 == k;
        if i < |p| {
          assert p[i].0 == k;
        }
      }
    }
  }

  /** With distinct keys, each key maps to the value it was paired with. */
  lemma {:induction false} CollectValue(ps: seq<(seq<Byte>, Byte)>, i: int)
    requires forall a, b | 0 <= a < b < |ps| :: ps[a].0 != ps[b].0
    requires 0 <= i < |ps|
    ensures ps[i].0 in Collect(ps) && Collect(ps)[ps[i].0] == ps[i].1
    decreases |ps|
  {
    if i < |ps| - 1 {
      var p := ps[..|ps| - 1];
      assert p[i] == ps[i];
      CollectValue(p, i);
    }
  }

  /** The pairs `CharacterDecoder::new` collects: the letter codes with the
      letters, then the digit codes with the digits. */
  function DecoderPairs(): (ps: seq<(seq<Byte>, Byte)>)
  {
    Zip(BenchSequences[..26], UpperCase) + Zip(BenchSequences[26..], Digits)
  }

  /** `CharacterDecoder::new`. */
  function NewDecoder(): CharacterDecoder
  {
    CharacterDecoder(Collect(DecoderPairs()))
  }

  /** `CharacterDecoder::decode`: the map hit, or an error naming the token. */
  function MapDecode(d: CharacterDecoder, character: seq<Byte>): (r: Result<Byte>)
    ensures r.Ok? <==> character in d.codes
    ensures r.Ok? ==> r.value == d.codes[character]
    ensures r.Err? ==> r.error == Decode(character)
  {
    if character in d.codes then Ok(d.codes[character]) else Err(Decode(character))
  }

  lemma UpperCaseLetters()
    ensures |UpperCase| == 26 && forall i | 0 <= i < |UpperCase| :: UpperCase[i] as int == 'A' as int + i
  {
  }

  /** Pair `j` is code `j` with its symbol. */
  lemma DecoderPairsAt()
    ensures |DecoderPairs()| == |EncodedSequences|
    ensures forall j | 0 <= j < |EncodedSequences| :: DecoderPairs()[j] == (EncodedSequences[j], Symbol(j))
  {
    SameSequences();
    UpperCaseLetters();
    DecimalDigits();
    var letters := Zip(BenchSequences[..26], UpperCase);
    var numbers := Zip(BenchSequences[26..], Digits);
    forall j | 0 <= j < |EncodedSequences|
      ensures DecoderPairs()[j] == (EncodedSequences[j], Symbol(j))
    {
      if j < 26 {
        assert DecoderPairs()[j] == letters[j];
      } else {
        assert DecoderPairs()[j] == numbers[j - 26];
      }
    }
  }

  /** `CharacterDecoder::new` maps each code to its symbol and nothing else. */
  lemma NewDecoderCodes()
    ensures forall s :: s in NewDecoder().codes <==> s in EncodedSequences
    ensures forall j | 0 <= j < |EncodedSequences| :: NewDecoder().codes[EncodedSequences[j]] == Symbol(j)
  {
    var ps := DecoderPairs();
    DecoderPairsAt();
    CodesWellFormed();
    forall s
      ensures s in NewDecoder().codes <==> s in EncodedSequences
    {
      CollectKeys(ps, s);
      if s in EncodedSequences {
        var j :| 0 <= j < |EncodedSequences| && EncodedSequences[j] == s;
        assert ps[j].0 == s;
      }
    }
    forall j | 0 <= j < |EncodedSequences|
      ensures NewDecoder().codes[EncodedSequences[j]] == Symbol(j)
    {
      CollectValue(ps, j);
    }
  }

  /** The map decoder succeeds exactly on the codes, and then gives the code's
      symbol; anything else is an error naming the token. */
  lemma MapDecodeExact(s: seq<Byte>)
    ensures MapDecode(NewDecoder(), s).Ok? <==> s in EncodedSequences
    ensures MapDecode(NewDecoder(), s).Ok? ==>
              IsSymbol(MapDecode(NewDecoder(), s).value) &&
              EncodedSequences[SymbolIndex(MapDecode(NewDecoder(), s).value)] == s
    ensures MapDecode(NewDecoder(), s).Err? ==> MapDecode(NewDecoder(), s).error == Decode(s)
  {
    NewDecoderCodes();
    if s in EncodedSequences {
      var j :| 0 <= j < |EncodedSequences| && EncodedSequences[j] == s;
      SymbolInjective(j, SymbolIndex(Symbol(j)));
    }
  }

  // ---------------------------------------------------------------------------
  // The offset decoder

  /** `MAGIC_NUMBER`: lifts the smallest offset, -62, to index 0. */
  const MagicNumber := 62

  /** The number of entries of the benchmark's `data::DECODING_ARRAY`. */
  const OffsetArrayLength := 125

  /** The benchmark's `data::DECODING_ARRAY` read with `get`: the symbol whose
      code has offset `idx - 62`; `None` for an empty entry and for any index
      past the end. */
  function OffsetArray(idx: int): (entry: Option<Byte>)
    ensures entry.Some? ==> 0 <= idx < OffsetArrayLength && idx % 2 == 0
  {
    match idx
    case 0 => Some('0') case 4 => Some('9') case 6 => Some('O') case 12 => Some('8')
    case 14 => Some('M') case 18 => Some('Q') case 22 => Some('G') case 26 => Some('Z')
    case 28 => Some('7') case 30 => Some('T') case 34 => Some('Y') case 38 => Some('K')
    case 42 => Some('C') case 46 => Some('N') case 50 => Some('X') case 54 => Some('D')
    case 58 => Some('B') case 60 => Some('6') case 64 => Some('1') case 66 => Some('J')
    case 70 => Some('W') case 74 => Some('P') case 78 => Some('A') case 86 => Some('R')
    case 90 => Some('L') case 94 => Some('E') case 96 => Some('2') case 102 => Some('U')
    case 106 => Some('F') case 110 => Some('I') case 112 => Some('3') case 114 => Some('V')
    case 118 => Some('S') case 120 => Some('4') case 122 => Some('H') case 124 => Some('5')
    case _ => None
  }

  /** The closure of the `for_each` in `uncorrected_offset`: a dot adds the
      increment, a dash subtracts it, any other byte leaves the offset. */
  function OffsetStep(offset: int, increment: int, u: Byte): int
  {
    match u
    case '.' => offset + increment
    case '-' => offset - increment
    case _ => offset
  }

  /** The `for_each` of `uncorrected_offset` from `offset` and `increment`:
      the increment halves after every byte, whatever the byte. */
  function OffsetFrom(offset: int, increment: int, bytes: seq<Byte>): (r: int)
    ensures increment >= 1 ==> offset - 2 * increment < r < offset + 2 * increment
    ensures increment == 0 ==> r == offset
    decreases |bytes|
  {
    if bytes == [] then offset
    else OffsetFrom(OffsetStep(offset, increment, bytes[0]), increment / 2, bytes[1..])
  }

  /** The offset `uncorrected_offset` computes: from 0, with increment 1 << 5. */
  function Offset(character: seq<Byte>): (r: int)
    ensures -63 <= r <= 63
  {
    OffsetFrom(0, 32, character)
  }

  /** `uncorrected_offset`. */
  method UncorrectedOffset(character: seq<Byte>) returns (offset: int)
    ensures offset == Offset(character)
  {
    offset := 0;
    var increment := 32;
    for i := 0 to |character|
      invariant OffsetFrom(offset, increment, character[i..]) == Offset(character)
    {
      assert character[i..][1..] == character[i + 1..];
      match character[i] {
        case '.' => offset := offset + increment;
        case '-' => offset := offset - increment;
        case _ =>
      }
      increment := increment / 2;
    }
  }

  /** `decode_character` of the benchmark: the entry at the offset plus 62; a
      negative index wraps to a huge `usize`, so it is past the end too. */
  function OffsetDecodeCharacter(character: seq<Byte>): (r: Result<Byte>)
    ensures r.Err? ==> r.error == Decode(character)
    ensures Offset(character) + MagicNumber < 0 ==> r.Err?
    ensures Offset(character) + MagicNumber >= OffsetArrayLength ==> r.Err?
  {
    var idx := Offset(character) + MagicNumber;
    match if idx < 0 then None else OffsetArray(idx)
    case Some(c) => Ok(c)
    case None => Err(Decode(character))
  }

  /** Where the fold starts only shifts its result. */
  lemma {:induction false} OffsetFromShift(offset: int, increment: int, bytes: seq<Byte>)
    ensures OffsetFrom(offset, increment, bytes) == offset + OffsetFrom(0, increment, bytes)
    decreases |bytes|
  {
    if bytes != [] {
      var u := bytes[0];
      OffsetFromShift(OffsetStep(offset, increment, u), increment / 2, bytes[1..]);
      OffsetFromShift(OffsetStep(0, increment, u), increment / 2, bytes[1..]);
    }
  }

  /** The fold from 0: the first byte's weight plus the rest at half the
      increment. */
  lemma OffsetFromFirst(increment: int, bytes: seq<Byte>)
    requires bytes != []
    ensures OffsetFrom(0, increment, bytes) ==
            OffsetStep(0, increment, bytes[0]) + OffsetFrom(0, increment / 2, bytes[1..])
  {
    OffsetFromShift(OffsetStep(0, increment, bytes[0]), increment / 2, bytes[1..]);
  }

  /** Once the increment is 0 nothing changes. */
  lemma {:induction false} OffsetFromSpent(bytes: seq<Byte>)
    ensures OffsetFrom(0, 0, bytes) == 0
    decreases |bytes|
  {
    if bytes != [] {
      OffsetFromSpent(bytes[1..]);
    }
  }

  /** From an increment of 2^m, at most m bytes give an even offset of size at
      most 2^(m+1) - 2^(m+1-k) for k bytes. */
  lemma {:induction false} OffsetFromBound(m: nat, bytes: seq<Byte>)
    requires |bytes| <= m
    ensures var o := OffsetFrom(0, Pow2(m), bytes);
            o % 2 == 0 && -(Pow2(m + 1) - Pow2(m + 1 - |bytes|)) <= o <= Pow2(m + 1) - Pow2(m + 1 - |bytes|)
    decreases m
  {
    if bytes != [] {
      var h, p := Pow2(m - 1), Pow2(m + 1 - |bytes|);
      assert Pow2(m) == 2 * h && Pow2(m) / 2 == h;
      assert Pow2(m + 1) == 4 * h;
      var t := OffsetFrom(0, h, bytes[1..]);
      assert t % 2 == 0 && -(2 * h - p) <= t <= 2 * h - p by {
        OffsetFromBound(m - 1, bytes[1..]);
        assert m - 1 + 1 - |bytes[1..]| == m + 1 - |bytes|;
      }
      OffsetFromFirst(Pow2(m), bytes);
      var d := OffsetStep(0, 2 * h, bytes[0]);
      assert d == 2 * h || d + 2 * h == 0 || d == 0;
      EvenShift(h, t);
    }
  }

  /** Any bytes from an increment `h` give an offset of size below 2h. */
  lemma {:induction false} OffsetFromLimit(h: nat, bytes: seq<Byte>)
    ensures h >= 1 ==> -(2 * h - 1) <= OffsetFrom(0, h, bytes) <= 2 * h - 1
    ensures h == 0 ==> OffsetFrom(0, h, bytes) == 0
    decreases |bytes|
  {
    if h == 0 {
      OffsetFromSpent(bytes);
    } else if bytes != [] {
      OffsetFromFirst(h, bytes);
      OffsetFromLimit(h / 2, bytes[1..]);
    }
  }

  /** From an increment of 2^m, a mark as byte m + 1 makes the offset odd. */
  lemma {:induction false} OffsetFromOdd(m: nat, bytes: seq<Byte>)
    requires m < |bytes| && IsMark(bytes[m])
    ensures OffsetFrom(0, Pow2(m), bytes) % 2 == 1
    decreases m
  {
    OffsetFromFirst(Pow2(m), bytes);
    if m == 0 {
      OffsetFromSpent(bytes[1..]);
    } else {
      var h := Pow2(m - 1);
      assert Pow2(m) == 2 * h && Pow2(m) / 2 == h;
      OffsetFromOdd(m - 1, bytes[1..]);
      EvenShift(h, OffsetFrom(0, h, bytes[1..]));
    }
  }

  lemma EvenShift(h: int, t: int)
    ensures (2 * h + t) % 2 == t % 2 && (t - 2 * h) % 2 == t % 2
  {
  }

  /** From an increment of 2^m, the first of at most m marks decides the sign
      of the offset: the rest stays smaller than 2^m. */
  lemma OffsetFromSign(m: nat, a: seq<Byte>)
    requires IsMarks(a) && a != [] && |a| <= m
    ensures OffsetFrom(0, Pow2(m), a) ==
            (if a[0] == '.' then Pow2(m) as int else -(Pow2(m) as int)) + OffsetFrom(0, Pow2(m - 1), a[1..])
    ensures a[0] == '.' ==> OffsetFrom(0, Pow2(m), a) > 0
    ensures a[0] == '-' ==> OffsetFrom(0, Pow2(m), a) < 0
  {
    assert Pow2(m) / 2 == Pow2(m - 1);
    OffsetFromFirst(Pow2(m), a);
    OffsetFromBound(m - 1, a[1..]);
    assert m - 1 + 1 - |a[1..]| == m + 1 - |a|;
  }

  /** From an increment of 2^m, mark strings of at most m marks have distinct
      offsets. */
  lemma {:induction false} OffsetFromInjective(m: nat, a: seq<Byte>, b: seq<Byte>)
    requires IsMarks(a) && IsMarks(b) && |a| <= m && |b| <= m
    requires OffsetFrom(0, Pow2(m), a) == OffsetFrom(0, Pow2(m), b)
    ensures a == b
    decreases m
  {
    if a != [] {
      OffsetFromSign(m, a);
    }
    if b != [] {
      OffsetFromSign(m, b);
    }
    if a != [] && b != [] {
      assert a[0] == b[0];
      assert IsMarks(a[1..]) && IsMarks(b[1..]);
      OffsetFromInjective(m - 1, a[1..], b[1..]);
      assert a == [a[0]] + a[1..] && b == [b[0]] + b[1..];
    }
  }

  /** What `uncorrected_offset` promises: any input gives an offset in
      [-63, 63]; at most five bytes give an even offset in [-62, 62]; a mark
      as sixth byte makes it odd. */
  lemma OffsetRange(s: seq<Byte>)
    ensures -63 <= Offset(s) <= 63
    ensures |s| <= 5 ==> -62 <= Offset(s) <= 62 && Offset(s) % 2 == 0
    ensures |s| >= 6 && IsMark(s[5]) ==> Offset(s) % 2 == 1
  {
    assert Pow2(5) == 32 && Pow2(6) == 64;
    OffsetFromLimit(32, s);
    if |s| <= 5 {
      OffsetFromBound(5, s);
      Pow2Monotone(1, 6 - |s|);
    }
    if |s| >= 6 && IsMark(s[5]) {
      OffsetFromOdd(5, s);
    }
  }

  /** No two mark strings of at most five marks share an offset. */
  lemma OffsetInjective(a: seq<Byte>, b: seq<Byte>)
    requires IsMarks(a) && IsMarks(b) && |a| <= 5 && |b| <= 5
    requires Offset(a) == Offset(b)
    ensures a == b
  {
    assert Pow2(5) == 32;
    OffsetFromInjective(5, a, b);
  }

  // ---------------------------------------------------------------------------
  // The offset tree is the heap tree re-indexed

  /** The increment after `k` halvings of `increment`. */
  function Halved(increment: int, k: nat): int
    decreases k
  {
    if k == 0 then increment else Halved(increment / 2, k - 1)
  }

  /** One byte more at the back is one step more at the end, with the
      increment halved once per byte before it. */
  lemma {:induction false} OffsetFromAppend(offset: int, increment: int, s: seq<Byte>, u: Byte)
    ensures OffsetFrom(offset, increment, s + [u]) ==
            OffsetStep(OffsetFrom(offset, increment, s), Halved(increment, |s|), u)
    decreases |s|
  {
    if s == [] {
      assert ([] + [u])[1..] == [];
    } else {
      assert (s + [u])[1..] == s[1..] + [u];
      OffsetFromAppend(OffsetStep(offset, increment, s[0]), increment / 2, s[1..], u);
    }
  }

  /** The entry of the benchmark's table that stands for slot `h` of the heap
      tree: on each level of the tree the entries step down evenly from the
      all-dots code to the all-dashes code. */
  function OffsetSlot(h: nat): int
  {
    if h < 1 then 62
    else if h < 3 then 94 - 64 * (h - 1)
    else if h < 7 then 110 - 32 * (h - 3)
    else if h < 15 then 118 - 16 * (h - 7)
    else if h < 31 then 122 - 8 * (h - 15)
    else 124 - 4 * (h - 31)
  }

  lemma HalvedFrom32(k: nat)
    requires k <= 4
    ensures Halved(32, k) == 32 / Pow2(k)
  {
    assert Halved(32, 0) == 32 && Halved(32, 1) == 16 && Halved(32, 2) == 8;
    assert Halved(32, 3) == 4 && Halved(32, 4) == 2;
    assert Pow2(0) == 1 && Pow2(1) == 2 && Pow2(2) == 4 && Pow2(3) == 8 && Pow2(4) == 16;
  }

  /** A mark string of at most five marks: its entry in the offset table is
      the one standing for its slot in the heap tree. */
  lemma {:induction false} OffsetOfIndex(s: seq<Byte>)
    requires IsMarks(s) && |s| <= 5
    ensures Offset(s) + MagicNumber == OffsetSlot(CharacterIndex(s))
    decreases |s|
  {
    if s != [] {
      var p, u := s[..|s| - 1], s[|s| - 1];
      assert IsMarks(p);
      OffsetOfIndex(p);
      LastSplit(s);
      CharacterIndexAppend(p, u);
      CharacterIndexRange(p);
      OffsetFromAppend(0, 32, p, u);
      HalvedFrom32(|p|);
      assert Pow2(|p|) == 1 || Pow2(|p|) == 2 || Pow2(|p|) == 4 || Pow2(|p|) == 8 || Pow2(|p|) == 16 by {
        HalvedFrom32(|p|);
      }
    }
  }

  /** The offset table holds at the entry for heap slot `h` what the program's
      table holds at `h`. */
  predicate SlotsAgree(h: nat)
  {
    OffsetSlot(h) >= 0 && OffsetArray(OffsetSlot(h)) == DecodingArray(h)
  }

  lemma TreesAgree0to7()
    ensures forall h | 0 <= h < 8 :: SlotsAgree(h)
  {
  }

  lemma TreesAgree8to15()
    ensures forall h | 8 <= h < 16 :: SlotsAgree(h)
  {
  }

  lemma TreesAgree16to23()
    ensures forall h | 16 <= h < 24 :: SlotsAgree(h)
  {
  }

  lemma TreesAgree24to31()
    ensures forall h | 24 <= h < 32 :: SlotsAgree(h)
  {
  }

  lemma TreesAgree32to39()
    ensures forall h | 32 <= h < 40 :: SlotsAgree(h)
  {
  }

  lemma TreesAgree40to47()
    ensures forall h | 40 <= h < 48 :: SlotsAgree(h)
  {
  }

  lemma TreesAgree48to55()
    ensures forall h | 48 <= h < 56 :: SlotsAgree(h)
  {
  }

  lemma TreesAgree56to62()
    ensures forall h | 56 <= h < 63 :: SlotsAgree(h)
  {
  }

  /** The two tables hold the same tree. */
  lemma TreesAgree()
    ensures forall h: nat | h < DecodingArrayLength :: SlotsAgree(h)
  {
    TreesAgree0to7();
    TreesAgree8to15();
    TreesAgree16to23();
    TreesAgree24to31();
    TreesAgree32to39();
    TreesAgree40to47();
    TreesAgree48to55();
    TreesAgree56to62();
  }

  /** On mark strings the offset decoder is the program's decoder. */
  lemma OffsetAgrees(s: seq<Byte>)
    requires IsMarks(s)
    ensures OffsetDecodeCharacter(s) == DecodeCharacter(s)
  {
    if |s| <= 5 {
      var h := CharacterIndex(s);
      assert h < DecodingArrayLength by {
        CharacterIndexRange(s);
        Pow2Monotone(|s| + 1, 6);
        assert Pow2(6) == 64;
      }
      assert SlotsAgree(h) by {
        TreesAgree();
      }
      OffsetOfIndex(s);
    } else {
      OffsetDecodeTooLong(s);
      DecodeTooLong(s);
    }
  }

  /** The offset decoder succeeds on a mark string exactly when it is a code,
      and then gives the code's symbol. */
  lemma OffsetDecodeExact(s: seq<Byte>)
    requires IsMarks(s)
    ensures OffsetDecodeCharacter(s).Ok? <==> s in EncodedSequences
    ensures OffsetDecodeCharacter(s).Ok? ==>
              IsSymbol(OffsetDecodeCharacter(s).value) &&
              EncodedSequences[SymbolIndex(OffsetDecodeCharacter(s).value)] == s
  {
    OffsetAgrees(s);
    DecodeCharacterExact(s);
    MarksOfMarks(s);
  }

  /** The empty token fails: offset 0 is entry 62, which is empty. */
  lemma OffsetDecodeEmpty()
    ensures OffsetDecodeCharacter([]) == Err(Decode([]))
  {
  }

  /** Six or more marks fail: the sixth mark makes the offset odd, and every
      odd entry is empty or past the ends. */
  lemma OffsetDecodeTooLong(s: seq<Byte>)
    requires IsMarks(s) && |s| >= 6
    ensures OffsetDecodeCharacter(s) == Err(Decode(s))
  {
    var idx := Offset(s) + MagicNumber;
    assert idx % 2 == 1 by {
      OffsetRange(s);
    }
  }

  /** Two decoders that are exact on the codes agree. */
  lemma ExactDecodersAgree(s: seq<Byte>, r1: Result<Byte>, r2: Result<Byte>)
    requires r1.Ok? <==> s in EncodedSequences
    requires r2.Ok? <==> s in EncodedSequences
    requires r1.Ok? ==> IsSymbol(r1.value) && EncodedSequences[SymbolIndex(r1.value)] == s
    requires r2.Ok? ==> IsSymbol(r2.value) && EncodedSequences[SymbolIndex(r2.value)] == s
    requires r1.Err? ==> r1.error == Decode(s)
    requires r2.Err? ==> r2.error == Decode(s)
    ensures r1 == r2
  {
    if r1.Ok? {
      CodesWellFormed();
    }
  }

  /** On mark strings the map decoder is the program's decoder. */
  lemma MapAgrees(s: seq<Byte>)
    requires IsMarks(s)
    ensures MapDecode(NewDecoder(), s) == DecodeCharacter(s)
  {
    MapDecodeExact(s);
    DecodeCharacterExact(s);
    MarksOfMarks(s);
    ExactDecodersAgree(s, MapDecode(NewDecoder(), s), DecodeCharacter(s));
  }

  // ---------------------------------------------------------------------------
  // The heap decoder

  /** The number of entries of `data::DECODING_ARRAY_2`. */
  const DecodingArray2Length := 63

  /** `data::DECODING_ARRAY_2` read with `get`: the heap-ordered tree of codes,
      children of entry i at 2i+1 (a dot) and 2i+2 (a dash); `None` for an
      empty entry and for any index past the end. */
  function DecodingArray2(idx: int): (entry: Option<Byte>)
    ensures entry.Some? ==> 0 <= idx < DecodingArray2Length
  {
    match idx
    case 1 => Some('E') case 2 => Some('T')
    case 3 => Some('I') case 4 => Some('A') case 5 => Some('N') case 6 => Some('M')
    case 7 => Some('S') case 8 => Some('U') case 9 => Some('R') case 10 => Some('W')
    case 11 => Some('D') case 12 => Some('K') case 13 => Some('G') case 14 => Some('O')
    case 15 => Some('H') case 16 => Some('V') case 17 => Some('F') case 19 => Some('L')
    case 21 => Some('P') case 22 => Some('J') case 23 => Some('B') case 24 => Some('X')
    case 25 => Some('C') case 26 => Some('Y') case 27 => Some('Z') case 28 => Some('Q')
    case 31 => Some('5') case 32 => Some('4') case 34 => Some('3') case 38 => Some('2')
    case 46 => Some('1') case 47 => Some('6') case 55 => Some('7') case 59 => Some('8')
    case 61 => Some('9') case 62 => Some('0')
    case _ => None
  }

  /** The benchmark's second table is the program's table, entry for entry. */
  lemma DecodingArraysEqual()
    ensures forall idx :: DecodingArray2(idx) == DecodingArray(idx)
  {
  }

  /** `decode_character_heap`: the entry at `character_index` (the benchmark's
      copy of it is the program's `CharacterIndex`). */
  function DecodeCharacterHeap(character: seq<Byte>): (r: Result<Byte>)
    ensures r.Err? ==> r.error == Decode(character)
  {
    match DecodingArray2(CharacterIndex(character))
    case Some(c) => Ok(c)
    case None => Err(Decode(character))
  }

  /** On every input the heap decoder is the program's decoder. */
  lemma HeapAgrees(s: seq<Byte>)
    ensures DecodeCharacterHeap(s) == DecodeCharacter(s)
  {
    DecodingArraysEqual();
  }

  // ---------------------------------------------------------------------------
  // The benchmark

  /** The benchmark's input: the codes, cycled, `n` of them. */
  function Workload(n: nat): (w: seq<seq<Byte>>)
    ensures |w| == n
    ensures forall i | 0 <= i < n :: w[i] == BenchSequences[i % |BenchSequences|]
  {
    if n == 0 then [] else Workload(n - 1) + [BenchSequences[(n - 1) % |BenchSequences|]]
  }

  /** Every call the benchmark makes succeeds, so its `unwrap`s never panic,
      and the three decoders give the same symbol. */
  lemma BenchmarkDecodes(n: nat)
    ensures forall i | 0 <= i < n ::
              MapDecode(NewDecoder(), Workload(n)[i]) == Ok(Symbol(i % 36)) &&
              OffsetDecodeCharacter(Workload(n)[i]) == Ok(Symbol(i % 36)) &&
              DecodeCharacterHeap(Workload(n)[i]) == Ok(Symbol(i % 36))
  {
    SameSequences();
    CodesWellFormed();
    forall i | 0 <= i < n
      ensures MapDecode(NewDecoder(), Workload(n)[i]) == Ok(Symbol(i % 36))
      ensures OffsetDecodeCharacter(Workload(n)[i]) == Ok(Symbol(i % 36))
      ensures DecodeCharacterHeap(Workload(n)[i]) == Ok(Symbol(i % 36))
    {
      var j := i % 36;
      var code := EncodedSequences[j];
      assert Workload(n)[i] == code;
      DecodeCode(j);
      MapAgrees(code);
      OffsetAgrees(code);
      HeapAgrees(code);
    }
  }

  /** A token with a byte other than a mark. */
  const MixedToken: seq<Byte> := "x."

  /** Bytes other than marks: the heap decoder skips them, the offset decoder
      still halves its increment for them, the map decoder rejects them. */
  lemma StrategiesDisagree()
    ensures DecodeCharacterHeap(MixedToken) == Ok('E')
    ensures OffsetDecodeCharacter(MixedToken) == Ok('A')
    ensures MapDecode(NewDecoder(), MixedToken) == Err(Decode(MixedToken))
  {
    var s := MixedToken;
    var dot: seq<Byte> := ".";
    assert s[1..] == dot && s[0] == 'x' && dot[1..] == [];
    assert CharacterIndex(s) == 1 by {
      assert IndexFrom(0, s) == IndexFrom(0, dot);
    }
    assert Offset(s) + MagicNumber == 78 by {
      assert OffsetFrom(0, 32, s) == OffsetFrom(0, 16, dot);
    }
    assert OffsetArray(78) == Some('A');
    assert s !in EncodedSequences by {
      CodesWellFormed();
      assert !IsMarks(s);
    }
    MapDecodeExact(s);
  }
}
