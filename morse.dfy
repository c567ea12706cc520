/** The transcoder of src/main.rs: the code table, the byte encoder, the
    flat-tree decoder and the two message loops that build their output in a
    growing buffer. */
module Morse {
  import opened Ascii

  datatype Option<+T> = None | Some(value: T)

  /** The program's `Error` enum, without its I/O variant. */
  datatype Error =
    | Encode(u: char)          // a byte that has no code
    | Decode(code: seq<Byte>)  // a token that is not a code

  datatype Result<+T> = Ok(value: T) | Err(error: Error)

  /** `data::ENCODED_SEQUENCES`: the codes of A..Z at 0..25 and of 0..9 at 26..35. */
  const EncodedSequences: seq<seq<Byte>> := [
    ".-", "-...", "-.-.", "-..", ".", "..-.", "--.", "....", "..", ".---", "-.-", ".-..", "--",
    "-.", "---", ".--.", "--.-", ".-.", "...", "-", "..-", "...-", ".--", "-..-", "-.--",
    "--..", "-----", ".----", "..---", "...--", "....-", ".....", "-....", "--...", "---..",
    "----."
  ]

  /** The number of entries of `data::DECODING_ARRAY`. */
  const DecodingArrayLength := 63

  /** `data::DECODING_ARRAY` read with `get`: the binary tree of codes stored as
      an array, root at 0 and the children of entry i at 2i+1 (a dot) and 2i+2
      (a dash); `None` for an empty entry and for any index past the end. The
      filled entries are listed one tree level per line. */
  function DecodingArray(idx: int): (entry: Option<Byte>)
    ensures entry.Some? ==> 0 <= idx < DecodingArrayLength
  {
    match idx
    case 1 => Some('E') case 2 => Some('T')
    case 3 => Some('I') case 4 => Some('A') case 5 => Some('N') case 6 => Some('M')
    case 7 => Some('S') case 8 => Some('U') case 9 => Some('R') case 10 => Some('W')
    case 11 => Some('D') case 12 => Some('K') case 13 => Some('G') case 14 => Some('O')
    case 15 => Some('H') case 16 => Some('V') case 17 => Some('F') case 19 => Some('L')
    case 21 => Some('P') case 22 => Some('J') case 23 => Some('B') case 24 => Some('X')
    case 25 => Some('C') case 26 => Some('Y') case 27 => Some('Z') case 28 => Some('Q')
    case 31 => Some('5') case 32 => Some('4') case 34 => Some('3') case 38 => Some('2')
    case 46 => Some('1') case 47 => Some('6') case 55 => Some('7') case 59 => Some('8')
    case 61 => Some('9') case 62 => Some('0')
    case _ => None
  }

  /** The symbols the transcoder knows: upper-case letters and digits. */
  predicate IsSymbol(c: Byte) { 'A' <= c <= 'Z' || IsDigit(c) }

  /** The symbol whose code sits at index `i` of `EncodedSequences`. */
  function Symbol(i: int): (c: Byte)
    requires 0 <= i < 36
    ensures IsSymbol(c)
  {
    if i < 26 then ('A' as int + i) as char else ('0' as int + i - 26) as char
  }

  /** The index of a symbol's code in `EncodedSequences`. */
  function SymbolIndex(c: Byte): (i: int)
    requires IsSymbol(c)
    ensures 0 <= i < 36 && Symbol(i) == c
  {
    if IsDigit(c) then c as int - '0' as int + 26 else c as int - 'A' as int
  }

  /** `encode_byte`: the code of an ASCII letter (either case) or digit. */
  function EncodeByte(u: Byte): (r: Result<seq<Byte>>)
    ensures r.Ok? <==> IsAlphanumeric(u)
    ensures r.Ok? ==> r.value == EncodedSequences[SymbolIndex(ToUpper(u))]
    ensures r.Err? ==> r.error == Encode(u)
  {
    if IsAlphabetic(u) then Ok(EncodedSequences[ToUpper(u) as int - 'A' as int])
    else if '0' <= u <= '9' then Ok(EncodedSequences[u as int - '0' as int + 26])
    else Err(Encode(u))
  }

  predicate IsMark(u: Byte) { u == '.' || u == '-' }

  /** The closure of the fold in `character_index`: a dot goes to the child
      2i+1 of slot i, a dash to the child 2i+2, any other byte stays put. */
  function IndexStep(idx: int, u: Byte): int
  {
    match u
    case '.' => idx * 2 + 1
    case '-' => idx * 2 + 2
    case _ => idx
  }

  /** The fold of `IndexStep` over `bytes`, starting from `idx`. */
  function IndexFrom(idx: int, bytes: seq<Byte>): (r: int)
    requires idx >= 0
    ensures r >= idx
    decreases |bytes|
  {
    if bytes == [] then idx else IndexFrom(IndexStep(idx, bytes[0]), bytes[1..])
  }

  /** `character_index`: walks the tree from the root. */
  function CharacterIndex(character: seq<Byte>): (idx: int)
    ensures idx >= 0
  {
    IndexFrom(0, character)
  }

  /** `decode_character`: the symbol in the tree slot the code leads to; an
      empty slot or an index past the array is an error naming the token. */
  function DecodeCharacter(character: seq<Byte>): (r: Result<Byte>)
    ensures r.Err? ==> r.error == Decode(character)
  {
    match DecodingArray(CharacterIndex(character))
    case Some(c) => Ok(c)
    case None => Err(Decode(character))
  }

  // ---------------------------------------------------------------------------
  // Encoding a message

  /** What `encode_message` appends for a byte after the first: " /" for a
      space, otherwise a space and the byte's code. */
  function EncodedPiece(u: Byte): Result<seq<Byte>>
  {
    if u == ' ' then Ok(" /")
    else match EncodeByte(u)
      case Ok(code) => Ok(Space + code)
      case Err(e) => Err(e)
  }

  /** The result of `encode_message`: the first byte's code, then a piece for
      each later byte; the first byte that fails is the error. */
  function EncodedMessage(message: seq<Byte>): (r: Result<seq<Byte>>)
    ensures r.Err? ==> r.error.Encode? && r.error.u in message && !IsAlphanumeric(r.error.u)
  {
    if message == [] then Ok([])
    else if |message| == 1 then EncodeByte(message[0])
    else match EncodedMessage(message[..|message| - 1])
      case Err(e) => Err(e)
      case Ok(prefix) =>
        match EncodedPiece(message[|message| - 1])
        case Err(e) => Err(e)
        case Ok(piece) => Ok(prefix + piece)
  }

  /** Once a prefix fails, the whole message fails with the same error. */
  lemma {:induction false} EncodedMessageErrorPersists(s: seq<Byte>, t: seq<Byte>)
    requires s != [] && EncodedMessage(s).Err?
    ensures EncodedMessage(s + t) == EncodedMessage(s)
    decreases |t|
  {
    if t == [] {
      assert s + t == s;
    } else {
      assert (s + t)[..|s + t| - 1] == s + t[..|t| - 1];
      EncodedMessageErrorPersists(s, t[..|t| - 1]);
    }
  }

  /** `encode_message`. */
  method EncodeMessage(message: seq<Byte>) returns (r: Result<seq<Byte>>)
    ensures r == EncodedMessage(message)
  {
    var buf: seq<Byte> := [];
    if |message| > 0 {
      var first := EncodeByte(message[0]);
      if first.Err? {
        assert message[..1] + message[1..] == message;
        EncodedMessageErrorPersists(message[..1], message[1..]);
        return Err(first.error);
      }
      buf := first.value;
    }
    var i := 1;
    while i < |message|
      invariant message != [] ==> 1 <= i <= |message| && EncodedMessage(message[..i]) == Ok(buf)
      invariant message == [] ==> buf == []
    {
      var u := message[i];
      assert message[..i + 1][..i] == message[..i];
      if u == ' ' {
        buf := buf + " /";
      } else {
        var code := EncodeByte(u);
        if code.Err? {
          assert message[..i + 1] + message[i + 1..] == message;
          EncodedMessageErrorPersists(message[..i + 1], message[i + 1..]);
          return Err(code.error);
        }
        assert EncodedPiece(u) == Ok(Space + code.value);
        assert buf + Space + code.value == buf + (Space + code.value);
        buf := buf + Space + code.value;
      }
      i := i + 1;
    }
    assert message != [] ==> message[..|message|] == message;
    return Ok(buf);
  }

  // ---------------------------------------------------------------------------
  // Decoding a message

  /** The symbols of a word's tokens, in order; the first token that does not
      decode is the error. */
  function DecodedTokens(tokens: seq<seq<Byte>>): (r: Result<seq<Byte>>)
    ensures r.Ok? ==> |r.value| == |tokens|
    ensures r.Err? ==> r.error.Decode? && r.error.code in tokens && DecodeCharacter(r.error.code).Err?
  {
    if tokens == [] then Ok([])
    else match DecodedTokens(tokens[..|tokens| - 1])
      case Err(e) => Err(e)
      case Ok(prefix) =>
        match DecodeCharacter(tokens[|tokens| - 1])
        case Err(e) => Err(e)
        case Ok(c) => Ok(prefix + [c])
  }

  lemma {:induction false} DecodedTokensErrorPersists(ts: seq<seq<Byte>>, us: seq<seq<Byte>>)
    requires DecodedTokens(ts).Err?
    ensures DecodedTokens(ts + us) == DecodedTokens(ts)
    decreases |us|
  {
    if us == [] {
      assert ts + us == ts;
    } else {
      assert (ts + us)[..|ts + us| - 1] == ts + us[..|us| - 1];
      DecodedTokensErrorPersists(ts, us[..|us| - 1]);
    }
  }

  /** The decoded words, joined with one space; the first word that fails is
      the error. */
  function DecodedWords(words: seq<seq<Byte>>): (r: Result<seq<Byte>>)
    ensures r.Err? ==> r.error.Decode? && DecodeCharacter(r.error.code).Err?
  {
    if words == [] then Ok([])
    else
      var last := DecodedTokens(SplitWhitespace(words[|words| - 1]));
      if |words| == 1 then last
      else match DecodedWords(words[..|words| - 1])
        case Err(e) => Err(e)
        case Ok(prefix) =>
          match last
          case Err(e) => Err(e)
          case Ok(word) => Ok(prefix + Space + word)
  }

  lemma {:induction false} DecodedWordsErrorPersists(ws: seq<seq<Byte>>, vs: seq<seq<Byte>>)
    requires ws != [] && DecodedWords(ws).Err?
    ensures DecodedWords(ws + vs) == DecodedWords(ws)
    decreases |vs|
  {
    if vs == [] {
      assert ws + vs == ws;
    } else {
      assert (ws + vs)[..|ws + vs| - 1] == ws + vs[..|vs| - 1];
      DecodedWordsErrorPersists(ws, vs[..|vs| - 1]);
    }
  }

  /** The result of `decode_message`: the input split on '/', each word split
      on whitespace. */
  function DecodedMessage(message: seq<Byte>): (r: Result<seq<Byte>>)
    ensures r.Err? ==> r.error.Decode? && DecodeCharacter(r.error.code).Err?
  {
    DecodedWords(Split(message, '/'))
  }

  /** The buffer after decoding `word` into `buf`: `buf` followed by the
      symbols of the word's tokens, or the error of the first token that fails. */
  function WordInto(word: seq<Byte>, buf: seq<Byte>): (r: Result<seq<Byte>>)
    ensures r.Ok? <==> DecodedTokens(SplitWhitespace(word)).Ok?
    ensures r.Ok? ==> r.value == buf + DecodedTokens(SplitWhitespace(word)).value
    ensures r.Err? ==> r.error == DecodedTokens(SplitWhitespace(word)).error
  {
    match DecodedTokens(SplitWhitespace(word))
    case Ok(symbols) => Ok(buf + symbols)
    case Err(e) => Err(e)
  }

  /** `decode_word_into`: appends the symbols of the word's tokens to `buf`
      (the buffer is passed in and handed back instead of borrowed mutably). */
  method DecodeWordInto(word: seq<Byte>, buf: seq<Byte>) returns (r: Result<seq<Byte>>)
    ensures r == WordInto(word, buf)
  {
    var characters := SplitWhitespace(word);
    var out := buf;
    ghost var symbols: seq<Byte> := [];
    // The source handles the first token apart from the others, with the same body.
    for i := 0 to |characters|
      invariant out == buf + symbols
      invariant DecodedTokens(characters[..i]) == Ok(symbols)
    {
      assert characters[..i + 1][..i] == characters[..i];
      var c := DecodeCharacter(characters[i]);
      if c.Err? {
        assert characters[..i + 1] + characters[i + 1..] == characters;
        DecodedTokensErrorPersists(characters[..i + 1], characters[i + 1..]);
        return Err(c.error);
      }
      out := out + [c.value];
      symbols := symbols + [c.value];
    }
    assert characters[..|characters|] == characters;
    return Ok(out);
  }

  /** Decoding one more word: a space, then that word's symbols. */
  lemma DecodedWordsAppend(ws: seq<seq<Byte>>, w: seq<Byte>)
    requires ws != [] && DecodedWords(ws).Ok?
    ensures DecodedWords(ws + [w]) == match DecodedTokens(SplitWhitespace(w))
                                      case Ok(symbols) => Ok(DecodedWords(ws).value + Space + symbols)
                                      case Err(e) => Err(e)
  {
    AppendPrefix(ws, [w]);
  }

  /** Decoding the first word into the empty buffer gives the first word's
      symbols; if that fails, the whole message fails with it. */
  lemma DecodedWordsFirst(words: seq<seq<Byte>>, out: Result<seq<Byte>>)
    requires words != []
    requires out == WordInto(words[0], [])
    ensures out.Ok? ==> DecodedWords(words[..1]) == out
    ensures out.Err? ==> DecodedWords(words) == out
  {
    assert words[..1] == [words[0]];
    if out.Ok? {
      var symbols := DecodedTokens(SplitWhitespace(words[0])).value;
      assert [] + symbols == symbols;
    } else {
      assert words[..1] + words[1..] == words;
      DecodedWordsErrorPersists(words[..1], words[1..]);
    }
  }

  /** Decoding word `i` after a space into the buffer of the words before it
      gives the buffer of the words up to `i`; if that fails, the whole
      message fails with it. */
  lemma DecodedWordsStep(words: seq<seq<Byte>>, i: int, buf: seq<Byte>, out: Result<seq<Byte>>)
    requires 1 <= i < |words| && DecodedWords(words[..i]) == Ok(buf)
    requires out == WordInto(words[i], buf + Space)
    ensures out.Ok? ==> DecodedWords(words[..i + 1]) == out
    ensures out.Err? ==> DecodedWords(words) == out
  {
    assert DecodedWords(words[..i + 1]) == out by {
      PrefixSnoc(words, i);
      DecodedWordsAppend(words[..i], words[i]);
    }
    if out.Err? {
      PrefixRest(words, i + 1);
      DecodedWordsErrorPersists(words[..i + 1], words[i + 1..]);
    }
  }

  /** `decode_message`. The split always yields a first word, so the loop over
      the remaining words starts at 1. */
  method DecodeMessage(message: seq<Byte>) returns (r: Result<seq<Byte>>)
    ensures r == DecodedMessage(message)
  {
    var words := Split(message, '/');
    var buf: seq<Byte> := [];
    if |words| > 0 {
      var out := DecodeWordInto(words[0], buf);
      DecodedWordsFirst(words, out);
      if out.Err? {
        return Err(out.error);
      }
      buf := out.value;
    }
    for i := 1 to |words|
      invariant DecodedWords(words[..i]) == Ok(buf)
    {
      var out := DecodeWordInto(words[i], buf + Space);
      DecodedWordsStep(words, i, buf, out);
      if out.Err? {
        return Err(out.error);
      }
      buf := out.value;
    }
    PrefixAll(words);
    return Ok(buf);
  }

  // ---------------------------------------------------------------------------
  // The pre-filter that `run` applies before encoding

  /** The bytes the pre-filter lets through. */
  predicate Retained(u: Byte) { u == ' ' || IsAlphanumeric(u) }

  /** The retained bytes of `s`, in order. */
  function Retain(s: seq<Byte>): (r: seq<Byte>)
    ensures forall k :: 0 <= k < |r| ==> Retained(r[k])
    ensures |r| <= |s|
  {
    if s == [] then []
    else Retain(s[..|s| - 1]) + (if Retained(s[|s| - 1]) then [s[|s| - 1]] else [])
  }

  /** The message `run` hands to `encode_message`: trimmed first, then filtered. */
  function PreFilter(raw: seq<Byte>): (r: seq<Byte>)
    ensures forall k :: 0 <= k < |r| ==> Retained(r[k])
    ensures |r| <= |raw|
  {
    Retain(Trim(raw))
  }

  /** The pre-filter with its two steps swapped: filtered first, then trimmed,
      so that no space can be left at the front of the message. */
  function CleanMessage(raw: seq<Byte>): seq<Byte>
  {
    Trim(Retain(raw))
  }
}
