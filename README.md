# Morse transcoder, modelled in Dafny

This project models the command-line Morse transcoder in `src/main.rs` and the
three character decoders compared in `benches/decode.rs`, and proves
properties of that model.

**The transcoder.**
- `encode` turns letters, digits and spaces into Morse:
  - codes are separated by one space;
  - a word break is written as ` /`.
- `decode` splits its input on `/` into words, and each word on whitespace
  into codes.
- A code is decoded by walking a binary tree that is stored as a flat array:
  - a dot goes to child 2i+1 and a dash to child 2i+2;
  - the tree has 63 slots.
- Before encoding, `run` trims the input and keeps only spaces and ASCII
  alphanumerics.

**The benchmark's three decoders.**
- A hash map from code to symbol.
- An older flat tree indexed by a signed offset: ±32 ±16 ±8 ±4 ±2, plus 62,
  into 125 slots.
- A copy of the program's heap-ordered tree.

**Modules, one per part of the program.**
- `Ascii` (`ascii.dfy`): the byte-level string operations the program takes
  from Rust's standard library:
  - `to_ascii_uppercase`;
  - `trim`;
  - `split`;
  - `split_whitespace`.
- `Morse` (`morse.dfy`):
  - the tables and `encode_byte`;
  - `character_index` and `decode_character`;
  - the imperative loops `encode_message`, `decode_word_into` and
    `decode_message`;
  - the filter in `run`.
  The loops are methods that append to a buffer. Each is proved equal to a
  specification function of its input.
- `MorseTable` (`morse_table.dfy`): what the two tables guarantee:
  - the tree index is injective and lands on the right level;
  - the decoding array inverts the code table;
  - the encoder is the decoder's inverse;
  - the unit test holds.
- `MorseMessage` (`morse_message.dfy`):
  - when `encode_message` succeeds, and the shape of what it writes;
  - what `decode_message` produces from the tokens of its input;
  - the round trip `decode_message(encode_message(s)) == uppercase(s)`.
- `MorseRun` (`morse_run.dfy`):
  - `run` as a function of the input text;
  - the pre-filter defect (see Findings) and its corrected version;
  - the round trip through the printed line.
- `Bench` (`bench.dfy`):
  - the three decoders of the benchmark;
  - the imperative `uncorrected_offset`;
  - the proofs that, on mark strings, all three agree with the program's
    decoder;
  - the benchmark workload.

**Modelling choices.**
- A byte is a `char` below 256 (`Ascii.Byte`), so string literals are byte
  strings, and Rust's `u as char` is the identity.
- A whitespace byte is one of the ASCII bytes with the White_Space property:
  the space and 0x09 to 0x0D.
- Errors are the datatype `Morse.Error`, and results are `Morse.Result`.

**Behaviour of the code worth knowing.**
- The code table is not prefix-free: the code of E is the start of the code
  of A (`MorseTable.TableNotPrefixFree`). The tree index is injective all the
  same, because the length of a code fixes its tree level.
- The flat-array decoders skip bytes other than `.` and `-` rather than
  reject them:
  - in `MorseTable.DecodeSkipsOtherBytes`, `.x` decodes to E;
  - `Bench.StrategiesDisagree` shows the three benchmark decoders giving
    three different answers for `x.`.
- `run`, not `decode_message`, trims the input before decoding it, and the
  model does the same: `MorseRun.Run`.
- The per-symbol encode error can still happen after the pre-filter (see
  Findings).

## Model

| member | source | states |
|---|---|---|
| Ascii.ToUpper | src/main.rs:189 | `to_ascii_uppercase`: a letter goes to the upper-case letter at the same alphabet position; any other byte is unchanged. |
| Ascii.ToUpperOffset | src/main.rs:189 | The alphabet position `upper(u) - 'A'` of a letter of either case is in 0..25. |
| Ascii.Upper | src/main.rs:189 | Upper-casing a string keeps its length and upper-cases every byte in place, each by Ascii.ToUpper. |
| Ascii.TrimStart | src/main.rs:131 | Drops exactly the leading whitespace: the result is a suffix, everything cut is whitespace, and the result does not start with whitespace. |
| Ascii.TrimEnd | src/main.rs:131 | Drops exactly the trailing whitespace: the result is a prefix, everything cut is whitespace, and the result does not end with whitespace. |
| Ascii.Trim | src/main.rs:128-141 | `str::trim`: the result neither starts nor ends with whitespace. |
| Ascii.TrimParts | src/main.rs:131 | The input is whitespace, then its trim, then whitespace. |
| Ascii.TrimPadded | src/main.rs:131 | Whitespace added around a string does not change its trim. |
| Ascii.TrimTrimmed | src/main.rs:131 | A string without whitespace at either end is its own trim. |
| Ascii.TrimSurrounded | src/main.rs:140 | Trimming whitespace-padded text that is already trimmed gives that text back. |
| Ascii.Split | src/main.rs:170 | `str::split` always yields at least one piece. |
| Ascii.SplitJoin | src/main.rs:170 | There is one more piece than separators, no piece holds the separator, and joining the pieces with the separator gives the input back. |
| Ascii.SplitAppendPiece | src/main.rs:170 | Separator-free text appended to the input extends the last piece. |
| Ascii.SplitNoSeparator | src/main.rs:170 | Text without the separator is a single piece. |
| Ascii.SplitWhitespace | src/main.rs:197 | `split_whitespace` yields non-empty whitespace-free tokens, at least one if the input ends in a non-whitespace byte. |
| Ascii.SplitWhitespaceAppendToken | src/main.rs:197 | A token after whitespace, or at the start, becomes exactly one more token. |
| Ascii.SplitWhitespaceToken | src/main.rs:197 | A single token splits into itself. |
| Morse.DecodingArray | src/main.rs:21-85 | `DECODING_ARRAY.get(idx)`: only indices 0..62 can hold a symbol. |
| Morse.Symbol | src/main.rs:14-19 | The symbol of table entry i, A..Z for i < 26 and 0..9 after, is an upper-case letter or digit. |
| Morse.SymbolIndex | src/main.rs:189-191 | Every symbol has a table index in 0..35 whose symbol it is. |
| Morse.EncodeByte | src/main.rs:184-194 | `encode_byte` succeeds exactly on ASCII letters and digits, gives the code of the upper-cased symbol, and otherwise fails with `Encode(u)`. |
| Morse.IndexFrom | src/main.rs:221-227 | The fold of `character_index` never decreases the index. |
| Morse.CharacterIndex | src/main.rs:220-227 | `character_index` is never negative, so `idx as usize` is the index itself. |
| Morse.DecodeCharacter | src/main.rs:210-218 | `decode_character` fails only with `Decode` naming the token. |
| Morse.EncodedMessage | src/main.rs:147-166 | `encode_message` fails only with `Encode` of a byte of the message that is neither a letter nor a digit (when it fails exactly: MorseMessage.EncodedMessageOk). |
| Morse.EncodedMessageErrorPersists | src/main.rs:151-163 | Once a prefix fails to encode, the whole message fails with the same error (the `?` returns at once). |
| Morse.EncodeMessage | src/main.rs:147-166 | The buffer loop of `encode_message` returns exactly the specified encoding of its input, the error included. |
| Morse.DecodedTokens | src/main.rs:196-208 | A decoded word has one symbol per token, and it fails only with `Decode` of one of its tokens that does not decode (token by token: MorseMessage.DecodedTokensExact). |
| Morse.DecodedTokensErrorPersists | src/main.rs:199-205 | Once a token fails, the tokens after it are never decoded and the error stays. |
| Morse.DecodedWords | src/main.rs:168-182 | Decoding the words fails only with `Decode` of a token that does not decode. |
| Morse.DecodedWordsErrorPersists | src/main.rs:172-179 | Once a word fails, the message fails with that error. |
| Morse.WordInto | src/main.rs:196-208 | After decoding a word into `buf`, the buffer is `buf` followed by the word's decoded tokens, or the error of the first failing token; which tokens decode and to what is MorseMessage.DecodedTokensExact, and Morse.DecodeWordInto is the loop it specifies. |
| Morse.DecodeWordInto | src/main.rs:196-208 | The loop of `decode_word_into` appends exactly the word's symbols to the buffer, or stops with the first token's error. |
| Morse.DecodedWordsAppend | src/main.rs:176-179 | Decoding one more word adds a space and that word's symbols. |
| Morse.DecodedWordsFirst | src/main.rs:172-174 | The first word decoded into the empty buffer is the decoding of the first word; its failure is the message's. |
| Morse.DecodedWordsStep | src/main.rs:176-179 | The loop step keeps the invariant "buffer = decoding of the words so far"; a failure is the message's failure. |
| Morse.DecodedMessage | src/main.rs:168-182 | `decode_message` fails only with `Decode` of a token that does not decode (the full result: MorseMessage.DecodedMessageSpec). |
| Morse.DecodeMessage | src/main.rs:168-182 | The loop of `decode_message` returns exactly the specified decoding of its input, the error included. |
| Morse.Retain | src/main.rs:133 | The filter keeps exactly the spaces and alphanumerics, in order (with MorseRun.RetainOne, MorseRun.RetainAppend, MorseRun.RetainDrops and MorseRun.RetainKeeps); it never lengthens the input. |
| Morse.PreFilter | src/main.rs:130-135 | The encode pre-filter yields only spaces and alphanumerics and never lengthens its input (which bytes it keeps: MorseRun.RetainOne, MorseRun.RetainDrops and MorseRun.RetainKeeps; its effect on encoding: MorseRun.RunEncodeFails). |
| MorseTable.Marks | src/main.rs:222-226 | The marks of a token, in order, form a mark string. |
| MorseTable.IndexFromAppend | src/main.rs:222-226 | One more byte at the end is one more fold step at the end. |
| MorseTable.IndexOfPath | src/main.rs:221-227 | Following the dot/dash path to slot h gives index h. |
| MorseTable.PathOfIndex | src/main.rs:221-227 | A mark string is the path to its own index, so the index loses nothing. |
| MorseTable.CharacterIndexInjective | src/main.rs:221-227 | Distinct mark strings have distinct indices. |
| MorseTable.CharacterIndexRange | src/main.rs:221-227 | A mark string of length k has its index in [2^k - 1, 2^(k+1) - 2]. |
| MorseTable.CharacterIndexSkips | src/main.rs:225 | Bytes other than `.` and `-` leave the index unchanged: the index of a token is that of its marks. |
| MorseTable.MarksOfMarks | src/main.rs:222-226 | A mark string is its own mark string. |
| MorseTable.CodesAreMarks | src/main.rs:14-19 | Every code is a string of dots and dashes. |
| MorseTable.CodesAtSlots | src/main.rs:14-85 | Every code leads to a slot of `DECODING_ARRAY` holding the code's own symbol. |
| MorseTable.SlotsHold | src/main.rs:21-85 | Every filled slot holds a symbol whose code leads back to that slot. |
| MorseTable.Pow2Monotone | src/main.rs:221-227 | Tree levels grow with code length. |
| MorseTable.SymbolInjective | src/main.rs:14-19 | Distinct table entries have distinct symbols. |
| MorseTable.CodesWellFormed | src/main.rs:14-19 | Every code has one to five marks, and the 36 codes are pairwise distinct. |
| MorseTable.TableNotPrefixFree | src/main.rs:15 | The code of E is a proper prefix of the code of A. |
| MorseTable.DecodeCode | src/main.rs:210-218 | `decode_character(ENCODED_SEQUENCES[i])` is symbol i, for every i. |
| MorseTable.DecodeCharacterExact | src/main.rs:210-227 | A token decodes exactly when its marks form one of the 36 codes, and then to that code's symbol. |
| MorseTable.DecodeCharacterCode | src/main.rs:210-227 | A token decodes to c exactly when c is a symbol whose code the token's marks spell. |
| MorseTable.DecodeEmpty | src/main.rs:22 | The empty token fails, because slot 0 is empty. |
| MorseTable.DecodeTooLong | src/main.rs:210-227 | Six or more marks give an index of 63 or more and fail with `Decode`. |
| MorseTable.DecodedIsSymbol | src/main.rs:21-85 | Every decoded byte is an upper-case letter or a digit. |
| MorseTable.DecodeSkipsOtherBytes | src/main.rs:225 | `.x` decodes to E and `x-` to T; `x` fails. |
| MorseTable.EncodeByteIndex | src/main.rs:188-191 | A letter encodes to entry `upper(u) - 'A'` and a digit to entry `u - '0' + 26`, both inside the table. |
| MorseTable.EncodeByteMarks | src/main.rs:184-194 | The code of a letter or digit is a non-empty mark string without space or slash. |
| MorseTable.EncodeByteCaseInsensitive | src/main.rs:188-190 | Upper and lower case give the same code. |
| MorseTable.EncodeDecode | src/main.rs:184-218 | Decoding the code of a letter or digit gives the byte upper-cased. |
| MorseTable.DecodeEncode | src/main.rs:184-218 | Encoding the symbol of a decoded token gives back the token's marks. |
| MorseTable.EncodeLetter | src/main.rs:189 | The i-th lower-case letter encodes to code i. |
| MorseTable.EncodeDigit | src/main.rs:191 | The i-th digit encodes to code i + 26. |
| MorseTable.CharToCodeWorks | src/main.rs:229-240 | The unit test: `a`..`z` then `0`..`9` encode, in order, to the 36 table codes. |
| MorseMessage.EncodedMessageAppend | src/main.rs:155-163 | Encoding one more byte appends that byte's piece or fails. |
| MorseMessage.EncodedMessageOk | src/main.rs:147-194 | `encode_message` succeeds exactly when every byte is a letter or digit, or a space that is not the first byte; otherwise it fails with `Encode` of the first such byte. |
| MorseMessage.EncodeLeadingSpace | src/main.rs:151-153 | A message starting with a space fails with `Encode(' ')`. |
| MorseMessage.PieceShape | src/main.rs:156-162 | A later byte's piece is ` /` for a space, or a space and a mark string. |
| MorseMessage.EncodedMessageShape | src/main.rs:147-166 | The output holds only marks, spaces and slashes, one slash per input space, and one separating space per byte after the first. |
| MorseMessage.DecodedTokensExact | src/main.rs:196-218 | Tokens decode exactly when each does; then to one symbol per token in order; otherwise to the first failing token's error. |
| MorseMessage.DecodedTokensAppend | src/main.rs:199-205 | Decoding two token runs one after the other concatenates their symbols. |
| MorseMessage.Unspaced | src/main.rs:177 | The text without its spaces holds no space. |
| MorseMessage.DecodedTokensSymbols | src/main.rs:200-204 | Decoded tokens are all symbols and hold no space. |
| MorseMessage.DecodedWordsTokens | src/main.rs:168-208 | Decoding the words is decoding all their tokens in a row, with one space per word boundary added. |
| MorseMessage.DecodedMessageSpec | src/main.rs:168-208 | `decode_message` succeeds exactly when all tokens decode. Then the output holds one space per `/` of the input, and, without its spaces, the symbols of all tokens in order. Otherwise it fails with `Decode` of the first failing token. |
| MorseMessage.DecodeAppendSlash | src/main.rs:157 | Appending ` /` to encoded text appends one space to its decoding. |
| MorseMessage.DecodeAppendToken | src/main.rs:159-160 | Appending a space and a code to encoded text appends that code's symbol to its decoding. |
| MorseMessage.DecodeSingleToken | src/main.rs:168-208 | A single code decodes to its one symbol. |
| MorseMessage.RoundTripStep | src/main.rs:147-208 | One more letter, digit or space keeps the round trip. |
| MorseMessage.RoundTrip | src/main.rs:147-227 | For letters, digits and spaces not starting with a space, encoding succeeds and decoding gives the message upper-cased. |
| MorseMessage.HelloWorldEncodes | src/main.rs:147-166 | `encode_message("Hello World")` is `.... . .-.. .-.. --- / .-- --- .-. .-.. -..`. |
| MorseMessage.HelloWorldDecodes | src/main.rs:168-208 | Decoding that line gives `HELLO WORLD`. |
| MorseRun.Run | src/main.rs:121-145 | Whatever the sub-command and input, a printed line ends in a newline. |
| MorseRun.RunDecodeFails | src/main.rs:139-141 | `run decode` fails only with `Decode` of a token that does not decode. |
| MorseRun.Line | src/main.rs:136-140 | The printed line is the result followed by a newline, or the error `run` returns; what that line holds after an encode is MorseRun.RunRoundTrip. |
| MorseRun.RetainAppend | src/main.rs:133 | The filter distributes over concatenation. |
| MorseRun.RetainOne | src/main.rs:133 | A space or an alphanumeric byte is kept, any other byte is dropped. |
| MorseRun.RetainDrops | src/main.rs:133 | A byte other than a space or an alphanumeric never occurs in the output. |
| MorseRun.RetainKeeps | src/main.rs:133 | Every space and alphanumeric occurs in the output as often as in the input. |
| MorseRun.RetainAll | src/main.rs:133 | Text of spaces and alphanumerics passes the filter unchanged. |
| MorseRun.RetainWhitespace | src/main.rs:133 | The filter keeps only spaces of whitespace. |
| MorseRun.RetainedEncodes | src/main.rs:133-153 | Filtered text encodes exactly when it does not start with a space; otherwise it fails with `Encode(' ')`. |
| MorseRun.EncodedMessageEnds | src/main.rs:147-166 | Encoded text starts with a mark and never ends with whitespace. |
| MorseRun.PipelineRoundTrip | src/main.rs:136-227 | The printed encoding, trimmed and decoded, gives the message upper-cased. |
| MorseRun.RunEncodeFails | src/main.rs:130-136 | `run encode` fails exactly when the filtered text starts with a space, with `Encode(' ')`. |
| MorseRun.RunRoundTrip | src/main.rs:128-141 | Whenever `run encode` succeeds, `run decode` on its output gives the filtered input upper-cased, plus a newline. |
| MorseRun.PreFilterLeadingSpace | src/main.rs:130-136 | The pre-filter as written turns `! hi` into ` hi`, which `run encode` rejects with `Encode(' ')`. |
| MorseRun.PreFilterNotIdempotent | src/main.rs:130-135 | The pre-filter as written is not idempotent: applied twice to `! hi` it gives `hi`, not ` hi`. |
| MorseRun.CleanMessageTrimsPreFilter | src/main.rs:130-135 | The corrected pre-filter (filter, then trim) is the one as written followed by a trim. |
| MorseRun.CleanMessageShape | src/main.rs:130-135 | The corrected pre-filter yields only spaces and alphanumerics, with no space at either end. |
| MorseRun.CleanMessageIdempotent | src/main.rs:130-135 | The corrected pre-filter is idempotent. |
| MorseRun.CleanMessageAgrees | src/main.rs:130-135 | Where the pre-filter as written leaves no space at either end, the corrected one gives the same text. |
| MorseRun.RetainedTrimmed | src/main.rs:131-133 | Filtered text without a space at either end is already trimmed. |
| MorseRun.RunCorrected | src/main.rs:121-145 | With the corrected pre-filter, a printed line still ends in a newline. |
| MorseRun.RunCorrectedRoundTrip | src/main.rs:128-141 | With the corrected pre-filter, `run encode` succeeds on every input, and `run decode` then gives the filtered input upper-cased. |
| Bench.SameSequences | benches/decode.rs:29-34 | The benchmark's code table equals the program's. |
| Bench.Zip | benches/decode.rs:241-247 | `zip` pairs equal positions, as many as the shorter side has. |
| Bench.CollectKeys | benches/decode.rs:250 | The collected map's keys are exactly the pairs' keys. |
| Bench.CollectValue | benches/decode.rs:250 | With distinct keys, every key maps to its paired value. |
| Bench.DecoderPairsAt | benches/decode.rs:240-250 | Pair j of `letters.chain(numbers)` is code j with symbol j. |
| Bench.NewDecoderCodes | benches/decode.rs:237-252 | `CharacterDecoder::new` maps exactly the 36 codes, code j to symbol j. |
| Bench.MapDecode | benches/decode.rs:254-260 | `decode` gives the map hit, or `Decode(character)` on a miss; which tokens hit, and with which symbol, is Bench.MapDecodeExact. |
| Bench.MapDecodeExact | benches/decode.rs:237-260 | The map decoder succeeds exactly on the 36 codes, with the code's symbol, and fails with `Decode` on anything else. |
| Bench.OffsetArray | benches/decode.rs:36-162 | Only even indices 0..124 of the benchmark's `DECODING_ARRAY` hold a symbol. |
| Bench.OffsetFrom | benches/decode.rs:281-288 | From increment h ≥ 1 the fold moves the offset by less than 2h, and from increment 0 not at all. |
| Bench.Offset | benches/decode.rs:276-291 | The offset `uncorrected_offset` computes is in [-63, 63] (sharper: Bench.OffsetRange). |
| Bench.UncorrectedOffset | benches/decode.rs:276-291 | The loop of `uncorrected_offset` computes the specified offset. |
| Bench.OffsetDecodeCharacter | benches/decode.rs:263-274 | A negative index or one of 125 or more fails, and the error names the token. |
| Bench.OffsetFromShift | benches/decode.rs:281-288 | The start value only shifts the offset. |
| Bench.OffsetFromFirst | benches/decode.rs:281-288 | The offset is the first byte's signed weight plus the rest at half the increment. |
| Bench.OffsetFromSpent | benches/decode.rs:287 | Once the increment is 0, further bytes add nothing. |
| Bench.OffsetFromBound | benches/decode.rs:281-288 | From increment 2^m, k ≤ m bytes give an even offset of size at most 2^(m+1) - 2^(m+1-k). |
| Bench.OffsetFromLimit | benches/decode.rs:281-288 | From increment h ≥ 1, any bytes give an offset of size below 2h. |
| Bench.OffsetFromOdd | benches/decode.rs:281-288 | From increment 2^m, a mark at position m makes the offset odd. |
| Bench.OffsetFromSign | benches/decode.rs:281-288 | The first of at most m marks decides the offset's sign. |
| Bench.OffsetFromInjective | benches/decode.rs:281-288 | From increment 2^m, mark strings of length at most m have distinct offsets. |
| Bench.OffsetRange | benches/decode.rs:276-291 | The offset is in [-63, 63]. With at most five bytes it is even and in [-62, 62]. A mark as sixth byte makes it odd. |
| Bench.OffsetInjective | benches/decode.rs:276-291 | Mark strings of at most five marks have distinct offsets. |
| Bench.OffsetFromAppend | benches/decode.rs:281-288 | One more byte at the end is one more step, at the increment halved once per earlier byte. |
| Bench.HalvedFrom32 | benches/decode.rs:279-287 | After k ≤ 4 bytes the increment is 32 / 2^k. |
| Bench.OffsetOfIndex | benches/decode.rs:268-291 | For at most five marks, offset + 62 is the offset-table entry standing for the token's heap-tree slot. |
| Bench.TreesAgree | benches/decode.rs:36-162 | Slot by slot, the offset table holds the program's heap tree (src/main.rs:21-85). |
| Bench.OffsetAgrees | benches/decode.rs:263-291 | On mark strings, the offset decoder gives exactly what the program's `decode_character` gives. |
| Bench.OffsetDecodeExact | benches/decode.rs:263-291 | On mark strings, the offset decoder succeeds exactly on the 36 codes, with the code's symbol. |
| Bench.OffsetDecodeEmpty | benches/decode.rs:99 | The empty token gives index 62, which is empty, so it fails. |
| Bench.OffsetDecodeTooLong | benches/decode.rs:268-291 | Six or more marks give an odd index, and every odd entry is empty, so decoding fails. |
| Bench.ExactDecodersAgree | benches/decode.rs:255-274 | Two decoders that each succeed exactly on the codes, with the code's symbol, are equal. |
| Bench.MapAgrees | benches/decode.rs:237-260 | On mark strings, the map decoder gives exactly what the program's `decode_character` gives. |
| Bench.DecodingArray2 | benches/decode.rs:164-228 | `DECODING_ARRAY_2.get(idx)`: only indices 0..62 can hold a symbol (entry by entry: Bench.DecodingArraysEqual). |
| Bench.DecodingArraysEqual | benches/decode.rs:164-228 | `DECODING_ARRAY_2` equals the program's `DECODING_ARRAY` entry for entry. |
| Bench.DecodeCharacterHeap | benches/decode.rs:293-301 | `decode_character_heap` fails only with `Decode` naming the token. |
| Bench.HeapAgrees | benches/decode.rs:293-310 | On every input, the heap decoder gives exactly what the program's `decode_character` gives. |
| Bench.Workload | benches/decode.rs:314-319 | The workload is the table cycled: entry i is code i mod 36. |
| Bench.BenchmarkDecodes | benches/decode.rs:312-344 | Every call the benchmark makes succeeds, so no `unwrap` panics, and the three decoders give the same symbol, i mod 36. |
| Bench.StrategiesDisagree | benches/decode.rs:255-310 | On `x.` the heap decoder gives E, because it skips `x`. The offset decoder gives A, because it halves the increment for `x`. The map decoder rejects the token. |

## Left out

- Process plumbing is not modelled: `main`, reading standard input, `println!`/`eprintln!`, `process::exit` and clap's `Opts` parsing. `MorseRun.Run` takes the input text and the sub-command as parameters and returns the printed line.
- The `Io` variant of `Error` and both `Display` impls are not modelled: they produce error text only.
- The benchmark's `Error` is not a separate type. It has only the `Decode` variant, so the model reuses `Morse.Error`.
- The benchmark's `character_index` is not modelled twice: it is identical to the program's, so `Bench.DecodeCharacterHeap` uses `Morse.CharacterIndex`.
- The timing code is not modelled: criterion, `black_box`, `bench_function`. `Bench.Workload` covers the workload for any length, 1000 included.
- hashbrown's `HashMap` is not modelled. It is a Dafny `map`, and `collect` inserts in order.
- Morse.CharacterIndex: does not model `i32` overflow, which happens from about 30 marks on, because the index is a mathematical integer.
- Bench.OffsetDecodeCharacter: models the cast of a negative `i32` to `usize` only as "past the end", which is what `get` makes of the huge value it wraps to.
- Whitespace is byte-level: `trim` and `split_whitespace` see single bytes. Multi-byte UTF-8 whitespace, such as U+00A0 or U+2003, is not modelled.
- Each table read with `get` is a function from index to entry: `DECODING_ARRAY` is `Morse.DecodingArray`, and the benchmark's two arrays are `Bench.OffsetArray` and `Bench.DecodingArray2`. The array length is a constant beside the function.
- The `&mut String` buffer of `decode_word_into` is passed in and returned rather than borrowed, so `Morse.DecodeWordInto` returns the new buffer.
- `encode_message` reserves `message.len() * 4` bytes of capacity up front. Capacity has no effect on the result and is not modelled.

## Findings

| source | as written | input that shows it | evidently intended | confidence | as-written member | corrected member |
|---|---|---|---|---|---|---|
| src/main.rs:130-136 | The encode pre-filter trims and then drops bytes other than spaces and alphanumerics. A dropped byte can leave a space at the front. `encode_message` passes its first byte to `encode_byte`, which rejects a space. The pre-filter is also not idempotent. | `! hi` is filtered to ` hi`, and encoding fails with `Encode(' ')`. Filtering ` hi` again gives `hi`. | A permissive filter that never makes encoding fail: filter first, then trim. It is idempotent, and every filtered input encodes and round-trips. | not executed | MorseRun.PreFilterLeadingSpace, MorseRun.PreFilterNotIdempotent | MorseRun.RunCorrectedRoundTrip, MorseRun.CleanMessageIdempotent |
