/** What `encode_message` and `decode_message` of src/main.rs guarantee: when
    encoding succeeds and what it produces, how decoding splits into tokens,
    and the round trip from a message of letters, digits and spaces. */
module MorseMessage {
  import opened Ascii
  import opened Morse
  import opened MorseTable

  // ---------------------------------------------------------------------------
  // Encoding

  /** Byte `i` of `s` can be encoded: a letter or digit, or a space after the
      first byte (the first byte always goes to `encode_byte`). */
  predicate CanEncodeAt(s: seq<Byte>, i: int)
    requires 0 <= i < |s|
  {
    IsAlphanumeric(s[i]) || (i > 0 && s[i] == ' ')
  }

  predicate Encodable(s: seq<Byte>)
  {
    forall i | 0 <= i < |s| :: CanEncodeAt(s, i)
  }

  /** `k` is the first byte of `s` that cannot be encoded. */
  predicate FirstUnencodable(s: seq<Byte>, k: int)
  {
    0 <= k < |s| && !CanEncodeAt(s, k) && forall i | 0 <= i < k :: CanEncodeAt(s, i)
  }

  /** One byte more: the message so far, then the piece of the new byte. */
  lemma EncodedMessageAppend(s: seq<Byte>, u: Byte)
    requires s != []
    ensures EncodedMessage(s + [u]) == match EncodedMessage(s)
                                       case Err(e) => Err(e)
                                       case Ok(prefix) =>
                                         match EncodedPiece(u)
                                         case Err(e) => Err(e)
                                         case Ok(piece) => Ok(prefix + piece)
  {
    AppendPrefix(s, [u]);
  }

  /** `encode_message` succeeds exactly when every byte is a letter or digit,
      or a space that is not the first byte; otherwise it fails on the first
      byte that is neither. */
  lemma {:induction false} EncodedMessageOk(s: seq<Byte>)
    ensures EncodedMessage(s).Ok? <==> Encodable(s)
    ensures EncodedMessage(s).Err? ==>
              exists k :: FirstUnencodable(s, k) && EncodedMessage(s).error == Encode(s[k])
    decreases |s|
  {
    if |s| == 1 {
      assert !CanEncodeAt(s, 0) ==> FirstUnencodable(s, 0);
    } else if |s| > 1 {
      var p, u := s[..|s| - 1], s[|s| - 1];
      LastSplit(s);
      EncodedMessageOk(p);
      EncodedMessageAppend(p, u);
      assert forall i | 0 <= i < |p| :: CanEncodeAt(p, i) == CanEncodeAt(s, i);
      if EncodedMessage(p).Err? {
        var k :| FirstUnencodable(p, k) && EncodedMessage(p).error == Encode(p[k]);
        assert FirstUnencodable(s, k);
      } else if !CanEncodeAt(s, |s| - 1) {
        assert FirstUnencodable(s, |s| - 1);
      }
    }
  }

  /** A message that starts with a space cannot be encoded. */
  lemma EncodeLeadingSpace(s: seq<Byte>)
    requires s != [] && s[0] == ' '
    ensures EncodedMessage(s) == Err(Encode(' '))
  {
    EncodedMessageOk(s);
    assert !CanEncodeAt(s, 0);
    var k :| FirstUnencodable(s, k) && EncodedMessage(s).error == Encode(s[k]);
    assert k == 0;
  }

  /** The bytes `encode_message` writes. */
  predicate IsCodeText(u: Byte) { IsMark(u) || u == ' ' || u == '/' }

  /** The shape of `out` as the encoding of `s`: marks, spaces and slashes
      only; one slash per space of `s`; one space in front of every piece after
      the first. */
  predicate EncodedShape(s: seq<Byte>, out: seq<Byte>)
  {
    (forall k | 0 <= k < |out| :: IsCodeText(out[k])) &&
    Count(out, '/') == Count(s, ' ') &&
    (s != [] ==> Count(out, ' ') == |s| - 1)
  }

  lemma CountSingle(u: Byte, x: Byte)
    ensures Count([u], x) == if u == x then 1 else 0
  {
    assert [u][..0] == [];
  }

  /** The piece of a later byte: " /" for a space, a space and the code for a
      letter or digit. */
  lemma PieceShape(u: Byte)
    requires EncodedPiece(u).Ok?
    ensures var piece := EncodedPiece(u).value;
            (forall k | 0 <= k < |piece| :: IsCodeText(piece[k])) &&
            Count(piece, '/') == (if u == ' ' then 1 else 0) &&
            Count(piece, ' ') == 1
  {
    var piece := EncodedPiece(u).value;
    if u == ' ' {
      assert piece == Space + ['/'];
      CountAppend(Space, ['/'], '/');
      CountAppend(Space, ['/'], ' ');
      CountSingle(' ', '/');
      CountSingle('/', '/');
      CountSingle(' ', ' ');
      CountSingle('/', ' ');
    } else {
      var code := EncodeByte(u).value;
      EncodeByteMarks(u);
      assert piece == Space + code;
      CountAbsent(code, '/');
      CountAbsent(code, ' ');
      CountAppend(Space, code, '/');
      CountAppend(Space, code, ' ');
      CountSingle(' ', '/');
      CountSingle(' ', ' ');
    }
  }

  lemma ShapeStep(p: seq<Byte>, u: Byte, prefix: seq<Byte>, piece: seq<Byte>)
    requires p != [] && EncodedShape(p, prefix)
    requires forall k | 0 <= k < |piece| :: IsCodeText(piece[k])
    requires Count(piece, '/') == (if u == ' ' then 1 else 0) && Count(piece, ' ') == 1
    ensures EncodedShape(p + [u], prefix + piece)
  {
    CountAppend(prefix, piece, '/');
    CountAppend(prefix, piece, ' ');
    CountAppend(p, [u], ' ');
    CountSingle(u, ' ');
  }

  /** What `encode_message` writes: marks, spaces and slashes only; one slash
      per space of the message; one space in front of every piece after the
      first. */
  lemma {:induction false} EncodedMessageShape(s: seq<Byte>)
    requires EncodedMessage(s).Ok?
    ensures EncodedShape(s, EncodedMessage(s).value)
    decreases |s|
  {
    if |s| == 1 {
      var code := EncodedMessage(s).value;
      EncodeByteMarks(s[0]);
      CountAbsent(code, '/');
      CountAbsent(code, ' ');
      CountSingle(s[0], ' ');
      assert s == [s[0]];
    } else if |s| > 1 {
      var p, u := s[..|s| - 1], s[|s| - 1];
      LastSplit(s);
      EncodedMessageAppend(p, u);
      EncodedMessageShape(p);
      PieceShape(u);
      ShapeStep(p, u, EncodedMessage(p).value, EncodedPiece(u).value);
    }
  }

  // ---------------------------------------------------------------------------
  // Decoding

  /** A token sequence decodes, token by token, exactly when every token
      decodes; otherwise the first token that does not is the error. */
  lemma {:induction false} DecodedTokensExact(ts: seq<seq<Byte>>)
    ensures DecodedTokens(ts).Ok? <==> forall k | 0 <= k < |ts| :: DecodeCharacter(ts[k]).Ok?
    ensures DecodedTokens(ts).Ok? ==>
              |DecodedTokens(ts).value| == |ts| &&
              forall k | 0 <= k < |ts| :: DecodedTokens(ts).value[k] == DecodeCharacter(ts[k]).value
    ensures DecodedTokens(ts).Err? ==>
              exists k :: 0 <= k < |ts| && DecodeCharacter(ts[k]).Err? &&
                          (forall i | 0 <= i < k :: DecodeCharacter(ts[i]).Ok?) &&
                          DecodedTokens(ts).error == Decode(ts[k])
    decreases |ts|
  {
    if ts != [] {
      var p := ts[..|ts| - 1];
      DecodedTokensExact(p);
      assert forall k | 0 <= k < |p| :: p[k] == ts[k];
      if DecodedTokens(p).Err? {
        var k :| 0 <= k < |p| && DecodeCharacter(p[k]).Err? &&
                 (forall i | 0 <= i < k :: DecodeCharacter(p[i]).Ok?) &&
                 DecodedTokens(p).error == Decode(p[k]);
        assert DecodeCharacter(ts[k]).Err?;
      } else if DecodeCharacter(ts[|ts| - 1]).Err? {
        assert DecodedTokens(ts).error == Decode(ts[|ts| - 1]);
      }
    }
  }

  /** Decoding two token sequences one after the other. */
  lemma {:induction false} DecodedTokensAppend(ts: seq<seq<Byte>>, us: seq<seq<Byte>>)
    ensures DecodedTokens(ts + us) == match DecodedTokens(ts)
                                      case Err(e) => Err(e)
                                      case Ok(a) =>
                                        match DecodedTokens(us)
                                        case Err(e) => Err(e)
                                        case Ok(b) => Ok(a + b)
    decreases |us|
  {
    if us == [] {
      assert ts + us == ts;
      if DecodedTokens(ts).Ok? {
        assert DecodedTokens(ts).value + [] == DecodedTokens(ts).value;
      }
    } else {
      var q := us[..|us| - 1];
      assert (ts + us)[..|ts + us| - 1] == ts + q;
      assert (ts + us)[|ts + us| - 1] == us[|us| - 1];
      DecodedTokensAppend(ts, q);
      if DecodedTokens(ts).Ok? && DecodedTokens(q).Ok? {
        var a, b := DecodedTokens(ts).value, DecodedTokens(q).value;
        if DecodeCharacter(us[|us| - 1]).Ok? {
          var c := DecodeCharacter(us[|us| - 1]).value;
          assert a + b + [c] == a + (b + [c]);
        }
      }
    }
  }

  /** The tokens of all the words, in order. */
  function AllTokens(words: seq<seq<Byte>>): seq<seq<Byte>>
  {
    if words == [] then []
    else AllTokens(words[..|words| - 1]) + SplitWhitespace(words[|words| - 1])
  }

  /** `s` without its spaces. */
  function Unspaced(s: seq<Byte>): (r: seq<Byte>)
    ensures ' ' !in r
  {
    if s == [] then []
    else Unspaced(s[..|s| - 1]) + (if s[|s| - 1] == ' ' then [] else [s[|s| - 1]])
  }

  lemma {:induction false} UnspacedAppend(a: seq<Byte>, b: seq<Byte>)
    ensures Unspaced(a + b) == Unspaced(a) + Unspaced(b)
    decreases |b|
  {
    if b == [] {
      assert a + b == a;
    } else {
      assert (a + b)[..|a + b| - 1] == a + b[..|b| - 1];
      UnspacedAppend(a, b[..|b| - 1]);
    }
  }

  lemma {:induction false} UnspacedNoSpace(s: seq<Byte>)
    requires ' ' !in s
    ensures Unspaced(s) == s
    decreases |s|
  {
    if s != [] {
      LastSplit(s);
      UnspacedNoSpace(s[..|s| - 1]);
    }
  }

  /** The symbols of a decoded token sequence hold no space. */
  lemma DecodedTokensSymbols(ts: seq<seq<Byte>>)
    requires DecodedTokens(ts).Ok?
    ensures forall k | 0 <= k < |DecodedTokens(ts).value| :: IsSymbol(DecodedTokens(ts).value[k])
    ensures ' ' !in DecodedTokens(ts).value
  {
    DecodedTokensExact(ts);
    forall k | 0 <= k < |ts| ensures IsSymbol(DecodedTokens(ts).value[k]) {
      DecodedIsSymbol(ts[k]);
    }
  }

  /** Decoding the words `ws` is decoding all their tokens in a row: it fails
      on the same token, and on success it gives the same symbols with one
      space between neighbouring words. */
  predicate WordsAsTokens(ws: seq<seq<Byte>>)
  {
    var r, t := DecodedWords(ws), DecodedTokens(AllTokens(ws));
    (r.Ok? <==> t.Ok?) &&
    (r.Err? ==> r.error == t.error) &&
    (r.Ok? ==> Unspaced(r.value) == t.value && Count(r.value, ' ') == |ws| - 1)
  }

  lemma WordsAsTokensOne(w: seq<Byte>)
    ensures WordsAsTokens([w])
  {
    var words := SplitWhitespace(w);
    var none: seq<seq<Byte>> := [];
    assert [w][..0] == none;
    assert AllTokens([w]) == none + words;
    assert none + words == words;
    if DecodedTokens(words).Ok? {
      DecodedTokensSymbols(words);
      UnspacedNoSpace(DecodedTokens(words).value);
      CountAbsent(DecodedTokens(words).value, ' ');
    }
  }

  /** Joining with a space adds one space and nothing else. */
  lemma JoinedWithSpace(prefix: seq<Byte>, word: seq<Byte>)
    requires ' ' !in word
    ensures Unspaced(prefix + Space + word) == Unspaced(prefix) + word
    ensures Count(prefix + Space + word, ' ') == Count(prefix, ' ') + 1
  {
    var a := prefix + Space;
    assert Unspaced(a) == Unspaced(prefix) by {
      UnspacedAppend(prefix, Space);
      assert Space[..0] == [];
      assert Unspaced(prefix) + [] == Unspaced(prefix);
    }
    assert Unspaced(a + word) == Unspaced(a) + word by {
      UnspacedAppend(a, word);
      UnspacedNoSpace(word);
    }
    assert Count(a, ' ') == Count(prefix, ' ') + 1 by {
      CountAppend(prefix, Space, ' ');
      CountSingle(' ', ' ');
    }
    assert Count(a + word, ' ') == Count(a, ' ') by {
      CountAppend(a, word, ' ');
      CountAbsent(word, ' ');
    }
  }

  lemma WordsAsTokensStep(p: seq<seq<Byte>>, w: seq<Byte>)
    requires p != [] && WordsAsTokens(p)
    ensures WordsAsTokens(p + [w])
  {
    var ws := p + [w];
    assert ws[..|ws| - 1] == p;
    var words := SplitWhitespace(w);
    assert AllTokens(ws) == AllTokens(p) + words;
    DecodedTokensAppend(AllTokens(p), words);
    if DecodedWords(p).Ok? && DecodedTokens(words).Ok? {
      var prefix, word := DecodedWords(p).value, DecodedTokens(words).value;
      assert DecodedWords(ws) == Ok(prefix + Space + word);
      DecodedTokensSymbols(words);
      JoinedWithSpace(prefix, word);
    }
  }

  lemma {:induction false} DecodedWordsTokens(ws: seq<seq<Byte>>)
    requires ws != []
    ensures WordsAsTokens(ws)
    decreases |ws|
  {
    if |ws| == 1 {
      assert ws == [ws[0]];
      WordsAsTokensOne(ws[0]);
    } else {
      var p := ws[..|ws| - 1];
      LastSplit(ws);
      DecodedWordsTokens(p);
      WordsAsTokensStep(p, ws[|ws| - 1]);
    }
  }

  /** `decode_message` on success: one space per slash of the input, and
      between them the symbols of all the input's tokens, in order, each an
      upper-case letter or a digit; on failure, the first token that does not
      decode is the error. */
  lemma DecodedMessageSpec(m: seq<Byte>)
    ensures var r := DecodedMessage(m);
            var tokens := AllTokens(Split(m, '/'));
            (r.Ok? <==> DecodedTokens(tokens).Ok?) &&
            (r.Ok? ==> Count(r.value, ' ') == Count(m, '/') &&
                       Unspaced(r.value) == DecodedTokens(tokens).value &&
                       forall k | 0 <= k < |r.value| :: r.value[k] == ' ' || IsSymbol(r.value[k])) &&
            (r.Err? ==> exists k :: 0 <= k < |tokens| && DecodeCharacter(tokens[k]).Err? &&
                                    (forall i | 0 <= i < k :: DecodeCharacter(tokens[i]).Ok?) &&
                                    r.error == Decode(tokens[k]))
  {
    var ws := Split(m, '/');
    SplitJoin(m, '/');
    DecodedWordsTokens(ws);
    var tokens := AllTokens(ws);
    DecodedTokensExact(tokens);
    if DecodedMessage(m).Ok? {
      var v := DecodedMessage(m).value;
      DecodedTokensSymbols(tokens);
      forall k | 0 <= k < |v| ensures v[k] == ' ' || IsSymbol(v[k]) {
        UnspacedSymbols(v, DecodedTokens(tokens).value, k);
      }
    }
  }

  /** A byte that is not a space survives in `Unspaced`. */
  lemma {:induction false} UnspacedSymbols(v: seq<Byte>, w: seq<Byte>, k: int)
    requires Unspaced(v) == w && forall i | 0 <= i < |w| :: IsSymbol(w[i])
    requires 0 <= k < |v|
    ensures v[k] == ' ' || IsSymbol(v[k])
    decreases |v|
  {
    var p, u := v[..|v| - 1], v[|v| - 1];
    var w' := Unspaced(p);
    assert w == w' + (if u == ' ' then [] else [u]);
    assert forall i | 0 <= i < |w'| :: w'[i] == w[i];
    if k < |v| - 1 {
      UnspacedSymbols(p, w', k);
    } else if u != ' ' {
      assert w[|w'|] == u;
    }
  }

  // ---------------------------------------------------------------------------
  // The round trip

  /** Every byte of `s` is one the pre-filter lets through. */
  predicate AllRetained(s: seq<Byte>) { forall k | 0 <= k < |s| :: Retained(s[k]) }

  /** Decoding `w`, extended by a space and one more token, gives one more
      symbol. */
  lemma DecodeOneMore(w: seq<Byte>, t: seq<Byte>, c: Byte)
    requires IsToken(t) && DecodeCharacter(t) == Ok(c)
    requires DecodedTokens(SplitWhitespace(w)).Ok?
    ensures DecodedTokens(SplitWhitespace(w + Space + t)) ==
            Ok(DecodedTokens(SplitWhitespace(w)).value + [c])
  {
    SplitWhitespaceAppendSpace(w, ' ');
    SplitWhitespaceAppendToken(w + Space, t);
    var ts := SplitWhitespace(w);
    AppendPrefix(ts, [t]);
  }

  /** The last word of a sequence that decodes decodes too. */
  lemma DecodedWordsLast(ws: seq<seq<Byte>>)
    requires ws != [] && DecodedWords(ws).Ok?
    ensures DecodedTokens(SplitWhitespace(ws[|ws| - 1])).Ok?
  {
  }

  /** A last word with the same symbols gives the same decoded words. */
  lemma DecodedWordsReplaceLast(ws: seq<seq<Byte>>, w: seq<Byte>)
    requires ws != []
    requires DecodedTokens(SplitWhitespace(w)) == DecodedTokens(SplitWhitespace(ws[|ws| - 1]))
    ensures DecodedWords(ws[..|ws| - 1] + [w]) == DecodedWords(ws)
  {
    var vs := ws[..|ws| - 1] + [w];
    AppendPrefix(ws[..|ws| - 1], [w]);
    assert vs[..|vs| - 1] == ws[..|ws| - 1] && vs[|vs| - 1] == w;
  }

  /** A last word with one more symbol adds that symbol to the end. */
  lemma DecodedWordsExtendLast(ws: seq<seq<Byte>>, w: seq<Byte>, c: Byte)
    requires ws != [] && DecodedWords(ws).Ok?
    requires DecodedTokens(SplitWhitespace(ws[|ws| - 1])).Ok?
    requires DecodedTokens(SplitWhitespace(w)) ==
             Ok(DecodedTokens(SplitWhitespace(ws[|ws| - 1])).value + [c])
    ensures DecodedWords(ws[..|ws| - 1] + [w]) == Ok(DecodedWords(ws).value + [c])
  {
    var ws0 := ws[..|ws| - 1];
    var vs := ws0 + [w];
    AppendPrefix(ws0, [w]);
    assert vs[..|vs| - 1] == ws0 && vs[|vs| - 1] == w;
    if |ws| > 1 {
      var prefix := DecodedWords(ws0).value;
      var word := DecodedTokens(SplitWhitespace(ws[|ws| - 1])).value;
      ConcatAssoc(prefix + Space, word, [c]);
    }
  }

  /** " /" extends the last word by a space and opens an empty word. */
  lemma SplitSpaceSlash(out: seq<Byte>)
    ensures var ws := Split(out, '/');
            Split(out + " /", '/') == ws[..|ws| - 1] + [ws[|ws| - 1] + Space] + [[]]
  {
    assert out + " /" == (out + Space) + ['/'];
    SplitAppendPiece(out, Space, '/');
    SplitAppendSeparator(out + Space, '/');
  }

  /** A space at the end of the last word changes nothing decoded. */
  lemma DecodedWordsTrailingSpace(ws: seq<seq<Byte>>)
    requires ws != []
    ensures DecodedWords(ws[..|ws| - 1] + [ws[|ws| - 1] + Space]) == DecodedWords(ws)
  {
    SplitWhitespaceAppendSpace(ws[|ws| - 1], ' ');
    DecodedWordsReplaceLast(ws, ws[|ws| - 1] + Space);
  }

  /** An empty last word decodes to a space. */
  lemma DecodedWordsEmptyLast(ws: seq<seq<Byte>>)
    requires ws != [] && DecodedWords(ws).Ok?
    ensures DecodedWords(ws + [[]]) == Ok(DecodedWords(ws).value + Space)
  {
    DecodedWordsAppend(ws, []);
    assert SplitWhitespace([]) == [];
    AppendEmpty(DecodedWords(ws).value + Space);
  }

  /** Appending " /" to an encoded message appends a space to its decoding. */
  lemma DecodeAppendSlash(out: seq<Byte>, decoded: seq<Byte>)
    requires DecodedMessage(out) == Ok(decoded)
    ensures DecodedMessage(out + " /") == Ok(decoded + Space)
  {
    var ws := Split(out, '/');
    var ws1 := ws[..|ws| - 1] + [ws[|ws| - 1] + Space];
    SplitSpaceSlash(out);
    DecodedWordsTrailingSpace(ws);
    DecodedWordsEmptyLast(ws1);
  }

  /** A space and a token without '/' extend the last word. */
  lemma SplitSpaceToken(out: seq<Byte>, t: seq<Byte>)
    requires '/' !in t
    ensures var ws := Split(out, '/');
            Split(out + (Space + t), '/') == ws[..|ws| - 1] + [ws[|ws| - 1] + Space + t]
  {
    var last := Split(out, '/')[|Split(out, '/')| - 1];
    assert '/' !in Space + t;
    SplitAppendPiece(out, Space + t, '/');
    ConcatAssoc(last, Space, t);
  }

  /** Appending a space and a token to an encoded message appends the token's
      symbol to its decoding. */
  lemma DecodeAppendToken(out: seq<Byte>, decoded: seq<Byte>, t: seq<Byte>, c: Byte)
    requires IsToken(t) && '/' !in t && DecodeCharacter(t) == Ok(c)
    requires DecodedMessage(out) == Ok(decoded)
    ensures DecodedMessage(out + (Space + t)) == Ok(decoded + [c])
  {
    var ws := Split(out, '/');
    var last := ws[|ws| - 1];
    var w := last + Space + t;
    assert Split(out + (Space + t), '/') == ws[..|ws| - 1] + [w] by {
      SplitSpaceToken(out, t);
    }
    assert DecodedWords(ws[..|ws| - 1] + [w]) == Ok(decoded + [c]) by {
      DecodedWordsLast(ws);
      DecodeOneMore(last, t, c);
      DecodedWordsExtendLast(ws, w, c);
    }
  }

  /** A single token is a message of one word of one token. */
  lemma DecodeSingleToken(t: seq<Byte>, c: Byte)
    requires IsToken(t) && '/' !in t && DecodeCharacter(t) == Ok(c)
    ensures DecodedMessage(t) == Ok([c])
  {
    SplitNoSeparator(t, '/');
    SplitWhitespaceToken(t);
    var none: seq<seq<Byte>> := [];
    assert [t][..0] == none;
    assert DecodedTokens(none) == Ok([]);
    assert [] + [c] == [c];
    assert DecodedTokens([t]) == Ok([c]);
    assert DecodedWords([t]) == DecodedTokens(SplitWhitespace(t));
  }

  /** Encoding one more byte and decoding gives one more upper-case byte. */
  lemma RoundTripStep(p: seq<Byte>, u: Byte)
    requires p != [] && Retained(u)
    requires EncodedMessage(p).Ok? && DecodedMessage(EncodedMessage(p).value) == Ok(Upper(p))
    ensures EncodedMessage(p + [u]).Ok?
    ensures DecodedMessage(EncodedMessage(p + [u]).value) == Ok(Upper(p + [u]))
  {
    EncodedMessageAppend(p, u);
    var out := EncodedMessage(p).value;
    assert Upper(p + [u]) == Upper(p) + [ToUpper(u)];
    if u == ' ' {
      assert EncodedPiece(u) == Ok(" /");
      DecodeAppendSlash(out, Upper(p));
    } else {
      var code := EncodeByte(u).value;
      assert EncodedPiece(u) == Ok(Space + code);
      EncodeByteMarks(u);
      EncodeDecode(u);
      DecodeAppendToken(out, Upper(p), code, ToUpper(u));
    }
  }

  /** Decoding the encoding of a message of letters, digits and spaces that does
      not start with a space gives back the message in upper case. */
  lemma {:induction false} RoundTrip(s: seq<Byte>)
    requires AllRetained(s) && (s == [] || s[0] != ' ')
    ensures EncodedMessage(s).Ok?
    ensures DecodedMessage(EncodedMessage(s).value) == Ok(Upper(s))
    decreases |s|
  {
    if s == [] {
      assert Split([], '/') == [[]];
      assert SplitWhitespace([]) == [];
    } else if |s| == 1 {
      var u := s[0];
      EncodeByteMarks(u);
      EncodeDecode(u);
      DecodeSingleToken(EncodeByte(u).value, ToUpper(u));
      assert Upper(s) == [ToUpper(u)];
    } else {
      var p, u := s[..|s| - 1], s[|s| - 1];
      LastSplit(s);
      assert AllRetained(p);
      RoundTrip(p);
      RoundTripStep(p, u);
    }
  }

  // ---------------------------------------------------------------------------
  // An example message

  /** A message and its encoding: letters become codes separated by spaces,
      and the space between the words becomes `/`. */
  const HelloWorld: seq<Byte> := "Hello World"
  const HelloWorldCode: seq<Byte> := ".... . .-.. .-.. --- / .-- --- .-. .-.. -.."

  /** One more byte of a message that encodes appends that byte's piece. */
  lemma EncodeStep(p: seq<Byte>, prefix: seq<Byte>, u: Byte, piece: seq<Byte>)
    requires p != [] && EncodedMessage(p) == Ok(prefix) && EncodedPiece(u) == Ok(piece)
    ensures EncodedMessage(p + [u]) == Ok(prefix + piece)
  {
    EncodedMessageAppend(p, u);
  }

  /** The pieces `encode_message` appends for the bytes after the first. */
  lemma HelloPieces()
    ensures EncodedPiece('e') == Ok(" .")
    ensures EncodedPiece('l') == Ok(" .-..")
    ensures EncodedPiece('o') == Ok(" ---")
    ensures EncodedPiece('r') == Ok(" .-.")
    ensures EncodedPiece('W') == Ok(" .--")
    ensures EncodedPiece('d') == Ok(" -..")
  {
    assert Space + "." == " .";
    assert Space + ".-.." == " .-..";
    assert Space + "---" == " ---";
    assert Space + ".-." == " .-.";
    assert Space + ".--" == " .--";
    assert Space + "-.." == " -..";
  }

  /** The first word alone. */
  lemma HelloEncodes()
    ensures EncodedMessage("Hello") == Ok(".... . .-.. .-.. ---")
  {
    HelloPieces();
    assert EncodedMessage("H") == Ok("....");
    EncodeStep("H", "....", 'e', " .");
    assert "H" + ['e'] == "He";
    assert "...." + " ." == ".... .";
    EncodeStep("He", ".... .", 'l', " .-..");
    assert "He" + ['l'] == "Hel";
    assert ".... ." + " .-.." == ".... . .-..";
    EncodeStep("Hel", ".... . .-..", 'l', " .-..");
    assert "Hel" + ['l'] == "Hell";
    assert ".... . .-.." + " .-.." == ".... . .-.. .-..";
    EncodeStep("Hell", ".... . .-.. .-..", 'o', " ---");
    assert "Hell" + ['o'] == "Hello";
    assert ".... . .-.. .-.." + " ---" == ".... . .-.. .-.. ---";
  }

  /** `encode_message("Hello World")` gives the codes of H, E, L, L, O, then
      `/`, then those of W, O, R, L, D. */
  lemma HelloWorldEncodes()
    ensures EncodedMessage(HelloWorld) == Ok(HelloWorldCode)
  {
    HelloEncodes();
    HelloPieces();
    EncodeStep("Hello", ".... . .-.. .-.. ---", ' ', " /");
    assert "Hello" + [' '] == "Hello ";
    assert ".... . .-.. .-.. ---" + " /" == ".... . .-.. .-.. --- /";
    EncodeStep("Hello ", ".... . .-.. .-.. --- /", 'W', " .--");
    assert "Hello " + ['W'] == "Hello W";
    assert ".... . .-.. .-.. --- /" + " .--" == ".... . .-.. .-.. --- / .--";
    EncodeStep("Hello W", ".... . .-.. .-.. --- / .--", 'o', " ---");
    assert "Hello W" + ['o'] == "Hello Wo";
    assert ".... . .-.. .-.. --- / .--" + " ---" == ".... . .-.. .-.. --- / .-- ---";
    EncodeStep("Hello Wo", ".... . .-.. .-.. --- / .-- ---", 'r', " .-.");
    assert "Hello Wo" + ['r'] == "Hello Wor";
    assert ".... . .-.. .-.. --- / .-- ---" + " .-." == ".... . .-.. .-.. --- / .-- --- .-.";
    EncodeStep("Hello Wor", ".... . .-.. .-.. --- / .-- --- .-.", 'l', " .-..");
    assert "Hello Wor" + ['l'] == "Hello Worl";
    assert ".... . .-.. .-.. --- / .-- --- .-." + " .-.." == ".... . .-.. .-.. --- / .-- --- .-. .-..";
    EncodeStep("Hello Worl", ".... . .-.. .-.. --- / .-- --- .-. .-..", 'd', " -..");
    assert "Hello Worl" + ['d'] == "Hello World";
    assert ".... . .-.. .-.. --- / .-- --- .-. .-.." + " -.." == ".... . .-.. .-.. --- / .-- --- .-. .-.. -..";
  }

  /** The message passes the encode filter and does not start with a space. */
  lemma HelloWorldRetained()
    ensures AllRetained(HelloWorld) && HelloWorld[0] != ' '
  {
  }

  /** The message in upper case. */
  lemma HelloWorldUpper()
    ensures Upper(HelloWorld) == "HELLO WORLD"
  {
  }

  /** Decoding that encoding gives the message in upper case. */
  lemma HelloWorldDecodes()
    ensures DecodedMessage(HelloWorldCode) == Ok("HELLO WORLD")
  {
    HelloWorldRetained();
    HelloWorldEncodes();
    RoundTrip(HelloWorld);
    HelloWorldUpper();
  }
}
