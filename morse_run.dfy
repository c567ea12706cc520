/** What `run` of src/main.rs does with the text it reads (standard input is a
    parameter), what the line it prints decodes back to, and its pre-filter:
    as written it trims before filtering, so a removed byte can leave a space at
    the front and encoding then fails; the corrected pre-filter trims after. */
module MorseRun {
  import opened Ascii
  import opened Morse
  import opened MorseTable
  import opened MorseMessage

  /** The two sub-commands (`Opts::Encode`, `Opts::Decode`). */
  datatype Command = EncodeCommand | DecodeCommand

  /** What `println!` writes for a result, or the error `run` returns. */
  function Line(r: Result<seq<Byte>>): (l: Result<seq<Byte>>)
    ensures l.Ok? <==> r.Ok?
    ensures l.Ok? ==> l.value == r.value + ['\n']
    ensures l.Err? ==> l.error == r.error
  {
    match r
    case Ok(text) => Ok(text + ['\n'])
    case Err(e) => Err(e)
  }

  /** `run` as written: encoding sees the pre-filtered input, decoding the
      trimmed input. */
  function Run(command: Command, input: seq<Byte>): (r: Result<seq<Byte>>)
    ensures r.Ok? ==> r.value != [] && r.value[|r.value| - 1] == '\n'
  {
    match command
    case EncodeCommand => Line(EncodedMessage(PreFilter(input)))
    case DecodeCommand => Line(DecodedMessage(Trim(input)))
  }

  /** `run` with the corrected pre-filter (filter first, then trim). */
  function RunCorrected(command: Command, input: seq<Byte>): (r: Result<seq<Byte>>)
    ensures r.Ok? ==> r.value != [] && r.value[|r.value| - 1] == '\n'
  {
    match command
    case EncodeCommand => Line(EncodedMessage(CleanMessage(input)))
    case DecodeCommand => Line(DecodedMessage(Trim(input)))
  }

  // ---------------------------------------------------------------------------
  // The filter

  /** Filtering distributes over concatenation. */
  lemma {:induction false} RetainAppend(a: seq<Byte>, b: seq<Byte>)
    ensures Retain(a + b) == Retain(a) + Retain(b)
    decreases |b|
  {
    if b == [] {
      assert a + b == a;
    } else {
      var b', u := b[..|b| - 1], b[|b| - 1];
      assert (a + b)[..|a + b| - 1] == a + b';
      assert (a + b)[|a + b| - 1] == u;
      RetainAppend(a, b');
    }
  }

  /** The filter on one byte: a space or an alphanumeric is kept, any other
      byte is dropped. With RetainAppend this fixes the filter on every input. */
  lemma RetainOne(u: Byte)
    ensures Retain([u]) == if Retained(u) then [u] else []
  {
    assert [u][..0] == [];
  }

  /** A byte other than a space or an alphanumeric never survives the filter. */
  lemma {:induction false} RetainDrops(s: seq<Byte>, u: Byte)
    requires !Retained(u)
    ensures u !in Retain(s)
    ensures Count(Retain(s), u) == 0
  {
    CountAbsent(Retain(s), u);
  }

  /** Every space and alphanumeric survives the filter: each occurs in the
      output as often as in the input. */
  lemma {:induction false} RetainKeeps(s: seq<Byte>, u: Byte)
    requires Retained(u)
    ensures Count(Retain(s), u) == Count(s, u)
    decreases |s|
  {
    if s != [] {
      var p, v := s[..|s| - 1], s[|s| - 1];
      RetainKeeps(p, u);
      CountAppend(Retain(p), if Retained(v) then [v] else [], u);
      if Retained(v) {
        assert [v][..0] == [];
      }
    }
  }

  /** A string of retained bytes passes the filter unchanged. */
  lemma {:induction false} RetainAll(s: seq<Byte>)
    requires AllRetained(s)
    ensures Retain(s) == s
    decreases |s|
  {
    if s != [] {
      assert AllRetained(s[..|s| - 1]);
      RetainAll(s[..|s| - 1]);
    }
  }

  /** What the filter keeps of whitespace is whitespace (spaces). */
  lemma {:induction false} RetainWhitespace(a: seq<Byte>)
    requires forall k :: 0 <= k < |a| ==> IsWhitespace(a[k])
    ensures forall k :: 0 <= k < |Retain(a)| ==> Retain(a)[k] == ' '
    decreases |a|
  {
    if a != [] {
      RetainWhitespace(a[..|a| - 1]);
    }
  }

  /** A retained message encodes exactly when it does not start with a space;
      one that does fails on that space. */
  lemma RetainedEncodes(s: seq<Byte>)
    requires AllRetained(s)
    ensures EncodedMessage(s).Ok? <==> (s == [] || s[0] != ' ')
    ensures EncodedMessage(s).Err? ==> EncodedMessage(s).error == Encode(' ')
  {
    EncodedMessageOk(s);
    if s != [] && s[0] == ' ' {
      EncodeLeadingSpace(s);
    } else {
      assert forall i | 0 <= i < |s| :: CanEncodeAt(s, i);
    }
  }

  // ---------------------------------------------------------------------------
  // The printed line decodes back

  /** An encoded non-empty message starts with a mark and ends with a mark or
      '/', never with whitespace. */
  lemma {:induction false} EncodedMessageEnds(s: seq<Byte>)
    requires s != [] && EncodedMessage(s).Ok?
    ensures var out := EncodedMessage(s).value;
            out != [] && IsMark(out[0]) && !IsWhitespace(out[|out| - 1])
    decreases |s|
  {
    if |s| == 1 {
      EncodeByteMarks(s[0]);
    } else {
      var p, u := s[..|s| - 1], s[|s| - 1];
      LastSplit(s);
      EncodedMessageAppend(p, u);
      EncodedMessageEnds(p);
      if u != ' ' {
        EncodeByteMarks(u);
      }
    }
  }

  /** The line printed for an encodable retained message, fed back to the
      decoder (which trims its input), gives the message in upper case. */
  lemma PipelineRoundTrip(s: seq<Byte>)
    requires AllRetained(s) && (s == [] || s[0] != ' ')
    ensures EncodedMessage(s).Ok?
    ensures DecodedMessage(Trim(EncodedMessage(s).value + ['\n'])) == Ok(Upper(s))
  {
    RoundTrip(s);
    var out := EncodedMessage(s).value;
    if s != [] {
      EncodedMessageEnds(s);
    }
    var none: seq<Byte> := [];
    assert none + out + ['\n'] == out + ['\n'];
    TrimSurrounded(none, out, ['\n']);
  }

  // ---------------------------------------------------------------------------
  // The pre-filter as written

  /** Encoding the pre-filtered input fails exactly when the filtered text
      starts with a space, and then with that space as the error. */
  lemma RunEncodeFails(raw: seq<Byte>)
    ensures Run(EncodeCommand, raw).Err? <==> (PreFilter(raw) != [] && PreFilter(raw)[0] == ' ')
    ensures Run(EncodeCommand, raw).Err? ==> Run(EncodeCommand, raw).error == Encode(' ')
  {
    RetainedEncodes(PreFilter(raw));
  }

  /** `run decode` fails only with `Decode`, naming the first token that does
      not decode. */
  lemma RunDecodeFails(input: seq<Byte>)
    ensures Run(DecodeCommand, input).Err? ==>
              exists t :: Run(DecodeCommand, input).error == Decode(t) && DecodeCharacter(t).Err?
  {
    DecodedMessageSpec(Trim(input));
  }

  /** Whenever `run` encodes, decoding the printed line gives the filtered
      input in upper case. */
  lemma RunRoundTrip(raw: seq<Byte>)
    requires Run(EncodeCommand, raw).Ok?
    ensures Run(DecodeCommand, Run(EncodeCommand, raw).value) == Ok(Upper(PreFilter(raw)) + ['\n'])
  {
    RetainedEncodes(PreFilter(raw));
    PipelineRoundTrip(PreFilter(raw));
  }

  /** Input that shows the defect: trimming "! hi" leaves it as it is, the
      filter then drops the '!', and the space left in front cannot be
      encoded. */
  lemma PreFilterLeadingSpace()
    ensures PreFilter("! hi") == " hi"
    ensures Run(EncodeCommand, "! hi") == Err(Encode(' '))
  {
    PreFilterExample();
    EncodeLeadingSpace(" hi");
  }

  /** Filtering the pre-filtered "! hi" again changes it: the pre-filter is
      not idempotent. */
  lemma PreFilterNotIdempotent()
    ensures PreFilter(PreFilter("! hi")) == "hi" != PreFilter("! hi")
  {
    PreFilterExample();
    PreFilterTrimsAgain();
    assert |"hi"| != |" hi"|;
  }

  lemma PreFilterTrimsAgain()
    ensures PreFilter(" hi") == "hi"
  {
    TrimExample();
    RetainAll("hi");
  }

  lemma PreFilterExample()
    ensures PreFilter("! hi") == " hi"
  {
    TrimTrimmed("! hi");
    RetainExample();
  }

  lemma RetainExample()
    ensures Retain("! hi") == " hi"
  {
    var none: seq<Byte> := [];
    assert "! hi"[..3] == "! h" && "! h"[..2] == "! " && "! "[..1] == "!";
    assert "!"[..0] == none;
  }

  lemma TrimExample()
    ensures Trim(" hi") == "hi"
  {
    assert " hi" == Space + "hi";
    TrimStartWhitespace(Space, "hi");
    TrimTrimmed("hi");
  }

  // ---------------------------------------------------------------------------
  // The corrected pre-filter

  /** The corrected pre-filter is the one as written followed by one more
      trim. */
  lemma CleanMessageTrimsPreFilter(raw: seq<Byte>)
    ensures CleanMessage(raw) == Trim(PreFilter(raw))
  {
    var x := Trim(raw);
    var a, b := TrimParts(raw);
    assert Retain(raw) == Retain(a) + Retain(x) + Retain(b) by {
      RetainAppend(a + x, b);
      RetainAppend(a, x);
    }
    RetainWhitespace(a);
    RetainWhitespace(b);
    TrimPadded(Retain(a), Retain(x), Retain(b));
  }

  /** What the corrected pre-filter produces: retained bytes, with neither a
      space at the front nor at the back. */
  lemma CleanMessageShape(raw: seq<Byte>)
    ensures var c := CleanMessage(raw);
            AllRetained(c) && (c == [] || (c[0] != ' ' && c[|c| - 1] != ' '))
  {
    var r, c := Retain(raw), CleanMessage(raw);
    var a, b := TrimParts(r);
    forall k | 0 <= k < |c| ensures Retained(c[k]) {
      assert c[k] == r[|a| + k];
    }
  }

  /** Applying the corrected pre-filter twice is the same as once. */
  lemma CleanMessageIdempotent(raw: seq<Byte>)
    ensures CleanMessage(CleanMessage(raw)) == CleanMessage(raw)
  {
    var c := CleanMessage(raw);
    CleanMessageShape(raw);
    RetainAll(c);
    TrimTrimmed(c);
  }

  /** Where the pre-filter as written leaves no space at either end, the
      corrected one gives the same message. */
  lemma CleanMessageAgrees(raw: seq<Byte>)
    requires var p := PreFilter(raw); p == [] || (p[0] != ' ' && p[|p| - 1] != ' ')
    ensures CleanMessage(raw) == PreFilter(raw)
  {
    CleanMessageTrimsPreFilter(raw);
    RetainedTrimmed(PreFilter(raw));
  }

  /** Retained bytes with no space at either end are already trimmed. */
  lemma RetainedTrimmed(s: seq<Byte>)
    requires AllRetained(s) && (s == [] || (s[0] != ' ' && s[|s| - 1] != ' '))
    ensures Trim(s) == s
  {
    if s != [] {
      assert Retained(s[0]) && Retained(s[|s| - 1]);
    }
    TrimTrimmed(s);
  }

  /** With the corrected pre-filter every input encodes, and decoding the
      printed line gives the filtered input in upper case. */
  lemma RunCorrectedRoundTrip(raw: seq<Byte>)
    ensures RunCorrected(EncodeCommand, raw).Ok?
    ensures RunCorrected(DecodeCommand, RunCorrected(EncodeCommand, raw).value)
            == Ok(Upper(CleanMessage(raw)) + ['\n'])
  {
    CleanMessageShape(raw);
    PipelineRoundTrip(CleanMessage(raw));
  }
}
