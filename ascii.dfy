/** Byte-level string helpers: the parts of Rust's `str` and `u8` API that the
    transcoder relies on (`is_ascii_alphabetic`, `to_ascii_uppercase`, `trim`,
    `split`, `split_whitespace`), restricted to single bytes. */
module Ascii {

  /** One byte of a UTF-8 string, written as the character with that code point
      (what Rust's `u as char` gives), so that string literals are byte strings. */
  type Byte = c: char | c as int < 256 witness ' '

  predicate IsAlphabetic(u: Byte) { 'A' <= u <= 'Z' || 'a' <= u <= 'z' }

  predicate IsDigit(u: Byte) { '0' <= u <= '9' }

  predicate IsAlphanumeric(u: Byte) { IsAlphabetic(u) || IsDigit(u) }

  /** The ASCII bytes with the White_Space property: space and the controls
      0x09 (tab) to 0x0D (carriage return). */
  predicate IsWhitespace(u: Byte) { u == ' ' || '\t' <= u <= '\r' }

  /** The one-byte string holding a space. */
  const Space: seq<Byte> := [' ']

  /** `u8::to_ascii_uppercase`. */
  function ToUpper(u: Byte): (r: Byte)
    ensures IsAlphabetic(u) ==> 'A' <= r <= 'Z' && r as int - 'A' as int == ToUpperOffset(u)
    ensures !IsAlphabetic(u) ==> r == u
    ensures IsWhitespace(r) == IsWhitespace(u)
  {
    if 'a' <= u <= 'z' then (u as int - 32) as char else u
  }

  /** Position of a letter in the alphabet, ignoring case. */
  function ToUpperOffset(u: Byte): (n: int)
    requires IsAlphabetic(u)
    ensures 0 <= n < 26
  {
    if 'a' <= u <= 'z' then u as int - 'a' as int else u as int - 'A' as int
  }

  /** The byte string with every lower-case letter made upper-case. */
  function Upper(s: seq<Byte>): (r: seq<Byte>)
    ensures |r| == |s|
    ensures forall i :: 0 <= i < |s| ==> r[i] == ToUpper(s[i])
  {
    seq(|s|, i requires 0 <= i < |s| => ToUpper(s[i]))
  }

  /** Number of occurrences of `x` in `s`. */
  function Count(s: seq<Byte>, x: Byte): nat
  {
    if s == [] then 0
    else Count(s[..|s| - 1], x) + (if s[|s| - 1] == x then 1 else 0)
  }

  lemma {:induction false} CountAppend(a: seq<Byte>, b: seq<Byte>, x: Byte)
    ensures Count(a + b, x) == Count(a, x) + Count(b, x)
    decreases |b|
  {
    if b == [] {
      assert a + b == a;
    } else {
      assert (a + b)[..|a + b| - 1] == a + b[..|b| - 1];
      CountAppend(a, b[..|b| - 1], x);
    }
  }

  lemma {:induction false} CountAbsent(s: seq<Byte>, x: Byte)
    requires x !in s
    ensures Count(s, x) == 0
    decreases |s|
  {
    if s != [] {
      LastSplit(s);
      CountAbsent(s[..|s| - 1], x);
    }
  }

  /** `str::trim_start`: drops the leading whitespace. */
  function TrimStart(s: seq<Byte>): (r: seq<Byte>)
    ensures |r| <= |s| && r == s[|s| - |r|..]
    ensures r == [] || !IsWhitespace(r[0])
    ensures forall i :: 0 <= i < |s| - |r| ==> IsWhitespace(s[i])
  {
    if s != [] && IsWhitespace(s[0]) then TrimStart(s[1..]) else s
  }

  /** `str::trim_end`: drops the trailing whitespace. */
  function TrimEnd(s: seq<Byte>): (r: seq<Byte>)
    ensures |r| <= |s| && r == s[..|r|]
    ensures r == [] || !IsWhitespace(r[|r| - 1])
    ensures forall i :: |r| <= i < |s| ==> IsWhitespace(s[i])
  {
    if s != [] && IsWhitespace(s[|s| - 1]) then TrimEnd(s[..|s| - 1]) else s
  }

  /** `str::trim`: neither starts nor ends with whitespace (TrimParts states
      that it is `s` with only whitespace cut off on either side). */
  function Trim(s: seq<Byte>): (r: seq<Byte>)
    ensures r == [] || (!IsWhitespace(r[0]) && !IsWhitespace(r[|r| - 1]))
  {
    TrimEnd(TrimStart(s))
  }

  /** The trim is what is left of `s` once the whitespace `a` before it and
      the whitespace `b` after it are cut off. */
  lemma TrimParts(s: seq<Byte>) returns (a: seq<Byte>, b: seq<Byte>)
    ensures s == a + Trim(s) + b
    ensures forall k :: 0 <= k < |a| ==> IsWhitespace(a[k])
    ensures forall k :: 0 <= k < |b| ==> IsWhitespace(b[k])
  {
    var t := TrimStart(s);
    var x := TrimEnd(t);
    a, b := s[..|s| - |t|], t[|x|..];
    PrefixRest(s, |s| - |t|);
    PrefixRest(t, |x|);
    forall k | 0 <= k < |a| ensures IsWhitespace(a[k]) {
      assert a[k] == s[k];
    }
    forall k | 0 <= k < |b| ensures IsWhitespace(b[k]) {
      assert b[k] == t[|x| + k];
    }
    assert Trim(s) == x;
    ConcatAssoc(a, x, b);
  }

  /** Whitespace in front does not change `TrimStart`. */
  lemma {:induction false} TrimStartWhitespace(a: seq<Byte>, y: seq<Byte>)
    requires forall k :: 0 <= k < |a| ==> IsWhitespace(a[k])
    ensures TrimStart(a + y) == TrimStart(y)
    decreases |a|
  {
    if a == [] {
      assert a + y == y;
    } else {
      assert (a + y)[0] == a[0];
      assert (a + y)[1..] == a[1..] + y;
      TrimStartWhitespace(a[1..], y);
    }
  }

  /** Once something is left after `TrimStart`, what follows is kept as it is. */
  lemma {:induction false} TrimStartAppend(y: seq<Byte>, b: seq<Byte>)
    requires TrimStart(y) != []
    ensures TrimStart(y + b) == TrimStart(y) + b
    decreases |y|
  {
    assert (y + b)[0] == y[0];
    if IsWhitespace(y[0]) {
      assert (y + b)[1..] == y[1..] + b;
      TrimStartAppend(y[1..], b);
    }
  }

  /** Whitespace at the back does not change `TrimEnd`. */
  lemma {:induction false} TrimEndWhitespace(y: seq<Byte>, b: seq<Byte>)
    requires forall k :: 0 <= k < |b| ==> IsWhitespace(b[k])
    ensures TrimEnd(y + b) == TrimEnd(y)
    decreases |b|
  {
    if b == [] {
      assert y + b == y;
    } else {
      assert (y + b)[..|y + b| - 1] == y + b[..|b| - 1];
      TrimEndWhitespace(y, b[..|b| - 1]);
    }
  }

  /** Whitespace around a string does not change what trimming it gives. */
  lemma TrimPadded(a: seq<Byte>, y: seq<Byte>, b: seq<Byte>)
    requires forall k :: 0 <= k < |a| ==> IsWhitespace(a[k])
    requires forall k :: 0 <= k < |b| ==> IsWhitespace(b[k])
    ensures Trim(a + y + b) == Trim(y)
  {
    assert a + y + b == a + (y + b);
    TrimStartWhitespace(a, y + b);
    if TrimStart(y) == [] {
      TrimStartWhitespace(y, b);
      assert b + [] == b;
      TrimStartWhitespace(b, []);
    } else {
      TrimStartAppend(y, b);
      TrimEndWhitespace(TrimStart(y), b);
    }
  }

  /** A string that neither starts nor ends with whitespace is its own trim. */
  lemma TrimTrimmed(x: seq<Byte>)
    requires x == [] || (!IsWhitespace(x[0]) && !IsWhitespace(x[|x| - 1]))
    ensures Trim(x) == x
  {
    assert TrimStart(x) == x;
    assert TrimEnd(x) == x;
  }

  /** Trimming a slice surrounded by whitespace that does not itself start or
      end with whitespace gives back that slice. */
  lemma TrimSurrounded(a: seq<Byte>, x: seq<Byte>, b: seq<Byte>)
    requires forall k :: 0 <= k < |a| ==> IsWhitespace(a[k])
    requires forall k :: 0 <= k < |b| ==> IsWhitespace(b[k])
    requires x == [] || (!IsWhitespace(x[0]) && !IsWhitespace(x[|x| - 1]))
    ensures Trim(a + x + b) == x
  {
    TrimPadded(a, x, b);
    TrimTrimmed(x);
  }

  lemma ConcatAssoc<T>(a: seq<T>, b: seq<T>, c: seq<T>)
    ensures a + (b + c) == a + b + c
  {
  }

  lemma AppendPrefix<T>(a: seq<T>, b: seq<T>)
    ensures (a + b)[..|a|] == a
  {
  }

  lemma LastSplit<T>(s: seq<T>)
    requires s != []
    ensures s == s[..|s| - 1] + [s[|s| - 1]]
  {
  }

  lemma AppendDropLast<T>(s: seq<T>, t: seq<T>)
    requires t != []
    ensures (s + t)[..|s + t| - 1] == s + t[..|t| - 1]
  {
  }

  lemma AppendEmpty<T>(s: seq<T>)
    ensures s + [] == s
  {
  }

  lemma PrefixAll<T>(s: seq<T>)
    ensures s[..|s|] == s
  {
  }

  /** The prefix one element longer. */
  lemma PrefixSnoc<T>(s: seq<T>, i: int)
    requires 0 <= i < |s|
    ensures s[..i + 1] == s[..i] + [s[i]]
  {
  }

  /** A prefix and the rest make up the sequence. */
  lemma PrefixRest<T>(s: seq<T>, n: int)
    requires 0 <= n <= |s|
    ensures s[..n] + s[n..] == s
  {
  }

  /** Joins `ws` with one `sep` between neighbours (`slice::join`). */
  function JoinWith(ws: seq<seq<Byte>>, sep: Byte): seq<Byte>
  {
    if ws == [] then []
    else if |ws| == 1 then ws[0]
    else JoinWith(ws[..|ws| - 1], sep) + [sep] + ws[|ws| - 1]
  }

  /** `str::split(sep)`: the pieces between the separators (SplitJoin states
      what they are). */
  function Split(s: seq<Byte>, sep: Byte): (r: seq<seq<Byte>>)
    ensures |r| >= 1
  {
    if s == [] then [[]]
    else
      var r0 := Split(s[..|s| - 1], sep);
      var u := s[|s| - 1];
      if u == sep then r0 + [[]]
      else r0[..|r0| - 1] + [r0[|r0| - 1] + [u]]
  }

  /** `Split(s, sep)` has one more piece than `s` has separators, no piece holds
      `sep`, and joining the pieces back with `sep` gives `s` again. */
  lemma {:induction false} SplitJoin(s: seq<Byte>, sep: Byte)
    ensures |Split(s, sep)| == Count(s, sep) + 1
    ensures forall k :: 0 <= k < |Split(s, sep)| ==> sep !in Split(s, sep)[k]
    ensures JoinWith(Split(s, sep), sep) == s
    decreases |s|
  {
    if s != [] {
      var p, u := s[..|s| - 1], s[|s| - 1];
      SplitJoin(p, sep);
      var r0 := Split(p, sep);
      LastSplit(s);
      if u == sep {
        var r := r0 + [[]];
        assert r[..|r0|] == r0;
      } else {
        var r := r0[..|r0| - 1] + [r0[|r0| - 1] + [u]];
        assert r[..|r| - 1] == r0[..|r0| - 1];
        assert |r0| > 1 ==> r0[..|r0| - 1][..|r0| - 2] == r0[..|r0| - 2];
        assert sep !in r0[|r0| - 1] + [u];
      }
    }
  }

  lemma SplitAppendSeparator(s: seq<Byte>, sep: Byte)
    ensures Split(s + [sep], sep) == Split(s, sep) + [[]]
  {
    AppendPrefix(s, [sep]);
  }

  lemma SplitAppendByte(s: seq<Byte>, u: Byte, sep: Byte)
    requires u != sep
    ensures var r := Split(s, sep);
            Split(s + [u], sep) == r[..|r| - 1] + [r[|r| - 1] + [u]]
  {
    AppendPrefix(s, [u]);
  }

  lemma {:induction false} SplitAppendPiece(s: seq<Byte>, t: seq<Byte>, sep: Byte)
    requires sep !in t
    ensures var r := Split(s, sep);
            Split(s + t, sep) == r[..|r| - 1] + [r[|r| - 1] + t]
    decreases |t|
  {
    var r := Split(s, sep);
    if t == [] {
      assert s + t == s;
      assert r[|r| - 1] + t == r[|r| - 1];
      LastSplit(r);
    } else {
      var t', u := t[..|t| - 1], t[|t| - 1];
      assert s + t == (s + t') + [u];
      SplitAppendPiece(s, t', sep);
      SplitAppendByte(s + t', u, sep);
      var r0 := Split(s + t', sep);
      assert r0[..|r0| - 1] == r[..|r| - 1];
      assert (r[|r| - 1] + t') + [u] == r[|r| - 1] + t;
    }
  }

  /** A string without the separator is a single piece. */
  lemma SplitNoSeparator(t: seq<Byte>, sep: Byte)
    requires sep !in t
    ensures Split(t, sep) == [t]
  {
    SplitAppendPiece([], t, sep);
    assert [] + t == t;
  }

  /** A token of `split_whitespace`: non-empty and free of whitespace. */
  predicate IsToken(t: seq<Byte>)
  {
    |t| > 0 && forall k :: 0 <= k < |t| ==> !IsWhitespace(t[k])
  }

  /** `str::split_whitespace`: the maximal runs of non-whitespace, in order. */
  function SplitWhitespace(s: seq<Byte>): (r: seq<seq<Byte>>)
    ensures forall k :: 0 <= k < |r| ==> IsToken(r[k])
    ensures s != [] && !IsWhitespace(s[|s| - 1]) ==> r != []
    ensures |r| <= |s|
  {
    if s == [] then []
    else
      var r0 := SplitWhitespace(s[..|s| - 1]);
      var u := s[|s| - 1];
      if IsWhitespace(u) then r0
      else if |s| > 1 && !IsWhitespace(s[|s| - 2]) then
        assert s[..|s| - 1] != [] && !IsWhitespace(s[..|s| - 1][|s| - 2]);
        r0[..|r0| - 1] + [r0[|r0| - 1] + [u]]
      else r0 + [[u]]
  }

  lemma SplitWhitespaceAppendSpace(s: seq<Byte>, u: Byte)
    requires IsWhitespace(u)
    ensures SplitWhitespace(s + [u]) == SplitWhitespace(s)
  {
    AppendPrefix(s, [u]);
  }

  /** A token placed after whitespace (or at the start) becomes one more token. */
  lemma {:induction false} SplitWhitespaceAppendToken(s: seq<Byte>, t: seq<Byte>)
    requires s == [] || IsWhitespace(s[|s| - 1])
    requires IsToken(t)
    ensures SplitWhitespace(s + t) == SplitWhitespace(s) + [t]
    decreases |t|
  {
    var u := t[|t| - 1];
    AppendDropLast(s, t);
    if |t| == 1 {
      assert s + t[..0] == s + [];
      AppendEmpty(s);
      assert s != [] ==> (s + t)[|s + t| - 2] == s[|s| - 1];
      assert t == [u];
    } else {
      var t' := t[..|t| - 1];
      SplitWhitespaceAppendToken(s, t');
      assert (s + t)[|s + t| - 2] == t'[|t'| - 1];
      AppendPrefix(SplitWhitespace(s), [t']);
      LastSplit(t);
    }
  }

  /** A single token splits into itself. */
  lemma SplitWhitespaceToken(t: seq<Byte>)
    requires IsToken(t)
    ensures SplitWhitespace(t) == [t]
  {
    SplitWhitespaceAppendToken([], t);
    assert [] + t == t;
    assert SplitWhitespace([]) == [];
  }
}
