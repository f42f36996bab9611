/** The parts of Rust's `str` that the modelled code relies on.

    A Rust string is UTF-8: `len()` counts bytes, and slicing takes byte
    offsets and panics when an offset is past the end or falls inside a
    character. Strings here are sequences of Unicode scalar values, so
    byte offsets are computed from each character's UTF-8 length. */
module Text {
  import opened Outcomes

  /** `char::is_whitespace`: the characters with the Unicode White_Space property. */
  predicate IsWhitespace(c: char) {
    var n := c as int;
    (0x09 <= n <= 0x0D) || n == 0x20 || n == 0x85 || n == 0xA0 || n == 0x1680
    || (0x2000 <= n <= 0x200A) || n == 0x2028 || n == 0x2029 || n == 0x202F
    || n == 0x205F || n == 0x3000
  }

  predicate NoWhitespace(s: string) {
    forall i :: 0 <= i < |s| ==> !IsWhitespace(s[i])
  }

  predicate AllWhitespace(s: string) {
    forall i :: 0 <= i < |s| ==> IsWhitespace(s[i])
  }

  predicate IsAscii(s: string) {
    forall i :: 0 <= i < |s| ==> s[i] as int < 0x80
  }

  /** ASCII text joined to ASCII text is ASCII. */
  lemma AsciiJoin(a: string, b: string)
    requires IsAscii(a) && IsAscii(b)
    ensures IsAscii(a + b)
  {
    forall i | 0 <= i < |a + b| ensures (a + b)[i] as int < 0x80 {
      if i >= |a| {
        assert (a + b)[i] == b[i - |a|];
      }
    }
  }

  // ---------------------------------------------------------------------------
  // UTF-8 lengths and byte offsets

  /** Number of bytes of `c` in UTF-8. */
  function Utf8Len(c: char): (n: nat)
    ensures 1 <= n <= 4
    ensures n == 1 <==> c as int < 0x80
  {
    var v := c as int;
    if v < 0x80 then 1 else if v < 0x800 then 2 else if v < 0x10000 then 3 else 4
  }

  /** `str::len()`: the length in bytes. */
  function ByteLen(s: string): (n: nat)
    ensures n >= |s|
  {
    if |s| == 0 then 0 else Utf8Len(s[0]) + ByteLen(s[1..])
  }

  lemma {:induction false} ByteLenAppend(a: string, b: string)
    ensures ByteLen(a + b) == ByteLen(a) + ByteLen(b)
  {
    if a == [] {
      assert a + b == b;
    } else {
      assert (a + b)[0] == a[0];
      assert (a + b)[1..] == a[1..] + b;
      ByteLenAppend(a[1..], b);
    }
  }

  lemma {:induction false} ByteLenAscii(s: string)
    ensures ByteLen(s) == |s| <==> IsAscii(s)
  {
    if s != [] {
      ByteLenAscii(s[1..]);
      assert IsAscii(s) <==> s[0] as int < 0x80 && IsAscii(s[1..]) by {
        if IsAscii(s[1..]) && s[0] as int < 0x80 {
          forall i | 0 <= i < |s| ensures s[i] as int < 0x80 {
            if i > 0 { assert s[i] == s[1..][i - 1]; }
          }
        }
      }
    }
  }

  /** The character index at which byte offset `b` of `s` starts, if `b` is
      a character boundary of `s` (`str::is_char_boundary`). */
  function CharIndexOfByte(s: string, b: nat): (r: Option<nat>)
    ensures r.Some? ==> r.value <= |s| && ByteLen(s[..r.value]) == b
    ensures r.None? ==> forall k :: 0 <= k <= |s| ==> ByteLen(s[..k]) != b
  {
    if b == 0 then
      assert s[..0] == [];
      Some(0)
    else if |s| == 0 then
      assert forall k :: 0 <= k <= |s| ==> s[..k] == [];
      None
    else if b < Utf8Len(s[0]) then
      assert forall k :: 1 <= k <= |s| ==> ByteLen(s[..k]) == Utf8Len(s[0]) + ByteLen(s[1..][..k - 1]) by {
        forall k | 1 <= k <= |s| ensures ByteLen(s[..k]) == Utf8Len(s[0]) + ByteLen(s[1..][..k - 1]) {
          assert s[..k][1..] == s[1..][..k - 1];
        }
      }
      assert s[..0] == [];
      None
    else
      var rest := CharIndexOfByte(s[1..], b - Utf8Len(s[0]));
      assert forall k :: 1 <= k <= |s| ==> ByteLen(s[..k]) == Utf8Len(s[0]) + ByteLen(s[1..][..k - 1]) by {
        forall k | 1 <= k <= |s| ensures ByteLen(s[..k]) == Utf8Len(s[0]) + ByteLen(s[1..][..k - 1]) {
          assert s[..k][1..] == s[1..][..k - 1];
        }
      }
      assert s[..0] == [];
      match rest
      case None => None
      case Some(k) => Some(k + 1)
  }

  /** `&s[begin..end]` with byte offsets, panicking exactly when Rust does:
      an offset past the end, `begin > end`, or an offset inside a character. */
  function ByteSlice(s: string, begin: nat, end: nat): (r: Result<string, Panic>)
    ensures r.Ok? <==> begin <= end && CharIndexOfByte(s, begin).Some? && CharIndexOfByte(s, end).Some?
  {
    if begin <= end then
      match (CharIndexOfByte(s, begin), CharIndexOfByte(s, end))
      case (Some(i), Some(j)) =>
        ByteSliceLen(s, i, j);
        Ok(s[i..j])
      case _ => Err(SliceFailure(s, begin, end))
    else
      Err(SliceFailure(s, begin, end))
  }

  /** Which of its checks a failing `&s[begin..end]` reports first. */
  function SliceFailure(s: string, begin: nat, end: nat): Panic {
    if begin > ByteLen(s) || end > ByteLen(s) then Panic("byte index out of bounds")
    else if begin > end then Panic("slice index starts after it ends")
    else Panic("byte index is not a char boundary")
  }

  /** Slicing from a byte offset past the end panics as out of bounds. */
  lemma ByteSlicePastEnd(s: string, begin: nat, end: nat)
    ensures begin > ByteLen(s) ==> ByteSlice(s, begin, end) == Err(Panic("byte index out of bounds"))
  {
    var c := CharIndexOfByte(s, begin);
    if c.Some? {
      assert s == s[..c.value] + s[c.value..];
      ByteLenAppend(s[..c.value], s[c.value..]);
    }
  }

  /** A slice that succeeds holds `end - begin` bytes and ends within `s`. */
  lemma ByteSliceBytes(s: string, begin: nat, end: nat)
    requires ByteSlice(s, begin, end).Ok?
    ensures ByteLen(ByteSlice(s, begin, end).value) == end - begin && end <= ByteLen(s)
  {
    var i, j := CharIndexOfByte(s, begin).value, CharIndexOfByte(s, end).value;
    ByteSliceLen(s, i, j);
    assert s == s[..j] + s[j..];
    ByteLenAppend(s[..j], s[j..]);
  }

  lemma ByteSliceLen(s: string, i: nat, j: nat)
    requires i <= |s| && j <= |s| && ByteLen(s[..i]) <= ByteLen(s[..j])
    ensures i <= j && ByteLen(s[i..j]) == ByteLen(s[..j]) - ByteLen(s[..i])
  {
    if j < i {
      assert s[..i] == s[..j] + s[j..i];
      ByteLenAppend(s[..j], s[j..i]);
      assert false;
    }
    assert s[..j] == s[..i] + s[i..j];
    ByteLenAppend(s[..i], s[i..j]);
  }

  // ---------------------------------------------------------------------------
  // Trimming, tokens, search, split, replace, padding

  function TrimStart(s: string): (r: string)
    ensures |r| <= |s| && r == s[|s| - |r|..]
    ensures r == [] || !IsWhitespace(r[0])
  {
    if s != [] && IsWhitespace(s[0]) then TrimStart(s[1..]) else s
  }

  function TrimEnd(s: string): (r: string)
    ensures |r| <= |s| && r == s[..|r|]
    ensures r == [] || !IsWhitespace(r[|r| - 1])
  {
    if s != [] && IsWhitespace(s[|s| - 1]) then TrimEnd(s[..|s| - 1]) else s
  }

  /** `str::trim` */
  function Trim(s: string): (r: string)
    ensures r == [] || (!IsWhitespace(r[0]) && !IsWhitespace(r[|r| - 1]))
  {
    TrimEnd(TrimStart(s))
  }

  /** A whitespace character appended to a text that is not all
      whitespace survives the start trimming. */
  lemma {:induction false} TrimStartWsSuffix(s: string, c: char)
    requires IsWhitespace(c) && !AllWhitespace(s)
    ensures TrimStart(s + [c]) == TrimStart(s) + [c]
  {
    var t := s + [c];
    assert t[0] == s[0] && t[1..] == s[1..] + [c];
    if IsWhitespace(s[0]) {
      assert !AllWhitespace(s[1..]) by {
        var i :| 0 <= i < |s| && !IsWhitespace(s[i]);
        assert s[1..][i - 1] == s[i];
      }
      TrimStartWsSuffix(s[1..], c);
    }
  }

  /** Trailing whitespace does not change the trimmed text. */
  lemma TrimWsSuffix(s: string, c: char)
    requires IsWhitespace(c)
    ensures Trim(s + [c]) == Trim(s)
  {
    if AllWhitespace(s) {
      assert AllWhitespace(s + [c]);
    } else {
      TrimStartWsSuffix(s, c);
      var t := TrimStart(s) + [c];
      assert t[..|t| - 1] == TrimStart(s);
    }
  }

  /** Trimming keeps text ASCII and does not lengthen it. */
  lemma TrimAscii(s: string)
    ensures |Trim(s)| <= |s|
    ensures IsAscii(s) ==> IsAscii(Trim(s))
  {
    var a := TrimStart(s);
    var r := TrimEnd(a);
    if IsAscii(s) {
      assert forall i :: 0 <= i < |r| ==> r[i] == a[i] == s[|s| - |a| + i];
    }
  }

  /** Length of the run of non-whitespace characters at the start of `s`. */
  function WordLen(s: string): (k: nat)
    ensures k <= |s| && NoWhitespace(s[..k])
    ensures k < |s| ==> IsWhitespace(s[k])
  {
    if s == [] || IsWhitespace(s[0]) then 0 else 1 + WordLen(s[1..])
  }

  /** `str::split_whitespace`: the maximal runs of non-whitespace characters. */
  function Tokens(s: string): (ts: seq<string>)
    decreases |s|
  {
    if s == [] then []
    else if IsWhitespace(s[0]) then Tokens(s[1..])
    else
      var k := WordLen(s);
      [s[..k]] + Tokens(s[k..])
  }

  /** `split_whitespace().last()` */
  function LastToken(s: string): Option<string> {
    var ts := Tokens(s);
    if ts == [] then None else Some(ts[|ts| - 1])
  }

  lemma {:induction false} TokensEmpty(s: string)
    ensures Tokens(s) == [] <==> AllWhitespace(s)
    decreases |s|
  {
    if s != [] {
      if IsWhitespace(s[0]) {
        TokensEmpty(s[1..]);
        assert AllWhitespace(s) <==> AllWhitespace(s[1..]) by {
          if AllWhitespace(s[1..]) {
            forall i | 0 <= i < |s| ensures IsWhitespace(s[i]) {
              if i > 0 { assert s[i] == s[1..][i - 1]; }
            }
          }
        }
      }
    }
  }

  lemma {:induction false} TokensOfWord(s: string)
    requires s != [] && NoWhitespace(s)
    ensures Tokens(s) == [s]
  {
    WordLenOfWord(s);
    assert s[..|s|] == s;
    assert s[|s|..] == [];
  }

  lemma {:induction false} WordLenOfWord(s: string)
    requires NoWhitespace(s)
    ensures WordLen(s) == |s|
  {
    if s != [] {
      assert NoWhitespace(s[1..]) by {
        forall i | 0 <= i < |s[1..]| ensures !IsWhitespace(s[1..][i]) {
          assert s[1..][i] == s[i + 1];
        }
      }
      WordLenOfWord(s[1..]);
    }
  }

  lemma {:induction false} WordLenStopsAt(a: string, c: char, b: string)
    requires IsWhitespace(c)
    ensures WordLen(a + [c] + b) == WordLen(a)
  {
    if a == [] {
      assert (a + [c] + b)[0] == c;
    } else {
      assert (a + [c] + b)[0] == a[0];
      if !IsWhitespace(a[0]) {
        assert (a + [c] + b)[1..] == a[1..] + [c] + b;
        WordLenStopsAt(a[1..], c, b);
      }
    }
  }

  /** A whitespace character separates tokens: the tokens of `a + [c] + b`
      are those of `a` followed by those of `b`. */
  lemma {:induction false} TokensSplitAt(a: string, c: char, b: string)
    requires IsWhitespace(c)
    ensures Tokens(a + [c] + b) == Tokens(a) + Tokens(b)
    decreases |a|
  {
    var s := a + [c] + b;
    if a == [] {
      assert s[1..] == b;
    } else if IsWhitespace(a[0]) {
      assert s[1..] == a[1..] + [c] + b;
      TokensSplitAt(a[1..], c, b);
    } else {
      WordLenStopsAt(a, c, b);
      var k := WordLen(a);
      assert s[..k] == a[..k];
      assert s[k..] == a[k..] + [c] + b;
      TokensSplitAt(a[k..], c, b);
    }
  }

  /** Every occurrence of `pat` starting at character index `k` of `s`. */
  predicate OccursAt(s: string, pat: string, k: nat) {
    k + |pat| <= |s| && s[k..k + |pat|] == pat
  }

  function FirstOccurrenceFrom(s: string, pat: string, from: nat): (r: Option<nat>)
    requires from <= |s| + 1
    ensures r.Some? ==> from <= r.value && OccursAt(s, pat, r.value)
    ensures r.Some? ==> forall j :: from <= j < r.value ==> !OccursAt(s, pat, j)
    ensures r.None? ==> forall j :: from <= j ==> !OccursAt(s, pat, j)
    decreases |s| + 1 - from
  {
    if from + |pat| > |s| then None
    else if s[from..from + |pat|] == pat then Some(from)
    else FirstOccurrenceFrom(s, pat, from + 1)
  }

  /** `str::find`: the byte offset of the first occurrence of `pat`. */
  function Find(s: string, pat: string): (r: Option<nat>)
    ensures r.Some? <==> exists k :: OccursAt(s, pat, k)
    ensures r.Some? ==> CharIndexOfByte(s, r.value).Some?
  {
    match FirstOccurrenceFrom(s, pat, 0)
    case None => None
    case Some(k) =>
      var b := ByteLen(s[..k]);
      CharIndexBoundary(s, k);
      Some(b)
  }

  lemma CharIndexBoundary(s: string, k: nat)
    requires k <= |s|
    ensures CharIndexOfByte(s, ByteLen(s[..k])).Some?
  {}

  /** The byte offset of a character prefix maps back to that prefix. */
  lemma CharIndexOfPrefix(s: string, k: nat)
    requires k <= |s|
    ensures CharIndexOfByte(s, ByteLen(s[..k])) == Some(k)
  {
    var m := CharIndexOfByte(s, ByteLen(s[..k])).value;
    ByteSliceLen(s, m, k);
    ByteSliceLen(s, k, m);
  }

  /** On ASCII text, byte offsets are character indices. */
  lemma ByteSliceAscii(s: string, i: nat, j: nat)
    requires IsAscii(s) && i <= j <= |s|
    ensures ByteSlice(s, i, j) == Ok(s[i..j])
  {
    assert IsAscii(s[..i]) && IsAscii(s[..j]);
    ByteLenAscii(s[..i]);
    ByteLenAscii(s[..j]);
    ByteLenAscii(s);
    assert s[..|s|] == s;
    CharIndexOfPrefix(s, i);
    CharIndexOfPrefix(s, j);
  }

  /** `str::split(sep)`: the pieces between occurrences of `sep`; there is
      always at least one piece. */
  function Split(s: string, sep: char): (pieces: seq<string>)
    ensures |pieces| >= 1
  {
    if s == [] then [[]]
    else
      var rest := Split(s[1..], sep);
      if s[0] == sep then [[]] + rest else [[s[0]] + rest[0]] + rest[1..]
  }

  /** Without the separator there is one piece, the whole text. */
  lemma {:induction false} SplitNoSep(s: string, sep: char)
    requires sep !in s
    ensures Split(s, sep) == [s]
  {
    if s != [] {
      SplitNoSep(s[1..], sep);
      assert [s[0]] + s[1..] == s;
    }
  }

  /** The first piece ends at the first separator. */
  lemma {:induction false} SplitAtSep(a: string, sep: char, b: string)
    requires sep !in a
    ensures Split(a + [sep] + b, sep) == [a] + Split(b, sep)
  {
    var s := a + [sep] + b;
    if a == [] {
      assert s[0] == sep && s[1..] == b;
    } else {
      assert s[0] == a[0] && s[1..] == a[1..] + [sep] + b;
      SplitAtSep(a[1..], sep, b);
      assert [a[0]] + a[1..] == a;
    }
  }

  /** `.map(|s| s.trim())` over the pieces. */
  function TrimAll(pieces: seq<string>): seq<string> {
    seq(|pieces|, i requires 0 <= i < |pieces| => Trim(pieces[i]))
  }

  /** `str::replace(pat, "")`: removes the non-overlapping occurrences of
      `pat`, scanning left to right; an empty pattern changes nothing. */
  function RemoveAll(s: string, pat: string): (r: string)
    ensures |r| <= |s|
    decreases |s|
  {
    if pat == [] || |s| < |pat| then s
    else if s[..|pat|] == pat then RemoveAll(s[|pat|..], pat)
    else [s[0]] + RemoveAll(s[1..], pat)
  }

  lemma {:induction false} RemoveAllAscii(s: string, pat: string)
    requires IsAscii(s)
    ensures IsAscii(RemoveAll(s, pat))
    decreases |s|
  {
    if pat != [] && |s| >= |pat| {
      assert IsAscii(s[1..]) && IsAscii(s[|pat|..]);
      if s[..|pat|] == pat {
        RemoveAllAscii(s[|pat|..], pat);
      } else {
        RemoveAllAscii(s[1..], pat);
      }
    }
  }

  /** `format!("{:0>w}", s)` for a string: left-pads with '0' to `w` characters. */
  function PadLeftZeros(s: string, w: nat): (r: string)
    ensures |r| == if |s| < w then w else |s|
    ensures r[|r| - |s|..] == s
    ensures forall i :: 0 <= i < |r| - |s| ==> r[i] == '0'
  {
    if |s| < w then seq(w - |s|, _ => '0') + s else s
  }
}
