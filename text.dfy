/** Text primitives the chunker relies on: the UTF-8 length of a character
    (section 3 of RFC 3629), the Unicode White_Space property used by Rust's
    `str::trim`, trimming, and splitting on '\n' as `str::split("\n")` does.
    A string is a sequence of Unicode scalar values (`char`). */
module Text {

  /** Number of bytes the UTF-8 encoding of `c` occupies (`char::len_utf8`):
      one byte below U+0080, two below U+0800, three below U+10000, else four. */
  function Utf8Len(c: char): (n: nat)
    ensures 1 <= n <= 4
    ensures n == 1 <==> c as int < 0x80
    ensures n == 4 <==> 0x10000 <= c as int
  {
    if c as int < 0x80 then 1
    else if c as int < 0x800 then 2
    else if c as int < 0x1_0000 then 3
    else 4
  }

  /** Byte length of the UTF-8 encoding of `s` (`String::len`). */
  function ByteLen(s: seq<char>): (n: nat)
    ensures |s| <= n <= 4 * |s|
  {
    if |s| == 0 then 0 else ByteLen(s[..|s| - 1]) + Utf8Len(s[|s| - 1])
  }

  /** Encoding a concatenation takes the bytes of both parts. */
  lemma {:induction false} ByteLenAppend(a: seq<char>, b: seq<char>)
    ensures ByteLen(a + b) == ByteLen(a) + ByteLen(b)
    decreases |b|
  {
    if b != [] {
      var b' := b[..|b| - 1];
      assert (a + b)[..|a + b| - 1] == a + b';
      ByteLenAppend(a, b');
    } else {
      assert a + b == a;
    }
  }

  /** The Unicode White_Space property (`char::is_whitespace`). Among the
      ASCII characters it holds exactly for the space and the controls
      U+0009 to U+000D (tab, line feed, vertical tab, form feed, carriage
      return). */
  function IsWhitespace(c: char): (b: bool)
    ensures c as int < 0x80 ==> (b <==> c == ' ' || '\t' <= c <= '\r')
  {
    var v := c as int;
    (0x09 <= v <= 0x0D) || v == 0x20 || v == 0x85 || v == 0xA0 || v == 0x1680
    || (0x2000 <= v <= 0x200A) || v == 0x2028 || v == 0x2029 || v == 0x202F
    || v == 0x205F || v == 0x3000
  }

  /** `s.trim().is_empty()`: every character of `s` is white space. */
  predicate IsBlank(s: seq<char>) {
    forall i :: 0 <= i < |s| ==> IsWhitespace(s[i])
  }

  /** Length of the white-space run at the start of `s`. */
  function LeadingBlank(s: seq<char>): (n: nat)
    ensures n <= |s|
  {
    if s != [] && IsWhitespace(s[0]) then 1 + LeadingBlank(s[1..]) else 0
  }

  /** Length of the white-space run at the end of `s`. */
  function TrailingBlank(s: seq<char>): (n: nat)
    ensures n <= |s|
  {
    if s != [] && IsWhitespace(s[|s| - 1]) then 1 + TrailingBlank(s[..|s| - 1]) else 0
  }

  /** `LeadingBlank` is the longest all-white-space prefix. */
  lemma {:induction false} LeadingBlankSpec(s: seq<char>)
    ensures IsBlank(s[..LeadingBlank(s)])
    ensures LeadingBlank(s) < |s| ==> !IsWhitespace(s[LeadingBlank(s)])
  {
    if s != [] && IsWhitespace(s[0]) {
      LeadingBlankSpec(s[1..]);
      var n := LeadingBlank(s);
      assert forall i :: 1 <= i < n ==> s[..n][i] == s[1..][..n - 1][i - 1];
    }
  }

  /** `TrailingBlank` is the longest all-white-space suffix. */
  lemma {:induction false} TrailingBlankSpec(s: seq<char>)
    ensures IsBlank(s[|s| - TrailingBlank(s)..])
    ensures TrailingBlank(s) < |s| ==> !IsWhitespace(s[|s| - 1 - TrailingBlank(s)])
  {
    if s != [] && IsWhitespace(s[|s| - 1]) {
      var s' := s[..|s| - 1];
      TrailingBlankSpec(s');
      var n := TrailingBlank(s);
      assert s[|s| - n..] == s'[|s'| - (n - 1)..] + [s[|s| - 1]];
    }
  }

  /** `str::trim`: strips leading and trailing white space, so what is
      left neither starts nor ends with white space. */
  function Trim(s: seq<char>): (r: seq<char>)
    ensures r != [] ==> !IsWhitespace(r[0]) && !IsWhitespace(r[|r| - 1])
  {
    var i := LeadingBlank(s);
    var rest := s[i..];
    var r := rest[..|rest| - TrailingBlank(rest)];
    LeadingBlankSpec(s);
    TrailingBlankSpec(rest);
    assert r != [] ==> r[0] == s[i];
    r
  }

  /** A string with no white space at either end is left as it is. */
  lemma TrimSolid(s: seq<char>)
    requires s != [] ==> !IsWhitespace(s[0]) && !IsWhitespace(s[|s| - 1])
    ensures Trim(s) == s
  {
    assert LeadingBlank(s) == 0;
    assert s[0..] == s;
    assert TrailingBlank(s) == 0;
    assert s[..|s|] == s;
  }

  /** Trimming cuts `s` between two all-white-space ends. */
  lemma TrimSlice(s: seq<char>)
    ensures exists i, j :: 0 <= i <= j <= |s| && Trim(s) == s[i..j] && IsBlank(s[..i]) && IsBlank(s[j..])
  {
    var i := LeadingBlank(s);
    var rest := s[i..];
    LeadingBlankSpec(s);
    TrailingBlankSpec(rest);
    var j := i + (|rest| - TrailingBlank(rest));
    assert s[j..] == rest[|rest| - TrailingBlank(rest)..];
    assert Trim(s) == s[i..j];
  }

  /** A string that starts with a character other than white space is not
      all trailing white space. */
  lemma {:induction false} TrailingBlankStops(s: seq<char>)
    requires s != [] && !IsWhitespace(s[0])
    ensures TrailingBlank(s) < |s|
  {
    if |s| > 1 && IsWhitespace(s[|s| - 1]) {
      TrailingBlankStops(s[..|s| - 1]);
    }
  }

  /** Trimming leaves nothing exactly when `s` is blank. */
  lemma TrimEmptyIffBlank(s: seq<char>)
    ensures Trim(s) == [] <==> IsBlank(s)
  {
    var i := LeadingBlank(s);
    LeadingBlankSpec(s);
    if i == |s| {
      assert s[..i] == s;
    } else {
      var rest := s[i..];
      assert rest[0] == s[i];
      TrailingBlankStops(rest);
      assert !IsWhitespace(s[i]);
    }
  }

  /** `str::split("\n")`: the pieces of `s` between newline characters, in
      order. There is always at least one piece ("" gives [""]), and no piece
      holds a newline. */
  function SplitLines(s: seq<char>): (lines: seq<seq<char>>)
    ensures |lines| >= 1
    ensures forall k :: 0 <= k < |lines| ==> '\n' !in lines[k]
  {
    if s == [] then [[]]
    else
      var tail := SplitLines(s[1..]);
      if s[0] == '\n' then [[]] + tail
      else [[s[0]] + tail[0]] + tail[1..]
  }

  /** The pieces joined back with a newline between consecutive ones. */
  function JoinLines(lines: seq<seq<char>>): seq<char>
    requires |lines| >= 1
  {
    if |lines| == 1 then lines[0] else lines[0] + ['\n'] + JoinLines(lines[1..])
  }

  /** Splitting loses nothing: joining the pieces gives back the text. */
  lemma {:induction false} JoinSplitLines(s: seq<char>)
    ensures JoinLines(SplitLines(s)) == s
  {
    if s != [] {
      var tail := SplitLines(s[1..]);
      JoinSplitLines(s[1..]);
      if s[0] != '\n' {
        if |tail| == 1 {
          assert SplitLines(s) == [[s[0]] + tail[0]];
        } else {
          assert SplitLines(s)[1..] == tail[1..];
        }
      } else {
        assert SplitLines(s)[1..] == tail;
      }
    }
  }

  /** Joining newline-free pieces and splitting again gives back the pieces. */
  lemma {:induction false} SplitJoinLines(lines: seq<seq<char>>)
    requires |lines| >= 1
    requires forall k :: 0 <= k < |lines| ==> '\n' !in lines[k]
    ensures SplitLines(JoinLines(lines)) == lines
    decreases |lines|, |lines[0]|
  {
    var head := lines[0];
    if head == [] {
      if |lines| > 1 {
        SplitJoinLines(lines[1..]);
        assert JoinLines(lines) == ['\n'] + JoinLines(lines[1..]);
        assert JoinLines(lines)[1..] == JoinLines(lines[1..]);
        assert lines == [[]] + lines[1..];
      }
    } else {
      var shorter := [head[1..]] + lines[1..];
      assert forall k :: 1 <= k < |lines| ==> shorter[k] == lines[k];
      SplitJoinLines(shorter);
      var s := JoinLines(lines);
      if |lines| == 1 {
        assert s[1..] == JoinLines(shorter);
      } else {
        assert JoinLines(lines[1..]) == JoinLines(shorter[1..]) by {
          assert lines[1..] == shorter[1..];
        }
        assert s[1..] == JoinLines(shorter);
      }
      assert s[0] == head[0] && head[0] != '\n';
      assert head == [head[0]] + head[1..];
      assert SplitLines(s) == [[s[0]] + head[1..]] + lines[1..];
      assert lines == [[head[0]] + head[1..]] + lines[1..];
    }
  }

  /** A blank concatenation is made of blank parts. */
  lemma BlankAppend(a: seq<char>, b: seq<char>)
    ensures IsBlank(a + b) <==> IsBlank(a) && IsBlank(b)
  {
    assert forall i :: 0 <= i < |a| ==> (a + b)[i] == a[i];
    assert forall i :: 0 <= i < |b| ==> (a + b)[|a| + i] == b[i];
  }

  /** Every piece of `lines` is blank. */
  predicate AllBlank(lines: seq<seq<char>>) {
    forall k :: 0 <= k < |lines| ==> IsBlank(lines[k])
  }

  /** A text is blank exactly when every one of its '\n'-separated pieces is
      blank ('\n' itself is white space). */
  lemma {:induction false} BlankIffLinesBlank(s: seq<char>)
    ensures IsBlank(s) <==> AllBlank(SplitLines(s))
  {
    if s != [] {
      var tail := SplitLines(s[1..]);
      BlankIffLinesBlank(s[1..]);
      assert s == [s[0]] + s[1..];
      BlankAppend([s[0]], s[1..]);
      var lines := SplitLines(s);
      if s[0] == '\n' {
        assert IsWhitespace(s[0]);
        assert lines == [[]] + tail;
        assert IsBlank(lines[0]);
        assert forall k :: 1 <= k < |lines| ==> lines[k] == tail[k - 1];
        assert AllBlank(lines) <==> AllBlank(tail) by {
          assert forall k :: 0 <= k < |tail| ==> tail[k] == lines[k + 1];
        }
        assert IsBlank(s) <==> IsBlank(s[1..]);
      } else {
        assert lines[1..] == tail[1..];
        BlankAppend([s[0]], tail[0]);
        assert AllBlank(lines) <==> IsBlank(lines[0]) && AllBlank(tail[1..]) by {
          assert forall k :: 1 <= k < |lines| ==> lines[k] == tail[1..][k - 1];
        }
        assert AllBlank(tail) <==> IsBlank(tail[0]) && AllBlank(tail[1..]) by {
          assert forall k :: 1 <= k < |tail| ==> tail[k] == tail[1..][k - 1];
        }
      }
    }
  }
}
