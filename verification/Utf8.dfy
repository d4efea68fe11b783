/** Columns counted in characters of UTF-8 text: code points, their encoding, and the
    positions behind them. */
module Utf8 {
  import opened Types
  import opened LineIndex

  type CodePoint = n: nat | n < 0x11_0000

  /** The one to four bytes of a code point (section 3 of RFC 3629). */
  function Bytes(c: CodePoint): Text {
    if c < 0x80 then [c]
    else if c < 0x800 then [0xC0 + c / 0x40, 0x80 + c % 0x40]
    else if c < 0x1_0000 then [0xE0 + c / 0x1000, 0x80 + c / 0x40 % 0x40, 0x80 + c % 0x40]
    else [0xF0 + c / 0x4_0000, 0x80 + c / 0x1000 % 0x40, 0x80 + c / 0x40 % 0x40, 0x80 + c % 0x40]
  }

  function Encode(cs: seq<CodePoint>): Text {
    if cs == [] then [] else Encode(cs[..|cs| - 1]) + Bytes(cs[|cs| - 1])
  }

  lemma {:induction false} CharsAppend(a: Text, b: Text)
    ensures Chars(a + b) == Chars(a) + Chars(b)
  {
    if b == [] {
      assert a + b == a;
    } else {
      assert (a + b)[..|a + b| - 1] == a + b[..|b| - 1];
      CharsAppend(a, b[..|b| - 1]);
    }
  }

  /** In any text, well encoded or not, each byte counts but those whose two top bits
      are 10. */
  lemma CountedBytes(t: Text, b: Byte)
    ensures Chars([]) == 0
    ensures Chars(t + [b]) == Chars(t) + if (b as bv8) & 0xC0 == 0x80 then 0 else 1
  {
    assert (t + [b])[..|t|] == t;
    TopBits(b);
  }

  lemma TopBits(b: Byte)
    ensures (b as bv8) & 0xC0 == 0x80 <==> 0x80 <= b <= 0xBF
  {
    var v := b as bv8;
    assert v & 0xC0 == 0x80 <==> 0x80 <= v <= 0xBF;
  }

  lemma {:induction false} Trailing(t: Text)
    requires forall i :: 0 <= i < |t| ==> 0x80 <= t[i] < 0xC0
    ensures Chars(t) == 0
  {
    if t != [] { Trailing(t[..|t| - 1]); }
  }

  /** The bytes of a code point are one lead byte and trailing bytes. */
  lemma BytesShape(c: CodePoint)
    ensures var t := Bytes(c);
            1 <= |t| <= 4 && (t[0] < 0x80 || 0xC0 <= t[0]) && forall i :: 1 <= i < |t| ==> 0x80 <= t[i] < 0xC0
    ensures forall i :: 0 <= i < |Bytes(c)| ==> (Bytes(c)[i] == 10 <==> c == 10)
  {
  }

  lemma BytesAreOneChar(c: CodePoint)
    ensures Chars(Bytes(c)) == 1
  {
    var t := Bytes(c);
    BytesShape(c);
    assert t == [t[0]] + t[1..];
    CharsAppend([t[0]], t[1..]);
    Trailing(t[1..]);
    assert [t[0]][..0] == [];
  }

  /** A text counts as many characters as it encodes. */
  lemma {:induction false} CharsOfEncoding(cs: seq<CodePoint>)
    ensures Chars(Encode(cs)) == |cs|
  {
    if cs != [] {
      CharsOfEncoding(cs[..|cs| - 1]);
      CharsAppend(Encode(cs[..|cs| - 1]), Bytes(cs[|cs| - 1]));
      BytesAreOneChar(cs[|cs| - 1]);
    }
  }

  /** Line breaks are the bytes 10. */
  lemma {:induction false} NewlinesAreBytes(t: Text)
    ensures Newlines(t) == multiset(t)[10]
  {
    if t != [] {
      NewlinesAreBytes(t[..|t| - 1]);
      assert t == t[..|t| - 1] + [t[|t| - 1]];
    }
  }

  lemma {:induction false} NoBreakInside(cs: seq<CodePoint>)
    requires 10 !in cs
    ensures 10 !in Encode(cs)
  {
    if cs != [] {
      var last := cs[|cs| - 1];
      assert last in cs;
      NoBreakInside(cs[..|cs| - 1]);
      BytesShape(last);
    }
  }

  lemma {:induction false} LineStartBehind(before: Text, line: Text)
    requires (before == [] || before[|before| - 1] == 10) && 10 !in line
    ensures LineStart(before + line) == |before|
  {
    if line == [] {
      assert before + line == before;
    } else {
      var t := before + line;
      assert t[..|t| - 1] == before + line[..|line| - 1];
      assert line[|line| - 1] in line;
      LineStartBehind(before, line[..|line| - 1]);
    }
  }

  lemma BreaksInFront(before: Text, line: Text)
    requires 10 !in line
    ensures Newlines(before + line) == multiset(before)[10]
  {
    NewlinesAreBytes(before + line);
    assert multiset(before + line) == multiset(before) + multiset(line);
    assert 10 !in multiset(line);
  }

  lemma EndBehind(before: Text, line: Text)
    requires (before == [] || before[|before| - 1] == 10) && 10 !in line
    ensures EndOf(before + line) == LineCol(1 + multiset(before)[10], 1 + Chars(line))
  {
    LineStartBehind(before, line);
    assert (before + line)[|before|..] == line;
    BreaksInFront(before, line);
  }

  lemma PositionBehind(front: Text, after: Text)
    requires front + after != []
    ensures LineColumnAt(front + after, |front| + 1) == EndOf(front)
  {
    assert (front + after)[..|front|] == front;
  }

  lemma ColumnBehind(before: Text, line: Text, after: Text)
    requires (before == [] || before[|before| - 1] == 10) && 10 !in line && before + line + after != []
    ensures LineColumnAt(before + line + after, |before| + |line| + 1) ==
            LineCol(1 + multiset(before)[10], 1 + Chars(line))
  {
    EndBehind(before, line);
    PositionBehind(before + line, after);
  }

  /** Behind `k` characters of a line the column is k + 1, however many bytes they take;
      the line number is one more than the bytes 10 in front. */
  lemma ColumnCountsCharacters(before: Text, cs: seq<CodePoint>, line: Text, after: Text)
    requires (before == [] || before[|before| - 1] == 10) && 10 !in cs && line == Encode(cs)
    requires before + line + after != []
    ensures LineColumnAt(before + line + after, |before| + |line| + 1) == LineCol(1 + multiset(before)[10], |cs| + 1)
  {
    LineOfCharacters(cs, line);
    ColumnBehind(before, line, after);
  }

  lemma LineOfCharacters(cs: seq<CodePoint>, line: Text)
    requires 10 !in cs && line == Encode(cs)
    ensures 10 !in line && Chars(line) == |cs|
  {
    NoBreakInside(cs);
    CharsOfEncoding(cs);
  }

  /** Where a line starts, by the bytes 10 in front of it; numbers of lines that do not
      exist stand for the end of the text. */
  lemma LineOffset(src: Text, line: nat, offset: nat)
    requires StartsLine(src, line, offset)
    ensures 1 <= offset <= |src| + 1
    ensures if 1 <= line <= 1 + multiset(src)[10] then
              multiset(src[..offset - 1])[10] == line - 1 && (offset == 1 || src[offset - 2] == 10)
            else offset == |src| + 1
  {
    NewlinesAreBytes(src);
    NewlinesAreBytes(src[..offset - 1]);
  }

  /** Inside an empty text every offset is taken for a column of line 1; behind the end
      of any other text, for its end. */
  lemma OutsideText(src: Text, offset: nat)
    requires offset > 0
    ensures src == [] ==> LineColumnAt(src, offset) == LineCol(1, offset)
    ensures src != [] && offset > |src| + 1 ==> LineColumnAt(src, offset) == LineColumnAt(src, |src| + 1)
  {
  }
}
