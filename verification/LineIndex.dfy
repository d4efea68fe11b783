/** Line and column of a byte offset: the sparse index of line starts and the scan
    from the nearest indexed line, against counting from the start of the text. */
module LineIndex {
  import opened Types
  import Location

  type Text = seq<Byte>

  const NL: Byte := 10

  // ---- what a position is -------------------------------------------------------------

  /** Continuation bytes of UTF-8: the two high bits are 10. */
  predicate IsContinuation(c: Byte) {
    0x80 <= c < 0xC0
  }

  function Newlines(t: Text): nat {
    if t == [] then 0 else Newlines(t[..|t| - 1]) + (if t[|t| - 1] == NL then 1 else 0)
  }

  function Chars(t: Text): nat {
    if t == [] then 0 else Chars(t[..|t| - 1]) + (if IsContinuation(t[|t| - 1]) then 0 else 1)
  }

  predicate IsLineStart(t: Text, i: nat) {
    i <= |t| && (i == 0 || t[i - 1] == NL)
  }

  /** The last line start of a text. */
  function LineStart(t: Text): nat
    ensures IsLineStart(t, LineStart(t))
  {
    if t == [] then 0 else if t[|t| - 1] == NL then |t| else LineStart(t[..|t| - 1])
  }

  datatype LineCol = LineCol(line: nat, column: nat)

  /** Position right behind the text: lines are counted by newlines, columns by
      UTF-8 characters since the last line start. */
  function EndOf(t: Text): LineCol {
    LineCol(1 + Newlines(t), 1 + Chars(t[LineStart(t)..]))
  }

  /** Offsets are 1-based; beyond the end of the text the end counts. */
  function LineColumnAt(src: Text, offset: nat): LineCol
    requires offset > 0
  {
    if src == [] then LineCol(1, offset)
    else EndOf(src[..if offset - 1 <= |src| then offset - 1 else |src|])
  }

  function LineCount(src: Text): nat {
    1 + Newlines(src)
  }

  lemma {:induction false} NewlinesGrow(t: Text, i: nat, j: nat)
    requires i <= j <= |t|
    ensures Newlines(t[..i]) <= Newlines(t[..j])
    ensures IsLineStart(t, j) && i < j ==> Newlines(t[..i]) < Newlines(t[..j])
    decreases j
  {
    if i < j {
      assert t[..j][..j - 1] == t[..j - 1];
      NewlinesGrow(t, i, j - 1);
    }
  }

  lemma StepNewlines(t: Text, i: nat)
    requires i < |t|
    ensures Newlines(t[..i + 1]) == Newlines(t[..i]) + (if t[i] == NL then 1 else 0)
  {
    assert t[..i + 1][..i] == t[..i];
  }

  lemma StepEnd(t: Text, i: nat)
    requires i < |t|
    ensures var e := EndOf(t[..i]);
            EndOf(t[..i + 1]) == if t[i] == NL then LineCol(e.line + 1, 1)
                                 else LineCol(e.line, e.column + (if IsContinuation(t[i]) then 0 else 1))
  {
    var a, b := t[..i], t[..i + 1];
    assert b[..i] == a;
    if t[i] != NL {
      var s := LineStart(a);
      assert b[s..][..|b[s..]| - 1] == a[s..];
    }
  }

  // ---- the sparse index -----------------------------------------------------------------

  datatype Anchor = Anchor(offset: nat, line: nat)

  /** All line starts with their 1-based numbers. */
  function AllLines(t: Text): (ls: seq<Anchor>)
    ensures |ls| == LineCount(t)
  {
    if t == [] then [Anchor(0, 1)]
    else AllLines(t[..|t| - 1]) + (if t[|t| - 1] == NL then [Anchor(|t|, LineCount(t))] else [])
  }

  predicate ValidAnchor(src: Text, a: Anchor) {
    IsLineStart(src, a.offset) && a.line == LineCount(src[..a.offset])
  }

  lemma {:induction false} AllLinesValid(t: Text)
    ensures forall i :: 0 <= i < |AllLines(t)| ==>
              ValidAnchor(t, AllLines(t)[i]) && AllLines(t)[i].line == i + 1
    ensures AllLines(t)[0] == Anchor(0, 1)
  {
    if t == [] {
      assert t[..0] == [];
    } else {
      var init := t[..|t| - 1];
      AllLinesValid(init);
      forall i | 0 <= i < |AllLines(t)|
        ensures ValidAnchor(t, AllLines(t)[i]) && AllLines(t)[i].line == i + 1
      {
        var a := AllLines(t)[i];
        if i < |AllLines(init)| {
          assert a == AllLines(init)[i];
          assert t[..a.offset] == init[..a.offset];
        } else {
          assert t[..|t|] == t;
        }
      }
    }
  }

  function ISqrt(n: nat): (r: nat)
    ensures r * r <= n < (r + 1) * (r + 1)
  {
    if n == 0 then 0
    else
      var r := ISqrt(n - 1);
      if (r + 1) * (r + 1) <= n then r + 1 else r
  }

  function Max(a: nat, b: nat): nat { if a >= b then a else b }
  function Min(a: nat, b: nat): nat { if a <= b then a else b }

  function SampleSize(lineCount: nat): nat {
    Min(Max(2, ISqrt(lineCount)), lineCount)
  }

  /** At least two and at least the square root of the lines, as far as there are that
      many, and no more than that. */
  lemma SampleSizeIs(n: nat)
    ensures var k := SampleSize(n);
            && k <= n && (k < n ==> k >= 2 && n < (k + 1) * (k + 1))
            && (k > 2 ==> k * k <= n)
  {
  }

  lemma DivMonotone(a: nat, b: nat, d: nat)
    requires a <= b && d > 0
    ensures a / d <= b / d
  {
    var q, r := a / d, b / d;
    assert a == d * q + a % d && b == d * r + b % d;
    if q > r { MulMonotone(r + 1, q, d); }
  }

  lemma MulMonotone(a: nat, b: nat, c: nat)
    requires a <= b
    ensures a * c <= b * c
  {
    assert b * c - a * c == (b - a) * c;
  }

  lemma DivBelow(a: nat, d: nat, n: nat)
    requires d > 0 && a < d * n
    ensures a / d < n
  {
    var q := a / d;
    assert a == d * q + a % d;
    if q >= n { MulMonotone(n, q, d); }
  }

  /** Index of the i-th of `size` samples among `n` lines. */
  function Pick(i: nat, size: nat, n: nat): nat
    requires 2 <= size && n > 0
  {
    i * (n - 1) / (size - 1)
  }

  lemma PickMonotone(i: nat, j: nat, size: nat, n: nat)
    requires 2 <= size && n > 0 && i <= j
    ensures Pick(i, size, n) <= Pick(j, size, n)
  {
    MulMonotone(i, j, n - 1);
    DivMonotone(i * (n - 1), j * (n - 1), size - 1);
  }

  lemma PickInside(i: nat, size: nat, n: nat)
    requires 2 <= size && n > 0 && i < size
    ensures Pick(i, size, n) < n
  {
    var d, m := size - 1, n - 1;
    MulMonotone(i, d, m);
    assert d * n == d * m + d;
    DivBelow(i * m, d, n);
  }

  lemma DivUnique(a: nat, d: nat, q: nat, r: nat)
    requires a == d * q + r && r < d
    ensures a / d == q
  {
    var k := a / d;
    assert a == d * k + a % d;
    if k < q {
      MulMonotone(k + 1, q, d);
    } else if q < k {
      MulMonotone(q + 1, k, d);
    }
  }

  lemma Distribute(d: nat, q: nat, g: nat)
    ensures d * (q + g) == d * q + d * g && d * (q + g + 1) == d * q + d * g + d
  {
  }

  lemma SumOverDivisor(a: nat, m: nat, d: nat)
    requires d > 0
    ensures m / d <= (a + m) / d - a / d <= m / d + 1
  {
    var q, r, g, e := a / d, a % d, m / d, m % d;
    Distribute(d, q, g);
    if r + e < d {
      DivUnique(a + m, d, q + g, r + e);
    } else {
      DivUnique(a + m, d, q + g + 1, r + e - d);
    }
  }

  /** Neighbouring picks lie as far apart as the picks do on average, rounded down or up. */
  lemma PickGap(i: nat, size: nat, n: nat)
    requires 2 <= size && n > 0
    ensures (n - 1) / (size - 1) <= Pick(i + 1, size, n) - Pick(i, size, n) <= (n - 1) / (size - 1) + 1
  {
    assert (i + 1) * (n - 1) == i * (n - 1) + (n - 1);
    SumOverDivisor(i * (n - 1), n - 1, size - 1);
  }

  lemma LastPick(size: nat, n: nat)
    requires 2 <= size && n > 0
    ensures Pick(0, size, n) == 0 && Pick(size - 1, size, n) == n - 1
  {
    DivUnique((size - 1) * (n - 1), size - 1, n - 1, 0);
  }

  /** From the first line to the last of `n` in even steps, give or take one line. */
  predicate EvenSteps(es: seq<Anchor>, n: nat) {
    && (es != [] ==> es[|es| - 1].line == n)
    && forall i :: 1 <= i < |es| ==>
         (n - 1) / (|es| - 1) <= es[i].line - es[i - 1].line <= (n - 1) / (|es| - 1) + 1
  }

  /** Line starts of the text in order, the first one included. */
  ghost predicate Anchors(src: Text, es: seq<Anchor>) {
    && es != [] && es[0] == Anchor(0, 1)
    && (forall i :: 0 <= i < |es| ==> ValidAnchor(src, es[i]))
    && (forall i, j :: 0 <= i <= j < |es| ==> es[i].line <= es[j].line)
  }

  /** The index built for a text: max(2, sqrt(lines)) of its line starts, or all, evenly
      spread over the text. */
  ghost predicate Indexes(src: Text, es: seq<Anchor>) {
    |es| == SampleSize(LineCount(src)) && Anchors(src, es) && EvenSteps(es, LineCount(src))
  }

  /** Line starts stay line starts when text is appended. */
  lemma AnchorsStay(src: Text, more: Text, es: seq<Anchor>)
    requires Anchors(src, es)
    ensures Anchors(src + more, es)
  {
    forall a | a in es ensures ValidAnchor(src + more, a) {
      assert ValidAnchor(src, a) && (src + more)[..a.offset] == src[..a.offset];
    }
  }

  /** Among valid anchors the order of lines is the order of offsets. */
  lemma AnchorOrder(src: Text, a: Anchor, b: Anchor)
    requires ValidAnchor(src, a) && ValidAnchor(src, b)
    ensures a.line <= b.line <==> a.offset <= b.offset
    ensures a.line == b.line ==> a == b
  {
    NewlinesGrow(src, Min(a.offset, b.offset), Max(a.offset, b.offset));
  }

  method CollectLines(src: Text) returns (all: seq<Anchor>)
    ensures all == AllLines(src)
  {
    all := [Anchor(0, 1)];
    var line := 1;
    for i := 0 to |src|
      invariant all == AllLines(src[..i]) && line == LineCount(src[..i])
    {
      assert src[..i + 1][..i] == src[..i];
      if src[i] == NL {
        line := line + 1;
        all := all + [Anchor(i + 1, line)];
      }
    }
    assert src[..|src|] == src;
  }

  /** Evenly spaced picks, the first and the last line included. */
  method SampleLines(all: seq<Anchor>, actual: nat) returns (es: seq<Anchor>)
    requires 2 <= actual < |all|
    requires forall i :: 0 <= i < |all| ==> all[i].line == i + 1
    ensures |es| == actual && es[0] == all[0] && EvenSteps(es, |all|)
    ensures forall e :: e in es ==> e in all
    ensures forall i, j :: 0 <= i <= j < |es| ==> es[i].line <= es[j].line
  {
    es := [all[0]];
    var i := 1;
    LastPick(actual, |all|);
    while i + 1 < actual
      invariant 1 <= i < actual && |es| == i && es[0] == all[0]
      invariant forall e :: e in es ==> e in all
      invariant forall k :: 0 <= k < i ==> es[k].line == Pick(k, actual, |all|) + 1
    {
      PickInside(i, actual, |all|);
      es := es + [all[Pick(i, actual, |all|)]];
      i := i + 1;
    }
    es := es + [all[|all| - 1]];
    SampledEvenly(es, actual, |all|);
  }

  lemma SampledEvenly(es: seq<Anchor>, size: nat, n: nat)
    requires 2 <= size == |es| && n > 0
    requires forall k :: 0 <= k < size ==> es[k].line == Pick(k, size, n) + 1
    ensures EvenSteps(es, n)
    ensures forall i, j :: 0 <= i <= j < size ==> es[i].line <= es[j].line
  {
    LastPick(size, n);
    forall i | 1 <= i < size
      ensures (n - 1) / (size - 1) <= es[i].line - es[i - 1].line <= (n - 1) / (size - 1) + 1
    {
      PickGap(i - 1, size, n);
    }
    forall i, j | 0 <= i <= j < size ensures es[i].line <= es[j].line {
      PickMonotone(i, j, size, n);
    }
  }

  method BuildIndex(src: Text) returns (es: seq<Anchor>)
    requires src != []
    ensures Indexes(src, es)
  {
    var all := CollectLines(src);
    AllLinesValid(src);
    var cacheSize := Max(2, ISqrt(|all|));
    var actual := Min(cacheSize, |all|);
    if actual >= |all| {
      if |all| > 1 { DivUnique(|all| - 1, |all| - 1, 1, 0); }
      return all;
    }
    es := SampleLines(all, actual);
    forall i | 0 <= i < |es| ensures ValidAnchor(src, es[i]) {
      assert es[i] in all;
    }
  }

  // ---- binary search --------------------------------------------------------------------

  /** First index whose key exceeds the target. */
  method UpperBound(es: seq<Anchor>, key: Anchor -> nat, target: nat) returns (r: nat)
    requires forall i, j :: 0 <= i <= j < |es| ==> key(es[i]) <= key(es[j])
    ensures r <= |es|
    ensures forall i :: 0 <= i < r ==> key(es[i]) <= target
    ensures forall i :: r <= i < |es| ==> target < key(es[i])
  {
    var lo, hi := 0, |es|;
    while lo < hi
      invariant 0 <= lo <= hi <= |es|
      invariant forall i :: 0 <= i < lo ==> key(es[i]) <= target
      invariant forall i :: hi <= i < |es| ==> target < key(es[i])
    {
      var mid := (lo + hi) / 2;
      if target < key(es[mid]) {
        hi := mid;
      } else {
        lo := mid + 1;
      }
    }
    return lo;
  }

  /** The last anchor not beyond `target`, or the first one when all are. */
  method FindBy(es: seq<Anchor>, key: Anchor -> nat, target: nat) returns (r: Option<Anchor>)
    requires forall i, j :: 0 <= i <= j < |es| ==> key(es[i]) <= key(es[j])
    ensures es == [] ==> r == None
    ensures es != [] ==> r.Some? && r.value in es
    ensures es != [] && key(es[0]) <= target ==> key(r.value) <= target
    ensures es != [] && key(es[0]) > target ==> r.value == es[0]
    ensures forall e :: e in es && key(e) <= target ==> key(e) <= key(r.value)
  {
    if es == [] {
      return None;
    }
    var it := UpperBound(es, key, target);
    if it == 0 {
      return Some(es[0]);
    }
    return Some(es[it - 1]);
  }

  // ---- a source file ----------------------------------------------------------------------

  /** 1-based offset at which a 1-based line starts; the end for other numbers. */
  ghost predicate StartsLine(src: Text, line: nat, offset: nat) {
    if 1 <= line <= LineCount(src) then
      offset >= 1 && IsLineStart(src, offset - 1) && LineCount(src[..offset - 1]) == line
    else offset == |src| + 1
  }

  class FileEntry {
    var source: Text
    var sparse: seq<Anchor>

    ghost predicate Valid()
      reads this
    {
      sparse == [] || (source != [] && Anchors(source, sparse))
    }

    constructor (source: Text)
      ensures Valid() && this.source == source
    {
      this.source := source;
      sparse := [];
    }

    /** False stands for the failing EXPECT on the size of the text.  By then the text
        has been appended and the index has not been cleared; its anchors still hold. */
    method AppendSource(text: Text) returns (ok: bool)
      requires Valid()
      modifies this
      ensures Valid() && source == old(source) + text
      ensures ok <==> |source| <= Location.MAX_OFFSET_INPUT
      ensures sparse == if ok then [] else old(sparse)
    {
      if sparse != [] {
        AnchorsStay(source, text, sparse);
      }
      source := source + text;
      if |source| > Location.MAX_OFFSET_INPUT {
        return false;
      }
      sparse := [];
      return true;
    }

    method EnsureCache()
      requires Valid()
      modifies this`sparse
      ensures Valid() && (sparse == [] <==> source == [])
      ensures if old(sparse) != [] then sparse == old(sparse) else source != [] ==> Indexes(source, sparse)
    {
      if sparse == [] && source != [] {
        sparse := BuildIndex(source);
      }
    }

    /** Position of a 1-based offset; offset 0 is a failed EXPECT. */
    method CalcColumn(offset: nat) returns (r: Option<LineCol>)
      requires Valid()
      modifies this`sparse
      ensures Valid()
      ensures r == if offset == 0 then None else Some(LineColumnAt(source, offset))
    {
      EnsureCache();
      if offset == 0 {
        return None;
      }
      var target := offset - 1;
      if sparse == [] {
        return Some(LineCol(1, offset));
      }
      forall i, j | 0 <= i <= j < |sparse| ensures sparse[i].offset <= sparse[j].offset {
        AnchorOrder(source, sparse[i], sparse[j]);
      }
      var anchor := FindBy(sparse, (a: Anchor) => a.offset, target);
      var a := anchor.value;
      var line, column, i := a.line, 1, a.offset;
      StartOfLine(source, a);
      while i < target && i < |source|
        invariant a.offset <= i <= |source| && (i <= target || i == a.offset)
        invariant LineCol(line, column) == EndOf(source[..i])
        invariant Valid()
      {
        var c := source[i];
        StepEnd(source, i);
        if c == NL {
          line := line + 1;
          column := 1;
        } else if !IsContinuation(c) {
          column := column + 1;
        }
        i := i + 1;
      }
      return Some(LineCol(line, column));
    }

    /** 1-based offset of the start of a 1-based line. */
    method CalcLineOffset(line: nat) returns (r: nat)
      requires Valid()
      modifies this`sparse
      ensures Valid() && StartsLine(source, line, r)
    {
      EnsureCache();
      if sparse == [] {
        assert source[..0] == [];
        return 1;
      }
      var anchor := FindBy(sparse, (a: Anchor) => a.line, line);
      var a := anchor.value;
      var current, i := a.line, a.offset;
      while i < |source|
        invariant a.offset <= i <= |source| && current == LineCount(source[..i])
        invariant current == line ==> IsLineStart(source, i)
        invariant a.line <= line ==> current <= line
        invariant current >= 1 && Valid()
      {
        if current == line {
          NewlinesGrow(source, i, |source|);
          assert source[..|source|] == source;
          return i + 1;
        }
        StepNewlines(source, i);
        if source[i] == NL {
          current := current + 1;
        }
        i := i + 1;
      }
      assert source[..|source|] == source;
      return |source| + 1;
    }
  }

  lemma StartOfLine(src: Text, a: Anchor)
    requires ValidAnchor(src, a)
    ensures EndOf(src[..a.offset]) == LineCol(a.line, 1)
  {
  }

  // ---- laws -------------------------------------------------------------------------------

  /** Line lookup and position lookup are inverse: the start of a line is at
      column 1 of that line. */
  lemma LineStartRoundTrip(src: Text, line: nat, offset: nat)
    requires 1 <= line <= LineCount(src) && StartsLine(src, line, offset)
    ensures LineColumnAt(src, offset) == LineCol(line, 1)
  {
  }

  /** The start of the line found for an offset is the last line start before it. */
  lemma PositionRoundTrip(src: Text, offset: nat, start: nat)
    requires 1 <= offset <= |src| + 1
    requires StartsLine(src, LineColumnAt(src, offset).line, start)
    ensures start <= offset && start == 1 + LineStart(src[..offset - 1])
  {
    var t := src[..offset - 1];
    var s := LineStart(t);
    assert src == [] ==> offset == 1 && t == [];
    NewlinesGrow(src, offset - 1, |src|);
    assert src[..|src|] == src;
    LineStartLast(t);
    assert t[..s] == src[..s] && src[..offset - 1] == t;
    AnchorOrder(src, Anchor(s, LineCount(src[..s])), Anchor(start - 1, LineCount(src[..start - 1])));
  }

  lemma {:induction false} LineStartLast(t: Text)
    ensures Newlines(t[..LineStart(t)]) == Newlines(t)
  {
    if t == [] {
    } else if t[|t| - 1] == NL {
      assert t[..|t|] == t;
    } else {
      var init := t[..|t| - 1];
      LineStartLast(init);
      assert t[..LineStart(t)] == init[..LineStart(init)];
    }
  }

  /** Appending text leaves the positions of all earlier offsets, the end of the
      old text included, as they were. */
  lemma AppendKeepsPositions(src: Text, more: Text, offset: nat)
    requires 1 <= offset <= |src| + 1
    ensures LineColumnAt(src + more, offset) == LineColumnAt(src, offset)
  {
    assert (src + more)[..offset - 1] == src[..offset - 1];
    if src == [] {
      assert (src + more)[..0] == [];
      assert EndOf([]) == LineCol(1, 1);
    }
  }

  /** Beyond the old end a position can move, and only there. */
  lemma AppendMovesBeyond(src: Text, offset: nat)
    requires offset >= 1
    ensures (forall more :: LineColumnAt(src + more, offset) == LineColumnAt(src, offset))
            <==> offset <= |src| + 1
  {
    if offset <= |src| + 1 {
      forall more ensures LineColumnAt(src + more, offset) == LineColumnAt(src, offset) {
        AppendKeepsPositions(src, more, offset);
      }
    } else {
      var wider := src + [NL];
      assert wider[..|wider|] == wider && wider[..|src|] == src && src[..|src|] == src;
      assert LineColumnAt(wider, offset) != LineColumnAt(src, offset);
    }
  }
}
