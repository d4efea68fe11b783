/** The line/column memo of the source map: an LRU cache over packed locations, in
    front of per-file sparse indexes. */
module SourceMap {
  import opened Types
  import opened LruCache
  import opened Location
  import opened LineIndex

  /** Source text of a file id; None where the table lookup fails an EXPECT. */
  function TextOf(ins: seq<Text>, outs: seq<Text>, f: Word): Option<Text> {
    match AsIndex(f)
    case None => None
    case Some(i) =>
      var table := if IsOutputFile(f) then outs else ins;
      if i < |table| then Some(table[i]) else None
  }

  /** The answer without any cache. */
  function Answer(ins: seq<Text>, outs: seq<Text>, p: Word): Option<LineCol> {
    if !CheckLimit(RawFile(p)) then None
    else if p == 0 then Some(LineCol(1, 1))
    else
      match TextOf(ins, outs, RawFile(p))
      case None => None
      case Some(src) => if Offset(p) == 0 then None else Some(LineColumnAt(src, Offset(p)))
  }

  // ---- the memo, on values --------------------------------------------------------------------

  type Entries = seq<Entry<Size, LineCol>>

  /** The memo answers first. */
  function CachedAnswer(entries: Entries, ins: seq<Text>, outs: seq<Text>, p: Word): Option<LineCol> {
    if FileIdx(p) == None then None
    else if Find(entries, LineColumnKey(p)).Some? then Find(entries, LineColumnKey(p))
    else Answer(ins, outs, p)
  }

  /** Only answers computed from a source are remembered. */
  function AfterQuery(entries: Entries, ins: seq<Text>, outs: seq<Text>, p: Word, capacity: int): Entries
    requires capacity >= 1
  {
    if FileIdx(p) == None then entries
    else
      var looked := AfterLookup(entries, LineColumnKey(p));
      if Find(entries, LineColumnKey(p)).Some? || p == 0 then looked
      else
        match Answer(ins, outs, p)
        case None => looked
        case Some(v) => AfterInsert(looked, LineColumnKey(p), v, capacity)
  }

  // ---- when it is right ------------------------------------------------------------------------

  /** An entry remembers the answer for the one location its key belongs to. */
  ghost predicate Remembers(ins: seq<Text>, outs: seq<Text>, e: Entry<Size, LineCol>, p: Word) {
    p != 0 && e.key == LineColumnKey(p) && Answer(ins, outs, p) == Some(e.value)
  }

  ghost predicate Coherent(entries: Entries, ins: seq<Text>, outs: seq<Text>) {
    forall e :: e in entries ==> exists p :: Remembers(ins, outs, e, p)
  }

  /** No key is new but the one of `p`. */
  ghost predicate OnlyAdds(before: Entries, after: Entries, p: Word) {
    forall e :: e in after ==> e in before || e.key == LineColumnKey(p)
  }

  lemma HitIsAnswer(entries: Entries, ins: seq<Text>, outs: seq<Text>, p: Word)
    requires Coherent(entries, ins, outs) && Find(entries, LineColumnKey(p)).Some?
    ensures p != 0 && Answer(ins, outs, p) == Find(entries, LineColumnKey(p))
  {
    FindMember(entries, LineColumnKey(p));
    var e := Entry(LineColumnKey(p), Find(entries, LineColumnKey(p)).value);
    var q :| Remembers(ins, outs, e, q);
    KeyInjective(p, q);
  }

  lemma CoherentAfterLookup(entries: Entries, ins: seq<Text>, outs: seq<Text>, k: Size)
    requires Coherent(entries, ins, outs)
    ensures Coherent(AfterLookup(entries, k), ins, outs)
    ensures forall e :: e in AfterLookup(entries, k) ==> e in entries
  {
    FindMember(entries, k);
    forall e | e in AfterLookup(entries, k) ensures e in entries { RemoveMember(entries, k, e); }
  }

  lemma CoherentAfterInsert(entries: Entries, ins: seq<Text>, outs: seq<Text>, p: Word,
                            v: LineCol, capacity: int)
    requires Coherent(entries, ins, outs) && capacity >= 1
    requires p != 0 && Answer(ins, outs, p) == Some(v)
    ensures Coherent(AfterInsert(entries, LineColumnKey(p), v, capacity), ins, outs)
    ensures OnlyAdds(entries, AfterInsert(entries, LineColumnKey(p), v, capacity), p)
  {
    var k := LineColumnKey(p);
    var added := Entry(k, v);
    assert Remembers(ins, outs, added, p);
    forall e | e in AfterInsert(entries, k, v, capacity) ensures e == added || e in entries {
      RemoveMember(entries, k, e);
    }
  }

  /** The memo is transparent as long as what it remembers is right, and stays so. */
  lemma Transparent(entries: Entries, ins: seq<Text>, outs: seq<Text>, p: Word, capacity: int)
    requires Coherent(entries, ins, outs) && capacity >= 1
    ensures CachedAnswer(entries, ins, outs, p) == Answer(ins, outs, p)
    ensures Coherent(AfterQuery(entries, ins, outs, p, capacity), ins, outs)
    ensures OnlyAdds(entries, AfterQuery(entries, ins, outs, p, capacity), p)
  {
    var k := LineColumnKey(p);
    var looked := AfterLookup(entries, k);
    CoherentAfterLookup(entries, ins, outs, k);
    if Find(entries, k).Some? {
      HitIsAnswer(entries, ins, outs, p);
    } else if FileIdx(p) != None && p != 0 && Answer(ins, outs, p).Some? {
      CoherentAfterInsert(looked, ins, outs, p, Answer(ins, outs, p).value, capacity);
    }
  }

  // ---- growing output files ----------------------------------------------------------------

  predicate IsInOutput(p: Word, k: nat) {
    IsOutputFile(RawFile(p)) && AsIndex(RawFile(p)) == Some(k)
  }

  /** No remembered location lies beyond the end of output file `k`. */
  ghost predicate InsideOutput(entries: Entries, outs: seq<Text>, k: nat)
    requires k < |outs|
  {
    forall e, p: Word | e in entries && e.key == LineColumnKey(p) && IsInOutput(p, k) ::
      Offset(p) <= |outs[k]| + 1
  }

  /** A location in an output file, its end included, or one outside of all of them. */
  predicate Within(outs: seq<Text>, p: Word) {
    forall k: nat :: k < |outs| && IsInOutput(p, k) ==> Offset(p) <= |outs[k]| + 1
  }

  ghost predicate AllWithin(entries: Entries, outs: seq<Text>) {
    forall e, p: Word :: e in entries && e.key == LineColumnKey(p) ==> Within(outs, p)
  }

  function Grown(outs: seq<Text>, k: nat, more: Text): seq<Text>
    requires k < |outs|
  {
    outs[k := outs[k] + more]
  }

  /** The memo is not cleared when output text is appended.  It stays coherent for
      every appended text exactly when nothing remembered lies beyond the old end. */
  lemma AppendKeepsMemo(entries: Entries, ins: seq<Text>, outs: seq<Text>, k: nat)
    requires Coherent(entries, ins, outs) && k < |outs|
    ensures (forall more :: Coherent(entries, ins, Grown(outs, k, more))) <==> InsideOutput(entries, outs, k)
  {
    if InsideOutput(entries, outs, k) {
      forall more ensures Coherent(entries, ins, Grown(outs, k, more)) {
        InsideStaysCoherent(entries, ins, outs, k, more);
      }
    } else {
      var e, p: Word :| e in entries && e.key == LineColumnKey(p) && IsInOutput(p, k) && Offset(p) > |outs[k]| + 1;
      AppendMovesBeyond(outs[k], Offset(p));
      var more :| LineColumnAt(outs[k] + more, Offset(p)) != LineColumnAt(outs[k], Offset(p));
      StaleEntry(e, ins, outs, p, k, more);
      assert !Coherent(entries, ins, Grown(outs, k, more));
    }
  }

  lemma InsideStaysCoherent(entries: Entries, ins: seq<Text>, outs: seq<Text>, k: nat, more: Text)
    requires Coherent(entries, ins, outs) && k < |outs| && InsideOutput(entries, outs, k)
    ensures Coherent(entries, ins, Grown(outs, k, more))
  {
    var grown := Grown(outs, k, more);
    forall e | e in entries ensures exists p :: Remembers(ins, grown, e, p) {
      var p :| Remembers(ins, outs, e, p);
      if IsInOutput(p, k) {
        AppendKeepsPositions(outs[k], more, Offset(p));
      }
      assert Remembers(ins, grown, e, p);
    }
  }

  lemma StaleEntry(e: Entry<Size, LineCol>, ins: seq<Text>, outs: seq<Text>, p: Word, k: nat, more: Text)
    requires k < |outs| && e.key == LineColumnKey(p) && IsInOutput(p, k) && Offset(p) > 0
    requires exists q :: Remembers(ins, outs, e, q)
    requires LineColumnAt(outs[k] + more, Offset(p)) != LineColumnAt(outs[k], Offset(p))
    ensures forall q :: !Remembers(ins, Grown(outs, k, more), e, q)
  {
    var q :| Remembers(ins, outs, e, q);
    KeyInjective(p, q);
    forall x ensures !Remembers(ins, Grown(outs, k, more), e, x) {
      if LineColumnKey(x) == e.key { KeyInjective(p, x); }
    }
  }

  // ---- runs of queries and appends ---------------------------------------------------------

  datatype Request = Query(p: Word) | Append(f: Word, text: Text)

  datatype Reply = Position(answer: Option<LineCol>) | Appended(ok: bool)

  /** Output files after a request to append; `text` stays appended where the size
      limit is exceeded. */
  function AfterAppend(outs: seq<Text>, f: Word, text: Text): (r: seq<Text>)
    ensures |r| == |outs|
  {
    match if IsOutputFile(f) && CheckLimit(f) then AsIndex(f) else None
    case None => outs
    case Some(k) => if k < |outs| then Grown(outs, k, text) else outs
  }

  predicate Appends(outs: seq<Text>, f: Word, text: Text) {
    && IsOutputFile(f) && CheckLimit(f) && AsIndex(f).Some? && AsIndex(f).value < |outs|
    && |outs[AsIndex(f).value]| + |text| <= MAX_OFFSET_INPUT
  }

  function TextsAfter(outs: seq<Text>, r: Request): (after: seq<Text>)
    ensures |after| == |outs|
  {
    match r case Query(_) => outs case Append(f, text) => AfterAppend(outs, f, text)
  }

  /** The reply without any cache. */
  function ReplyTo(ins: seq<Text>, outs: seq<Text>, r: Request): Reply {
    match r
    case Query(p) => Position(Answer(ins, outs, p))
    case Append(f, text) => Appended(Appends(outs, f, text))
  }

  function Replies(ins: seq<Text>, outs: seq<Text>, rs: seq<Request>): seq<Reply>
    decreases |rs|
  {
    if rs == [] then [] else [ReplyTo(ins, outs, rs[0])] + Replies(ins, TextsAfter(outs, rs[0]), rs[1..])
  }

  function TextsAfterAll(outs: seq<Text>, rs: seq<Request>): seq<Text>
    decreases |rs|
  {
    if rs == [] then outs else TextsAfterAll(TextsAfter(outs, rs[0]), rs[1..])
  }

  /** No query lies beyond the end its output file has at the time. */
  predicate QueriesWithin(outs: seq<Text>, rs: seq<Request>)
    decreases |rs|
  {
    rs == [] || ((rs[0].Query? ==> Within(outs, rs[0].p)) && QueriesWithin(TextsAfter(outs, rs[0]), rs[1..]))
  }

  lemma WithinGrows(entries: Entries, outs: seq<Text>, k: nat, text: Text)
    requires AllWithin(entries, outs) && k < |outs|
    ensures AllWithin(entries, Grown(outs, k, text)) && InsideOutput(entries, outs, k)
  {
    forall e, p: Word | e in entries && e.key == LineColumnKey(p) ensures Within(Grown(outs, k, text), p) {
      assert Within(outs, p);
    }
  }

  /** The replies and the remembered entries of the memo over a run. */
  function MemoReplies(entries: Entries, ins: seq<Text>, outs: seq<Text>, rs: seq<Request>, capacity: int): seq<Reply>
    requires capacity >= 1
    decreases |rs|
  {
    if rs == [] then []
    else [MemoReply(entries, ins, outs, rs[0])]
         + MemoReplies(MemoAfter(entries, ins, outs, rs[0], capacity), ins, TextsAfter(outs, rs[0]), rs[1..], capacity)
  }

  function MemoReply(entries: Entries, ins: seq<Text>, outs: seq<Text>, r: Request): Reply {
    match r
    case Query(p) => Position(CachedAnswer(entries, ins, outs, p))
    case Append(f, text) => Appended(Appends(outs, f, text))
  }

  /** The memo is not cleared when output text is appended. */
  function MemoAfter(entries: Entries, ins: seq<Text>, outs: seq<Text>, r: Request, capacity: int): Entries
    requires capacity >= 1
  {
    match r
    case Query(p) => AfterQuery(entries, ins, outs, p, capacity)
    case Append(_, _) => entries
  }

  lemma AppendKeepsWithin(entries: Entries, ins: seq<Text>, outs: seq<Text>, f: Word, text: Text)
    requires Coherent(entries, ins, outs) && AllWithin(entries, outs)
    ensures Coherent(entries, ins, AfterAppend(outs, f, text)) && AllWithin(entries, AfterAppend(outs, f, text))
  {
    if AfterAppend(outs, f, text) != outs {
      var k := AsIndex(f).value;
      WithinGrows(entries, outs, k, text);
      InsideStaysCoherent(entries, ins, outs, k, text);
    }
  }

  lemma QueryKeepsWithin(before: Entries, after: Entries, outs: seq<Text>, p: Word)
    requires AllWithin(before, outs) && OnlyAdds(before, after, p) && Within(outs, p)
    ensures AllWithin(after, outs)
  {
    forall e, q: Word | e in after && e.key == LineColumnKey(q) ensures Within(outs, q) {
      if e !in before { KeyInjective(p, q); }
    }
  }

  /** Over every run in which no query lies beyond the present end of its output file,
      the memo gives the replies that need no memo. */
  lemma {:induction false} RunTransparent(entries: Entries, ins: seq<Text>, outs: seq<Text>, rs: seq<Request>, capacity: int)
    requires Coherent(entries, ins, outs) && AllWithin(entries, outs) && QueriesWithin(outs, rs) && capacity >= 1
    ensures MemoReplies(entries, ins, outs, rs, capacity) == Replies(ins, outs, rs)
    decreases |rs|
  {
    if rs != [] {
      var next := MemoAfter(entries, ins, outs, rs[0], capacity);
      match rs[0] {
        case Query(p) =>
          Transparent(entries, ins, outs, p, capacity);
          QueryKeepsWithin(entries, next, outs, p);
        case Append(f, text) => AppendKeepsWithin(entries, ins, outs, f, text);
      }
      RunTransparent(next, ins, TextsAfter(outs, rs[0]), rs[1..], capacity);
    }
  }

  lemma BeyondGetsStale(entries: Entries, ins: seq<Text>, outs: seq<Text>, k: nat) returns (more: Text, p: Word)
    requires Coherent(entries, ins, outs) && k < |outs| && !InsideOutput(entries, outs, k)
    ensures CachedAnswer(entries, ins, Grown(outs, k, more), p) != Answer(ins, Grown(outs, k, more), p)
  {
    var e;
    e, p :| e in entries && e.key == LineColumnKey(p) && IsInOutput(p, k) && Offset(p) > |outs[k]| + 1;
    FindMember(entries, LineColumnKey(p));
    assert HasKey(entries, LineColumnKey(p));
    HitIsAnswer(entries, ins, outs, p);
    AppendMovesBeyond(outs[k], Offset(p));
    more :| LineColumnAt(outs[k] + more, Offset(p)) != LineColumnAt(outs[k], Offset(p));
    AnswerMoves(ins, outs, k, more, p);
  }

  lemma AnswerMoves(ins: seq<Text>, outs: seq<Text>, k: nat, more: Text, p: Word)
    requires k < |outs| && p != 0 && Answer(ins, outs, p).Some? && IsInOutput(p, k) && Offset(p) > 0
    requires LineColumnAt(outs[k] + more, Offset(p)) != LineColumnAt(outs[k], Offset(p))
    ensures Answer(ins, Grown(outs, k, more), p) != Answer(ins, outs, p)
  {
  }

  /** After appending to an output file every later answer is right, whatever is
      appended and asked, exactly when nothing remembered lies beyond the old end. */
  lemma AnswersStayIff(entries: Entries, ins: seq<Text>, outs: seq<Text>, k: nat)
    requires Coherent(entries, ins, outs) && k < |outs|
    ensures (forall more: Text, p: Word ::
               CachedAnswer(entries, ins, Grown(outs, k, more), p) == Answer(ins, Grown(outs, k, more), p)) <==>
            InsideOutput(entries, outs, k)
  {
    if InsideOutput(entries, outs, k) {
      forall more: Text, p: Word
        ensures CachedAnswer(entries, ins, Grown(outs, k, more), p) == Answer(ins, Grown(outs, k, more), p)
      {
        InsideStaysCoherent(entries, ins, outs, k, more);
        Transparent(entries, ins, Grown(outs, k, more), p, 1);
      }
    } else {
      var more, p := BeyondGetsStale(entries, ins, outs, k);
    }
  }

  /** The location behind the end of the first output file, which is empty. */
  const BEYOND: Word := 0x8400_0002

  lemma BeyondDecodes()
    ensures RawFile(BEYOND) == OUTPUT_FILE_BIT + 1 && Offset(BEYOND) == 2
    ensures CheckLimit(OUTPUT_FILE_BIT + 1) && AsIndex(OUTPUT_FILE_BIT + 1) == Some(0)
  {
  }

  lemma FirstQuery(ins: seq<Text>, outs: seq<Text>, p: Word, capacity: int)
    requires capacity >= 1 && p != 0 && FileIdx(p) != None && Answer(ins, outs, p).Some?
    ensures AfterQuery([], ins, outs, p, capacity) == [Entry(LineColumnKey(p), Answer(ins, outs, p).value)]
  {
  }

  lemma BeyondAnswers(ins: seq<Text>)
    ensures Answer(ins, [[]], BEYOND) == Some(LineCol(1, 2))
    ensures Answer(ins, [[NL]], BEYOND) == Some(LineCol(2, 1))
  {
    BeyondDecodes();
    assert [NL][..1] == [NL] && [NL][..0] == [];
    StepEnd([NL], 0);
    assert EndOf([]) == LineCol(1, 1);
  }

  lemma BreakAppended()
    ensures AfterAppend([[]], OUTPUT_FILE_BIT + 1, [NL]) == [[NL]]
    ensures Appends([[]], OUTPUT_FILE_BIT + 1, [NL])
  {
    BeyondDecodes();
    assert [] + [NL] == [NL] && Grown([[]], 0, [NL]) == [[NL]];
  }

  lemma RepliesFirst(ins: seq<Text>, outs: seq<Text>, r: Request, rest: seq<Request>)
    ensures Replies(ins, outs, [r] + rest) == [ReplyTo(ins, outs, r)] + Replies(ins, TextsAfter(outs, r), rest)
  {
    assert ([r] + rest)[1..] == rest;
  }

  lemma MemoRepliesFirst(entries: Entries, ins: seq<Text>, outs: seq<Text>, r: Request, rest: seq<Request>, capacity: int)
    requires capacity >= 1
    ensures MemoReplies(entries, ins, outs, [r] + rest, capacity) ==
            [MemoReply(entries, ins, outs, r)]
            + MemoReplies(MemoAfter(entries, ins, outs, r, capacity), ins, TextsAfter(outs, r), rest, capacity)
  {
    assert ([r] + rest)[1..] == rest;
  }

  /** Asked beyond the end of an output file, appended a line break, and asked again:
      the memo repeats its first answer. */
  lemma StaleRun(capacity: int)
    requires capacity >= 1
    ensures var rs := [Query(BEYOND), Append(OUTPUT_FILE_BIT + 1, [NL]), Query(BEYOND)];
            && MemoReplies([], [], [[]], rs, capacity) ==
               [Position(Some(LineCol(1, 2))), Appended(true), Position(Some(LineCol(1, 2)))]
            && Replies([], [[]], rs) ==
               [Position(Some(LineCol(1, 2))), Appended(true), Position(Some(LineCol(2, 1)))]
  {
    var f, no: seq<Text> := OUTPUT_FILE_BIT + 1, [];
    BeyondDecodes();
    BeyondAnswers(no);
    BreakAppended();
    FirstQuery(no, [[]], BEYOND, capacity);
    var query, append := Query(BEYOND), Append(f, [NL]);
    RepliesFirst(no, [[]], query, [append, query]);
    RepliesFirst(no, [[]], append, [query]);
    RepliesFirst(no, [[NL]], query, []);
    var entries := AfterQuery([], no, [[]], BEYOND, capacity);
    MemoRepliesFirst([], no, [[]], query, [append, query], capacity);
    MemoRepliesFirst(entries, no, [[]], append, [query], capacity);
    MemoRepliesFirst(entries, no, [[NL]], query, [], capacity);
    assert [query] + [append, query] == [query, append, query] && [append] + [query] == [append, query];
    assert [query] + [] == [query];
  }

  // ---- by file and offset --------------------------------------------------------------------

  /** Number of the location at an offset from 1 in the k-th input or output file. */
  function InputAt(k: nat, off: nat): nat {
    (k + 1) * 0x40_0000 + off
  }

  function OutputAt(k: nat, off: nat): nat {
    0x8000_0000 + (k + 1) * 0x400_0000 + off
  }

  /** A query is answered from the text of the file its location lies in, input and output
      files apart, if there is such a file and the offset is not 0. */
  lemma AnswerPlaces(ins: seq<Text>, outs: seq<Text>, k: nat, off: nat)
    ensures k < 510 && off <= 0x3F_FFFF ==>
              Answer(ins, outs, InputAt(k, off)) ==
              if k < |ins| && off > 0 then Some(LineColumnAt(ins[k], off)) else None
    ensures k < 31 && off <= 0x3FF_FFFF ==>
              Answer(ins, outs, OutputAt(k, off)) ==
              if k < |outs| && off > 0 then Some(LineColumnAt(outs[k], off)) else None
  {
    if k < 31 && off <= 0x3FF_FFFF { OutputAtDecodes(k, off); }
    if k < 510 && off <= 0x3F_FFFF { InputAtDecodes(k, off); }
  }

  lemma InputAtDecodes(k: nat, off: nat)
    requires k < 510 && off <= 0x3F_FFFF
    ensures var p: Word := InputAt(k, off);
            && p != 0 && RawFile(p) == k + 1 && Offset(p) == off && CheckLimit(RawFile(p))
            && AsIndex(RawFile(p)) == Some(k) && !IsOutputFile(RawFile(p))
  {
  }

  lemma OutputAtDecodes(k: nat, off: nat)
    requires k < 31 && off <= 0x3FF_FFFF
    ensures var p: Word := OutputAt(k, off);
            && p != 0 && RawFile(p) == 0x8000_0001 + k && Offset(p) == off && CheckLimit(RawFile(p))
            && AsIndex(RawFile(p)) == Some(k) && IsOutputFile(RawFile(p))
  {
  }

  lemma WithinPlaces(outs: seq<Text>, k: nat, off: nat)
    requires k < |outs| && k < 31 && off <= 0x3FF_FFFF
    ensures Within(outs, OutputAt(k, off)) <==> off <= |outs[k]| + 1
  {
    OutputAtDecodes(k, off);
    assert IsInOutput(OutputAt(k, off), k);
  }

  /** The invalid location is line 1, column 1; other locations whose file field is 0 or
      511 have no answer. */
  lemma AnswerElsewhere(ins: seq<Text>, outs: seq<Text>, off: nat)
    requires off <= 0x3F_FFFF
    ensures Answer(ins, outs, 0) == Some(LineCol(1, 1))
    ensures off > 0 ==> Answer(ins, outs, off) == None
    ensures Answer(ins, outs, 511 * 0x40_0000 + off) == None
  {
  }

  /** An append reaches the output file of its id and no other, and fails exactly when
      there is none or the text gets longer than 0x3F_FFFF bytes. */
  lemma AppendPlaces(outs: seq<Text>, f: Word, text: Text)
    requires f != 0x8000_0000
    ensures var k := f - 0x8000_0001;
            if 0 <= k < 510 && k < |outs| then
              && AfterAppend(outs, f, text) == outs[k := outs[k] + text]
              && (Appends(outs, f, text) <==> |outs[k]| + |text| <= 0x3F_FFFF)
            else AfterAppend(outs, f, text) == outs && !Appends(outs, f, text)
  {
  }

  /** Effect of one query on the memo: an answer found becomes the freshest; one computed
      for a valid location is added as the freshest; nothing else is added. */
  lemma MemoStep(entries: Entries, ins: seq<Text>, outs: seq<Text>, p: Word, capacity: int)
    requires capacity >= 1
    ensures var next, r := AfterQuery(entries, ins, outs, p, capacity), CachedAnswer(entries, ins, outs, p);
            && (RawFile(p) % 0x8000_0000 >= 511 ==> r == None && next == entries)
            && (p != 0 && r.Some? ==> next != [] && next[|next| - 1] == Entry(LineColumnKey(p), r.value))
            && (r == None || (p == 0 && Find(entries, LineColumnKey(p)) == None) ==> next == entries)
  {
    if Find(entries, LineColumnKey(p)).Some? { FindMember(entries, LineColumnKey(p)); }
  }

  // ---- the class ---------------------------------------------------------------------------

  function Texts(files: seq<FileEntry>): seq<Text>
    reads files
  {
    seq(|files|, i requires 0 <= i < |files| reads files => files[i].source)
  }

  /** The tables hold their files by value, so no two places share one. */
  predicate Distinct(files: seq<FileEntry>) {
    forall i, j :: 0 <= i < j < |files| ==> files[i] != files[j]
  }

  class SourceMap {
    const cache: Cache<Size, LineCol>
    const inputs: seq<FileEntry>
    const outputs: seq<FileEntry>

    ghost predicate FilesValid()
      reads inputs, outputs
    {
      && (forall f :: f in inputs ==> f.Valid()) && (forall f :: f in outputs ==> f.Valid())
      && Distinct(inputs + outputs)
    }

    ghost predicate Valid()
      reads cache, inputs, outputs
    {
      cache.capacity >= 1 && cache.Valid() && FilesValid()
    }

    constructor (inputs: seq<FileEntry>, outputs: seq<FileEntry>, capacity: int)
      requires capacity >= 1
      requires Distinct(inputs + outputs) && forall f :: f in inputs || f in outputs ==> f.Valid()
      ensures Valid() && fresh(cache) && cache.Contents() == []
      ensures this.inputs == inputs && this.outputs == outputs
    {
      this.inputs := inputs;
      this.outputs := outputs;
      cache := new Cache(capacity);
    }

    method GetFile(f: Word) returns (r: Option<FileEntry>)
      requires CheckLimit(f)
      ensures r.Some? ==> r.value in inputs + outputs
      ensures TextOf(Texts(inputs), Texts(outputs), f) == if r.Some? then Some(r.value.source) else None
    {
      var i := AsIndex(f);
      if i == None {
        return None;
      }
      var table := if IsOutputFile(f) then outputs else inputs;
      if i.value < |table| {
        return Some(table[i.value]);
      }
      return None;
    }

    method Compute(p: Word) returns (r: Option<LineCol>)
      requires FilesValid() && CheckLimit(RawFile(p)) && p != 0
      modifies inputs, outputs
      ensures FilesValid()
      ensures Texts(inputs) == old(Texts(inputs)) && Texts(outputs) == old(Texts(outputs))
      ensures r == Answer(Texts(inputs), Texts(outputs), p)
    {
      var file := GetFile(RawFile(p));
      if file == None {
        return None;
      }
      r := file.value.CalcColumn(Offset(p));
      assert Texts(inputs) == old(Texts(inputs)) && Texts(outputs) == old(Texts(outputs));
    }

    /** Answers from the memo, or computes and remembers the answer. */
    method LineColumn(p: Word) returns (r: Option<LineCol>)
      requires Valid()
      modifies cache, inputs, outputs
      ensures Valid()
      ensures Texts(inputs) == old(Texts(inputs)) && Texts(outputs) == old(Texts(outputs))
      ensures r == CachedAnswer(old(cache.Contents()), Texts(inputs), Texts(outputs), p)
      ensures cache.Contents() == AfterQuery(old(cache.Contents()), Texts(inputs), Texts(outputs), p, cache.capacity)
    {
      if FileIdx(p) == None {
        return None;
      }
      ghost var ins, outs := Texts(inputs), Texts(outputs);
      r := cache.Lookup(LineColumnKey(p));
      assert Texts(inputs) == ins && Texts(outputs) == outs;
      if r.Some? {
        return;
      }
      if p == 0 {
        return Some(LineCol(1, 1));
      }
      r := Compute(p);
      if r.Some? {
        cache.Insert(LineColumnKey(p), r.value);
        assert Texts(inputs) == ins && Texts(outputs) == outs;
      }
    }

    /** A whole run of queries on unchanged sources: the memo is transparent. */
    method LineColumns(ps: seq<Word>) returns (rs: seq<Option<LineCol>>)
      requires Valid() && Coherent(cache.Contents(), Texts(inputs), Texts(outputs))
      modifies cache, inputs, outputs
      ensures Valid() && |rs| == |ps|
      ensures Coherent(cache.Contents(), Texts(inputs), Texts(outputs))
      ensures Texts(inputs) == old(Texts(inputs)) && Texts(outputs) == old(Texts(outputs))
      ensures forall i :: 0 <= i < |ps| ==> rs[i] == Answer(Texts(inputs), Texts(outputs), ps[i])
    {
      rs := [];
      ghost var ins, outs := Texts(inputs), Texts(outputs);
      for n := 0 to |ps|
        invariant Valid() && |rs| == n && Coherent(cache.Contents(), ins, outs)
        invariant Texts(inputs) == ins && Texts(outputs) == outs
        invariant forall i :: 0 <= i < n ==> rs[i] == Answer(ins, outs, ps[i])
      {
        ghost var entries := cache.Contents();
        var r := LineColumn(ps[n]);
        Transparent(entries, ins, outs, ps[n], cache.capacity);
        assert r == Answer(ins, outs, ps[n]);
        rs := rs + [r];
      }
    }

    /** Appends to an output file; false where an EXPECT fails.  The memo stays as it is. */
    method OutputAppend(f: Word, text: Text) returns (ok: bool)
      requires FilesValid()
      modifies outputs
      ensures FilesValid() && Texts(inputs) == old(Texts(inputs))
      ensures Texts(outputs) == AfterAppend(old(Texts(outputs)), f, text)
      ensures ok <==> Appends(old(Texts(outputs)), f, text)
    {
      if !IsOutputFile(f) || !CheckLimit(f) {
        return false;
      }
      var i := AsIndex(f);
      if i == None || i.value >= |outputs| {
        return false;
      }
      ok := outputs[i.value].AppendSource(text);
      DistinctSplit(inputs, outputs, i.value);
      assert Texts(inputs) == old(Texts(inputs));
      assert Texts(outputs) == Grown(old(Texts(outputs)), i.value, text);
    }

    method Handle(r: Request) returns (reply: Reply)
      requires Valid()
      modifies cache, inputs, outputs
      ensures Valid() && Texts(inputs) == old(Texts(inputs))
      ensures Texts(outputs) == TextsAfter(old(Texts(outputs)), r)
      ensures reply == MemoReply(old(cache.Contents()), old(Texts(inputs)), old(Texts(outputs)), r)
      ensures cache.Contents() ==
              MemoAfter(old(cache.Contents()), old(Texts(inputs)), old(Texts(outputs)), r, cache.capacity)
    {
      match r {
        case Query(p) =>
          var answer := LineColumn(p);
          reply := Position(answer);
        case Append(f, text) =>
          var ok := OutputAppend(f, text);
          reply := Appended(ok);
      }
    }

    /** Every run of queries and appends gives the replies of the memo on values; by
        RunTransparent these are right where no query lies beyond the present end. */
    method Serve(rs: seq<Request>) returns (replies: seq<Reply>)
      requires Valid()
      modifies cache, inputs, outputs
      ensures Valid() && Texts(inputs) == old(Texts(inputs))
      ensures Texts(outputs) == TextsAfterAll(old(Texts(outputs)), rs)
      ensures replies == MemoReplies(old(cache.Contents()), old(Texts(inputs)), old(Texts(outputs)), rs, cache.capacity)
      ensures Coherent(old(cache.Contents()), old(Texts(inputs)), old(Texts(outputs)))
              && AllWithin(old(cache.Contents()), old(Texts(outputs))) && QueriesWithin(old(Texts(outputs)), rs) ==>
                replies == Replies(old(Texts(inputs)), old(Texts(outputs)), rs)
    {
      replies := [];
      ghost var ins, outs, entries := Texts(inputs), Texts(outputs), cache.Contents();
      for n := 0 to |rs|
        invariant Valid() && Texts(inputs) == ins
        invariant TextsAfterAll(Texts(outputs), rs[n..]) == TextsAfterAll(outs, rs)
        invariant replies + MemoReplies(cache.Contents(), ins, Texts(outputs), rs[n..], cache.capacity) ==
                  MemoReplies(entries, ins, outs, rs, cache.capacity)
      {
        var reply := Handle(rs[n]);
        assert rs[n..][1..] == rs[n + 1..];
        replies := replies + [reply];
      }
      if Coherent(entries, ins, outs) && AllWithin(entries, outs) && QueriesWithin(outs, rs) {
        RunTransparent(entries, ins, outs, rs, cache.capacity);
      }
    }
  }

  lemma DistinctSplit(a: seq<FileEntry>, b: seq<FileEntry>, k: nat)
    requires Distinct(a + b) && k < |b|
    ensures b[k] !in a && forall i :: 0 <= i < |b| && i != k ==> b[i] != b[k]
  {
    assert (a + b)[|a| + k] == b[k];
    forall i | 0 <= i < |a| ensures a[i] != b[k] { assert (a + b)[i] == a[i]; }
    forall i | 0 <= i < |b| && i != k ensures b[i] != b[k] { assert (a + b)[|a| + i] == b[i]; }
  }
}
