/** What the framing loop of Start promises: the buffer holds the chunks read
    since the last successful parse, a parse is tried only at a chunk ending in
    the closing tag, and text that failed to parse stays in the buffer. */
module FrameProperties {
  import opened Common
  import opened Metadata
  import MachineProperties

  lemma ConcatSnoc(chunks: seq<seq<byte>>, chunk: seq<byte>)
    ensures Concat(chunks + [chunk]) == Concat(chunks) + chunk
  {
    assert (chunks + [chunk])[..|chunks|] == chunks;
  }

  lemma AppendAssoc(a: seq<byte>, b: seq<byte>, c: seq<byte>)
    ensures a + b + c == a + (b + c)
  {
  }

  lemma TakeOfTake(chunks: seq<seq<byte>>, n: int, j: int)
    requires 0 <= j < n <= |chunks|
    ensures chunks[..n][..j] == chunks[..j] && chunks[..n][j] == chunks[j]
  {
  }

  /** A prefix of chunks none of which dispatches has no dispatching chunk. */
  lemma NoDispatchInPrefix(f: Frame, chunks: seq<seq<byte>>, parse: seq<byte> -> Option<Item>, fb: Fallback)
    requires chunks != []
    requires forall j | 0 <= j < |chunks| :: !Dispatches(FeedAll(f, chunks[..j], parse, fb), chunks[j], parse)
    ensures var init := chunks[..|chunks| - 1];
            forall j | 0 <= j < |init| :: !Dispatches(FeedAll(f, init[..j], parse, fb), init[j], parse)
  {
    var init := chunks[..|chunks| - 1];
    forall j | 0 <= j < |init|
      ensures !Dispatches(FeedAll(f, init[..j], parse, fb), init[j], parse)
    {
      assert init[..j] == chunks[..j] && init[j] == chunks[j];
    }
  }

  /** As long as no chunk leads to a successful parse, the loop only
      accumulates: the buffer grows by each chunk and the snapshot stays. */
  lemma {:induction false} NoDispatchAccumulates(
    f: Frame, chunks: seq<seq<byte>>, parse: seq<byte> -> Option<Item>, fb: Fallback)
    requires forall j | 0 <= j < |chunks| :: !Dispatches(FeedAll(f, chunks[..j], parse, fb), chunks[j], parse)
    ensures FeedAll(f, chunks, parse, fb) == Frame(f.tag + Concat(chunks), f.snapshot)
    decreases |chunks|
  {
    if chunks == [] {
      assert Concat(chunks) == [] && f.tag + [] == f.tag;
    } else {
      var n := |chunks| - 1;
      var init, last := chunks[..n], chunks[n];
      NoDispatchInPrefix(f, chunks, parse, fb);
      NoDispatchAccumulates(f, init, parse, fb);
      var before := FeedAll(f, init, parse, fb);
      assert !Dispatches(before, last, parse);
      FeedChunkCases(before, last, parse, fb);
      assert FeedAll(f, chunks, parse, fb) == FeedChunk(before, last, parse, fb);
      assert Concat(chunks) == Concat(init) + last;
      AppendAssoc(f.tag, Concat(init), last);
    }
  }

  /** Without a chunk that ends in the closing tag nothing is ever parsed. */
  lemma ParseOnlyAtEndTag(f: Frame, chunks: seq<seq<byte>>, parse: seq<byte> -> Option<Item>, fb: Fallback)
    requires forall j | 0 <= j < |chunks| :: !HasSuffix(chunks[j], END_TAG)
    ensures FeedAll(f, chunks, parse, fb) == Frame(f.tag + Concat(chunks), f.snapshot)
  {
    NoDispatchAccumulates(f, chunks, parse, fb);
  }

  /** The index of the last chunk that led to a successful parse, or -1. */
  function LastDispatch(f: Frame, chunks: seq<seq<byte>>, parse: seq<byte> -> Option<Item>, fb: Fallback): (k: int)
    ensures -1 <= k < |chunks|
    decreases |chunks|
  {
    if chunks == [] then -1
    else if Dispatches(FeedAll(f, chunks[..|chunks| - 1], parse, fb), chunks[|chunks| - 1], parse) then |chunks| - 1
    else LastDispatch(f, chunks[..|chunks| - 1], parse, fb)
  }

  /** If no chunk after the k-th led to a parse before the last one, and the
      last did not either, then no chunk after the k-th did. */
  lemma NoLaterDispatch(f: Frame, chunks: seq<seq<byte>>, k: int, parse: seq<byte> -> Option<Item>, fb: Fallback)
    requires chunks != [] && -1 <= k
    requires var init := chunks[..|chunks| - 1];
             forall j | k < j < |init| :: !Dispatches(FeedAll(f, init[..j], parse, fb), init[j], parse)
    requires !Dispatches(FeedAll(f, chunks[..|chunks| - 1], parse, fb), chunks[|chunks| - 1], parse)
    ensures forall j | k < j < |chunks| :: !Dispatches(FeedAll(f, chunks[..j], parse, fb), chunks[j], parse)
  {
    var n := |chunks| - 1;
    forall j | k < j < |chunks|
      ensures !Dispatches(FeedAll(f, chunks[..j], parse, fb), chunks[j], parse)
    {
      if j < n {
        TakeOfTake(chunks, n, j);
      }
    }
  }

  /** LastDispatch names a chunk that led to a successful parse, and no later
      chunk did. */
  lemma {:induction false} LastDispatchIsLast(
    f: Frame, chunks: seq<seq<byte>>, parse: seq<byte> -> Option<Item>, fb: Fallback)
    ensures var k := LastDispatch(f, chunks, parse, fb);
            (k >= 0 ==> Dispatches(FeedAll(f, chunks[..k], parse, fb), chunks[k], parse)) &&
            (forall j | k < j < |chunks| :: !Dispatches(FeedAll(f, chunks[..j], parse, fb), chunks[j], parse))
    decreases |chunks|
  {
    if chunks != [] {
      var n := |chunks| - 1;
      var init, last := chunks[..n], chunks[n];
      var before := FeedAll(f, init, parse, fb);
      if Dispatches(before, last, parse) {
        assert LastDispatch(f, chunks, parse, fb) == n;
      } else {
        LastDispatchIsLast(f, init, parse, fb);
        var k := LastDispatch(f, init, parse, fb);
        assert LastDispatch(f, chunks, parse, fb) == k;
        NoLaterDispatch(f, chunks, k, parse, fb);
        if k >= 0 {
          TakeOfTake(chunks, n, k);
        }
      }
    }
  }

  /** One turn of the loop, by whether it dispatches. */
  lemma FeedChunkCases(f: Frame, chunk: seq<byte>, parse: seq<byte> -> Option<Item>, fb: Fallback)
    ensures Dispatches(f, chunk, parse) ==>
      FeedChunk(f, chunk, parse, fb) == Frame([], Step(f.snapshot, DecodeItem(parse(f.tag + chunk).value, fb)))
    ensures !Dispatches(f, chunk, parse) ==> FeedChunk(f, chunk, parse, fb) == Frame(f.tag + chunk, f.snapshot)
  {
  }

  /** Appending a chunk to the buffer is appending it to the chunks read. */
  lemma TagAppend(prefix: seq<byte>, chunks: seq<seq<byte>>, k: int)
    requires -1 <= k < |chunks| - 1
    ensures prefix + Concat(chunks[..|chunks| - 1][k + 1..]) + chunks[|chunks| - 1] == prefix + Concat(chunks[k + 1..])
  {
    var rest := chunks[k + 1..];
    assert rest[..|rest| - 1] == chunks[..|chunks| - 1][k + 1..];
    assert rest[|rest| - 1] == chunks[|chunks| - 1];
    AppendAssoc(prefix, Concat(rest[..|rest| - 1]), rest[|rest| - 1]);
  }

  /** The buffer is always the concatenation of the chunks read since the last
      successful parse (LastDispatchIsLast), or, if there was none, the initial
      buffer followed by every chunk: it is emptied only by a successful parse. */
  lemma {:induction false} TagSinceLastDispatch(
    f: Frame, chunks: seq<seq<byte>>, parse: seq<byte> -> Option<Item>, fb: Fallback)
    ensures var k := LastDispatch(f, chunks, parse, fb);
            FeedAll(f, chunks, parse, fb).tag == (if k < 0 then f.tag else []) + Concat(chunks[k + 1..])
    decreases |chunks|
  {
    if chunks == [] {
      assert FeedAll(f, chunks, parse, fb) == f;
      assert LastDispatch(f, chunks, parse, fb) == -1;
      assert Concat(chunks[0..]) == [];
      assert f.tag + [] == f.tag;
    } else {
      var n := |chunks| - 1;
      var init, last := chunks[..n], chunks[n];
      var before := FeedAll(f, init, parse, fb);
      assert FeedAll(f, chunks, parse, fb) == FeedChunk(before, last, parse, fb);
      FeedChunkCases(before, last, parse, fb);
      if Dispatches(before, last, parse) {
        assert LastDispatch(f, chunks, parse, fb) == n;
        assert Concat(chunks[n + 1..]) == [];
      } else {
        var k := LastDispatch(f, init, parse, fb);
        assert LastDispatch(f, chunks, parse, fb) == k;
        TagSinceLastDispatch(f, init, parse, fb);
        TagAppend(if k < 0 then f.tag else [], chunks, k);
      }
    }
  }

  /** After a chunk that ends in the closing tag but whose buffer does not
      parse, the failed text stays at the front of the buffer until the next
      successful parse. */
  lemma FailedParseKeepsText(
    f: Frame, chunk: seq<byte>, later: seq<seq<byte>>, parse: seq<byte> -> Option<Item>, fb: Fallback)
    requires HasSuffix(chunk, END_TAG) && parse(f.tag + chunk).None?
    requires forall j | 0 <= j < |later| ::
      !Dispatches(FeedAll(FeedChunk(f, chunk, parse, fb), later[..j], parse, fb), later[j], parse)
    ensures FeedAll(FeedChunk(f, chunk, parse, fb), later, parse, fb).tag == f.tag + chunk + Concat(later)
  {
    NoDispatchAccumulates(FeedChunk(f, chunk, parse, fb), later, parse, fb);
  }

  /** The suffix test is made on the chunk, not on the buffer: a closing tag
      split across two chunks as "</it" and "em>" is not recognised when those
      chunks arrive, whereas the same text in one chunk is dispatched. */
  lemma SplitEndTagIsMissed(f: Frame, text: seq<byte>, parse: seq<byte> -> Option<Item>, fb: Fallback)
    requires HasSuffix(text, END_TAG)
    ensures var cut := |text| - 3;
            FeedAll(f, [text[..cut], text[cut..]], parse, fb) == Frame(f.tag + text, f.snapshot)
    ensures Dispatches(f, text, parse) ==> FeedAll(f, [text], parse, fb).tag == []
  {
    var cut := |text| - 3;
    var chunks := [text[..cut], text[cut..]];
    assert text[cut..] == END_TAG[4..];
    assert text[..cut][cut - 1] == 0x74;
    assert !HasSuffix(text[..cut], END_TAG);
    ParseOnlyAtEndTag(f, chunks, parse, fb);
    assert Concat(chunks) == text[..cut] + text[cut..] by {
      ConcatSnoc([], text[..cut]);
      ConcatSnoc([text[..cut]], text[cut..]);
      assert [] + [text[..cut]] == [text[..cut]];
      assert [text[..cut]] + [text[cut..]] == chunks;
    }
    assert text[..cut] + text[cut..] == text;
    assert [text][..0] == [];
  }

  /** A record whose closing tag was split stays in the buffer and is parsed
      late, together with the next chunk that ends in the closing tag. */
  lemma SplitRecordParsedLate(f: Frame, text: seq<byte>, next: seq<byte>, parse: seq<byte> -> Option<Item>, fb: Fallback)
    requires HasSuffix(text, END_TAG) && HasSuffix(next, END_TAG)
    requires parse(f.tag + text + next).Some?
    ensures var cut := |text| - 3;
            FeedAll(f, [text[..cut], text[cut..], next], parse, fb) ==
            Frame([], Step(f.snapshot, DecodeItem(parse(f.tag + text + next).value, fb)))
  {
    var cut := |text| - 3;
    var chunks := [text[..cut], text[cut..], next];
    SplitEndTagIsMissed(f, text, parse, fb);
    assert chunks[..2] == [text[..cut], text[cut..]];
  }

  /** The items that reach processItem while the chunks are read, decoded. */
  function Dispatched(f: Frame, chunks: seq<seq<byte>>, parse: seq<byte> -> Option<Item>, fb: Fallback): seq<Item>
    decreases |chunks|
  {
    if chunks == [] then []
    else
      var before := FeedAll(f, chunks[..|chunks| - 1], parse, fb);
      var last := chunks[|chunks| - 1];
      Dispatched(f, chunks[..|chunks| - 1], parse, fb) +
        (if Dispatches(before, last, parse) then [DecodeItem(parse(before.tag + last).value, fb)] else [])
  }

  /** The snapshot after the loop is the state machine run over exactly the
      items that were parsed, in order; so everything proved about Run holds of
      Start. */
  lemma {:induction false} SnapshotIsRunOfDispatched(
    f: Frame, chunks: seq<seq<byte>>, parse: seq<byte> -> Option<Item>, fb: Fallback)
    ensures FeedAll(f, chunks, parse, fb).snapshot == Run(f.snapshot, Dispatched(f, chunks, parse, fb))
    decreases |chunks|
  {
    if chunks != [] {
      var init := chunks[..|chunks| - 1];
      var before := FeedAll(f, init, parse, fb);
      var last := chunks[|chunks| - 1];
      SnapshotIsRunOfDispatched(f, init, parse, fb);
      if Dispatches(before, last, parse) {
        var items := Dispatched(f, init, parse, fb);
        var item := DecodeItem(parse(before.tag + last).value, fb);
        assert (items + [item])[..|items|] == items;
      } else {
        assert Dispatched(f, chunks, parse, fb) == Dispatched(f, init, parse, fb) + [];
        assert Dispatched(f, init, parse, fb) + [] == Dispatched(f, init, parse, fb);
      }
    }
  }

  /** A parser started from its zero value and fed any chunks never shows the
      Error status. */
  lemma FramedStatusNeverError(chunks: seq<seq<byte>>, parse: seq<byte> -> Option<Item>, fb: Fallback)
    ensures FeedAll(Frame([], Zero), chunks, parse, fb).snapshot.status != Error
  {
    SnapshotIsRunOfDispatched(Frame([], Zero), chunks, parse, fb);
    MachineProperties.StatusFromZero(Dispatched(Frame([], Zero), chunks, parse, fb));
  }
}
