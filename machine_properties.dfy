/** What processItem promises: each code's effect on the snapshot, the play
    state reachable from the zero value, and track-change detection at bundle
    end. */
module MachineProperties {
  import opened Common
  import opened Metadata

  /** A code processItem reacts to. */
  predicate IsKnownCode(code: seq<byte>)
  {
    IsTextCode(code) || code == ASTM || IsPlayCode(code) || IsPauseCode(code) || code == MDST || code == MDEN
  }

  predicate IsSignal(item: Item)
  {
    IsPlayCode(item.code) || IsPauseCode(item.code)
  }

  /** Running one more item is one more step. */
  lemma RunSnoc(s: Snapshot, items: seq<Item>, item: Item)
    ensures Run(s, items + [item]) == Step(Run(s, items), item)
  {
    assert (items + [item])[..|items|] == items;
  }

  /** `asar`, `asal` and `minm` each overwrite exactly one text field with the
      decoded data; nothing else changes. */
  lemma TextCodeSetsOneField(s: Snapshot, item: Item)
    requires IsTextCode(item.code)
    ensures item.code == ASAR ==> Step(s, item) == s.(artist := item.data)
    ensures item.code == ASAL ==> Step(s, item) == s.(album := item.data)
    ensures item.code == MINM ==> Step(s, item) == s.(title := item.data)
  {
  }

  /** `astm` with four bytes or more sets the length to their big-endian value,
      a uint32; with fewer it changes nothing. */
  lemma TrackLength(s: Snapshot, item: Item)
    requires item.code == ASTM
    ensures |item.data| >= 4 ==> Step(s, item) == s.(length := BigEndianUint32(item.data) as int)
    ensures |item.data| >= 4 ==> 0 <= Step(s, item).length < 0x1_0000_0000
    ensures |item.data| < 4 ==> Step(s, item) == s
  {
  }

  /** `pffr` and `pres` set Playing, `paus` and `pend` set Paused, and nothing else changes. */
  lemma PlayPause(s: Snapshot, item: Item)
    ensures IsPlayCode(item.code) ==> Step(s, item) == s.(status := Playing)
    ensures IsPauseCode(item.code) ==> Step(s, item) == s.(status := Paused)
  {
  }

  /** No code sets Stopped or Error: the status either stays or becomes Playing or Paused. */
  lemma StatusStepsToPlayingOrPaused(s: Snapshot, item: Item)
    ensures Step(s, item).status == s.status || Step(s, item).status in {Playing, Paused}
    ensures Step(s, item).status != s.status ==> IsSignal(item)
  {
  }

  /** The four states have four distinct bytes. */
  lemma StateValuesDistinct(a: PlayerState, b: PlayerState)
    ensures a.Value() == b.Value() <==> a == b
  {
  }

  /** Each field of the snapshot is changed only by its own codes, and then to
      what that code sets. */
  lemma FieldsChangeOnlyByTheirCodes(s: Snapshot, item: Item)
    ensures var r := Step(s, item);
            (r.artist != s.artist ==> item.code == ASAR && r.artist == item.data) &&
            (r.album != s.album ==> item.code == ASAL && r.album == item.data) &&
            (r.title != s.title ==> item.code == MINM && r.title == item.data) &&
            (r.length != s.length ==> item.code == ASTM && r.length == BigEndianUint32(item.data) as int) &&
            (r.status != s.status ==> IsSignal(item)) &&
            (r.trackIndex != s.trackIndex || r.indexStr != s.indexStr ==>
               item.code == MDEN && r.indexStr == Key(s) && r.trackIndex == Inc32(s.trackIndex))
  {
  }

  /** Over a run, the status is the starting one until the first play or pause
      item, and Playing or Paused from then on. */
  lemma {:induction false} RunStatus(s: Snapshot, items: seq<Item>)
    ensures (forall i | 0 <= i < |items| :: !IsSignal(items[i])) ==> Run(s, items).status == s.status
    ensures (exists i | 0 <= i < |items| :: IsSignal(items[i])) ==> Run(s, items).status in {Playing, Paused}
    decreases |items|
  {
    if items != [] {
      var init := items[..|items| - 1];
      var last := items[|items| - 1];
      RunStatus(s, init);
      var before := Run(s, init);
      assert Run(s, items) == Step(before, last);
      StatusStepsToPlayingOrPaused(before, last);
      assert forall i | 0 <= i < |init| :: init[i] == items[i];
      if exists i | 0 <= i < |items| :: IsSignal(items[i]) {
        var i :| 0 <= i < |items| && IsSignal(items[i]);
        if i < |init| {
          assert IsSignal(init[i]);
        }
      }
    }
  }

  /** From the zero value, the status is Stopped exactly until the first play or
      pause item, and never Error. */
  lemma StatusFromZero(items: seq<Item>)
    ensures Run(Zero, items).status == Stopped <==> forall i | 0 <= i < |items| :: !IsSignal(items[i])
    ensures Run(Zero, items).status != Error
  {
    RunStatus(Zero, items);
  }

  /** `mdst` and every unknown code leave the whole snapshot unchanged. */
  lemma IgnoredCodes(s: Snapshot, item: Item)
    requires item.code == MDST || !IsKnownCode(item.code)
    ensures Step(s, item) == s
  {
  }

  /** `mden` stores the fingerprint and bumps the index exactly when the
      fingerprint differs from the stored one; nothing else changes. */
  lemma BundleEnd(s: Snapshot, item: Item)
    requires item.code == MDEN
    ensures Step(s, item).indexStr == Key(s)
    ensures Step(s, item).trackIndex != s.trackIndex <==> Key(s) != s.indexStr
    ensures Step(s, item).trackIndex != s.trackIndex ==> Step(s, item).trackIndex == Inc32(s.trackIndex)
    ensures Step(s, item).(indexStr := s.indexStr, trackIndex := s.trackIndex) == s
  {
  }

  /** A second `mden` straight after the first is a no-op. */
  lemma BundleEndIdempotent(s: Snapshot, first: Item, second: Item)
    requires first.code == MDEN && second.code == MDEN
    ensures Step(Step(s, first), second) == Step(s, first)
  {
  }

  /** Only `mden` moves the index, and then by one (with int32 wrap-around). */
  lemma TrackIndexOnlyAtBundleEnd(s: Snapshot, item: Item)
    ensures Step(s, item).trackIndex != s.trackIndex ==>
      item.code == MDEN && Step(s, item).trackIndex == Inc32(s.trackIndex)
  {
  }

  /** Items other than `mden` leave the index and the stored fingerprint alone. */
  lemma {:induction false} NoBundleEndKeepsIndex(s: Snapshot, items: seq<Item>)
    requires forall i | 0 <= i < |items| :: items[i].code != MDEN
    ensures Run(s, items).trackIndex == s.trackIndex
    ensures Run(s, items).indexStr == s.indexStr
    decreases |items|
  {
    if items != [] {
      var init := items[..|items| - 1];
      assert forall i | 0 <= i < |init| :: init[i] == items[i];
      NoBundleEndKeepsIndex(s, init);
    }
  }

  /** Between two bundle ends, any number of field updates: the second bundle
      end bumps the index exactly when the fingerprint differs from the one at
      the first. */
  lemma BundleDetectsChange(s: Snapshot, first: Item, updates: seq<Item>, second: Item)
    requires first.code == MDEN && second.code == MDEN
    requires forall i | 0 <= i < |updates| :: updates[i].code != MDEN
    ensures var a := Step(s, first);
            var b := Run(a, updates);
            var c := Step(b, second);
            b.trackIndex == a.trackIndex &&
            (c.trackIndex != b.trackIndex <==> Key(b) != Key(s)) &&
            (c.trackIndex != b.trackIndex ==> c.trackIndex == Inc32(b.trackIndex))
  {
    BundleEnd(s, first);
    NoBundleEndKeepsIndex(Step(s, first), updates);
    BundleEnd(Run(Step(s, first), updates), second);
  }

  /** The fingerprint has no separator, so moving bytes between fields is not
      seen: artist "AB" and title "C" replaced by artist "A" and title "BC". */
  lemma ConcatenationCollision(s: Snapshot)
    requires s.artist == [0x41, 0x42] && s.title == [0x43] && s.indexStr == Key(s)
    ensures var items := [Item([], ASAR, 1, [0x41]), Item([], MINM, 2, [0x42, 0x43]), Item([], MDEN, 0, [])];
            var t := Run(s, items);
            t.artist != s.artist && t.title != s.title && t.trackIndex == s.trackIndex
  {
    var x, y, z := Item([], ASAR, 1, [0x41]), Item([], MINM, 2, [0x42, 0x43]), Item([], MDEN, 0, []);
    assert [] + [x] == [x] && [x] + [y] == [x, y] && [x, y] + [z] == [x, y, z];
    RunSnoc(s, [], x);
    RunSnoc(s, [x], y);
    RunSnoc(s, [x, y], z);
    var a := Step(s, x);
    TextCodeSetsOneField(s, x);
    var b := Step(a, y);
    TextCodeSetsOneField(a, y);
    BundleEnd(b, z);
    assert Key(b) == s.album + [0x41] + [0x42, 0x43];
    assert Key(s) == s.album + [0x41, 0x42] + [0x43];
    assert Key(b) == Key(s);
  }

  /** While every text item carries empty data, the fields and the stored
      fingerprint stay empty, so no `mden` from the zero value bumps the index. */
  lemma {:induction false} EmptyFieldsNeverBump(items: seq<Item>)
    requires forall i | 0 <= i < |items| :: IsTextCode(items[i].code) ==> items[i].data == []
    ensures Run(Zero, items).trackIndex == 0
    ensures Key(Run(Zero, items)) == [] && Run(Zero, items).indexStr == []
    decreases |items|
  {
    if items != [] {
      var init := items[..|items| - 1];
      assert forall i | 0 <= i < |init| :: init[i] == items[i];
      EmptyFieldsNeverBump(init);
      var before, item := Run(Zero, init), items[|items| - 1];
      assert before.album == [] && before.artist == [] && before.title == [];
      FieldsChangeOnlyByTheirCodes(before, item);
      if item.code == MDEN {
        BundleEnd(before, item);
      }
    }
  }

  /** A fresh parser that receives album, artist, title and a bundle end holds
      that track with index 1 (unless the three are all empty). */
  lemma FirstTrack(album: seq<byte>, artist: seq<byte>, title: seq<byte>)
    requires album + artist + title != []
    ensures var items := [Item([], ASAL, |album|, album), Item([], ASAR, |artist|, artist),
                          Item([], MINM, |title|, title), Item([], MDEN, 0, [])];
            Run(Zero, items) == Snapshot(album + artist + title, 1, artist, album, title, 0, Stopped)
  {
    var w, x, y, z := Item([], ASAL, |album|, album), Item([], ASAR, |artist|, artist),
                      Item([], MINM, |title|, title), Item([], MDEN, 0, []);
    assert [] + [w] == [w] && [w] + [x] == [w, x] && [w, x] + [y] == [w, x, y];
    assert [w, x, y] + [z] == [w, x, y, z];
    RunSnoc(Zero, [], w);
    RunSnoc(Zero, [w], x);
    RunSnoc(Zero, [w, x], y);
    RunSnoc(Zero, [w, x, y], z);
    TextCodeSetsOneField(Zero, w);
    TextCodeSetsOneField(Step(Zero, w), x);
    TextCodeSetsOneField(Step(Step(Zero, w), x), y);
    var b := Zero.(album := album, artist := artist, title := title);
    assert Run(Zero, [w, x, y]) == b;
    BundleEnd(b, z);
  }

  /** The number of `mden` items in a run. */
  function CountBundleEnds(items: seq<Item>): nat
    decreases |items|
  {
    if items == [] then 0
    else CountBundleEnds(items[..|items| - 1]) + (if items[|items| - 1].code == MDEN then 1 else 0)
  }

  /** The number of `mden` items of a run that see a new fingerprint. */
  function Bumps(s: Snapshot, items: seq<Item>): nat
    decreases |items|
  {
    if items == [] then 0
    else
      var before := Run(s, items[..|items| - 1]);
      Bumps(s, items[..|items| - 1]) +
        (if items[|items| - 1].code == MDEN && Key(before) != before.indexStr then 1 else 0)
  }

  /** Wrapping agrees on integers that agree modulo 2^32. */
  lemma WrapCongruent(x: int, y: int)
    requires (x - y) % 0x1_0000_0000 == 0
    ensures Wrap32(x) == Wrap32(y)
  {
    var k := (x - y) / 0x1_0000_0000;
    assert x == y + k * 0x1_0000_0000;
    assert (x + 0x8000_0000) % 0x1_0000_0000 == (y + 0x8000_0000) % 0x1_0000_0000;
  }

  /** The index after one step: one int32 increment exactly when a bundle end
      sees a new fingerprint. */
  lemma StepTrackIndex(s: Snapshot, item: Item)
    ensures Step(s, item).trackIndex ==
      if item.code == MDEN && Key(s) != s.indexStr then Inc32(s.trackIndex) else s.trackIndex
  {
  }

  /** Wrapping an int32 gives it back. */
  lemma WrapInRange(v: int32)
    ensures Wrap32(v as int) == v
  {
  }

  /** Incrementing a wrapped value is wrapping the incremented value. */
  lemma IncWrap(x: int)
    ensures Inc32(Wrap32(x)) == Wrap32(x + 1)
  {
    WrapCongruent(Wrap32(x) as int + 1, x + 1);
  }

  /** `n` increments of an int32. */
  function IncN(x: int32, n: nat): int32
    decreases n
  {
    if n == 0 then x else Inc32(IncN(x, n - 1))
  }

  /** `n` increments wrap the sum. */
  lemma {:induction false} IncNWrap(x: int32, n: nat)
    ensures IncN(x, n) == Wrap32(x as int + n)
    decreases n
  {
    if n == 0 {
      WrapInRange(x);
    } else {
      IncNWrap(x, n - 1);
      IncWrap(x as int + (n - 1));
    }
  }

  /** Only a bundle end can bump the index. */
  lemma {:induction false} BumpsAtMostBundleEnds(s: Snapshot, items: seq<Item>)
    ensures Bumps(s, items) <= CountBundleEnds(items)
    decreases |items|
  {
    if items != [] {
      BumpsAtMostBundleEnds(s, items[..|items| - 1]);
    }
  }

  /** Over a run the index is incremented once per bump. */
  lemma {:induction false} RunIncrements(s: Snapshot, items: seq<Item>)
    ensures Run(s, items).trackIndex == IncN(s.trackIndex, Bumps(s, items))
    decreases |items|
  {
    if items != [] {
      var init := items[..|items| - 1];
      RunIncrements(s, init);
      StepTrackIndex(Run(s, init), items[|items| - 1]);
    }
  }

  /** Without overflow, `n` increments add `n`. */
  lemma {:induction false} IncNInRange(x: int32, n: nat)
    requires x as int + n <= INT32_MAX
    ensures IncN(x, n) as int == x as int + n
    decreases n
  {
    if n > 0 {
      IncNInRange(x, n - 1);
    }
  }

  /** Over a run the index moves by the number of bundle ends that saw a new
      fingerprint, with int32 wrap-around, and that number is at most the number
      of bundle ends. */
  lemma RunTrackIndex(s: Snapshot, items: seq<Item>)
    ensures Bumps(s, items) <= CountBundleEnds(items)
    ensures Run(s, items).trackIndex == IncN(s.trackIndex, Bumps(s, items))
  {
    BumpsAtMostBundleEnds(s, items);
    RunIncrements(s, items);
  }

  /** Without int32 overflow, the index never decreases and grows by at most one
      per bundle end. */
  lemma TrackIndexNonDecreasing(s: Snapshot, items: seq<Item>)
    requires s.trackIndex as int + CountBundleEnds(items) <= INT32_MAX
    ensures s.trackIndex <= Run(s, items).trackIndex
    ensures Run(s, items).trackIndex as int <= s.trackIndex as int + CountBundleEnds(items)
  {
    RunTrackIndex(s, items);
    IncNInRange(s.trackIndex, Bumps(s, items));
  }
}
