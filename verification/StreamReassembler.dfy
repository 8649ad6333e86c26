/** The reassembler object (libsponge/stream_reassembler): loops over an ordered map that is changed
    while it is iterated. */
module StreamReassemblers {
  import opened Bytes
  import opened ByteStreams
  import opened SegmentMap
  import opened WrappingIntegers
  import opened ReassemblerModel
  import opened ReassemblerSteps

  class StreamReassembler {
    const output: ByteStream
    const capacity: nat
    var firstUnassembled: nat
    var segments: Segments
    var eofIndex: nat

    ghost function View(): Reassembler
      reads this, output
    {
      Reassembler(output.View(), capacity, firstUnassembled, segments, eofIndex)
    }

    /** The condition inside the private steps. */
    ghost predicate Sound()
      reads this, output
    {
      output.Valid() && View().Sound()
    }

    ghost predicate Valid()
      reads this, output
    {
      output.Valid() && View().Valid()
    }

    constructor (capacity: nat)
      requires capacity < TWO64
      ensures Valid() && fresh(output)
      ensures View() == NewReassembler(capacity)
    {
      output := new ByteStream(capacity);
      this.capacity := capacity;
      firstUnassembled, segments, eofIndex := 0, map[], TWO64 - 1;
    }

    /** The sum over the map is the number of distinct positions stored. */
    method UnassembledBytes() returns (total: nat)
      requires WellFormed(segments)
      ensures total == Total(segments)
      ensures total == |Held(segments)|
    {
      total := 0;
      var it := NextKey(segments, 0);
      ghost var rest := segments;
      while it.Some?
        invariant total + Total(rest) == Total(segments)
        invariant rest.Keys <= segments.Keys
        invariant it == NextKey(rest, 0)
        invariant forall k <- segments :: k in rest <==> it.Some? && it.value <= k
        invariant forall k <- rest :: rest[k] == segments[k]
        decreases |rest|
      {
        total := total + |segments[it.value]|;
        rest := rest - {it.value};
        it := NextKey(segments, it.value + 1);
        assert NextKey(rest, 0) == it by {
          assert it.Some? ==> it.value in rest;
        }
      }
      TotalCountsHeld(segments);
    }

    method TruncateData(data: seq<byte>, index: nat) returns (t: seq<byte>)
      requires Sound()
      ensures t == View().Truncate(data, index)
    {
      var firstUnacceptable := output.bytesRead + capacity;
      var stored := UnassembledBytes();
      var availableSpace := capacity - |output.buffer| - stored;
      var maxLen := Min(|data|, UnsignedSub(firstUnacceptable, index));
      maxLen := Min(maxLen, availableSpace);
      t := data[..maxLen];
    }

    /** The merging loop of `insert_segment`: erase the segments that `data` overlaps, and extend
        `data` by what they hold on either side. Enclosed data is dropped. */
    method MergeOverlaps(data: seq<byte>, index: nat) returns (tmpData: seq<byte>, tmpIndex: int)
      requires data != [] && WellFormed(segments)
      modifies this`segments
      ensures var m, end := old(segments), index + |data|;
              var merged := MergeOf(None, Before(m, index), data, After(m, end), index, m, Overlapping(m, index, end),
                                    Enclosed(m, index, end));
              tmpData == merged.data && tmpIndex == merged.index && segments == merged.left
    {
      hide Before, After, Overlapping, Enclosed;
      MergeResult(segments, data, index);
      tmpData, tmpIndex := data, index;
      var tmpEnd := tmpIndex + |tmpData| - 1;
      var it := NextKey(segments, 0);
      ghost var start := Merge(it, tmpData, tmpIndex, tmpEnd, segments);
      while it.Some?
        invariant Iterable(Merge(it, tmpData, tmpIndex, tmpEnd, segments))
        invariant Finish(Merge(it, tmpData, tmpIndex, tmpEnd, segments)) == Finish(start)
        decreases Ahead(Merge(it, tmpData, tmpIndex, tmpEnd, segments))
      {
        ghost var s := Merge(it, tmpData, tmpIndex, tmpEnd, segments);
        var segStart: nat := it.value;
        var segData := segments[segStart];
        var segEnd := segStart + |segData| - 1;
        if segEnd < tmpIndex {
          RoundAdvances(s);
          it := NextKey(segments, segStart + 1);
          assert Merge(it, tmpData, tmpIndex, tmpEnd, segments) == Round(s);
          continue;
        }
        if segStart > tmpEnd {
          break;
        }
        RoundAdvances(s);
        if tmpIndex <= segStart && tmpEnd >= segEnd {
          segments := segments - {segStart};
          it := NextKey(segments, segStart + 1);
          assert Merge(it, tmpData, tmpIndex, tmpEnd, segments) == Round(s);
        } else if segStart <= tmpIndex && segEnd >= tmpEnd {
          tmpData := [];
          it := NextKey(segments, segStart + 1);
          assert Merge(it, tmpData, tmpIndex, tmpEnd, segments) == Round(s);
        } else if tmpIndex < segStart {
          var extraLen := segEnd - tmpEnd;
          tmpData := tmpData + segData[|segData| - extraLen..];
          segments := segments - {segStart};
          tmpEnd := tmpIndex + |tmpData| - 1;
          it := NextKey(segments, segStart + 1);
          assert Merge(it, tmpData, tmpIndex, tmpEnd, segments) == Round(s);
        } else {
          var prefixLen := tmpIndex - segStart;
          tmpData := segData[..prefixLen] + tmpData;
          tmpIndex := segStart;
          tmpEnd := tmpIndex + |tmpData| - 1;
          segments := segments - {segStart};
          it := NextKey(segments, segStart + 1);
          assert Merge(it, tmpData, tmpIndex, tmpEnd, segments) == Round(s);
        }
      }
      assert Finish(Merge(it, tmpData, tmpIndex, tmpEnd, segments)) == Merge(it, tmpData, tmpIndex, tmpEnd, segments);
    }

    method InsertSegment(data: seq<byte>, index: nat)
      requires Sound() && data != []
      modifies this`segments
      ensures View() == old(View()).Insert(data, index)
    {
      var tmpData, tmpIndex := MergeOverlaps(data, index);
      InsertFinish(old(View()), data, index, tmpData, tmpIndex, segments);
      if tmpData != [] {
        var kept := TruncateData(tmpData, tmpIndex);
        if kept != [] && tmpIndex !in segments {
          segments := segments[tmpIndex := kept];
        }
      }
    }

    /** The body of `try_assemble` for a segment that starts before the first unassembled byte. The
        iterator, already moved on, survives the nested insertion: what is inserted overlaps
        nothing, so no other segment is erased. `r` is the state in which the loop began. */
    method CutSegment(index: nat, ghost r: Reassembler, ghost c: nat) returns (it: Option<nat>)
      requires Sound() && r.Sound() && View() == r.(segments := From(r.segments, c))
      requires NextKey(r.segments, c) == Some(index) && index < firstUnassembled
      modifies this`segments
      ensures it == NextKey(r.segments, index + 1)
      ensures View() == if firstUnassembled < index + |r.segments[index]| then r.Trim()
                        else r.(segments := From(r.segments, index + 1))
      ensures firstUnassembled < index + |r.segments[index]| && it.Some? ==> it.value in segments && firstUnassembled < it.value
    {
      FromStep(r.segments, c, index);
      var segData := segments[index];
      segments := segments - {index};
      it := NextKey(segments, index + 1);
      if index + |segData| > firstUnassembled {
        segData := segData[firstUnassembled - index..];
        TrimCut(r, index, View(), segData);
        InsertSegment(segData, firstUnassembled);
      }
    }

    /** Drop stored bytes that have been assembled meanwhile. */
    method TryAssemble()
      requires Sound()
      modifies this`segments
      ensures Sound()
      ensures View() == old(View()).Trim()
    {
      ghost var r := View();
      ghost var c: nat := 0;
      ghost var done := false;
      var it := NextKey(segments, 0);
      assert From(segments, 0) == segments;
      while it.Some?
        invariant View() == if done then r.Trim() else r.(segments := From(r.segments, c))
        invariant it == NextKey(r.segments, c)
        invariant !done ==> Passed(r, c)
        invariant done && it.Some? ==> it.value in segments && firstUnassembled <= it.value
        decreases KeysFrom(r.segments, it)
      {
        var segIndex: nat := it.value;
        assert segIndex in KeysFrom(r.segments, it);
        if segIndex < firstUnassembled {
          FromSound(r, c);
          it := CutSegment(segIndex, r, c);
          if segIndex + |r.segments[segIndex]| <= firstUnassembled {
            PassStep(r, c, segIndex);
          } else {
            done := true;
          }
        } else {
          if !done {
            TrimUncut(r, c);
            done := true;
          }
          TrimmedNext(r, segIndex);
          it := NextKey(segments, segIndex + 1);
        }
        c := segIndex + 1;
      }
      if !done {
        TrimUncut(r, c);
      }
      TrimSound(r);
    }

    /** Data that starts at the first unassembled byte: write what fits, then keep moving segments
        to the output. Each round erases one segment. */
    method ExtendInOrder(data: seq<byte>)
      requires Sound()
      modifies this`firstUnassembled, this`segments, output
      ensures output.Valid() && View() == old(View()).Extend(data)
    {
      hide Before, After, Trimmed;
      ghost var target := View().Extend(data);
      var writeData := TruncateData(data, firstUnassembled);
      AcceptAll(View(), writeData);
      var written := output.Write(writeData);
      firstUnassembled := firstUnassembled + written;
      while true
        invariant Sound()
        invariant View().Trim().Drain() == target
        decreases Total(segments)
      {
        TrimSound(View());
        TrimmedSize(segments, firstUnassembled);
        TryAssemble();
        if firstUnassembled !in segments {
          break;
        }
        ghost var r := View();
        var index := firstUnassembled;
        written := output.Write(segments[index]);
        firstUnassembled := firstUnassembled + written;
        segments := segments - {index};
        DrainStep(r, View());
      }
    }

    /** Store or write the data of a push that is not assembled yet. */
    method TakeData(data: seq<byte>, index: nat)
      requires Valid() && data != [] && firstUnassembled <= index
      modifies this`firstUnassembled, this`segments, output
      ensures Valid()
      ensures View() == Take(old(View()), data, index)
    {
      ghost var q := Take(View(), data, index);
      if index == firstUnassembled {
        assert q == View().Extend(data);
        ExtendInOrder(data);
        assert View() == q;
      } else {
        assert q == View().Insert(data, index);
        InsertSegment(data, index);
        assert View() == q;
      }
    }

    /** The end-of-input test at the end of a push. */
    method CloseIfComplete()
      requires Valid()
      modifies output
      ensures Valid()
      ensures View() == CloseAt(old(View()))
    {
      if segments == map[] && firstUnassembled == eofIndex {
        output.EndInput();
      }
    }

    /** The new part of a push, from `startData` on. */
    method AbsorbTail(data: seq<byte>, index: nat, startData: nat)
      requires Valid() && startData == View().Skip(index) < |data|
      modifies this`firstUnassembled, this`segments, output
      ensures Valid()
      ensures View() == TakeTail(old(View()), data, index)
    {
      hide Take;
      hide CloseAt;
      var writeData := data[startData..];
      assert writeData == Tail(View(), data, index);
      TakeData(writeData, index + startData);
      CloseIfComplete();
    }

    /** A push once its eof mark is noted: skip what is assembled, take the rest, and end the input
        when the stream is complete. */
    method AbsorbData(data: seq<byte>, index: nat)
      requires Valid()
      modifies this`firstUnassembled, this`segments, output
      ensures Valid()
      ensures View() == Absorb(old(View()), data, index)
    {
      var startData := if index < firstUnassembled then firstUnassembled - index else 0;
      if startData >= |data| {
        if segments == map[] && firstUnassembled >= eofIndex {
          output.EndInput();
        }
      } else {
        AbsorbTail(data, index, startData);
      }
    }

    method PushSubstring(data: seq<byte>, index: nat, eof: bool)
      requires Valid()
      modifies this, output
      ensures Valid()
      ensures View() == Push(old(View()), data, index, eof)
    {
      if eof {
        eofIndex := index + |data|;
      }
      assert View() == old(View()).NoteEof(data, index, eof);
      AbsorbData(data, index);
    }
  }

  ghost function KeysFrom(m: Segments, it: Option<nat>): set<nat> {
    if it.None? then {} else set k | k in m && it.value <= k
  }

  /** The merging loop, started at the first segment, computes the closed form. */
  lemma MergeResult(m: Segments, data: seq<byte>, index: nat)
    requires WellFormed(m) && data != []
    ensures var start := Merge(NextKey(m, 0), data, index, index + |data| - 1, m);
            && Iterable(start)
            && Finish(start).(it := None)
            == MergeOf(None, Before(m, index), data, After(m, index + |data|), index, m,
                       Overlapping(m, index, index + |data|), Enclosed(m, index, index + |data|))
  {
    MergeBegins(m, data, index);
    MergeBounds(m, data, index, 0);
    MergeLoop(m, data, index, 0, MergeAt(m, data, index, 0));
  }

  /** What the merging loop leaves is what an insertion works on. */
  lemma InsertFinish(r: Reassembler, data: seq<byte>, index: nat, tmpData: seq<byte>, tmpIndex: int, left: Segments)
    requires r.Sound() && data != []
    requires var m := r.segments;
             var s := MergeOf(None, Before(m, index), data, After(m, index + |data|), index, m,
                              Overlapping(m, index, index + |data|), Enclosed(m, index, index + |data|));
             tmpData == s.data && tmpIndex == s.index && left == s.left
    ensures tmpData == [] ==> left == r.segments && r.Insert(data, index) == r
    ensures tmpData != [] ==>
              var rest := r.(segments := left);
              && rest.Sound()
              && 0 <= tmpIndex
              && tmpIndex !in left
              && r.Insert(data, index) == rest.Store(tmpData, tmpIndex)
  {
    hide Before;
    hide After;
    if !Enclosed(r.segments, index, index + |data|) {
      FreshStart(r, data, index);
    }
  }

  /** A block is stored under a key that is free. */
  lemma FreshStart(r: Reassembler, data: seq<byte>, index: nat)
    requires r.Sound() && data != []
    ensures r.Without(data, index).Sound()
    ensures 0 <= BlockStart(r.segments, index)
    ensures BlockStart(r.segments, index) !in r.Without(data, index).segments
  {
    var left := r.Without(data, index).segments;
    RestSound(r, data, index);
    BlockBounds(r.segments, data, index);
    var lo: nat := BlockStart(r.segments, index);
    BlockStores(r.segments, data, index, lo);
    assert lo in left <==> Covers(left, lo, lo);
  }
}
