/** The range that the PC reports to the device: what a file writes, and no more than the rounding at its ends. */
module HostRange {
  import opened Crc16
  import opened Flash
  import opened HostImage

  /** A run of addresses, from the first up to the end. */
  datatype Span = Span(from: nat, to: nat)

  /** Where the data records of a file that the PC does not pass over lie, in the order of the file. */
  function Spans(l: Layout, seg: nat, lin: nat, recs: seq<seq<byte>>): seq<Span>
    requires forall k :: 0 <= k < |recs| ==> Complete(recs[k])
    decreases |recs|
  {
    if recs == [] then []
    else
      var rec := Decode(recs[0]);
      var (seg', lin') := Extended(seg, lin, rec);
      SpanOf(l, seg, lin, rec) + Spans(l, seg', lin', recs[1..])
  }

  function SpanOf(l: Layout, seg: nat, lin: nat, rec: Rec): seq<Span> {
    if rec.DataAt? && !Skipped(l, Start(seg, lin, rec.offset))
    then [Span(Start(seg, lin, rec.offset), Start(seg, lin, rec.offset) + |rec.data|)]
    else []
  }

  /** From `low` up to `high` all these runs are covered, and no less would do: where there is a run, one of
      them begins at `low` and one ends at `high`, unless these were the bounds before. */
  ghost predicate Bounds(low: nat, high: nat, low0: nat, high0: nat, spans: seq<Span>) {
    && low <= low0 && high0 <= high
    && (forall k :: 0 <= k < |spans| ==> low <= spans[k].from && spans[k].to <= high)
    && (low == low0 || exists k :: 0 <= k < |spans| && spans[k].from == low)
    && (high == high0 || exists k :: 0 <= k < |spans| && spans[k].to == high)
  }

  lemma BoundsFirst(low: nat, high: nat, low0: nat, high0: nat, low1: nat, high1: nat, first: seq<Span>, rest: seq<Span>)
    requires Bounds(low1, high1, low0, high0, first) && Bounds(low, high, low1, high1, rest)
    ensures Bounds(low, high, low0, high0, first + rest)
  {
    var all := first + rest;
    assert forall k :: 0 <= k < |first| ==> all[k] == first[k];
    assert forall k :: 0 <= k < |rest| ==> all[|first| + k] == rest[k];
    if low != low0 {
      if low == low1 {
        var k :| 0 <= k < |first| && first[k].from == low;
        assert all[k].from == low;
      } else {
        var k :| 0 <= k < |rest| && rest[k].from == low;
        assert all[|first| + k].from == low;
      }
    }
    if high != high0 {
      if high == high1 {
        var k :| 0 <= k < |first| && first[k].to == high;
        assert all[k].to == high;
      } else {
        var k :| 0 <= k < |rest| && rest[k].to == high;
        assert all[|first| + k].to == high;
      }
    }
  }

  lemma RecordBounds(l: Layout, h: Host, rec: Rec)
    requires CopyFits(l, h, rec)
    ensures var h' := HostRecord(l, h, rec);
            Bounds(h'.min, h'.max, h.min, h.max, SpanOf(l, h.seg, h.lin, rec)) && (h'.seg, h'.lin) == Extended(h.seg, h.lin, rec)
  {
    hide Skipped, Start, Overwritten;
    var spans := SpanOf(l, h.seg, h.lin, rec);
    if spans != [] {
      assert spans[0] == Span(Start(h.seg, h.lin, rec.offset), Start(h.seg, h.lin, rec.offset) + |rec.data|);
    }
  }

  /** The lowest and the highest address that the PC keeps are those of the records that it copies. */
  lemma {:induction false} AllBounds(l: Layout, h: Host, recs: seq<seq<byte>>)
    requires (forall k :: 0 <= k < |recs| ==> Complete(recs[k])) && CopiesFit(l, h, recs)
    ensures var h' := HostAll(l, h, recs); Bounds(h'.min, h'.max, h.min, h.max, Spans(l, h.seg, h.lin, recs))
    decreases |recs|
  {
    hide Bounds, SpanOf, CopyFits, HostRecord, Complete, Decode, Extended;
    if recs == [] {
      NoBounds(h.min, h.max);
    } else {
      var h1 := HostRecord(l, h, Decode(recs[0]));
      RecordBounds(l, h, Decode(recs[0]));
      AllBounds(l, h1, recs[1..]);
      var h' := HostAll(l, h, recs);
      BoundsFirst(h'.min, h'.max, h.min, h.max, h1.min, h1.max, SpanOf(l, h.seg, h.lin, Decode(recs[0])),
                  Spans(l, h1.seg, h1.lin, recs[1..]));
    }
  }

  lemma NoBounds(low: nat, high: nat)
    ensures Bounds(low, high, low, high, [])
  {
  }

  /** The run begins at a virtual address below the boot sector, and is no longer than a record. */
  predicate Low(span: Span) {
    KVA0 <= span.from < BOOT_SECTOR && span.from <= span.to <= span.from + 255
  }

  predicate AllLow(spans: seq<Span>) {
    forall k :: 0 <= k < |spans| ==> Low(spans[k])
  }

  lemma {:induction false} SpansSmall(l: Layout, seg: nat, lin: nat, recs: seq<seq<byte>>)
    requires forall k :: 0 <= k < |recs| ==> Complete(recs[k])
    ensures AllLow(Spans(l, seg, lin, recs))
    decreases |recs|
  {
    hide SpanOf, Complete, Decode, Extended;
    if recs != [] {
      var rec := Decode(recs[0]);
      DataSmall(recs[0]);
      SpanSmall(l, seg, lin, rec);
      var (seg', lin') := Extended(seg, lin, rec);
      SpansSmall(l, seg', lin', recs[1..]);
      LowConcat(SpanOf(l, seg, lin, rec), Spans(l, seg', lin', recs[1..]));
    }
  }

  lemma LowConcat(first: seq<Span>, rest: seq<Span>)
    requires AllLow(first) && AllLow(rest)
    ensures AllLow(first + rest)
  {
  }

  lemma DataSmall(r: seq<byte>)
    requires Complete(r)
    ensures Decode(r).DataAt? ==> |Decode(r).data| <= 255
  {
  }

  lemma SpanSmall(l: Layout, seg: nat, lin: nat, rec: Rec)
    requires rec.DataAt? ==> |rec.data| <= 255
    ensures AllLow(SpanOf(l, seg, lin, rec))
  {
    hide Layout.InKept;
  }

  /** For every file: nothing was written exactly if the upper bound is still 0. Otherwise the range that is
      reported begins at the lowest address written, rounded down to a word, and ends at the highest end,
      rounded as MaxRounding says; so every byte that was written lies in it. */
  lemma ReportCovers(l: Layout, seg: nat, lin: nat, recs: seq<seq<byte>>)
    requires (forall k :: 0 <= k < |recs| ==> Complete(recs[k])) && CopiesFit(l, HostStart(seg, lin), recs)
    ensures var h, spans := HostAll(l, HostStart(seg, lin), recs), Spans(l, seg, lin, recs);
            var start, end := ReportStart(h), ReportStart(h) + ReportLength(h);
            && (h.max == 0 <==> spans == [])
            && (spans != [] ==>
                  && (exists k :: 0 <= k < |spans| && start == spans[k].from - spans[k].from % 4)
                  && (exists k :: 0 <= k < |spans| && end == spans[k].to + spans[k].to % 4)
                  && (forall k :: 0 <= k < |spans| ==> start <= spans[k].from && spans[k].to <= end))
  {
    hide HostAll, Spans, Complete, CopiesFit;
    AllBounds(l, HostStart(seg, lin), recs);
    SpansSmall(l, seg, lin, recs);
    var h, spans := HostAll(l, HostStart(seg, lin), recs), Spans(l, seg, lin, recs);
    if spans != [] {
      assert h.min <= spans[0].from < NO_MIN && 0 < spans[0].to <= h.max;
      var i :| 0 <= i < |spans| && spans[i].from == h.min;
      var j :| 0 <= j < |spans| && spans[j].to == h.max;
      NoWrap(h, spans[j].from);
      assert ReportStart(h) == spans[i].from - spans[i].from % 4;
    }
  }

  /** The length that is reported does not wrap around. */
  lemma NoWrap(h: Host, p: nat)
    requires KVA0 <= h.min <= h.max <= p + 255 && p < BOOT_SECTOR
    ensures ReportStart(h) + ReportLength(h) == h.max + h.max % 4
  {
    assert ReportStart(h) <= h.max + h.max % 4 < WORD32;
  }
}
