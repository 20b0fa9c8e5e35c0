/** A whole update over the wire: the host frames ERASE_FLASH, the records of a hex file in batches,
    and READ_CRC; the device unstuffs the frames and handles them. */
module Update {
  import opened Crc16
  import opened Flash
  import opened Cbc
  import opened HostImage
  import opened Commands
  import opened Framing

  /** The device's receive buffer. */
  const DEVICE_BUFFER: nat := 1000

  function Frames(bodies: seq<seq<byte>>): seq<byte> {
    if bodies == [] then [] else Frame(bodies[0]) + Frames(bodies[1..])
  }

  predicate Fits(body: seq<byte>) {
    1 <= |body| && |body| + 2 < DEVICE_BUFFER
  }

  /** A receiver in step delivers a sequence of frames that fit, and stays in step. */
  lemma {:induction false} FramesDelivered(rx: Rx, bodies: seq<seq<byte>>)
    requires !rx.valid && !rx.escape && |rx.data| <= DEVICE_BUFFER
    requires forall k :: 0 <= k < |bodies| ==> Fits(bodies[k])
    ensures var (rx', out) := Deliver(rx, Frames(bodies), DEVICE_BUFFER); out == bodies && !rx'.valid && !rx'.escape
    decreases |bodies|
  {
    hide Frame, Deliver, Feed, Accepts, CrcBytes;
    if bodies == [] {
      NothingDelivered(rx);
    } else {
      DeliverChunks(rx, Frame(bodies[0]), Frames(bodies[1..]), DEVICE_BUFFER);
      FrameDelivered(rx, bodies[0], DEVICE_BUFFER);
      DeliverParts(rx, bodies[0], DEVICE_BUFFER);
      DeliverBounded(rx, Frame(bodies[0]), DEVICE_BUFFER);
      FramesDelivered(Deliver(rx, Frame(bodies[0]), DEVICE_BUFFER).0, bodies[1..]);
      assert bodies == [bodies[0]] + bodies[1..];
    }
  }

  lemma NothingDelivered(rx: Rx)
    requires !rx.valid
    ensures Deliver(rx, [], DEVICE_BUFFER) == (rx, [])
  {
  }

  /** The handler's view of a received body: the buffer beyond it holds the CRC and older bytes. */
  predicate Takes(l: Layout, body: seq<byte>, stale: seq<byte>) {
    |body| >= 1 && |stale| >= 17 && Wellformed(l, body + stale, |body| + 2)
  }

  function HandleBody(l: Layout, aes: Cipher, s: Boot, body: seq<byte>, stale: seq<byte>): (Boot, seq<byte>)
    requires Settled(l, s) && Takes(l, body, stale)
  {
    Handle(l, aes, s, body + stale, |body| + 2)
  }

  lemma HandleSettles(l: Layout, aes: Cipher, s: Boot, body: seq<byte>, stale: seq<byte>)
    requires Settled(l, s) && Takes(l, body, stale)
    ensures Settled(l, HandleBody(l, aes, s, body, stale).0)
  {
    StaysSettled(l, aes, s, Command(body + stale, |body| + 2));
  }

  /** The buffer contents beyond the bodies may be anything, for each body anew. */
  predicate TakesAll(l: Layout, bodies: seq<seq<byte>>, stale: seq<seq<byte>>) {
    |bodies| == |stale| && forall k :: 0 <= k < |bodies| ==> Takes(l, bodies[k], stale[k])
  }

  /** The state after the bodies, and the last response. */
  function Session(l: Layout, aes: Cipher, s: Boot, bodies: seq<seq<byte>>, stale: seq<seq<byte>>): (r: (Boot, seq<byte>))
    requires Settled(l, s) && TakesAll(l, bodies, stale)
    ensures Settled(l, r.0)
    decreases |bodies|
  {
    if bodies == [] then (s, [])
    else
      HandleSettles(l, aes, s, bodies[0], stale[0]);
      var (s', response) := HandleBody(l, aes, s, bodies[0], stale[0]);
      if |bodies| == 1 then (s', response) else Session(l, aes, s', bodies[1..], stale[1..])
  }

  lemma {:induction false} SessionConcat(l: Layout, aes: Cipher, s: Boot, a: seq<seq<byte>>, b: seq<seq<byte>>,
                                         staleA: seq<seq<byte>>, staleB: seq<seq<byte>>)
    requires Settled(l, s) && b != [] && TakesAll(l, a, staleA) && TakesAll(l, b, staleB)
    ensures TakesAll(l, a + b, staleA + staleB)
    ensures Session(l, aes, s, a + b, staleA + staleB)
         == Session(l, aes, Session(l, aes, s, a, staleA).0, b, staleB)
    decreases |a|
  {
    hide HandleBody, Takes, Layout.Valid;
    if a == [] {
      assert a + b == b && staleA + staleB == staleB;
    } else {
      assert (a + b)[1..] == a[1..] + b && (a + b)[0] == a[0];
      assert (staleA + staleB)[1..] == staleA[1..] + staleB && (staleA + staleB)[0] == staleA[0];
      HandleSettles(l, aes, s, a[0], staleA[0]);
      var s' := HandleBody(l, aes, s, a[0], staleA[0]).0;
      SessionConcat(l, aes, s', a[1..], b, staleA[1..], staleB);
    }
  }

  function ProgramBody(batch: seq<seq<byte>>): seq<byte> {
    [PROGRAM_FLASH] + Join(batch)
  }

  function ProgramBodies(batches: seq<seq<seq<byte>>>): seq<seq<byte>> {
    if batches == [] then [] else [ProgramBody(batches[0])] + ProgramBodies(batches[1..])
  }

  function Records(batches: seq<seq<seq<byte>>>): seq<seq<byte>> {
    if batches == [] then [] else batches[0] + Records(batches[1..])
  }

  lemma ProgramBatch(l: Layout, aes: Cipher, s: Boot, batch: seq<seq<byte>>, stale: seq<byte>)
    requires Settled(l, s) && |stale| >= 17 && forall k :: 0 <= k < |batch| ==> Complete(batch[k])
    ensures Takes(l, ProgramBody(batch), stale)
    ensures HandleBody(l, aes, s, ProgramBody(batch), stale).0 == s.(img := ApplyAll(l, s.img, batch))
  {
    hide Complete, ApplyAll, Layout.Valid, Split, Framed, Number;
    var body := ProgramBody(batch);
    SplitJoin(batch);
    assert (body + stale)[1..|body|] == Join(batch);
  }

  /** Programming the records in batches, in any grouping, is programming them one after the other. */
  lemma {:induction false} ProgramPhase(l: Layout, aes: Cipher, s: Boot, batches: seq<seq<seq<byte>>>, stale: seq<seq<byte>>)
    requires Settled(l, s) && |stale| == |batches| && forall k :: 0 <= k < |stale| ==> |stale[k]| >= 17
    requires forall k :: 0 <= k < |Records(batches)| ==> Complete(Records(batches)[k])
    ensures TakesAll(l, ProgramBodies(batches), stale)
    ensures Session(l, aes, s, ProgramBodies(batches), stale).0 == s.(img := ApplyAll(l, s.img, Records(batches)))
    decreases |batches|
  {
    hide Complete, Takes, HandleBody, Layout.Valid, ProgramBody, ApplyRecord;
    if batches != [] {
      var batch, rest := batches[0], batches[1..];
      assert Records(batches) == batch + Records(rest);
      BatchComplete(batch, Records(rest));
      ProgramBatch(l, aes, s, batch, stale[0]);
      HandleSettles(l, aes, s, ProgramBody(batch), stale[0]);
      var s' := s.(img := ApplyAll(l, s.img, batch));
      ProgramPhase(l, aes, s', rest, stale[1..]);
      ApplyAllConcat(l, s.img, batch, Records(rest));
      assert ProgramBodies(batches)[1..] == ProgramBodies(rest);
    }
  }

  lemma BatchComplete(batch: seq<seq<byte>>, rest: seq<seq<byte>>)
    requires forall k :: 0 <= k < |batch + rest| ==> Complete((batch + rest)[k])
    ensures forall k :: 0 <= k < |batch| ==> Complete(batch[k])
    ensures forall k :: 0 <= k < |rest| ==> Complete(rest[k])
  {
    forall k | 0 <= k < |batch| ensures Complete(batch[k]) {
      assert (batch + rest)[k] == batch[k];
    }
    forall k | 0 <= k < |rest| ensures Complete(rest[k]) {
      assert (batch + rest)[|batch| + k] == rest[k];
    }
  }

  // ---------------------------------------------------------------- the final query

  /** The eight bytes of a range: address and length, least significant bytes first. */
  predicate Names(range: seq<byte>, start: nat, len: nat) {
    start < WORD32 && len < WORD32 && range == LittleEndian(start) + LittleEndian(len)
  }

  /** The READ_CRC body of the host: range and CRC of its image. The device does not look at the CRC. */
  function CrcQuery(range: seq<byte>, crc: seq<byte>): seq<byte> {
    [READ_CRC] + range + crc
  }

  lemma QueryHandled(l: Layout, aes: Cipher, s: Boot, start: nat, len: nat, range: seq<byte>, crc: seq<byte>, stale: seq<byte>)
    requires Settled(l, s) && |stale| >= 17 && Names(range, start, len)
    requires l.base <= start && start + len <= l.base + l.size && |crc| == 2
    ensures var body := CrcQuery(range, crc);
            Takes(l, body, stale) && HandleBody(l, aes, s, body, stale) == AfterReadCrc(l, aes, s, start, len)
  {
    hide AfterReadCrc, Layout.Valid, Number, LittleEndian;
    var data := CrcQuery(range, crc) + stale;
    assert data == [READ_CRC] + LittleEndian(start) + (LittleEndian(len) + crc + stale);
    NumberRead([READ_CRC], start, LittleEndian(len) + crc + stale);
    assert data == ([READ_CRC] + LittleEndian(start)) + LittleEndian(len) + (crc + stale);
    NumberRead([READ_CRC] + LittleEndian(start), len, crc + stale);
  }

  lemma EraseHandled(l: Layout, aes: Cipher, s: Boot, stale: seq<byte>)
    requires Settled(l, s) && |stale| >= 17
    ensures Takes(l, [ERASE_FLASH], stale)
    ensures HandleBody(l, aes, s, [ERASE_FLASH], stale)
         == (s.(img := s.img.(flash := Erased(l, s.img.flash)), sig := s.sig.(contextKey := s.sig.key, stream := [])), [ERASE_FLASH])
  {
    hide Erased, Layout.Valid;
  }

  function UpdateBodies(batches: seq<seq<seq<byte>>>, range: seq<byte>, crc: seq<byte>): seq<seq<byte>> {
    [[ERASE_FLASH]] + ProgramBodies(batches) + [CrcQuery(range, crc)]
  }

  lemma {:induction false} UpdateFits(batches: seq<seq<seq<byte>>>)
    requires forall k :: 0 <= k < |batches| ==> Fits(ProgramBody(batches[k]))
    ensures forall k :: 0 <= k < |ProgramBodies(batches)| ==> Fits(ProgramBodies(batches)[k])
  {
    hide ProgramBody, Fits;
    if batches != [] {
      UpdateFits(batches[1..]);
    }
  }

  lemma StaleParts(stale: seq<seq<byte>>)
    requires |stale| >= 2
    ensures var n := |stale| - 1;
            && stale[..1] == [stale[0]] && stale[n..] == [stale[n]] && stale == stale[..1] + (stale[1..n] + stale[n..])
  {
  }

  lemma OneBody(l: Layout, aes: Cipher, s: Boot, body: seq<byte>, stale: seq<byte>)
    requires Settled(l, s) && Takes(l, body, stale)
    ensures TakesAll(l, [body], [stale]) && Session(l, aes, s, [body], [stale]) == HandleBody(l, aes, s, body, stale)
  {
    hide HandleBody, Takes, Layout.Valid;
  }

  /** ERASE_FLASH, the records and the query, handled one after the other. */
  lemma UpdateHandled(l: Layout, aes: Cipher, s: Boot, batches: seq<seq<seq<byte>>>, start: nat, len: nat,
                      range: seq<byte>, crc: seq<byte>, stale: seq<seq<byte>>)
    requires Settled(l, s) && Names(range, start, len) && |crc| == 2
    requires |stale| == |batches| + 2 && forall k :: 0 <= k < |stale| ==> |stale[k]| >= 17
    requires forall k :: 0 <= k < |Records(batches)| ==> Complete(Records(batches)[k])
    requires l.base <= start && start + len <= l.base + l.size
    ensures TakesAll(l, UpdateBodies(batches, range, crc), stale)
    ensures var sig := s.sig.(contextKey := s.sig.key, stream := []);
            var img := ApplyAll(l, s.img.(flash := Erased(l, s.img.flash)), Records(batches));
            Session(l, aes, s, UpdateBodies(batches, range, crc), stale)
              == AfterReadCrc(l, aes, Boot(img, sig, s.runApp), start, len)
  {
    hide HandleBody, Takes, TakesAll, Session, Layout.Valid, Complete, ApplyAll, Erased, AfterReadCrc, CrcQuery, Number,
         ProgramBodies, Records, Names;
    var n := |batches|;
    var query, first := CrcQuery(range, crc), [[ERASE_FLASH]];
    EraseHandled(l, aes, s, stale[0]);
    HandleSettles(l, aes, s, [ERASE_FLASH], stale[0]);
    var s1 := HandleBody(l, aes, s, [ERASE_FLASH], stale[0]).0;
    ProgramPhase(l, aes, s1, batches, stale[1..n + 1]);
    var s2 := Session(l, aes, s1, ProgramBodies(batches), stale[1..n + 1]).0;
    QueryHandled(l, aes, s2, start, len, range, crc, stale[n + 1]);
    OneBody(l, aes, s2, query, stale[n + 1]);
    StaleParts(stale);
    SessionConcat(l, aes, s1, ProgramBodies(batches), [query], stale[1..n + 1], stale[n + 1..]);
    OneBody(l, aes, s, [ERASE_FLASH], stale[0]);
    SessionConcat(l, aes, s, first, ProgramBodies(batches) + [query], stale[..1], stale[1..n + 1] + stale[n + 1..]);
    assert UpdateBodies(batches, range, crc) == first + (ProgramBodies(batches) + [query]);
  }

  /** The answer to READ_CRC after an update that left `view` to be read. */
  lemma QueryAnswered(l: Layout, aes: Cipher, s: Boot, start: nat, len: nat, image: seq<byte>)
    requires Settled(l, s) && s.sig.stream == [] && l.base <= start && start + len <= l.base + l.size
    requires View(l, s.img.flash, start, len) == image
    ensures var (s', response) := AfterReadCrc(l, aes, s, start, len);
            if s.sig.signature == Mac(aes, s.sig.contextKey, Padded(image))
            then response == [READ_CRC] + CrcBytes(image) && s'.img == s.img
            else response == [READ_CRC, 0xC0, 0xEE] && s'.img.flash == Erased(l, s.img.flash)
  {
    hide View, Mac, Padded, Erased, Layout.Valid, CrcBytes;
    assert [] + image == image;
  }

  /** The range that the host reports for a sequence of records. */
  ghost predicate Reports(l: Layout, seg: nat, lin: nat, recs: seq<seq<byte>>, start: nat, len: nat, image: seq<byte>) {
    && (forall k :: 0 <= k < |recs| ==> Complete(recs[k])) && CopiesFit(l, HostStart(seg, lin), recs)
    && var h := HostAll(l, HostStart(seg, lin), recs);
    && h.max != 0 && h.max != l.appEnd && start == ReportStart(h) && len == ReportLength(h)
    && l.base <= start && start - l.base + len <= |h.image|
    && image == h.image[start - l.base..start - l.base + len]
  }

  lemma ReportAgrees(l: Layout, flash: seq<byte>, dSeg: nat, dLin: nat, hSeg: nat, hLin: nat, recs: seq<seq<byte>>,
                     start: nat, len: nat, image: seq<byte>)
    requires l.Valid() && |flash| == l.size <= VIRTUAL
    requires recs != [] && WellFormed(l, hSeg, hLin, {}, recs) && !Decode(recs[0]).DataAt?
    requires Reports(l, hSeg, hLin, recs, start, len, image)
    ensures start + len <= l.base + l.size
    ensures View(l, ApplyAll(l, Image(Erased(l, flash), dSeg, dLin), recs).flash, start, len) == image
  {
    hide Layout.Valid, Complete, ApplyAll, Erased, View, Decode, WellFormed, HostAll, CopiesFit, Blank;
    ImagesAgree(l, flash, dSeg, dLin, hSeg, hLin, recs);
    LayoutWords(l);
  }

  /** End to end, for in-order delivery: the host's frames for a well-formed hex file reach the handler
      exactly, and the device answers READ_CRC with the CRC that the host computed on its own image if
      the stored signature is the CBC-MAC of that image, and otherwise refuses and erases the application. */
  lemma UpdateAgrees(l: Layout, aes: Cipher, s: Boot, rx: Rx, batches: seq<seq<seq<byte>>>, hSeg: nat, hLin: nat,
                     stale: seq<seq<byte>>, start: nat, len: nat, image: seq<byte>, range: seq<byte>)
    requires Settled(l, s) && l.size <= VIRTUAL && !rx.valid && !rx.escape && |rx.data| <= DEVICE_BUFFER
    requires |stale| == |batches| + 2 && forall k :: 0 <= k < |stale| ==> |stale[k]| >= 17
    requires forall k :: 0 <= k < |batches| ==> Fits(ProgramBody(batches[k]))
    requires var recs := Records(batches); recs != [] && WellFormed(l, hSeg, hLin, {}, recs) && !Decode(recs[0]).DataAt?
    requires Reports(l, hSeg, hLin, Records(batches), start, len, image) && Names(range, start, len)
    ensures var bodies := UpdateBodies(batches, range, CrcBytes(image));
            var programmed := ApplyAll(l, s.img.(flash := Erased(l, s.img.flash)), Records(batches));
            && Deliver(rx, Frames(bodies), DEVICE_BUFFER).1 == bodies
            && TakesAll(l, bodies, stale)
            && var (s', response) := Session(l, aes, s, bodies, stale);
            if s.sig.signature == Mac(aes, s.sig.key, Padded(image))
            then response == [READ_CRC] + CrcBytes(image) && s'.img == programmed
            else response == [READ_CRC, 0xC0, 0xEE] && s'.img.flash == Erased(l, programmed.flash)
  {
    hide Layout.Valid, ApplyAll, Erased, View, Mac, Padded, Decode, WellFormed, Session, UpdateBodies, Deliver,
         CrcBytes, Frames, HostAll, CopiesFit, Records, Fits, ProgramBody, TakesAll, AfterReadCrc, ReportStart, ReportLength, Number;
    var recs := Records(batches);
    ReportAgrees(l, s.img.flash, s.img.seg, s.img.lin, hSeg, hLin, recs, start, len, image);
    CrcBytesTwo(image);
    UpdateHandled(l, aes, s, batches, start, len, range, CrcBytes(image), stale);
    var img := ApplyAll(l, s.img.(flash := Erased(l, s.img.flash)), recs);
    QueryAnswered(l, aes, Boot(img, s.sig.(contextKey := s.sig.key, stream := []), s.runApp), start, len, image);
    UpdateDelivered(rx, batches, range, CrcBytes(image));
  }

  lemma CrcBytesTwo(body: seq<byte>)
    ensures |CrcBytes(body)| == 2
  {
  }

  lemma UpdateDelivered(rx: Rx, batches: seq<seq<seq<byte>>>, range: seq<byte>, crc: seq<byte>)
    requires !rx.valid && !rx.escape && |rx.data| <= DEVICE_BUFFER
    requires |range| == 8 && |crc| == 2
    requires forall k :: 0 <= k < |batches| ==> Fits(ProgramBody(batches[k]))
    ensures var bodies := UpdateBodies(batches, range, crc);
            Deliver(rx, Frames(bodies), DEVICE_BUFFER).1 == bodies
  {
    hide Deliver, Frames, ProgramBodies;
    UpdateFits(batches);
    FramesDelivered(rx, UpdateBodies(batches, range, crc));
  }
}
