/** The device's text reader for the memory card, which works on chunks of a hex file and carries a split
    record over: it leaves the same image as the records themselves. */
module Ingest {
  import opened Crc16
  import opened Flash
  import opened HexText
  import opened Cbc

  // ---------------------------------------------------------------- records in a stream of text

  /** Between records, or inside one whose characters so far, from the colon on, are `rec`. */
  datatype Found = Outside | Inside(rec: seq<byte>)

  predicate EndsRecord(b: byte) {
    b == LF || b == 0xFF
  }

  /** A line of text that the device can convert and write: at most 200 digits, that make whole records. */
  predicate Fine(line: seq<byte>) {
    Run(line) <= 200 && Framed(Convert(line))
  }

  /** The record after one more character. */
  function Next(s: Found, b: byte): Found {
    match s
    case Outside => if b == COLON then Inside([b]) else Outside
    case Inside(rec) => if EndsRecord(b) then Outside else Inside(rec + [b])
  }

  predicate Takeable(s: Found, b: byte) {
    s.Inside? ==> s.rec != [] && (EndsRecord(b) ==> Fine(s.rec[1..] + [b]))
  }

  /** What one character does: at the end of a record, it is written. */
  function Take(l: Layout, s: Found, img: Image, b: byte): (img': Image)
    requires l.Valid() && |img.flash| == l.size && Takeable(s, b)
    ensures |img'.flash| == l.size
  {
    if s.Inside? && EndsRecord(b) then WriteLine(l, img, s.rec[1..] + [b]) else img
  }

  /** Every record can be written, and is at most 256 characters long with its end of line. */
  predicate Loadable(s: Found, text: seq<byte>)
    decreases |text|
  {
    text == [] ||
    (Takeable(s, text[0]) && (Next(s, text[0]).Inside? ==> |Next(s, text[0]).rec| <= 255) && Loadable(Next(s, text[0]), text[1..]))
  }

  /** Reading the text at once. */
  function Load(l: Layout, s: Found, img: Image, text: seq<byte>): (r: (Found, Image))
    requires l.Valid() && |img.flash| == l.size && Loadable(s, text)
    ensures |r.1.flash| == l.size
    decreases |text|
  {
    if text == [] then (s, img) else Load(l, Next(s, text[0]), Take(l, s, img, text[0]), text[1..])
  }

  /** What may be carried over to the next chunk. */
  ghost predicate Carried(s: Found) {
    s.Inside? ==> 1 <= |s.rec| <= 255 && s.rec[0] == COLON && forall k :: 0 <= k < |s.rec| ==> !EndsRecord(s.rec[k])
  }

  /** Reading text in parts is reading it at once. */
  lemma {:induction false} LoadConcat(l: Layout, s: Found, img: Image, a: seq<byte>, b: seq<byte>)
    requires l.Valid() && |img.flash| == l.size
    ensures Loadable(s, a + b) <==> Loadable(s, a) && Loadable(Load(l, s, img, a).0, b)
    ensures Loadable(s, a + b) ==> Load(l, s, img, a + b) == Load(l, Load(l, s, img, a).0, Load(l, s, img, a).1, b)
    decreases |a|
  {
    hide Take, Takeable, Next, Layout.Valid;
    if a == [] {
      assert a + b == b;
    } else {
      assert (a + b)[1..] == a[1..] + b && (a + b)[0] == a[0];
      if Takeable(s, a[0]) {
        LoadConcat(l, Next(s, a[0]), Take(l, s, img, a[0]), a[1..], b);
      }
    }
  }

  /** Between records, text without a colon does nothing. */
  lemma {:induction false} JunkIgnored(l: Layout, img: Image, junk: seq<byte>, rest: seq<byte>)
    requires l.Valid() && |img.flash| == l.size && COLON !in junk
    ensures Loadable(Outside, junk + rest) <==> Loadable(Outside, rest)
    ensures Loadable(Outside, rest) ==> Load(l, Outside, img, junk + rest) == Load(l, Outside, img, rest)
    decreases |junk|
  {
    hide Layout.Valid, Fine;
    if junk == [] {
      assert junk + rest == rest;
    } else {
      assert (junk + rest)[1..] == junk[1..] + rest && (junk + rest)[0] == junk[0];
      JunkIgnored(l, img, junk[1..], rest);
    }
  }

  /** What is left of a record at the end of a chunk can be carried over. */
  lemma {:induction false} LoadEnds(l: Layout, s: Found, img: Image, text: seq<byte>)
    requires l.Valid() && |img.flash| == l.size && Loadable(s, text) && Carried(s)
    ensures Carried(Load(l, s, img, text).0)
    decreases |text|
  {
    hide Take, Takeable, Layout.Valid;
    if text != [] {
      LoadEnds(l, Next(s, text[0]), Take(l, s, img, text[0]), text[1..]);
    }
  }

  /** Text without an end of record only makes the record longer. */
  lemma {:induction false} LoadOpen(l: Layout, rec: seq<byte>, img: Image, more: seq<byte>)
    requires l.Valid() && |img.flash| == l.size && rec != [] && |rec| + |more| <= 255
    requires forall k :: 0 <= k < |more| ==> !EndsRecord(more[k])
    ensures Loadable(Inside(rec), more) && Load(l, Inside(rec), img, more) == (Inside(rec + more), img)
    decreases |more|
  {
    hide Layout.Valid;
    if more == [] {
      assert rec + more == rec;
    } else {
      LoadOpen(l, rec + [more[0]], img, more[1..]);
      assert rec + [more[0]] + more[1..] == rec + more;
    }
  }

  /** Reading the carried-over characters again finds the record again. */
  lemma CarryFound(l: Layout, s: Found, img: Image, text: seq<byte>)
    requires l.Valid() && |img.flash| == l.size && Carried(s) && Loadable(s, text)
    ensures var data := (if s.Inside? then s.rec else []) + text;
            Loadable(Outside, data) && Load(l, Outside, img, data) == Load(l, s, img, text)
  {
    hide Layout.Valid, HexText.Run, Framed, Convert, WriteLine;
    if s.Inside? {
      LoadOpen(l, s.rec[..1], img, s.rec[1..]);
      assert s.rec == s.rec[..1] + s.rec[1..] && s.rec[..1] == [COLON];
      assert Loadable(Outside, s.rec) && Load(l, Outside, img, s.rec) == (s, img);
      LoadConcat(l, Outside, img, s.rec, text);
    } else {
      assert [] + text == text;
    }
  }

  lemma CarriedSize(s: Found)
    requires Carried(s)
    ensures s.Inside? ==> 1 <= |s.rec| <= 255
  {
  }

  // ---------------------------------------------------------------- the memory card

  datatype Status = Flashed | NotFound | FoundNotFlashed

  const READING := 3
  const CHECKING := 4
  const IDLE := 99

  /** HandleCommand_SDCARD from the moment the flash is erased and the signature is loaded. */
  class SdLoader {
    const l: Layout
    const dev: Device
    const sig: SignatureCheck
    const asciiBuffer: array<byte>
    const hexRec: array<byte>
    var state: nat
    var pointer: nat
    /** framework_record: the index of its first character, its length (a UINT8) and its status. */
    var start: nat
    var len: nat
    var status: Status

    constructor (dev: Device, sig: SignatureCheck)
      requires dev.Valid() && sig.Valid() && dev.flash != sig.buffer
      ensures Valid() && this.dev == dev && this.sig == sig && this.l == dev.l
      ensures state == READING && Carry() == Outside && fresh(asciiBuffer) && fresh(hexRec)
    {
      this.l, this.dev, this.sig := dev.l, dev, sig;
      asciiBuffer := new byte[1024](_ => 0);
      hexRec := new byte[100](_ => 0);
      state, pointer, start, len, status := READING, 0, 0, 0, NotFound;
    }

    ghost predicate Shape()
      reads this
    {
      && asciiBuffer.Length == 1024 && hexRec.Length == 100
      && dev.Valid() && dev.l == l && sig.buffer != dev.flash
      && asciiBuffer != hexRec && asciiBuffer != dev.flash && hexRec != dev.flash
      && asciiBuffer != sig.buffer && hexRec != sig.buffer
    }

    ghost predicate Valid()
      reads this, sig, sig.buffer, asciiBuffer
    {
      Shape() && sig.Valid() && pointer <= 255 && status != FoundNotFlashed && Carried(Carry())
    }

    /** The record carried over from the chunks so far. */
    ghost function Carry(): Found
      reads this, asciiBuffer
    {
      if 0 < pointer <= asciiBuffer.Length then Inside(asciiBuffer[..pointer]) else Outside
    }

    /** State 3: `chunk` is what FSfread returned. */
    method ReadStep(chunk: seq<byte>)
      requires Valid() && |chunk| <= 512 && Loadable(Carry(), chunk)
      modifies this, asciiBuffer, hexRec, dev, dev.flash, sig, sig.buffer
      ensures Valid() && state == if chunk == [] then CHECKING else old(state)
      ensures (Carry(), dev.Img()) == Load(l, old(Carry()), old(dev.Img()), chunk)
      ensures sig.stream == old(sig.stream) + chunk
      ensures sig.contextKey == old(sig.contextKey) && sig.signature == old(sig.signature) && sig.key == old(sig.key)
    {
      hide Layout.Valid, Chained, Load, Loadable, Carried, Current, InStep;
      ghost var carry := Carry();
      SizeOfCarry();
      CarryFound(l, carry, dev.Img(), chunk);
      ghost var data := (if carry.Inside? then carry.rec else []) + chunk;
      LoadEnds(l, carry, dev.Img(), chunk);
      Fetch(chunk);
      if chunk == [] {
        state := CHECKING;
      }
      SignChunk(chunk);
      assert dev.Img() == old(dev.Img()) && asciiBuffer[..pointer + |chunk|] == data;
      SplitRecords(pointer + |chunk|);
      assert Carried(Current(pointer + |chunk|));
      CarryOver(pointer + |chunk|);
    }

    lemma SizeOfCarry()
      requires pointer <= 255 && asciiBuffer.Length == 1024
      ensures Carry().Inside? ==> |Carry().rec| == pointer
      ensures Carry().Outside? ==> pointer == 0
    {
    }

    method Fetch(chunk: seq<byte>)
      requires pointer + |chunk| <= asciiBuffer.Length
      modifies asciiBuffer
      ensures asciiBuffer[..pointer + |chunk|] == (if old(Carry()).Inside? then old(Carry()).rec else []) + chunk
      ensures asciiBuffer[pointer..pointer + |chunk|] == chunk
    {
      for k := 0 to |chunk|
        invariant forall j :: 0 <= j < pointer ==> asciiBuffer[j] == old(asciiBuffer[j])
        invariant forall j :: 0 <= j < k ==> asciiBuffer[pointer + j] == chunk[j]
      {
        asciiBuffer[pointer + k] := chunk[k];
      }
    }

    method SignChunk(chunk: seq<byte>)
      requires Shape() && sig.Valid() && pointer + |chunk| <= 1024
      requires asciiBuffer[pointer..pointer + |chunk|] == chunk
      modifies sig, sig.buffer
      ensures sig.Valid() && sig.stream == old(sig.stream) + chunk
      ensures sig.contextKey == old(sig.contextKey) && sig.signature == old(sig.signature) && sig.key == old(sig.key)
    {
      hide Layout.Valid, Chained;
      for k := 0 to |chunk|
        invariant sig.Valid() && sig.stream == old(sig.stream) + chunk[..k]
        invariant sig.contextKey == old(sig.contextKey) && sig.signature == old(sig.signature) && sig.key == old(sig.key)
      {
        assert asciiBuffer[pointer + k] == asciiBuffer[pointer..pointer + |chunk|][k];
        assert chunk[..k + 1] == chunk[..k] + [chunk[k]];
        sig.Add(asciiBuffer[pointer + k]);
      }
      assert chunk[..|chunk|] == chunk;
    }

    /** The splitting loop over the first n characters of the buffer. */
    method SplitRecords(n: nat)
      requires Shape() && n <= 1023 && status != FoundNotFlashed && Loadable(Outside, asciiBuffer[..n])
      modifies this`start, this`len, this`status, asciiBuffer, hexRec, dev, dev.flash
      ensures Shape() && (Current(n), dev.Img()) == Load(l, Outside, old(dev.Img()), old(asciiBuffer[..n]))
      ensures InStep(n)
    {
      hide Layout.Valid, Loadable, Load, Take, Takeable, Current, Next;
      ghost var data := asciiBuffer[..n];
      ghost var goal := Load(l, Outside, dev.Img(), data);
      NoneFound();
      assert data[0..] == data;
      for i := 0 to n
        invariant Shape() && InStep(i)
        invariant forall k :: i <= k < n ==> asciiBuffer[k] == data[k]
        invariant Loadable(Current(i), data[i..]) && Load(l, Current(i), dev.Img(), data[i..]) == goal
      {
        assert data[i..][0] == data[i] && data[i..][1..] == data[i + 1..];
        LoadStep(l, Current(i), dev.Img(), data[i..]);
        TakeCharacter(i);
      }
      LoadNothing(l, Current(n), dev.Img());
      assert data[n..] == [];
    }

    /** What the record of the first i characters is. */
    ghost function Current(i: nat): Found
      reads this, asciiBuffer
    {
      if status == FoundNotFlashed && start < i <= asciiBuffer.Length then Inside(asciiBuffer[start..i]) else Outside
    }

    lemma NoneFound()
      requires status != FoundNotFlashed
      ensures Current(0) == Outside
    {
    }

    /** The length of a found record, as far as a UINT8 can hold it. */
    ghost predicate InStep(i: nat)
      reads this
    {
      status == FoundNotFlashed ==> start < i && len == (i - start) % 256
    }

    /** The body of the splitting loop. */
    method TakeCharacter(i: nat)
      requires Shape() && i < 1023 && InStep(i) && Takeable(Current(i), asciiBuffer[i])
      modifies this`start, this`len, this`status, asciiBuffer, hexRec, dev, dev.flash
      ensures Shape() && InStep(i + 1)
      ensures Current(i + 1) == Next(old(Current(i)), old(asciiBuffer[i]))
      ensures dev.Img() == Take(l, old(Current(i)), old(dev.Img()), old(asciiBuffer[i]))
      ensures forall k :: i < k < 1024 ==> asciiBuffer[k] == old(asciiBuffer[k])
    {
      hide Layout.Valid, Fine, WriteLine, Carried;
      ghost var b, cur := asciiBuffer[i], Current(i);
      Longer(i);
      match status {
        case Flashed | NotFound =>
          if asciiBuffer[i] == COLON {
            start, len, status := i, 0, FoundNotFlashed;
          }
        case FoundNotFlashed =>
          OneMore(len, i - start);
          if asciiBuffer[i] == LF || asciiBuffer[i] == 0xFF {
            WriteFound(i);
            status := Flashed;
          }
      }
      len := (len + 1) % 256;
    }

    /** The record found so far, and with one more character. */
    lemma Longer(i: nat)
      requires Shape() && i < 1023
      ensures asciiBuffer[i..i + 1] == [asciiBuffer[i]]
      ensures start < i ==> asciiBuffer[start..i + 1] == asciiBuffer[start..i] + [asciiBuffer[i]]
      ensures start < i ==> asciiBuffer[start + 1..i + 1] == asciiBuffer[start..i][1..] + [asciiBuffer[i]]
    {
    }

    method WriteFound(i: nat)
      requires Shape() && start < i < 1023 && EndsRecord(asciiBuffer[i]) && Fine(asciiBuffer[start + 1..i + 1])
      modifies asciiBuffer, hexRec, dev, dev.flash
      ensures forall k :: i <= k < 1024 ==> asciiBuffer[k] == old(asciiBuffer[k])
      ensures dev.Img() == WriteLine(l, old(dev.Img()), old(asciiBuffer[start + 1..i + 1]))
    {
      hide Layout.Valid, Run, ApplyAll, Convert, Framed, IsHex;
      NoDigit(asciiBuffer[i]);
      SplitAfter(asciiBuffer[..], start + 1, i + 1);
      RunPrefix(asciiBuffer[start + 1..i + 1], asciiBuffer[i + 1..]);
      assert asciiBuffer[start + 1..i + 1][i - start - 1] == asciiBuffer[i];
      var hexRecLen := ConvertAsciiToHex(asciiBuffer, start + 1, hexRec);
      dev.WriteHexRecord2Flash(hexRec[..hexRecLen]);
    }

    lemma SplitAfter(s: seq<byte>, i: nat, j: nat)
      requires i <= j <= asciiBuffer.Length && s == asciiBuffer[..]
      ensures asciiBuffer[i..] == asciiBuffer[i..j] + asciiBuffer[j..]
    {
    }

    /** The end of state 3: a split record goes to the front of the buffer. */
    method CarryOver(n: nat)
      requires Shape() && n <= 1023 && Carried(Current(n)) && InStep(n)
      modifies this`pointer, this`status, asciiBuffer
      ensures Shape() && pointer <= 255 && status != FoundNotFlashed && Carry() == old(Current(n))
    {
      hide Carried;
      if status == FoundNotFlashed {
        CarriedSize(Current(n));
        assert Current(n) == Inside(asciiBuffer[start..n]) && len == n - start;
        for k := 0 to len
          invariant forall j :: 0 <= j < k ==> asciiBuffer[j] == old(asciiBuffer[start + j])
          invariant forall j :: k <= j < 1024 ==> asciiBuffer[j] == old(asciiBuffer[j])
        {
          asciiBuffer[k] := asciiBuffer[start + k];
        }
        pointer := len;
        status := NotFound;
        assert asciiBuffer[..pointer] == old(asciiBuffer[start..n]);
      } else {
        pointer := 0;
      }
    }

    /** State 4: the application stays, or is erased. The state stays 4 in the second case. */
    method CheckStep()
      requires Valid() && state == CHECKING
      modifies this`state, dev.flash, sig, sig.buffer
      ensures Valid() && Carry() == old(Carry())
      ensures var accepted := old(sig.signature) == Mac(sig.aes, old(sig.contextKey), Padded(old(sig.stream)));
              && state == (if accepted then IDLE else CHECKING)
              && dev.Img() == if accepted then old(dev.Img()) else old(dev.Img()).(flash := Erased(l, old(dev.flash[..])))
    {
      hide Layout.Valid, Chained, Erased;
      var ok := sig.Check();
      if ok {
        state := IDLE;
      } else {
        dev.EraseFlash();
        sig.Reset();
      }
    }

    /** The calls of HandleCommand_SDCARD that read a whole file, for any chunks that FSfread returns,
        the empty one that ends it, and the check. */
    method LoadFile(chunks: seq<seq<byte>>)
      requires Valid() && state == READING && Carry() == Outside && sig.stream == []
      requires forall k :: 0 <= k < |chunks| ==> 1 <= |chunks[k]| <= 512
      requires Loadable(Outside, Flat(chunks))
      modifies this, asciiBuffer, hexRec, dev, dev.flash, sig, sig.buffer
      ensures Valid()
      ensures var img := Load(l, Outside, old(dev.Img()), Flat(chunks)).1;
              if old(sig.signature) == Mac(sig.aes, old(sig.contextKey), Padded(Flat(chunks)))
              then state == IDLE && dev.Img() == img
              else state == CHECKING && dev.Img() == img.(flash := Erased(l, img.flash))
    {
      hide Layout.Valid, Chained, Load, Loadable, Mac, Padded, Erased;
      ghost var text, goal := Flat(chunks), Load(l, Outside, dev.Img(), Flat(chunks));
      assert chunks[0..] == chunks;
      for k := 0 to |chunks|
        invariant Valid() && state == READING
        invariant sig.contextKey == old(sig.contextKey) && sig.signature == old(sig.signature) && sig.key == old(sig.key)
        invariant sig.stream + Flat(chunks[k..]) == text
        invariant Loadable(Carry(), Flat(chunks[k..])) && Load(l, Carry(), dev.Img(), Flat(chunks[k..])) == goal
      {
        assert chunks[k..][0] == chunks[k] && chunks[k..][1..] == chunks[k + 1..];
        LoadConcat(l, Carry(), dev.Img(), chunks[k], Flat(chunks[k + 1..]));
        assert sig.stream + (chunks[k] + Flat(chunks[k + 1..])) == sig.stream + chunks[k] + Flat(chunks[k + 1..]);
        ReadStep(chunks[k]);
      }
      assert chunks[|chunks|..] == [] && sig.stream + [] == sig.stream;
      LoadNothing(l, Carry(), dev.Img());
      ReadStep([]);
      assert sig.stream == text;
      CheckStep();
    }
  }

  lemma OneMore(len: nat, d: nat)
    requires len == d % 256
    ensures (len + 1) % 256 == (d + 1) % 256
  {
  }

  lemma LoadNothing(l: Layout, s: Found, img: Image)
    requires l.Valid() && |img.flash| == l.size
    ensures Loadable(s, []) && Load(l, s, img, []) == (s, img)
  {
  }

  lemma LoadStep(l: Layout, s: Found, img: Image, text: seq<byte>)
    requires l.Valid() && |img.flash| == l.size && text != [] && Loadable(s, text)
    ensures Takeable(s, text[0]) && Loadable(Next(s, text[0]), text[1..])
    ensures Load(l, s, img, text) == Load(l, Next(s, text[0]), Take(l, s, img, text[0]), text[1..])
  {
    hide Layout.Valid, Take, Takeable, Next;
  }

  // ---------------------------------------------------------------- the text of a hex file

  lemma LineEnds(t: TextLine)
    requires GoodLine(t)
    ensures var more := t.digits + (if t.crlf then [CR] else []);
            && [COLON] + t.digits + LineEnd(t) == [COLON] + more + [LF]
            && (forall k :: 0 <= k < |more| ==> !EndsRecord(more[k]))
            && Run(more + [LF]) == |t.digits| && Convert(more + [LF]) == Pairs(t.digits)
  {
    var more := t.digits + (if t.crlf then [CR] else []);
    NoDigit(LF);
    NoDigit(CR);
    NoDigit(0xFF);
    hide IsHex, Pairs;
    forall k | 0 <= k < |more| ensures !EndsRecord(more[k]) {
      if k < |t.digits| {
        assert IsHex(t.digits[k]);
      }
    }
    LineConverted(t.digits, LineEnd(t));
    assert more + [LF] == t.digits + LineEnd(t);
  }

  lemma LoadLine(l: Layout, img: Image, t: TextLine)
    requires l.Valid() && |img.flash| == l.size && GoodLine(t)
    ensures var line := [COLON] + t.digits + LineEnd(t);
            Loadable(Outside, line) && Load(l, Outside, img, line) == (Outside, ApplyRecord(l, img, Pairs(t.digits)))
  {
    hide Layout.Valid, HexText.Run, Convert, Pairs, Complete, IsHex, ApplyRecord, ApplyAll, Framed;
    var more := t.digits + (if t.crlf then [CR] else []);
    LineEnds(t);
    OneRecord(l, img, Pairs(t.digits));
    LoadOpen(l, [COLON], img, more);
    var s := Inside([COLON] + more);
    assert ([COLON] + more)[1..] == more;
    LoadNothing(l, Outside, WriteLine(l, img, more + [LF]));
    assert Takeable(s, LF) && Next(s, LF) == Outside;
    assert [LF][1..] == [] && Loadable(s, [LF]) && Load(l, s, img, [LF]) == (Outside, WriteLine(l, img, more + [LF]));
    LoadConcat(l, Inside([COLON]), img, more, [LF]);
    assert ([COLON] + more + [LF])[1..] == more + [LF];
  }

  /** The text reader writes the records of the file, one after the other. */
  lemma {:induction false} LoadText(l: Layout, img: Image, lines: seq<TextLine>)
    requires l.Valid() && |img.flash| == l.size && GoodLines(lines)
    ensures Loadable(Outside, Text(lines)) && Load(l, Outside, img, Text(lines)) == (Outside, ApplyAll(l, img, Recs(lines)))
    decreases |lines|
  {
    hide Layout.Valid, Loadable, Load, Pairs, Complete, ApplyRecord, IsHex, LineEnd;
    if lines == [] {
      LoadNothing(l, Outside, img);
    } else {
      var line := [COLON] + lines[0].digits + LineEnd(lines[0]);
      var img' := ApplyRecord(l, img, Pairs(lines[0].digits));
      LoadLine(l, img, lines[0]);
      LoadText(l, img', lines[1..]);
      LoadConcat(l, Outside, img, line, Text(lines[1..]));
      RecsOfRest(l, img, lines);
    }
  }
}
