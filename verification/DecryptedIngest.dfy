/** The device's path for an encrypted hex file: frames are decrypted block by block, and the decrypted
    characters are put together into lines that are converted and written. */
module DecryptedIngest {
  import opened Crc16
  import opened Flash
  import opened HexText
  import opened Cbc

  predicate EndsLine(b: byte) {
    b == CR || b == LF || b == 0xFF
  }

  /** framework_usb_ascii_buffer. */
  const SIZE := 1024

  /** The buffer with one more character; a colon starts it afresh. */
  function Filled(buf: seq<byte>, ch: byte): (r: seq<byte>)
    ensures r != [] && |r| <= |buf| + 1 && r[|r| - 1] == ch
  {
    (if ch == COLON then [] else buf) + [ch]
  }

  function Wrapped(buf: seq<byte>): seq<byte> {
    if |buf| >= SIZE then [] else buf
  }

  function Rest(buf: seq<byte>, ch: byte): (r: seq<byte>)
    ensures |r| < SIZE
  {
    if EndsLine(ch) then [] else Wrapped(Filled(buf, ch))
  }

  /** A line end writes the line, unless it is the only character in the buffer. */
  predicate Writes(buf: seq<byte>, ch: byte) {
    EndsLine(ch) && |Wrapped(Filled(buf, ch))| != 1
  }

  predicate Writable(buf: seq<byte>, ch: byte) {
    Writes(buf, ch) ==> var line := Filled(buf, ch)[1..]; HexText.Run(line) <= 255 && Framed(Convert(line))
  }

  function Written(l: Layout, img: Image, buf: seq<byte>, ch: byte): (img': Image)
    requires l.Valid() && |img.flash| == l.size && Writable(buf, ch)
    ensures |img'.flash| == l.size
  {
    if Writes(buf, ch) then WriteLine(l, img, Filled(buf, ch)[1..]) else img
  }

  predicate Assemblable(buf: seq<byte>, text: seq<byte>)
    decreases |text|
  {
    text == [] || (Writable(buf, text[0]) && Assemblable(Rest(buf, text[0]), text[1..]))
  }

  /** The buffer and the image after the decrypted text. */
  function Assemble(l: Layout, buf: seq<byte>, img: Image, text: seq<byte>): (r: (seq<byte>, Image))
    requires l.Valid() && |img.flash| == l.size && Assemblable(buf, text)
    ensures |r.1.flash| == l.size
    decreases |text|
  {
    if text == [] then (buf, img)
    else Assemble(l, Rest(buf, text[0]), Written(l, img, buf, text[0]), text[1..])
  }

  /** Assembling text in parts is assembling it at once. */
  lemma {:induction false} AssembleConcat(l: Layout, buf: seq<byte>, img: Image, a: seq<byte>, b: seq<byte>)
    requires l.Valid() && |img.flash| == l.size
    ensures Assemblable(buf, a + b) <==> Assemblable(buf, a) && Assemblable(Assemble(l, buf, img, a).0, b)
    ensures Assemblable(buf, a + b) ==>
              Assemble(l, buf, img, a + b) == Assemble(l, Assemble(l, buf, img, a).0, Assemble(l, buf, img, a).1, b)
    decreases |a|
  {
    hide Written, Writable, Rest, Layout.Valid;
    if a == [] {
      assert a + b == b;
    } else {
      assert (a + b)[1..] == a[1..] + b && (a + b)[0] == a[0];
      if Writable(buf, a[0]) {
        AssembleConcat(l, Rest(buf, a[0]), Written(l, img, buf, a[0]), a[1..], b);
      }
    }
  }

  /** What stands in front of a colon in its line does nothing, and neither does what the buffer held. */
  lemma {:induction false} ColonRestarts(l: Layout, buf: seq<byte>, img: Image, junk: seq<byte>, rest: seq<byte>)
    requires l.Valid() && |img.flash| == l.size && forall k :: 0 <= k < |junk| ==> !EndsLine(junk[k])
    ensures Assemblable(buf, junk + [COLON] + rest) <==> Assemblable([], [COLON] + rest)
    ensures Assemblable([], [COLON] + rest) ==> Assemble(l, buf, img, junk + [COLON] + rest) == Assemble(l, [], img, [COLON] + rest)
    decreases |junk|
  {
    hide Layout.Valid, HexText.Run, Framed, Convert;
    var text := junk + [COLON] + rest;
    if junk == [] {
      assert text == [COLON] + rest;
      assert Filled(buf, COLON) == Filled([], COLON);
    } else {
      assert text[1..] == junk[1..] + [COLON] + rest && text[0] == junk[0];
      ColonRestarts(l, Rest(buf, junk[0]), img, junk[1..], rest);
    }
  }

  lemma AssembleNothing(l: Layout, buf: seq<byte>, img: Image)
    requires l.Valid() && |img.flash| == l.size
    ensures Assemblable(buf, []) && Assemble(l, buf, img, []) == (buf, img)
  {
  }

  lemma AssembleStep(l: Layout, buf: seq<byte>, img: Image, text: seq<byte>)
    requires l.Valid() && |img.flash| == l.size && text != [] && Assemblable(buf, text)
    ensures Writable(buf, text[0]) && Assemblable(Rest(buf, text[0]), text[1..])
    ensures Assemble(l, buf, img, text) == Assemble(l, Rest(buf, text[0]), Written(l, img, buf, text[0]), text[1..])
  {
    hide Written, Writable, Rest, Layout.Valid;
  }

  // ---------------------------------------------------------------- what the decryption has handed on

  function WholeBlocks(stream: seq<byte>): (r: seq<byte>)
    ensures |r| % 16 == 0
  {
    stream[..|stream| - |stream| % 16]
  }

  /** What is handed on of a secret stream, whole blocks of it. */
  function HandedOn(inv: Cipher, key: Block, stream: seq<byte>): seq<byte> {
    Emitted(Decrypt(inv, key, ZERO, WholeBlocks(stream)))
  }

  lemma {:induction false} DecryptConcat(inv: Cipher, key: Block, iv: Block, a: seq<byte>, b: seq<byte>)
    requires |a| % 16 == 0 && |b| % 16 == 0
    ensures Decrypt(inv, key, iv, a) <= Decrypt(inv, key, iv, a + b)
    decreases |a|
  {
    hide XorBlock;
    if a == [] {
      assert a + b == b;
    } else {
      assert (a + b)[..16] == a[..16] && (a + b)[16..] == a[16..] + b;
      DecryptConcat(inv, key, a[..16], a[16..], b);
    }
  }

  lemma EmittedGrows(p: seq<byte>, q: seq<byte>)
    ensures Emitted(p) <= Emitted(p + q)
  {
    if |p| >= 16 {
      assert FileSize(p + q) == FileSize(p);
    }
  }

  /** What has been handed on stays: later bytes only add to it. */
  lemma HandedOnGrows(inv: Cipher, key: Block, stream: seq<byte>, more: seq<byte>)
    ensures HandedOn(inv, key, stream) <= HandedOn(inv, key, stream + more)
  {
    hide Decrypt, Emitted;
    var a, all := WholeBlocks(stream), WholeBlocks(stream + more);
    assert all == a + all[|a|..];
    DecryptConcat(inv, key, ZERO, a, all[|a|..]);
    var p, all' := Decrypt(inv, key, ZERO, a), Decrypt(inv, key, ZERO, all);
    assert all' == p + all'[|p|..];
    EmittedGrows(p, all'[|p|..]);
  }

  // ---------------------------------------------------------------- the handler

  class DecryptLoader {
    const l: Layout
    const dev: Device
    const dec: DecryptStream
    const asciiBuffer: array<byte>
    const usbBuffer: array<byte>
    var offset: nat
    var blockLen: nat

    constructor (dev: Device, dec: DecryptStream)
      requires dev.Valid() && dec.buffer.Length == 16 && dev.flash != dec.buffer
      ensures Shape() && this.dev == dev && this.dec == dec && this.l == dev.l && Buf() == []
      ensures fresh(asciiBuffer) && fresh(usbBuffer)
    {
      this.l, this.dev, this.dec := dev.l, dev, dec;
      asciiBuffer := new byte[SIZE](_ => 0);
      usbBuffer := new byte[128](_ => 0);
      offset, blockLen := 0, 0;
    }

    ghost predicate Shape()
      reads this
    {
      && asciiBuffer.Length == SIZE && usbBuffer.Length == 128 && offset < SIZE && dec.buffer.Length == 16
      && dev.Valid() && dev.l == l && dec.buffer != dev.flash
      && asciiBuffer != usbBuffer && asciiBuffer != dev.flash && usbBuffer != dev.flash
      && asciiBuffer != dec.buffer && usbBuffer != dec.buffer
    }

    ghost function Buf(): seq<byte>
      requires offset <= asciiBuffer.Length
      reads this, asciiBuffer
    {
      asciiBuffer[..offset]
    }

    /** One decrypted character. */
    method AddPlain(ch: byte)
      requires Shape() && Writable(Buf(), ch)
      modifies this`offset, asciiBuffer, usbBuffer, dev, dev.flash
      ensures Shape() && Buf() == Rest(old(Buf()), ch) && dev.Img() == Written(l, old(dev.Img()), old(Buf()), ch)
    {
      hide Layout.Valid, HexText.Run, Convert, Framed, WriteLine;
      if ch == COLON {
        offset := 0;
      }
      asciiBuffer[offset] := ch;
      offset := offset + 1;
      ghost var line := asciiBuffer[..offset];
      assert line == Filled(old(Buf()), ch);
      if offset >= SIZE {
        offset := 0;
      }
      if ch == CR || ch == LF || ch == 0xFF {
        if offset != 1 {
          WriteAssembled(line);
        }
        offset := 0;
      }
    }

    method WriteAssembled(ghost line: seq<byte>)
      requires Shape() && 2 <= |line| <= SIZE && asciiBuffer[..|line|] == line && EndsLine(line[|line| - 1])
      requires (offset == |line| || offset == 0) && HexText.Run(line[1..]) <= 255 && Framed(Convert(line[1..]))
      modifies asciiBuffer, usbBuffer, dev, dev.flash
      ensures Shape() && dev.Img() == WriteLine(l, old(dev.Img()), line[1..])
    {
      hide Layout.Valid, HexText.Run, Convert, Framed, ApplyAll;
      NoDigit(line[|line| - 1]);
      ghost var was := asciiBuffer[..];
      ZeroPut(was, line, offset);
      asciiBuffer[offset] := 0;
      assert asciiBuffer[..] == was[offset := 0];
      assert asciiBuffer[1..] == asciiBuffer[..][1..] && asciiBuffer[|line|..] == asciiBuffer[..][|line|..];
      RunPrefix(line[1..], asciiBuffer[|line|..]);
      var hexRec := ConvertAsciiToHex(asciiBuffer, 1, usbBuffer);
      dev.WriteHexRecord2Flash(usbBuffer[..hexRec]);
    }

    /** The decrypted characters of one block. */
    method AddBlock(len: nat)
      requires Shape() && len <= 16 && Assemblable(Buf(), dec.buffer[..len])
      modifies this`offset, asciiBuffer, usbBuffer, dev, dev.flash
      ensures Shape() && (Buf(), dev.Img()) == Assemble(l, old(Buf()), old(dev.Img()), dec.buffer[..len])
    {
      hide Layout.Valid, Assemble, Assemblable, Writable, Written, Rest;
      ghost var block := dec.buffer[..len];
      ghost var goal := Assemble(l, Buf(), dev.Img(), block);
      assert block[0..] == block;
      for y := 0 to len
        invariant Shape() && Assemblable(Buf(), block[y..]) && Assemble(l, Buf(), dev.Img(), block[y..]) == goal
      {
        AssembleStep(l, Buf(), dev.Img(), block[y..]);
        assert block[y..][1..] == block[y + 1..];
        AddPlain(dec.buffer[y]);
      }
      assert block[len..] == [];
      AssembleNothing(l, Buf(), dev.Img());
    }

    /** PROGRAM_FLASH with decryption; `text` is what the frame's bytes add to what is handed on. */
    method ProgramFlash(data: seq<byte>, ghost text: seq<byte>)
      requires Shape() && dec.Valid()
      requires HandedOn(dec.inv, dec.contextKey, dec.stream + data) == dec.output + text && Assemblable(Buf(), text)
      modifies this, asciiBuffer, usbBuffer, dev, dev.flash, dec, dec.buffer
      ensures Shape() && dec.Valid() && dec.stream == old(dec.stream) + data && dec.contextKey == old(dec.contextKey)
      ensures dec.output == old(dec.output) + text
      ensures (Buf(), dev.Img()) == Assemble(l, old(Buf()), old(dev.Img()), text)
    {
      hide Layout.Valid, Assemble, Assemblable, HandedOn, Decrypting, OnTrack;
      ghost var all, goal := dec.output + text, Assemble(l, Buf(), dev.Img(), text);
      assert dec.stream + data == dec.stream + data[0..];
      StartsOnTrack(text);
      for x := 0 to |data|
        invariant Shape() && dec.Valid() && dec.contextKey == old(dec.contextKey)
        invariant dec.stream + data[x..] == old(dec.stream) + data && OnTrack(all, goal)
      {
        Onward(dec.stream, data, x);
        AddSecret(data[x], data[x + 1..], all, goal);
      }
      assert dec.stream + data[|data|..] == dec.stream;
      EndsOnTrack(all, goal);
    }

    /** The decryption is at a point of the way to `all`, from which assembling the rest leads to `goal`. */
    ghost predicate OnTrack(all: seq<byte>, goal: (seq<byte>, Image))
      requires Shape()
      reads this, asciiBuffer, dev, dev.flash, dec
    {
      && dec.output <= all && Assemblable(Buf(), all[|dec.output|..])
      && Assemble(l, Buf(), dev.Img(), all[|dec.output|..]) == goal
    }

    lemma StartsOnTrack(text: seq<byte>)
      requires Shape() && Assemblable(Buf(), text)
      ensures OnTrack(dec.output + text, Assemble(l, Buf(), dev.Img(), text))
    {
      hide Layout.Valid, Assemble, Assemblable;
      assert (dec.output + text)[|dec.output|..] == text;
    }

    lemma EndsOnTrack(all: seq<byte>, goal: (seq<byte>, Image))
      requires Shape() && dec.Valid() && OnTrack(all, goal) && all == HandedOn(dec.inv, dec.contextKey, dec.stream)
      ensures dec.output == all && (Buf(), dev.Img()) == goal
    {
      hide Layout.Valid, Assemble, Assemblable, HandedOn, Decrypting;
      OutputIsHandedOn(dec);
      assert all[|all|..] == [];
      AssembleNothing(l, Buf(), dev.Img());
    }

    /** One secret byte; `rest` are those that follow it. */
    method AddSecret(b: byte, ghost rest: seq<byte>, ghost all: seq<byte>, ghost goal: (seq<byte>, Image))
      requires Shape() && dec.Valid() && OnTrack(all, goal)
      requires all == HandedOn(dec.inv, dec.contextKey, dec.stream + [b] + rest)
      modifies this, asciiBuffer, usbBuffer, dev, dev.flash, dec, dec.buffer
      ensures Shape() && dec.Valid() && dec.contextKey == old(dec.contextKey) && dec.stream == old(dec.stream) + [b]
      ensures OnTrack(all, goal)
    {
      hide Layout.Valid, Assemble, Assemblable, HandedOn, Decrypting;
      ghost var before := dec.output;
      var result, len := dec.Add(b, blockLen);
      blockLen := len;
      OutputIsHandedOn(dec);
      HandedOnGrows(dec.inv, dec.contextKey, dec.stream, rest);
      if result {
        TextCut(before, dec.output, all);
        assert dec.output[|before|..] == dec.buffer[..len];
        AssembleConcat(l, Buf(), dev.Img(), dec.buffer[..len], all[|dec.output|..]);
        AddBlock(len);
      }
    }

    /** The frames of a whole encrypted file, cut anywhere. */
    method ProgramFile(frames: seq<seq<byte>>, ghost text: seq<byte>)
      requires Shape() && dec.Valid() && dec.stream == [] && dec.output == []
      requires HandedOn(dec.inv, dec.contextKey, Flat(frames)) == text && Assemblable(Buf(), text)
      modifies this, asciiBuffer, usbBuffer, dev, dev.flash, dec, dec.buffer
      ensures Shape() && dec.Valid() && (Buf(), dev.Img()) == Assemble(l, old(Buf()), old(dev.Img()), text)
    {
      hide Layout.Valid, Assemble, Assemblable, HandedOn, Decrypting, OnTrack, Flat;
      ghost var goal := Assemble(l, Buf(), dev.Img(), text);
      assert frames[0..] == frames && [] + Flat(frames) == Flat(frames) && dec.output + text == text;
      StartsOnTrack(text);
      for k := 0 to |frames|
        invariant Shape() && dec.Valid() && dec.contextKey == old(dec.contextKey)
        invariant dec.stream + Flat(frames[k..]) == Flat(frames) && OnTrack(text, goal)
      {
        FlatOnward(dec.stream, frames, k);
        ProgramFrame(frames[k], Flat(frames[k + 1..]), text, goal);
      }
      FlatEnd(dec.stream, frames);
      EndsOnTrack(text, goal);
    }

    /** One of the frames; `rest` is what the others hold. */
    method ProgramFrame(frame: seq<byte>, ghost rest: seq<byte>, ghost all: seq<byte>, ghost goal: (seq<byte>, Image))
      requires Shape() && dec.Valid() && OnTrack(all, goal)
      requires all == HandedOn(dec.inv, dec.contextKey, dec.stream + frame + rest)
      modifies this, asciiBuffer, usbBuffer, dev, dev.flash, dec, dec.buffer
      ensures Shape() && dec.Valid() && dec.contextKey == old(dec.contextKey) && dec.stream == old(dec.stream) + frame
      ensures OnTrack(all, goal)
    {
      hide Layout.Valid, Assemble, Assemblable, HandedOn, Decrypting;
      OutputIsHandedOn(dec);
      HandedOnGrows(dec.inv, dec.contextKey, dec.stream, frame);
      HandedOnGrows(dec.inv, dec.contextKey, dec.stream + frame, rest);
      ghost var before, next := dec.output, HandedOn(dec.inv, dec.contextKey, dec.stream + frame);
      TextCut(before, next, all);
      AssembleConcat(l, Buf(), dev.Img(), next[|before|..], all[|next|..]);
      ProgramFlash(frame, next[|before|..]);
      assert dec.output == next;
    }
  }

  /** A zero behind the line, or in place of its colon. */
  lemma ZeroPut(was: seq<byte>, line: seq<byte>, at: nat)
    requires 1 <= |line| <= |was| && was[..|line|] == line && (at == |line| || at == 0) && at < |was|
    ensures was[at := 0][1..] == line[1..] + was[at := 0][|line|..]
  {
    var now := was[at := 0];
    forall k | 1 <= k < |line| ensures now[k] == line[k] {
      assert line[k] == was[..|line|][k];
    }
    assert now[1..|line|] == line[1..];
  }

  lemma TextCut(a: seq<byte>, b: seq<byte>, c: seq<byte>)
    requires a <= b <= c
    ensures a + b[|a|..] == b && c[|a|..] == b[|a|..] + c[|b|..]
  {
  }

  lemma Onward(stream: seq<byte>, data: seq<byte>, x: nat)
    requires x < |data|
    ensures stream + data[x..] == stream + [data[x]] + data[x + 1..]
  {
    assert data[x..] == [data[x]] + data[x + 1..];
  }

  lemma FlatOnward(stream: seq<byte>, frames: seq<seq<byte>>, k: nat)
    requires k < |frames|
    ensures stream + Flat(frames[k..]) == stream + frames[k] + Flat(frames[k + 1..])
  {
    assert frames[k..][0] == frames[k] && frames[k..][1..] == frames[k + 1..];
    assert stream + (frames[k] + Flat(frames[k + 1..])) == stream + frames[k] + Flat(frames[k + 1..]);
  }

  lemma FlatEnd(stream: seq<byte>, frames: seq<seq<byte>>)
    ensures stream + Flat(frames[|frames|..]) == stream
  {
    assert frames[|frames|..] == [] && stream + [] == stream;
  }

  lemma OutputIsHandedOn(dec: DecryptStream)
    requires dec.Valid()
    ensures dec.output == HandedOn(dec.inv, dec.contextKey, dec.stream)
  {
  }

  // ---------------------------------------------------------------- the text of a hex file

  /** Digits only fill the buffer. */
  lemma {:induction false} AssembleDigits(l: Layout, buf: seq<byte>, img: Image, digits: seq<byte>)
    requires l.Valid() && |img.flash| == l.size && AllHex(digits) && |buf| + |digits| < SIZE
    ensures Assemblable(buf, digits) && Assemble(l, buf, img, digits) == (buf + digits, img)
    decreases |digits|
  {
    hide Layout.Valid;
    if digits == [] {
      assert buf + digits == buf;
    } else {
      var d := digits[0];
      DigitFills(buf, d);
      hide IsHex, Rest, Writes;
      assert AllHex(digits[1..]);
      AssembleDigits(l, buf + [d], img, digits[1..]);
      assert buf + [d] + digits[1..] == buf + digits;
    }
  }

  lemma DigitFills(buf: seq<byte>, d: byte)
    requires IsHex(d) && |buf| + 1 < SIZE
    ensures !Writes(buf, d) && Rest(buf, d) == buf + [d]
  {
  }

  /** A line of the file, whatever the buffer holds, is written once and leaves the buffer empty. */
  lemma AssembleLine(l: Layout, buf: seq<byte>, img: Image, t: TextLine)
    requires l.Valid() && |img.flash| == l.size && |buf| < SIZE && GoodLine(t)
    ensures var line := [COLON] + t.digits + LineEnd(t);
            Assemblable(buf, line) && Assemble(l, buf, img, line) == ([], ApplyRecord(l, img, Pairs(t.digits)))
  {
    hide Layout.Valid, HexText.Run, Convert, Pairs, Complete, IsHex, ApplyRecord, ApplyAll, Framed;
    var full, end := [COLON] + t.digits, LineEnd(t);
    AssembleDigits(l, [COLON], img, t.digits);
    assert full[1..] == t.digits && Rest(buf, COLON) == [COLON];
    assert Assemblable(buf, full) && Assemble(l, buf, img, full) == (full, img);
    AssembleEnd(l, full, img, t);
    AssembleConcat(l, buf, img, full, end);
  }

  lemma AssembleEnd(l: Layout, full: seq<byte>, img: Image, t: TextLine)
    requires l.Valid() && |img.flash| == l.size && GoodLine(t) && full == [COLON] + t.digits
    ensures Assemblable(full, LineEnd(t)) && Assemble(l, full, img, LineEnd(t)) == ([], ApplyRecord(l, img, Pairs(t.digits)))
  {
    hide Layout.Valid, HexText.Run, Convert, Pairs, Complete, IsHex, ApplyRecord, ApplyAll, Framed;
    var end := LineEnd(t);
    NoDigit(CR);
    NoDigit(LF);
    LineConverted(t.digits, [end[0]]);
    OneRecord(l, img, Pairs(t.digits));
    assert Filled(full, end[0])[1..] == t.digits + [end[0]];
    assert Writes(full, end[0]) && Rest(full, end[0]) == [];
    var img' := ApplyRecord(l, img, Pairs(t.digits));
    assert Written(l, img, full, end[0]) == img';
    assert !Writes([], LF) && Rest([], LF) == [];
    AssembleNothing(l, [], img');
    assert [LF][1..] == [] && Assemble(l, [], img', [LF]) == ([], img');
    assert t.crlf ==> end[1..] == [LF];
    assert !t.crlf ==> end[1..] == [];
  }

  /** The decrypted text of a hex file writes its records, one after the other. */
  lemma {:induction false} AssembleText(l: Layout, buf: seq<byte>, img: Image, lines: seq<TextLine>)
    requires l.Valid() && |img.flash| == l.size && |buf| < SIZE && GoodLines(lines)
    ensures Assemblable(buf, Text(lines))
    ensures Assemble(l, buf, img, Text(lines)) == (if lines == [] then buf else [], ApplyAll(l, img, Recs(lines)))
    decreases |lines|
  {
    hide Layout.Valid, Assemblable, Assemble, Pairs, Complete, ApplyRecord, IsHex, LineEnd;
    if lines == [] {
      AssembleNothing(l, buf, img);
    } else {
      var line := [COLON] + lines[0].digits + LineEnd(lines[0]);
      var img' := ApplyRecord(l, img, Pairs(lines[0].digits));
      AssembleLine(l, buf, img, lines[0]);
      AssembleText(l, [], img', lines[1..]);
      AssembleConcat(l, buf, img, line, Text(lines[1..]));
      RecsOfRest(l, img, lines);
    }
  }
}
