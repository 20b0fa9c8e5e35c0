/** The PC's reader of a hex file: fgets, the conversion of a line, and the loop over the whole file. */
module HostFile {
  import opened Crc16
  import opened Flash
  import opened HexText

  // ---------------------------------------------------------------- conversion of a line

  /** The host reads two digits as a hexadecimal number; the device puts two half bytes together. */
  lemma PairValue(hi: byte, lo: byte)
    requires IsHex(hi) && IsHex(lo)
    ensures Pair(hi, lo) == 16 * Nibble(hi) + Nibble(lo)
  {
    NibbleSmall(hi);
    NibbleSmall(lo);
    hide Nibble, IsHex;
    HalvesJoined(Nibble(hi), Nibble(lo));
  }

  lemma NibbleSmall(b: byte)
    requires IsHex(b)
    ensures Nibble(b) < 16
  {
  }

  lemma HalvesJoined(hi: byte, lo: byte)
    requires hi < 16 && lo < 16
    ensures WithLow(HighHalf(hi), lo) == 16 * hi + lo
  {
  }

  /** Pairs of digits, and a zero behind them or one character further. */
  predicate Convertible(ascii: seq<byte>) {
    var n := HexText.Run(ascii);
    n % 2 == 0 && n < |ascii| && (ascii[n] == 0 || (n + 1 < |ascii| && ascii[n + 1] == 0))
  }

  /** ConvertAsciiToHex of the host. What lies behind the zero does not matter. */
  method ConvertDigitPairs(ascii: seq<byte>) returns (hexRec: seq<byte>)
    requires Convertible(ascii)
    ensures hexRec == Convert(ascii)
  {
    ghost var n := HexText.Run(ascii);
    NoDigit(0);
    hide IsHex, HexText.Run, Pair, Nibble;
    hexRec := [];
    var i: nat := 0;
    while true
      invariant i <= n && i % 2 == 0 && AllHex(ascii[..i]) && hexRec == Pairs(ascii[..i])
      decreases n - i
    {
      if i < n {
        assert ascii[..n][i] == ascii[i] && ascii[..n][i + 1] == ascii[i + 1];
      }
      if ascii[i] == 0 || ascii[i + 1] == 0 {
        break;
      }
      var hi, lo := ascii[i], ascii[i + 1];
      i := i + 2;
      assert ascii[..i] == ascii[..i - 2] + [hi, lo];
      PairsAppend(ascii[..i - 2], hi, lo);
      PairValue(hi, lo);
      hexRec := hexRec + [16 * Nibble(hi) + Nibble(lo)];
    }
    assert i == n;
  }

  // ---------------------------------------------------------------- reading lines

  /** How many characters fgets takes from a text: at most `max`, and no more than the line. */
  function LineLength(text: seq<byte>, max: nat): (n: nat)
    ensures n <= max && n <= |text|
  {
    if max == 0 || text == [] then 0 else if text[0] == LF then 1 else 1 + LineLength(text[1..], max - 1)
  }

  /** Whether fgets looks for a character beyond the end of the text. */
  predicate HitsEnd(text: seq<byte>, max: nat) {
    max > 0 && (text == [] || (text[0] != LF && HitsEnd(text[1..], max - 1)))
  }

  lemma LineStep(text: seq<byte>, max: nat)
    requires max > 0
    ensures text == [] ==> LineLength(text, max) == 0 && HitsEnd(text, max)
    ensures text != [] && text[0] == LF ==> LineLength(text, max) == 1 && !HitsEnd(text, max)
    ensures text != [] && text[0] != LF ==>
              LineLength(text, max) == 1 + LineLength(text[1..], max - 1) && HitsEnd(text, max) == HitsEnd(text[1..], max - 1)
  {
  }

  lemma LineNone(text: seq<byte>)
    ensures LineLength(text, 0) == 0 && !HitsEnd(text, 0)
  {
  }

  /** What a buffer of n characters holds after fgets; at the end of the text it stays as it was. */
  function Fetched(text: seq<byte>, n: nat, was: seq<byte>): (ascii: seq<byte>)
    requires n >= 2 && was != []
    ensures ascii != []
  {
    if text == [] then was else text[..LineLength(text, n - 1)] + [0]
  }

  /** The record in a buffer: none without a colon at the front. */
  function RecordIn(ascii: seq<byte>): seq<byte>
    requires ascii != []
  {
    if ascii[0] != COLON then [] else Convert(ascii[1..])
  }

  /** The file as the host reads it, in text mode, with the end-of-file flag. */
  class HexFile {
    const text: seq<byte>
    var pos: nat
    var eof: bool

    constructor (text: seq<byte>)
      ensures this.text == text && pos == 0 && !eof
    {
      this.text, pos, eof := text, 0, false;
    }

    /** What is left to read. */
    function Rest(): seq<byte>
      requires pos <= |text|
      reads this
    {
      text[pos..]
    }

    method ReadLine(n: nat, was: seq<byte>) returns (ascii: seq<byte>)
      requires pos <= |text| && n >= 2 && was != []
      modifies this
      ensures ascii == Fetched(old(Rest()), n, was) && eof == (old(eof) || HitsEnd(old(Rest()), n - 1))
      ensures pos <= |text| && Rest() == old(Rest())[LineLength(old(Rest()), n - 1)..]
    {
      hide LineLength, HitsEnd;
      ghost var rest := Rest();
      var max: nat, done := n - 1, false;
      ascii := [];
      while max > 0 && !done
        invariant pos <= |text| && max + |ascii| == n - 1 && |ascii| <= LineLength(rest, n - 1) <= |rest|
        invariant ascii == rest[..|ascii|] && Rest() == rest[|ascii|..]
        invariant !done ==> |ascii| + LineLength(Rest(), max) == LineLength(rest, n - 1)
        invariant !done ==> eof == old(eof) && HitsEnd(Rest(), max) == HitsEnd(rest, n - 1)
        invariant done ==> |ascii| == LineLength(rest, n - 1) && eof == (old(eof) || HitsEnd(rest, n - 1))
        decreases max, !done
      {
        LineStep(Rest(), max);
        if pos == |text| {
          eof, done := true, true;
        } else {
          ghost var before := Rest();
          ascii := ascii + [text[pos]];
          done := text[pos] == LF;
          pos := pos + 1;
          max := max - 1;
          assert Rest() == before[1..];
        }
      }
      LineNone(Rest());
      LineStep(rest, n - 1);
      ascii := if ascii == [] then was else ascii + [0];
    }

    /** GetNextHexRecord; `was` is what its own, uninitialised line buffer holds. */
    method GetNextHexRecord(n: nat, was: seq<byte>) returns (hexRec: seq<byte>)
      requires pos <= |text| && n >= 2 && was != []
      requires var ascii := Fetched(Rest(), n, was); !eof && ascii[0] == COLON ==> Convertible(ascii[1..])
      modifies this
      ensures hexRec == if old(eof) then [] else RecordIn(Fetched(old(Rest()), n, was))
      ensures eof == (old(eof) || HitsEnd(old(Rest()), n - 1))
      ensures pos <= |text| && Rest() == if old(eof) then old(Rest()) else old(Rest())[LineLength(old(Rest()), n - 1)..]
    {
      hide Fetched, HitsEnd, LineLength, HexText.Run, Convert;
      hexRec := [];
      if !eof {
        var ascii := ReadLine(n, was);
        if ascii[0] != COLON {
          return;
        }
        hexRec := ConvertDigitPairs(ascii[1..]);
      }
    }

    /** The loop over the file: records until none comes. `was` is what the line buffer holds at each call. */
    method ReadRecords(n: nat, was: nat -> seq<byte>) returns (recs: seq<seq<byte>>)
      requires pos <= |text| && n >= 2 && (forall k: nat :: was(k) != []) && AllConvertible(Rest(), eof, n, was, 0)
      modifies this
      ensures recs == HostReads(old(Rest()), old(eof), n, was, 0)
    {
      hide Fetched, HitsEnd, LineLength, RecordIn, Convertible, HostReads, AllConvertible;
      recs := [];
      ghost var goal := HostReads(Rest(), eof, n, was, 0);
      assert [] + goal == goal;
      while true
        invariant pos <= |text| && AllConvertible(Rest(), eof, n, was, |recs|)
        invariant recs + HostReads(Rest(), eof, n, was, |recs|) == goal
        decreases |Rest()|, !eof
      {
        ReadStep(Rest(), eof, n, was, |recs|);
        ghost var before := recs;
        var hexRec := GetNextHexRecord(n, was(|recs|));
        if hexRec == [] {
          assert recs + [] == recs;
          return;
        }
        recs := recs + [hexRec];
        assert before + ([hexRec] + HostReads(Rest(), eof, n, was, |recs|)) == recs + HostReads(Rest(), eof, n, was, |recs|);
      }
    }
  }

  // ---------------------------------------------------------------- reading a whole file

  /** The records that the loop over a file reads; `was(k)` is what the line buffer holds at the k-th call. */
  function HostReads(text: seq<byte>, eof: bool, n: nat, was: nat -> seq<byte>, k: nat): seq<seq<byte>>
    requires n >= 2 && forall i: nat :: was(i) != []
    decreases |text|, !eof
  {
    if eof then []
    else
      var hexRec := RecordIn(Fetched(text, n, was(k)));
      if hexRec == [] then []
      else [hexRec] + HostReads(text[LineLength(text, n - 1)..], HitsEnd(text, n - 1), n, was, k + 1)
  }

  /** Whatever the loop finds in its line buffer can be converted. */
  predicate AllConvertible(text: seq<byte>, eof: bool, n: nat, was: nat -> seq<byte>, k: nat)
    requires n >= 2 && forall i: nat :: was(i) != []
    decreases |text|, !eof
  {
    eof ||
    var ascii := Fetched(text, n, was(k));
    && (ascii[0] == COLON ==> Convertible(ascii[1..]))
    && (RecordIn(ascii) != [] ==> AllConvertible(text[LineLength(text, n - 1)..], HitsEnd(text, n - 1), n, was, k + 1))
  }

  lemma ReadStep(text: seq<byte>, eof: bool, n: nat, was: nat -> seq<byte>, k: nat)
    requires n >= 2 && (forall i: nat :: was(i) != []) && AllConvertible(text, eof, n, was, k)
    ensures eof ==> HostReads(text, eof, n, was, k) == []
    ensures !eof ==>
              var ascii := Fetched(text, n, was(k));
              var rest, eof' := text[LineLength(text, n - 1)..], HitsEnd(text, n - 1);
              && (ascii[0] == COLON ==> Convertible(ascii[1..]))
              && (RecordIn(ascii) == [] ==> HostReads(text, eof, n, was, k) == [])
              && (RecordIn(ascii) != [] ==> AllConvertible(rest, eof', n, was, k + 1))
              && (RecordIn(ascii) != [] ==> HostReads(text, eof, n, was, k) == [RecordIn(ascii)] + HostReads(rest, eof', n, was, k + 1))
              && (|rest| < |text| || (rest == [] && eof'))
  {
    hide RecordIn, Convertible;
    LineStep(text, n - 1);
  }

  lemma {:induction false} LineTaken(line: seq<byte>, rest: seq<byte>, max: nat)
    requires |line| < max && forall k :: 0 <= k < |line| ==> line[k] != LF
    ensures LineLength(line + [LF] + rest, max) == |line| + 1 && !HitsEnd(line + [LF] + rest, max)
    decreases |line|
  {
    var text := line + [LF] + rest;
    if line != [] {
      assert text[1..] == line[1..] + [LF] + rest;
      LineTaken(line[1..], rest, max - 1);
    }
  }

  lemma {:induction false} EndTaken(line: seq<byte>, max: nat)
    requires |line| < max && forall k :: 0 <= k < |line| ==> line[k] != LF
    ensures LineLength(line, max) == |line| && HitsEnd(line, max)
    decreases |line|
  {
    if line != [] {
      EndTaken(line[1..], max - 1);
    }
  }

  lemma NoLineEnd(digits: seq<byte>)
    requires AllHex(digits)
    ensures forall k :: 0 <= k < |[COLON] + digits| ==> ([COLON] + digits)[k] != LF
  {
    hide IsHex;
    NoDigit(LF);
    forall k | 0 <= k < |digits| ensures digits[k] != LF {
      assert IsHex(digits[k]);
    }
  }

  lemma LineConvertible(ascii: seq<byte>, digits: seq<byte>, end: seq<byte>)
    requires AllHex(digits) && |digits| % 2 == 0 && ascii != [] && ascii[0] == COLON && ascii[1..] == digits + end
    requires end == [LF, 0] || end == [0]
    ensures Convertible(ascii[1..]) && RecordIn(ascii) == Pairs(digits)
  {
    hide IsHex, Pairs, HexText.Run, Convert;
    NoDigit(LF);
    NoDigit(0);
    LineConverted(digits, end);
    assert ascii[1..][|digits|] == end[0];
    assert |end| == 2 ==> ascii[1..][|digits| + 1] == end[1];
  }

  /** With a buffer for 203 characters, a line gives its record, and only that line is taken. */
  lemma LineRead(t: TextLine, rest: seq<byte>, n: nat, was: seq<byte>)
    requires GoodLine(t) && n >= 203 && was != []
    ensures var text := [COLON] + t.digits + [LF] + rest;
            var ascii := Fetched(text, n, was);
            && ascii[0] == COLON && Convertible(ascii[1..]) && RecordIn(ascii) == Pairs(t.digits)
            && text[LineLength(text, n - 1)..] == rest && !HitsEnd(text, n - 1)
  {
    hide IsHex, Pairs, HexText.Run, Complete, Convert, LineLength, HitsEnd, Convertible, RecordIn;
    var line := [COLON] + t.digits;
    var text, ascii := line + [LF] + rest, line + [LF, 0];
    NoLineEnd(t.digits);
    LineTaken(line, rest, n - 1);
    assert text[..|line| + 1] + [0] == ascii && text[|line| + 1..] == rest;
    assert ascii[1..] == t.digits + [LF, 0];
    LineConvertible(ascii, t.digits, [LF, 0]);
  }

  /** So does a last line without an end, which also meets the end of the file. */
  lemma EndRead(t: TextLine, n: nat, was: seq<byte>)
    requires GoodLine(t) && n >= 203 && was != []
    ensures var text := [COLON] + t.digits;
            var ascii := Fetched(text, n, was);
            && ascii[0] == COLON && Convertible(ascii[1..]) && RecordIn(ascii) == Pairs(t.digits)
            && text[LineLength(text, n - 1)..] == [] && HitsEnd(text, n - 1)
  {
    hide IsHex, Pairs, HexText.Run, Complete, Convert, LineLength, HitsEnd, Convertible, RecordIn;
    var line := [COLON] + t.digits;
    var ascii := line + [0];
    NoLineEnd(t.digits);
    EndTaken(line, n - 1);
    assert line[..|line|] + [0] == ascii && line[|line|..] == [];
    assert ascii[1..] == t.digits + [0];
    LineConvertible(ascii, t.digits, [0]);
  }

  lemma EndFetched(n: nat, was: seq<byte>)
    requires n >= 2 && was != []
    ensures Fetched([], n, was) == was && LineLength([], n - 1) == 0 && HitsEnd([], n - 1)
  {
  }

  /** The lines as they reach the host: text mode drops the carriage returns. */
  function Plain(lines: seq<TextLine>): (r: seq<TextLine>)
    ensures |r| == |lines| && forall k :: 0 <= k < |r| ==> r[k] == lines[k].(crlf := false)
  {
    seq(|lines|, k requires 0 <= k < |lines| => lines[k].(crlf := false))
  }

  lemma PlainFirst(lines: seq<TextLine>, rest: seq<byte>)
    requires lines != []
    ensures Plain(lines)[1..] == Plain(lines[1..])
    ensures Text(Plain(lines)) + rest == [COLON] + lines[0].digits + [LF] + (Text(Plain(lines[1..])) + rest)
  {
    var p := Plain(lines);
    assert p[1..] == Plain(lines[1..]);
    assert Text(p) == [COLON] + p[0].digits + [LF] + Text(p[1..]);
  }

  /** The lines of a file are read in order, whatever follows them. */
  lemma {:induction false} HostReadsLines(lines: seq<TextLine>, rest: seq<byte>, n: nat, was: nat -> seq<byte>, k: nat)
    requires GoodLines(lines) && n >= 203 && forall i: nat :: was(i) != []
    ensures var text := Text(Plain(lines)) + rest;
            && HostReads(text, false, n, was, k) == Recs(lines) + HostReads(rest, false, n, was, k + |lines|)
            && (AllConvertible(text, false, n, was, k) <==> AllConvertible(rest, false, n, was, k + |lines|))
    decreases |lines|
  {
    hide IsHex, Pairs, Complete, LineLength, HitsEnd, Fetched, Convertible, RecordIn, Text, GoodLine;
    if lines == [] {
      NoLines();
      assert [] + rest == rest && Recs(lines) == [];
      assert [] + HostReads(rest, false, n, was, k) == HostReads(rest, false, n, was, k);
    } else {
      var more := Text(Plain(lines[1..])) + rest;
      GoodFirst(lines);
      PlainFirst(lines, rest);
      LineRead(lines[0], more, n, was(k));
      HostReadsLines(lines[1..], rest, n, was, k + 1);
      var tail := HostReads(rest, false, n, was, k + |lines|);
      assert Recs(lines) == [Recs(lines)[0]] + Recs(lines[1..]);
      assert [Recs(lines)[0]] + (Recs(lines[1..]) + tail) == Recs(lines) + tail;
    }
  }

  lemma NoLines()
    ensures Text(Plain([])) == []
  {
  }

  lemma GoodFirst(lines: seq<TextLine>)
    requires lines != [] && GoodLines(lines)
    ensures GoodLine(lines[0]) && Pairs(lines[0].digits) != [] && GoodLines(lines[1..])
  {
    hide IsHex, Pairs;
  }

  /** What the loop reads of a file that ends in an end of line: the records of the file, and then, if there
      is one, the record in whatever its line buffer holds at the last call. */
  lemma HostReadsText(lines: seq<TextLine>, n: nat, was: nat -> seq<byte>)
    requires GoodLines(lines) && n >= 203 && forall i: nat :: was(i) != []
    ensures var stale := RecordIn(was(|lines|));
            HostReads(Text(Plain(lines)), false, n, was, 0) == Recs(lines) + if stale == [] then [] else [stale]
    ensures HostReads(Text(Plain(lines)), false, n, was, 0) == Recs(lines) <==> RecordIn(was(|lines|)) == []
  {
    hide LineLength, HitsEnd, Fetched, RecordIn, Text, GoodLines, Pairs, Complete, IsHex;
    HostReadsLines(lines, [], n, was, 0);
    EndFetched(n, was(|lines|));
    assert Text(Plain(lines)) + [] == Text(Plain(lines));
  }

  /** The loop stops at the first line that does not begin with a colon, whatever follows. */
  lemma HostStops(lines: seq<TextLine>, rest: seq<byte>, n: nat, was: nat -> seq<byte>)
    requires GoodLines(lines) && n >= 203 && (forall i: nat :: was(i) != []) && rest != [] && rest[0] != COLON
    ensures HostReads(Text(Plain(lines)) + rest, false, n, was, 0) == Recs(lines)
  {
    hide LineLength, HitsEnd, Text, GoodLines, Pairs, Complete, IsHex, Convert;
    HostReadsLines(lines, rest, n, was, 0);
    LineStep(rest, n - 1);
    var ascii := Fetched(rest, n, was(|lines|));
    assert ascii[0] == rest[0];
    assert HostReads(rest, false, n, was, |lines|) == [];
  }

  /** A file whose last line has no end is read exactly. */
  lemma HostReadsUnended(lines: seq<TextLine>, last: TextLine, n: nat, was: nat -> seq<byte>)
    requires GoodLines(lines) && GoodLine(last) && n >= 203 && forall i: nat :: was(i) != []
    ensures var text := Text(Plain(lines)) + [COLON] + last.digits;
            && HostReads(text, false, n, was, 0) == Recs(lines) + [Pairs(last.digits)] && AllConvertible(text, false, n, was, 0)
  {
    hide LineLength, HitsEnd, Fetched, RecordIn, Text, GoodLines, Pairs, IsHex, Convertible;
    var end := [COLON] + last.digits;
    assert Text(Plain(lines)) + [COLON] + last.digits == Text(Plain(lines)) + end;
    HostReadsLines(lines, end, n, was, 0);
    EndRead(last, n, was(|lines|));
    assert Pairs(last.digits) != [];
    assert HostReads([], true, n, was, |lines| + 1) == [];
    assert [Pairs(last.digits)] + [] == [Pairs(last.digits)];
  }

  /** The end-of-file record, as a line of a file and in bytes. */
  const END_LINE: TextLine := TextLine([48, 48, 48, 48, 48, 48, 48, 49, 70, 70], false)
  const END_RECORD: seq<byte> := [0, 0, 0, 1, 0xFF]

  lemma EndLineRendered()
    ensures Render(END_RECORD, _ => true) == END_LINE.digits
  {
    var upper := (_: nat) => true;
    assert Render([0xFF], upper) == [70, 70];
    assert END_RECORD[1..] == [0, 0, 1, 0xFF] && [0, 0, 1, 0xFF][1..] == [0, 1, 0xFF];
    assert [0, 1, 0xFF][1..] == [1, 0xFF] && [1, 0xFF][1..] == [0xFF];
    assert Render([1, 0xFF], upper) == [48, 49] + Render([0xFF], upper);
    assert Render([0, 1, 0xFF], upper) == [48, 48] + Render([1, 0xFF], upper);
    assert Render([0, 0, 1, 0xFF], upper) == [48, 48] + Render([0, 1, 0xFF], upper);
  }

  lemma EndLineGood()
    ensures GoodLine(END_LINE) && Pairs(END_LINE.digits) == END_RECORD
  {
    hide Render, Pairs, IsHex;
    EndLineRendered();
    ConvertRendered(END_RECORD, _ => true);
  }

  /** A file of this one line, with its end, is read as two records if the line buffer keeps it, as it may
      from call to call. */
  lemma EndLineTwice(was: nat -> seq<byte>)
    requires was == (_ => [COLON] + END_LINE.digits + [LF, 0])
    ensures HostReads(Text([END_LINE]), false, 255, was, 0) == [END_RECORD, END_RECORD]
  {
    hide HostReads, Text, Pairs, Complete, IsHex, RecordIn;
    EndLineGood();
    var ascii := [COLON] + END_LINE.digits + [LF, 0];
    assert ascii[1..] == END_LINE.digits + [LF, 0];
    LineConvertible(ascii, END_LINE.digits, [LF, 0]);
    HostReadsText([END_LINE], 255, was);
    assert Plain([END_LINE]) == [END_LINE] && Recs([END_LINE]) == [END_RECORD];
    assert [END_RECORD] + [END_RECORD] == [END_RECORD, END_RECORD];
  }
}
