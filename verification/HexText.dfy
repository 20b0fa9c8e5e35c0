/** Intel hex text: its digits, the conversion of a line to bytes on the device and on the host, and
    the text of a whole file. */
module HexText {
  import opened Crc16
  import opened Flash

  const COLON: byte := 58
  const LF: byte := 10
  const CR: byte := 13

  // ---------------------------------------------------------------- digits

  predicate IsHex(b: byte) {
    48 <= b <= 57 || 97 <= b <= 102 || 65 <= b <= 70
  }

  predicate AllHex(s: seq<byte>) {
    forall k :: 0 <= k < |s| ==> IsHex(s[k])
  }

  function Lower(b: byte): byte {
    if 65 <= b <= 70 then b + 32 else b
  }

  /** The value of a digit. */
  function Nibble(b: byte): byte
    requires IsHex(b)
  {
    if b <= 57 then b - 48 else if b <= 70 then b - 55 else b - 87
  }

  /** Two digits as a byte, the way the device puts them together. */
  function Pair(hi: byte, lo: byte): byte
    requires IsHex(hi) && IsHex(lo)
  {
    WithLow(HighHalf(Nibble(hi)), Nibble(lo))
  }

  function HighHalf(n: byte): byte {
    (n << 4) & 0xF0
  }

  function WithLow(b: byte, n: byte): byte {
    b | n
  }

  /** How many digits the text begins with. */
  function Run(s: seq<byte>): (n: nat)
    ensures n <= |s| && AllHex(s[..n]) && (n < |s| ==> !IsHex(s[n]))
  {
    if s == [] || !IsHex(s[0]) then 0
    else
      assert s[1..][..Run(s[1..])] == s[1..1 + Run(s[1..])];
      1 + Run(s[1..])
  }

  /** The bytes of a text of digits; a last single digit is dropped. */
  function Pairs(s: seq<byte>): (r: seq<byte>)
    requires AllHex(s)
    ensures |r| == |s| / 2
  {
    if |s| < 2 then [] else [Pair(s[0], s[1])] + Pairs(s[2..])
  }

  function Convert(s: seq<byte>): seq<byte> {
    Pairs(s[..Run(s)])
  }

  /** A line of the text of a file: a record in digits of either case. */
  datatype TextLine = TextLine(digits: seq<byte>, crlf: bool)

  function LineEnd(t: TextLine): seq<byte> {
    if t.crlf then [CR, LF] else [LF]
  }

  function Text(lines: seq<TextLine>): seq<byte> {
    if lines == [] then [] else [COLON] + lines[0].digits + LineEnd(lines[0]) + Text(lines[1..])
  }

  /** One whole record, of at most 95 data bytes: the device's buffers hold no more. */
  predicate GoodLine(t: TextLine) {
    AllHex(t.digits) && |t.digits| % 2 == 0 && |t.digits| <= 200 && Complete(Pairs(t.digits))
  }

  predicate GoodLines(lines: seq<TextLine>) {
    forall k :: 0 <= k < |lines| ==> GoodLine(lines[k])
  }

  function Recs(lines: seq<TextLine>): (recs: seq<seq<byte>>)
    requires GoodLines(lines)
    ensures |recs| == |lines| && forall k :: 0 <= k < |recs| ==> recs[k] == Pairs(lines[k].digits) && Complete(recs[k])
  {
    seq(|lines|, k requires 0 <= k < |lines| => Pairs(lines[k].digits))
  }

  // ---------------------------------------------------------------- rendering

  function Digit(n: byte, upper: bool): byte
    requires n < 16
  {
    if n < 10 then 48 + n else if upper then 55 + n else 87 + n
  }

  /** The digits of a byte; the digits of a record, each in either case. */
  function Render(r: seq<byte>, upper: nat -> bool): (s: seq<byte>)
    ensures |s| == 2 * |r|
  {
    if r == [] then []
    else
      var n := 2 * |r|;
      HalfBytes(r[0]);
      [Digit(r[0] >> 4, upper(n)), Digit(r[0] & 15, upper(n + 1))] + Render(r[1..], upper)
  }

  lemma HalfBytes(b: byte)
    ensures b >> 4 < 16 && b & 15 < 16
  {
  }

  /** The sixteen digits in ASCII, 0 to 9 and A to F or a to f; the device brings them to lower case. */
  lemma DigitsAre(upper: bool)
    ensures Digit(0, upper) == 0x30 && Digit(1, upper) == 0x31 && Digit(2, upper) == 0x32 && Digit(3, upper) == 0x33
    ensures Digit(4, upper) == 0x34 && Digit(5, upper) == 0x35 && Digit(6, upper) == 0x36 && Digit(7, upper) == 0x37
    ensures Digit(8, upper) == 0x38 && Digit(9, upper) == 0x39
    ensures Digit(10, true) == 0x41 && Digit(11, true) == 0x42 && Digit(12, true) == 0x43
    ensures Digit(13, true) == 0x44 && Digit(14, true) == 0x45 && Digit(15, true) == 0x46
    ensures Digit(10, false) == 0x61 && Digit(11, false) == 0x62 && Digit(12, false) == 0x63
    ensures Digit(13, false) == 0x64 && Digit(14, false) == 0x65 && Digit(15, false) == 0x66
    ensures forall n: byte :: n < 16 ==> Lower(Digit(n, upper)) == Digit(n, false)
  {
  }

  lemma DigitNibble(n: byte, upper: bool)
    requires n < 16
    ensures var d := Digit(n, upper); IsHex(d) && Nibble(d) == n
  {
  }

  lemma Rejoined(b: byte)
    ensures WithLow(HighHalf(b >> 4), b & 15) == b
  {
  }

  /** Conversion undoes rendering, whatever the case of the digits. */
  lemma {:induction false} ConvertRendered(r: seq<byte>, upper: nat -> bool)
    ensures AllHex(Render(r, upper)) && Pairs(Render(r, upper)) == r
    decreases |r|
  {
    if r != [] {
      ConvertRendered(r[1..], upper);
      FirstRendered(r, upper);
      hide Render, Pair;
      var s := Render(r, upper);
      assert s[2..] == Render(r[1..], upper);
    }
  }

  lemma FirstRendered(r: seq<byte>, upper: nat -> bool)
    requires r != []
    ensures var s := Render(r, upper);
            IsHex(s[0]) && IsHex(s[1]) && Pair(s[0], s[1]) == r[0] && s == s[..2] + Render(r[1..], upper)
  {
    HalfBytes(r[0]);
    DigitNibble(r[0] >> 4, upper(2 * |r|));
    DigitNibble(r[0] & 15, upper(2 * |r| + 1));
    Rejoined(r[0]);
    hide Digit, Nibble, IsHex;
  }

  // ---------------------------------------------------------------- the device's conversion

  lemma RunStep(s: seq<byte>, i: nat)
    requires i < |s| && AllHex(s[..i])
    ensures if IsHex(s[i]) then AllHex(s[..i + 1]) && Run(s) > i else Run(s) == i
  {
    hide IsHex;
    forall k | 0 <= k < i ensures IsHex(s[k]) {
      assert s[..i][k] == s[k];
    }
    assert Run(s) > i ==> IsHex(s[..Run(s)][i]);
  }

  lemma {:induction false} PairsAppend(s: seq<byte>, hi: byte, lo: byte)
    requires AllHex(s) && |s| % 2 == 0 && IsHex(hi) && IsHex(lo)
    ensures AllHex(s + [hi, lo]) && Pairs(s + [hi, lo]) == Pairs(s) + [Pair(hi, lo)]
    decreases |s|
  {
    hide IsHex, Pair;
    if s == [] {
      assert s + [hi, lo] == [hi, lo] && [hi, lo][2..] == [];
    } else {
      assert AllHex(s[2..]) && (s + [hi, lo])[2..] == s[2..] + [hi, lo];
      PairsAppend(s[2..], hi, lo);
    }
  }

  lemma PairsOdd(s: seq<byte>, d: byte)
    requires AllHex(s) && |s| % 2 == 0 && IsHex(d)
    ensures AllHex(s + [d]) && Pairs(s + [d]) == Pairs(s)
    decreases |s|
  {
    hide IsHex, Pair;
    if s != [] {
      assert AllHex(s[2..]) && (s + [d])[2..] == s[2..] + [d];
      PairsOdd(s[2..], d);
    }
  }

  lemma LowerNibble(b: byte)
    requires IsHex(b)
    ensures IsHex(Lower(b)) && Nibble(Lower(b)) == Nibble(b)
  {
  }

  /** After i digits: the whole bytes, and the high half of the next one. */
  ghost predicate Converted(s: seq<byte>, i: nat, out: seq<byte>) {
    && i <= |s| && AllHex(s[..i]) && (i + 1) / 2 <= |out|
    && AllHex(s[..i / 2 * 2]) && out[..i / 2] == Pairs(s[..i / 2 * 2])
    && (i % 2 == 1 ==> IsHex(s[i - 1]) && out[i / 2] == HighHalf(Nibble(s[i - 1])))
  }

  lemma ConvertedMore(s: seq<byte>, i: nat, out: seq<byte>)
    requires Converted(s, i, out) && i < |s| && IsHex(s[i]) && i / 2 < |out|
    ensures Converted(s, i + 1, out[i / 2 := if i % 2 == 1 then WithLow(out[i / 2], Nibble(s[i])) else HighHalf(Nibble(s[i]))])
  {
    hide IsHex, Nibble, Run, HighHalf, WithLow;
    RunStep(s, i);
    if i % 2 == 1 {
      assert i / 2 * 2 == i - 1 && (i + 1) / 2 * 2 == i + 1;
      assert s[..i + 1] == s[..i - 1] + [s[i - 1], s[i]];
      PairsAppend(s[..i - 1], s[i - 1], s[i]);
    } else {
      assert (i + 1) / 2 * 2 == i;
    }
  }

  lemma ConvertedAll(s: seq<byte>, i: nat, out: seq<byte>)
    requires Converted(s, i, out) && Run(s) == i
    ensures out[..i / 2] == Convert(s)
  {
    hide IsHex, Nibble, Run;
    if i % 2 == 1 {
      assert s[..i] == s[..i - 1] + [s[i - 1]] && i / 2 * 2 == i - 1;
      PairsOdd(s[..i - 1], s[i - 1]);
    }
  }

  /** ConvertAsciiToHex of the device: the digits from ascii[from] on become bytes of hexByte; upper-case
      digits become lower-case in place. The counter is a UINT8, so no more than 255 digits may follow. */
  method ConvertAsciiToHex(ascii: array<byte>, from: nat, hexByte: array<byte>) returns (result: nat)
    requires ascii != hexByte && from <= ascii.Length
    requires var n := Run(ascii[from..]); n <= 255 && from + n < ascii.Length && (n + 1) / 2 <= hexByte.Length
    modifies ascii, hexByte
    ensures result <= hexByte.Length && hexByte[..result] == Convert(old(ascii[from..]))
    ensures var n := Run(old(ascii[from..]));
            forall k :: 0 <= k < ascii.Length && !(from <= k < from + n) ==> ascii[k] == old(ascii[k])
  {
    hide IsHex, Nibble, Lower, Run, Converted;
    ghost var s := ascii[from..];
    ghost var n := Run(s);
    ConvertedNone(s, hexByte[..]);
    result := 0;
    var i: nat := 0;
    while IsHex(ascii[from + i])
      invariant i <= n && result == i
      invariant Converted(s, i, hexByte[..])
      invariant forall k :: 0 <= k < ascii.Length && !(from <= k < from + i) ==> ascii[k] == old(ascii[k])
      decreases n - i
    {
      ConvertedRun(s, i, hexByte[..]);
      ConvertedMore(s, i, hexByte[..]);
      ConvertDigit(ascii, from + i, hexByte, i);
      i := (i + 1) % 256;
      result := result + 1;
    }
    ConvertedRun(s, i, hexByte[..]);
    ConvertedAll(s, i, hexByte[..]);
    result := result / 2;
  }

  lemma ConvertedNone(s: seq<byte>, out: seq<byte>)
    ensures Converted(s, 0, out)
  {
  }

  lemma ConvertedRun(s: seq<byte>, i: nat, out: seq<byte>)
    requires Converted(s, i, out) && i < |s|
    ensures IsHex(s[i]) ==> Run(s) > i
    ensures !IsHex(s[i]) ==> Run(s) == i
  {
    RunStep(s, i);
  }

  /** The body of the conversion loop. */
  method ConvertDigit(ascii: array<byte>, at: nat, hexByte: array<byte>, i: nat)
    requires ascii != hexByte && at < ascii.Length && IsHex(ascii[at]) && i / 2 < hexByte.Length
    modifies ascii, hexByte
    ensures ascii[..] == old(ascii[..])[at := Lower(old(ascii[at]))]
    ensures var hex := Nibble(old(ascii[at]));
            hexByte[..] == old(hexByte[..])[i / 2 := if i % 2 == 1 then WithLow(old(hexByte[i / 2]), hex) else HighHalf(hex)]
  {
    LowerNibble(ascii[at]);
    hide IsHex, Nibble, Lower;
    ascii[at] := Lower(ascii[at]);
    var hex := Nibble(ascii[at]);
    if i % 2 == 1 {
      hexByte[i / 2] := WithLow(hexByte[i / 2], hex);
    } else {
      hexByte[i / 2] := HighHalf(hex);
    }
  }

  function Flat(chunks: seq<seq<byte>>): seq<byte> {
    if chunks == [] then [] else chunks[0] + Flat(chunks[1..])
  }

  // ---------------------------------------------------------------- conversion of a line

  /** Conversion takes exactly the digits that stand before another character. */
  lemma {:induction false} RunOfDigits(digits: seq<byte>, rest: seq<byte>)
    requires AllHex(digits) && rest != [] && !IsHex(rest[0])
    ensures Run(digits + rest) == |digits|
    decreases |digits|
  {
    hide IsHex;
    if digits == [] {
      assert digits + rest == rest;
    } else {
      assert (digits + rest)[0] == digits[0] && (digits + rest)[1..] == digits[1..] + rest;
      RunOfDigits(digits[1..], rest);
    }
  }

  lemma LineConverted(digits: seq<byte>, rest: seq<byte>)
    requires AllHex(digits) && rest != [] && !IsHex(rest[0])
    ensures Run(digits + rest) == |digits| && Convert(digits + rest) == Pairs(digits)
  {
    hide IsHex, Run;
    RunOfDigits(digits, rest);
    assert (digits + rest)[..|digits|] == digits;
  }

  lemma NoDigit(b: byte)
    requires b == LF || b == CR || b == 0xFF || b == 0 || b == COLON
    ensures !IsHex(b)
  {
  }

  /** A complete record, written on its own. */
  lemma OneRecord(l: Layout, img: Image, rec: seq<byte>)
    requires l.Valid() && |img.flash| == l.size && Complete(rec)
    ensures Framed(rec) && ApplyAll(l, img, Split(rec)) == ApplyRecord(l, img, rec)
  {
    hide ApplyRecord, Layout.Valid;
    assert rec[..|rec|] == rec && rec[|rec|..] == [];
    assert Split(rec) == [rec] && [rec][1..] == [];
  }

  lemma RecsOfRest(l: Layout, img: Image, lines: seq<TextLine>)
    requires l.Valid() && |img.flash| == l.size && lines != [] && GoodLines(lines)
    ensures ApplyAll(l, img, Recs(lines)) == ApplyAll(l, ApplyRecord(l, img, Pairs(lines[0].digits)), Recs(lines[1..]))
  {
    hide ApplyRecord, Layout.Valid, Complete, Pairs, GoodLine;
    assert Recs(lines)[1..] == Recs(lines[1..]);
  }

  /** Conversion does not look past a character that is not a digit. */
  lemma RunPrefix(s: seq<byte>, more: seq<byte>)
    requires s != [] && !IsHex(s[|s| - 1])
    ensures Run(s + more) == Run(s) < |s| && Convert(s + more) == Convert(s)
  {
    RunShorter(s, more);
    assert (s + more)[..Run(s)] == s[..Run(s)];
  }

  lemma {:induction false} RunShorter(s: seq<byte>, more: seq<byte>)
    requires s != [] && !IsHex(s[|s| - 1])
    ensures Run(s + more) == Run(s) < |s|
    decreases |s|
  {
    hide IsHex;
    assert (s + more)[0] == s[0] && (s + more)[1..] == s[1..] + more;
    if |s| > 1 {
      RunShorter(s[1..], more);
    }
  }

  /** What WriteHexRecord2Flash does with a converted line. */
  function WriteLine(l: Layout, img: Image, line: seq<byte>): (img': Image)
    requires l.Valid() && |img.flash| == l.size && Framed(Convert(line))
    ensures |img'.flash| == l.size
  {
    ApplyAll(l, img, Split(Convert(line)))
  }
}
