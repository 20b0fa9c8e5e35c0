/** What each command of the handler does, command by command and byte by byte. */
module Effects {
  import opened Crc16
  import opened Flash
  import opened Cbc
  import opened HostImage
  import opened Commands
  import Framing

  ghost predicate Blank(flash: seq<byte>, i: nat, n: nat)
    requires i + n <= |flash|
  {
    forall k :: i <= k < i + n ==> flash[k] == 0xFF
  }

  lemma BlankIs(flash: seq<byte>, i: nat, n: nat)
    requires i + n <= |flash|
    ensures Blank(flash, i, n) <==> Unwritten(Bytes(flash, i, n))
  {
    if Unwritten(Bytes(flash, i, n)) {
      UnwrittenAt(flash, i, n);
    }
  }

  /** A field of the flash after a write that is done only while the field is blank. */
  function WrittenOnce(flash: seq<byte>, i: nat, field: seq<byte>, blank: bool): (r: seq<byte>)
    requires i + |field| <= |flash|
    ensures |r| == |flash|
  {
    if blank then Overwritten(flash, i, field) else flash
  }

  lemma KeyStoredOnce(l: Layout, flash: seq<byte>, address: nat, key: seq<byte>)
    requires l.Valid() && |flash| == l.size && |key| == 16 && (address == l.keyBoot || address == l.keyMac)
    ensures l.base <= address && address - l.base + 16 <= |flash|
    ensures AfterWriteKey(l, flash, address, key) == WrittenOnce(flash, address - l.base, key, Blank(flash, address - l.base, 16))
  {
    hide Layout.Valid, Unwritten, KeyWritten;
    IdentityPlaces(l);
    BlankIs(flash, address - l.base, 16);
    if Blank(flash, address - l.base, 16) {
      KeyStored(flash, address - l.base, key);
    }
  }

  lemma SerialStoredOnce(l: Layout, flash: seq<byte>, serial: seq<byte>)
    requires l.Valid() && |flash| == l.size && |serial| == 4
    ensures l.base <= l.serial && l.serial - l.base + 4 <= |flash|
    ensures AfterWriteSerial(l, flash, serial)
         == WrittenOnce(flash, l.serial - l.base, [serial[3], serial[2], serial[1], serial[0]], Blank(flash, l.serial - l.base, 4))
  {
    hide Layout.Valid, Unwritten, ProgramWord;
    IdentityPlaces(l);
    BlankIs(flash, l.serial - l.base, 4);
    if Blank(flash, l.serial - l.base, 4) {
      IdentityWord(flash, l.serial - l.base, [serial[3], serial[2], serial[1], serial[0]]);
    }
  }

  /** Command 10 writes the sixteen bytes behind it as the boot key, and only there, if that place is blank;
      it answers with the first two and the last two bytes of what is stored. */
  lemma BootKeyCommand(l: Layout, aes: Cipher, s: Boot, data: seq<byte>, len: nat)
    requires Settled(l, s) && Wellformed(l, data, len) && data[0] == 10
    ensures var i := l.keyBoot - l.base;
            && 0 <= i && i + 16 <= |s.img.flash|
            && var flash := WrittenOnce(s.img.flash, i, data[1..17], Blank(s.img.flash, i, 16));
            Handle(l, aes, s, data, len)
              == (s.(img := s.img.(flash := flash)), [10, flash[i], flash[i + 1], flash[i + 14], flash[i + 15]])
  {
    hide Layout.Valid, Framed, Number, AfterWriteKey, AfterWriteSerial, AfterReadCrc, Unwritten, ApplyAll, Split, Blank, WrittenOnce;
    KeyStoredOnce(l, s.img.flash, l.keyBoot, data[1..17]);
    KeyAnswer(AfterWriteKey(l, s.img.flash, l.keyBoot, data[1..17]), l.keyBoot - l.base, 10);
  }

  lemma KeyAnswer(flash: seq<byte>, i: nat, cmd: byte)
    requires i + 16 <= |flash|
    ensures [cmd] + KeyEnds(flash, i) == [cmd, flash[i], flash[i + 1], flash[i + 14], flash[i + 15]]
  {
  }

  /** Command 9 does the same for the key of the signature check, at its own place, and a key that is stored
      is also the one in use from the next erase on. */
  lemma MacKeyCommand(l: Layout, aes: Cipher, s: Boot, data: seq<byte>, len: nat)
    requires Settled(l, s) && Wellformed(l, data, len) && data[0] == 9
    ensures var i, key := l.keyMac - l.base, data[1..17];
            && 0 <= i && i + 16 <= |s.img.flash|
            && var blank := Blank(s.img.flash, i, 16);
            var flash := WrittenOnce(s.img.flash, i, key, blank);
            Handle(l, aes, s, data, len)
              == (s.(img := s.img.(flash := flash), sig := s.sig.(key := if blank then key else s.sig.key)),
                  [9, flash[i], flash[i + 1], flash[i + 14], flash[i + 15]])
  {
    hide Layout.Valid, Framed, Number, AfterWriteKey, AfterWriteSerial, AfterReadCrc, Unwritten, ApplyAll, Split, Blank, Overwritten;
    var i, key := l.keyMac - l.base, data[1..17];
    KeyStoredOnce(l, s.img.flash, l.keyMac, key);
    KeyAnswer(AfterWriteKey(l, s.img.flash, l.keyMac, key), i, 9);
    BlankIs(s.img.flash, i, 16);
    StoredField(s.img.flash, i, key);
  }

  lemma StoredField(flash: seq<byte>, i: nat, field: seq<byte>)
    requires i + |field| <= |flash|
    ensures Bytes(Overwritten(flash, i, field), i, |field|) == field
  {
  }

  /** Command 8 stores the four bytes behind it in reverse as the serial number, if its place is blank, and
      answers with the bytes that are stored; command 7 only answers. */
  lemma SerialCommands(l: Layout, aes: Cipher, s: Boot, data: seq<byte>, len: nat)
    requires Settled(l, s) && Wellformed(l, data, len) && (data[0] == 7 || data[0] == 8)
    ensures var i, flash := l.serial - l.base, s.img.flash;
            && 0 <= i && i + 4 <= |flash|
            && var now := WrittenOnce(flash, i, [data[4], data[3], data[2], data[1]], data[0] == 8 && Blank(flash, i, 4));
            Handle(l, aes, s, data, len) == (s.(img := s.img.(flash := now)), [data[0], now[i], now[i + 1], now[i + 2], now[i + 3]])
  {
    hide Layout.Valid, Framed, Number, AfterWriteKey, AfterWriteSerial, AfterReadCrc, Unwritten, ApplyAll, Split, Blank, Overwritten;
    SerialStoredOnce(l, s.img.flash, data[1..5]);
    var i := l.serial - l.base;
    SerialAnswer(s.img.flash, i, data[0]);
    SerialAnswer(AfterWriteSerial(l, s.img.flash, data[1..5]), i, data[0]);
  }

  lemma SerialAnswer(flash: seq<byte>, i: nat, cmd: byte)
    requires i + 4 <= |flash|
    ensures [cmd] + Bytes(flash, i, 4) == [cmd, flash[i], flash[i + 1], flash[i + 2], flash[i + 3]]
  {
  }

  /** The commands that leave the flash alone: 1 answers with the version 3.0, 5 starts the application, 6 keeps
      the sixteen bytes behind it as the signature, and all from 11 on and 0 do nothing. */
  lemma OtherCommands(l: Layout, aes: Cipher, s: Boot, data: seq<byte>, len: nat)
    requires Settled(l, s) && Wellformed(l, data, len) && data[0] !in {2, 3, 4, 7, 8, 9, 10}
    ensures Handle(l, aes, s, data, len)
         == if data[0] == 1 then (s, [1, 3, 0])
            else if data[0] == 5 then (s.(runApp := true), [])
            else if data[0] == 6 then (s.(sig := s.sig.(signature := data[1..17])), [6])
            else (s, [])
  {
    hide Layout.Valid, Framed, Number, AfterWriteKey, AfterWriteSerial, AfterReadCrc, Unwritten, ApplyAll, Split;
  }

  /** Command 2 sets every byte of the application area outside the preserved area to 0xFF, leaves all others,
      and starts the signature check anew with the stored key. */
  lemma EraseCommand(l: Layout, aes: Cipher, s: Boot, data: seq<byte>, len: nat)
    requires Settled(l, s) && Wellformed(l, data, len) && data[0] == 2
    ensures var (s', response) := Handle(l, aes, s, data, len);
            && response == [2]
            && s' == s.(img := s.img.(flash := s'.img.flash), sig := s.sig.(contextKey := s.sig.key, stream := []))
            && |s'.img.flash| == l.size
            && forall k :: 0 <= k < l.size ==>
                 var a := l.base + k;
                 s'.img.flash[k] == if l.appBase <= a <= l.appEnd && !(l.keepBase <= a <= l.keepEnd) then 0xFF else s.img.flash[k]
  {
    hide Layout.Valid, Framed, Number, AfterWriteKey, AfterWriteSerial, AfterReadCrc, Unwritten, ApplyAll, Split, Erased;
    assert Zeros8(0) == [];
    ErasedBytes(l, s.img.flash);
  }

  lemma ErasedBytes(l: Layout, flash: seq<byte>)
    requires |flash| == l.size
    ensures |Erased(l, flash)| == l.size
    ensures forall k :: 0 <= k < l.size ==>
              var a := l.base + k;
              Erased(l, flash)[k] == if l.appBase <= a <= l.appEnd && !(l.keepBase <= a <= l.keepEnd) then 0xFF else flash[k]
  {
    forall k | 0 <= k < l.size
      ensures Erased(l, flash)[k] == if l.InApp(l.base + k) && !l.InKept(l.base + k) then 0xFF else flash[k]
    {
    }
  }

  /** Command 4 on a range of the flash answers with the CRC of what it reads, low byte first, if the stored
      signature is the CBC-MAC of everything read since the erase; otherwise it answers with 0xC0, 0xEE and
      erases. */
  lemma CrcCommand(l: Layout, aes: Cipher, s: Boot, start: nat, length: nat, after: seq<byte>, len: nat)
    requires Settled(l, s) && start < WORD32 && length < WORD32 && 3 <= len <= 9 + |after| && |after| >= 8
    requires l.base <= start && start + length <= l.base + l.size
    ensures var data := [4] + LittleEndian(start) + LittleEndian(length) + after;
            && Wellformed(l, data, len)
            && var (s', response) := Handle(l, aes, s, data, len);
            var view := View(l, s.img.flash, start, length);
            var sig := s.sig.(stream := Padded(s.sig.stream + view));
            if s.sig.signature == Mac(aes, s.sig.contextKey, sig.stream)
            then response == [4, Framing.LowByte(Crc(view)), Framing.HighByte(Crc(view))] && s' == s.(sig := sig)
            else response == [4, 0xC0, 0xEE] && s'.img.flash == Erased(l, s.img.flash)
  {
    hide Layout.Valid, View, Mac, Padded, Erased, Number, LittleEndian, Framing.LowByte, Framing.HighByte;
    var data := [4] + LittleEndian(start) + LittleEndian(length) + after;
    assert data == [4] + LittleEndian(start) + (LittleEndian(length) + after);
    NumberRead([4], start, LittleEndian(length) + after);
    NumberRead([4] + LittleEndian(start), length, after);
  }
}
