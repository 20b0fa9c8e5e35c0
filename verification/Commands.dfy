/** The device's command handler, and what holds over every run of commands. */
module Commands {
  import opened Crc16
  import opened Flash
  import opened Cbc
  import opened HostImage
  import Records
  import Framing

  const READ_BOOT_INFO: byte := 1
  const ERASE_FLASH: byte := 2
  const PROGRAM_FLASH: byte := 3
  const READ_CRC: byte := 4
  const JMP_TO_APP: byte := 5
  const WRITE_CRYPTO_SIGNATURE: byte := 6
  const READ_SERIAL_NUMBER: byte := 7
  const WRITE_SERIAL_NUMBER: byte := 8
  const WRITE_CRYPTO_KEY_BOOT_CMAC: byte := 9
  const WRITE_CRYPTO_KEY_BOOT: byte := 10

  /** The stored signature, the key, the key of the running check, and the bytes it has taken in. */
  datatype Sig = Sig(signature: Block, key: Block, contextKey: Block, stream: seq<byte>)

  datatype Boot = Boot(img: Image, sig: Sig, runApp: bool)

  /** Between commands the signature check holds whole blocks. */
  ghost predicate Settled(l: Layout, s: Boot) {
    l.Valid() && |s.img.flash| == l.size && |s.sig.stream| % 16 == 0
  }

  function Bytes(flash: seq<byte>, i: nat, n: nat): seq<byte>
    requires i + n <= |flash|
  {
    flash[i..i + n]
  }

  /** A 32-bit number, least significant byte first. */
  function Number(data: seq<byte>, i: nat): nat
    requires i + 4 <= |data|
  {
    data[i] as nat + 0x100 * (data[i + 1] as nat) + 0x1_0000 * (data[i + 2] as nat) + 0x100_0000 * (data[i + 3] as nat)
  }

  /** The bytes of a 32-bit number as they are sent, the lowest first. */
  function LittleEndian(n: nat): (r: seq<byte>)
    requires n < WORD32
    ensures |r| == 4
  {
    [Byte(n % 0x100), Byte(n / 0x100 % 0x100), Byte(n / 0x1_0000 % 0x100), Byte(n / 0x100_0000)]
  }

  /** The handler reads the number that was sent. */
  lemma NumberRead(before: seq<byte>, n: nat, after: seq<byte>)
    requires n < WORD32
    ensures Number(before + LittleEndian(n) + after, |before|) == n
  {
    var b0, b1, b2, b3 := n % 0x100, n / 0x100 % 0x100, n / 0x1_0000 % 0x100, n / 0x100_0000;
    Records.LowerDigits(n);
    Records.UpperDigits(n);
    var data := before + LittleEndian(n) + after;
    assert data[|before|] == Byte(b0) && data[|before| + 1] == Byte(b1);
    assert data[|before| + 2] == Byte(b2) && data[|before| + 3] == Byte(b3);
    hide LittleEndian, Byte;
  }

  predicate Unwritten(bytes: seq<byte>) {
    forall k :: 0 <= k < |bytes| ==> bytes[k] == 0xFF
  }

  /** Framework_EraseFlash with the reset of the signature check at its end. */
  function AfterErase(l: Layout, s: Boot): Boot {
    s.(img := s.img.(flash := Erased(l, s.img.flash)),
       sig := s.sig.(contextKey := s.sig.key, stream := Zeros8(|s.sig.stream| % 16)))
  }

  /** The signature check takes in what the device reads, and pads it. */
  function Checked(s: Sig, view: seq<byte>): Sig {
    s.(stream := Padded(s.stream + view))
  }

  function SignatureMatches(aes: Cipher, s: Sig): bool
    requires |s.stream| % 16 == 0
  {
    s.signature == Mac(aes, s.contextKey, s.stream)
  }

  /** The application stays if the signature matches, and is erased otherwise. */
  function Verdict(l: Layout, aes: Cipher, s: Boot): Boot
    requires |s.sig.stream| % 16 == 0
  {
    if SignatureMatches(aes, s.sig) then s else AfterErase(l, s)
  }

  function AfterReadCrc(l: Layout, aes: Cipher, s: Boot, address: nat, length: nat): (Boot, seq<byte>)
    requires Settled(l, s) && l.base <= address && address + length <= l.base + l.size
  {
    var view := View(l, s.img.flash, address, length);
    var s' := s.(sig := Checked(s.sig, view));
    (Verdict(l, aes, s'), [READ_CRC] + if SignatureMatches(aes, s'.sig) then Framing.CrcBytes(view) else [0xC0, 0xEE])
  }

  /** Framework_WriteSerialToFlash: the four bytes as a big-endian number. */
  function SerialWritten(l: Layout, flash: seq<byte>, serial: seq<byte>): (r: seq<byte>)
    requires l.Valid() && |flash| == l.size && |serial| == 4
    ensures |r| == |flash|
  {
    ProgramWord(flash, l.serial - l.base, [serial[3], serial[2], serial[1], serial[0]])
  }

  /** Framework_WriteKeyToFlash: four words. */
  function KeyWritten(flash: seq<byte>, i: nat, key: seq<byte>): (r: seq<byte>)
    requires i + 16 <= |flash| && |flash| % 4 == 0 && |key| == 16
    ensures |r| == |flash|
  {
    var f1 := ProgramWord(flash, i, key[..4]);
    var f2 := ProgramWord(f1, i + 4, key[4..8]);
    var f3 := ProgramWord(f2, i + 8, key[8..12]);
    ProgramWord(f3, i + 12, key[12..16])
  }

  function AfterWriteSerial(l: Layout, flash: seq<byte>, serial: seq<byte>): (r: seq<byte>)
    requires l.Valid() && |flash| == l.size && |serial| == 4
    ensures |r| == |flash|
  {
    if Unwritten(Bytes(flash, l.serial - l.base, 4)) then SerialWritten(l, flash, serial) else flash
  }

  function AfterWriteKey(l: Layout, flash: seq<byte>, address: nat, key: seq<byte>): (r: seq<byte>)
    requires l.Valid() && |flash| == l.size && |key| == 16 && l.base <= address && address + 16 <= l.base + l.size
    ensures |r| == |flash|
  {
    if Unwritten(Bytes(flash, address - l.base, 16)) then KeyWritten(flash, address - l.base, key) else flash
  }

  /** What the device shows of a key: its first two and its last two bytes. */
  function KeyEnds(flash: seq<byte>, i: nat): seq<byte>
    requires i + 16 <= |flash|
  {
    flash[i..i + 2] + flash[i + 14..i + 16]
  }

  /** The frames the handler can take: the records of PROGRAM_FLASH are whole, and READ_CRC stays
      inside the flash. `data` is the whole receive buffer, of which `len` bytes are the frame. */
  predicate Wellformed(l: Layout, data: seq<byte>, len: nat) {
    && 17 <= |data| && 3 <= len <= |data|
    && (data[0] == PROGRAM_FLASH ==> Framed(data[1..len - 2]))
    && (data[0] == READ_CRC ==> l.base <= Number(data, 1) && Number(data, 1) + Number(data, 5) <= l.base + l.size)
  }

  /** HandleCommand_general on a valid frame: the new state and the response. */
  function Handle(l: Layout, aes: Cipher, s: Boot, data: seq<byte>, len: nat): (Boot, seq<byte>)
    requires Settled(l, s) && Wellformed(l, data, len)
  {
    var cmd, flash := data[0], s.img.flash;
    if cmd == READ_BOOT_INFO then (s, [cmd, 3, 0])
    else if cmd == ERASE_FLASH then (AfterErase(l, s), [cmd])
    else if cmd == PROGRAM_FLASH then (s.(img := ApplyAll(l, s.img, Split(data[1..len - 2]))), [cmd])
    else if cmd == READ_CRC then AfterReadCrc(l, aes, s, Number(data, 1), Number(data, 5))
    else if cmd == JMP_TO_APP then (s.(runApp := true), [])
    else if cmd == WRITE_CRYPTO_SIGNATURE then (s.(sig := s.sig.(signature := data[1..17])), [cmd])
    else if cmd == READ_SERIAL_NUMBER then (s, [cmd] + Bytes(flash, l.serial - l.base, 4))
    else if cmd == WRITE_SERIAL_NUMBER then
      var flash' := AfterWriteSerial(l, flash, data[1..5]);
      (s.(img := s.img.(flash := flash')), [cmd] + Bytes(flash', l.serial - l.base, 4))
    else if cmd == WRITE_CRYPTO_KEY_BOOT_CMAC then
      var flash' := AfterWriteKey(l, flash, l.keyMac, data[1..17]);
      var key := if Unwritten(Bytes(flash, l.keyMac - l.base, 16)) then Bytes(flash', l.keyMac - l.base, 16) else s.sig.key;
      (s.(img := s.img.(flash := flash'), sig := s.sig.(key := key)), [cmd] + KeyEnds(flash', l.keyMac - l.base))
    else if cmd == WRITE_CRYPTO_KEY_BOOT then
      var flash' := AfterWriteKey(l, flash, l.keyBoot, data[1..17]);
      (s.(img := s.img.(flash := flash')), [cmd] + KeyEnds(flash', l.keyBoot - l.base))
    else (s, [])
  }

  // ---------------------------------------------------------------- the handler

  class Bootloader {
    const l: Layout
    const dev: Device
    const sig: SignatureCheck
    const rx: Framing.Receiver
    var runApplication: bool
    /** TxBuff.Data up to TxBuff.Len. */
    var tx: seq<byte>

    constructor (dev: Device, sig: SignatureCheck, rx: Framing.Receiver)
      requires dev.Valid() && sig.Valid() && rx.Fits() && 17 <= rx.data.Length
      requires dev.flash != sig.buffer && dev.flash != rx.data && sig.buffer != rx.data && sig.count == 0
      ensures this.dev == dev && this.sig == sig && this.rx == rx && Valid()
    {
      this.l, this.dev, this.sig, this.rx := dev.l, dev, sig, rx;
      runApplication, tx := false, [];
    }

    ghost predicate Valid()
      reads this, sig, sig.buffer, rx
    {
      && dev.Valid() && dev.l == l && sig.Valid() && sig.count == 0
      && rx.Fits() && 17 <= rx.data.Length
      && dev.flash != sig.buffer && dev.flash != rx.data && sig.buffer != rx.data
    }

    ghost function SigState(): Sig
      reads sig
    {
      Sig(sig.signature, sig.key, sig.contextKey, sig.stream)
    }

    ghost function State(): Boot
      reads this, dev, dev.flash, sig
    {
      Boot(dev.Img(), SigState(), runApplication)
    }

    /** Framework_EraseFlash. */
    method EraseFlash()
      requires Valid()
      modifies dev.flash, sig, sig.buffer
      ensures Valid() && State() == AfterErase(l, old(State()))
    {
      hide Chained, Erased, Layout.Valid;
      dev.EraseFlash();
      sig.Reset();
    }

    /** CalculateCrc_WithoutEeprom, which also feeds the signature check. */
    method CalculateCrcWithoutEeprom(address: nat, length: nat) returns (crc: bv16)
      requires sig.Valid() && dev.Valid() && dev.l == l && dev.flash != sig.buffer
      requires l.base <= address && address + length <= l.base + l.size
      modifies sig, sig.buffer
      ensures sig.Valid()
      ensures var view := View(l, dev.flash[..], address, length);
              && crc == Crc(view)
              && SigState() == old(SigState()).(stream := old(sig.stream) + view)
    {
      hide Chained, NibbleStep, Layout.Valid;
      ghost var view := View(l, dev.flash[..], address, length);
      crc := 0;
      var data: nat := address;
      for k := 0 to length
        invariant sig.Valid() && data == address + k
        invariant CrcFrom(crc, view[k..]) == Crc(view)
        invariant SigState() == old(SigState()).(stream := old(sig.stream) + view[..k])
      {
        assert view[k..][1..] == view[k + 1..] && view[..k + 1] == view[..k] + [view[k]];
        var data2 := if l.InKept(data) then 0xFF else dev.flash[data - l.base];
        assert data2 == view[k];
        crc := NibbleStep(crc, (data2 >> 4) as bv16);
        crc := NibbleStep(crc, data2 as bv16);
        sig.Add(data2);
        data := data + 1;
      }
      assert view[..length] == view;
    }

    method ReadCrc(address: nat, length: nat)
      requires Valid() && |sig.stream| % 16 == 0
      requires l.base <= address && address + length <= l.base + l.size
      modifies this`tx, dev.flash, sig, sig.buffer
      ensures Valid() && (State(), tx) == AfterReadCrc(l, sig.aes, old(State()), address, length)
    {
      hide Chained, Erased, Layout.Valid, View, Framing.LowByte, Framing.HighByte, Padded, Mac;
      var crc := CalculateCrcWithoutEeprom(address, length);
      tx := [READ_CRC, Framing.LowByte(crc), Framing.HighByte(crc)];
      assert tx == [READ_CRC] + Framing.CrcBytes(View(l, dev.flash[..], address, length));
      var ok := sig.Check();
      assert State() == old(State()).(sig := Checked(old(State()).sig, View(l, old(dev.flash[..]), address, length)));
      if ok {
        // signature OK
      } else {
        tx := [READ_CRC, 0xC0, 0xEE];
        assert tx == [READ_CRC] + [0xC0, 0xEE];
        EraseFlash();
      }
    }

    /** The serial number goes in only while the flash word for it is unwritten. */
    method WriteSerial(serial: seq<byte>)
      requires Valid() && |serial| == 4
      modifies dev.flash
      ensures Valid() && dev.flash[..] == AfterWriteSerial(l, old(dev.flash[..]), serial)
    {
      hide ProgramWord, Chained;
      var current := dev.flash[l.serial - l.base..l.serial - l.base + 4];
      if current[0] == 0xFF && current[1] == 0xFF && current[2] == 0xFF && current[3] == 0xFF {
        assert Unwritten(current);
        dev.NVMemWriteWord(l.serial, [serial[3], serial[2], serial[1], serial[0]]);
      }
    }

    /** A key goes in only while all its sixteen bytes are unwritten. */
    method WriteKey(address: nat, key: seq<byte>) returns (written: bool)
      requires Valid() && |key| == 16 && l.base <= address && address + 16 <= l.base + l.size
      modifies dev.flash
      ensures Valid() && written == Unwritten(Bytes(old(dev.flash[..]), address - l.base, 16))
      ensures dev.flash[..] == AfterWriteKey(l, old(dev.flash[..]), address, key)
    {
      hide ProgramWord, Chained, Layout.Valid;
      ghost var current := Bytes(dev.flash[..], address - l.base, 16);
      written := true;
      for k := 0 to 16
        invariant written <==> forall j :: 0 <= j < k ==> current[j] == 0xFF
      {
        if dev.flash[address - l.base + k] != 0xFF {
          written := false;
        }
      }
      if written {
        dev.NVMemWriteWord(address, key[..4]);
        dev.NVMemWriteWord(address + 4, key[4..8]);
        dev.NVMemWriteWord(address + 8, key[8..12]);
        dev.NVMemWriteWord(address + 12, key[12..16]);
      }
    }

    /** HandleCommand_general. */
    method HandleCommandGeneral()
      requires Valid() && |sig.stream| % 16 == 0
      requires rx.frameValid ==> Wellformed(l, rx.data[..], rx.len)
      modifies this, rx`frameValid, dev, dev.flash, sig, sig.buffer
      ensures Valid() && !rx.frameValid
      ensures if old(rx.frameValid) then (State(), tx) == Handle(l, sig.aes, old(State()), rx.data[..], rx.len)
              else (State(), tx) == (old(State()), old(tx))
    {
      hide Chained, Layout.Valid, Erased, ApplyAll, Split, Framed, Unwritten, Number, AfterReadCrc, AfterWriteKey, AfterWriteSerial;
      if !rx.frameValid {
        return;
      }
      rx.frameValid := false;
      var cmd := rx.data[0];
      tx := [];
      if cmd == READ_BOOT_INFO {
        tx := [cmd, 3, 0];
      } else if cmd == ERASE_FLASH {
        EraseFlash();
        tx := [cmd];
      } else if cmd == PROGRAM_FLASH {
        dev.WriteHexRecord2Flash(rx.data[1..rx.len - 2]);
        tx := [cmd];
      } else if cmd == READ_CRC {
        ReadCrc(Number(rx.data[..], 1), Number(rx.data[..], 5));
      } else if cmd == JMP_TO_APP {
        runApplication := true;
      } else if cmd == WRITE_CRYPTO_SIGNATURE {
        sig.SetSignature(rx.data[1..17]);
        tx := [cmd];
      } else {
        HandleIdentity(cmd);
      }
    }

    /** The commands on the serial number and the keys. */
    method HandleIdentity(cmd: byte)
      requires Valid() && |sig.stream| % 16 == 0 && tx == []
      requires rx.data[0] == cmd && Wellformed(l, rx.data[..], rx.len)
      requires cmd !in {READ_BOOT_INFO, ERASE_FLASH, PROGRAM_FLASH, READ_CRC, JMP_TO_APP, WRITE_CRYPTO_SIGNATURE}
      modifies this`tx, dev.flash, sig`key
      ensures Valid() && (State(), tx) == Handle(l, sig.aes, old(State()), rx.data[..], rx.len)
    {
      hide Chained, Erased, ApplyAll, Split, Framed, Unwritten, Number, AfterReadCrc, AfterWriteKey, AfterWriteSerial;
      ghost var data := rx.data[..];
      assert data[1..5] == rx.data[1..5] && data[1..17] == rx.data[1..17];
      if cmd == READ_SERIAL_NUMBER {
        tx := [cmd] + Bytes(dev.flash[..], l.serial - l.base, 4);
      } else if cmd == WRITE_SERIAL_NUMBER {
        WriteSerial(rx.data[1..5]);
        tx := [cmd] + Bytes(dev.flash[..], l.serial - l.base, 4);
      } else if cmd == WRITE_CRYPTO_KEY_BOOT_CMAC {
        var written := WriteKey(l.keyMac, rx.data[1..17]);
        if written {
          sig.SetKey(Bytes(dev.flash[..], l.keyMac - l.base, 16));
        }
        tx := [cmd] + KeyEnds(dev.flash[..], l.keyMac - l.base);
      } else if cmd == WRITE_CRYPTO_KEY_BOOT {
        var written := WriteKey(l.keyBoot, rx.data[1..17]);
        tx := [cmd] + KeyEnds(dev.flash[..], l.keyBoot - l.base);
      }
    }
  }

  // ---------------------------------------------------------------- what no run of commands can change

  /** Something that happens to the device: a frame the handler can take, a READ_CRC whose range leaves the
      flash, with whatever bytes are read there, or one data record that the record loop cuts out of
      whatever memory follows a malformed frame. */
  datatype Event = Command(data: seq<byte>, len: nat) | StrayQuery(view: seq<byte>) | StrayRecord(address: nat, bytes: seq<byte>)

  predicate Possible(l: Layout, e: Event) {
    match e
    case Command(data, len) => Wellformed(l, data, len)
    case StrayQuery(view) => true
    case StrayRecord(address, bytes) => address < WORD32
  }

  function Happen(l: Layout, aes: Cipher, s: Boot, e: Event): (s': Boot)
    requires Settled(l, s) && Possible(l, e)
  {
    match e
    case Command(data, len) => Handle(l, aes, s, data, len).0
    case StrayQuery(view) => Verdict(l, aes, s.(sig := Checked(s.sig, view)))
    case StrayRecord(address, bytes) => s.(img := s.img.(flash := WriteData(l, s.img.flash, address, bytes)))
  }

  lemma StaysSettled(l: Layout, aes: Cipher, s: Boot, e: Event)
    requires Settled(l, s) && Possible(l, e)
    ensures Settled(l, Happen(l, aes, s, e))
  {
    hide ApplyAll, Split, Mac, View, Layout.Valid, Unwritten, Number, Framed, Bytes;
  }

  function Run(l: Layout, aes: Cipher, s: Boot, events: seq<Event>): (s': Boot)
    requires Settled(l, s) && forall k :: 0 <= k < |events| ==> Possible(l, events[k])
    ensures Settled(l, s')
    decreases |events|
  {
    if events == [] then s
    else
      StaysSettled(l, aes, s, events[0]);
      Run(l, aes, Happen(l, aes, s, events[0]), events[1..])
  }

  predicate IsIdentity(l: Layout, a: nat) {
    l.keyBoot <= a < l.keyBoot + 16 || l.keyMac <= a < l.keyMac + 16 || l.serial <= a < l.serial + 4
  }

  /** An identity field can be written only while it is all 0xFF. */
  ghost predicate WriteOnce(was: seq<byte>, now: seq<byte>, i: nat, n: nat)
    requires i + n <= |was| == |now|
  {
    !Unwritten(Bytes(was, i, n)) ==> Bytes(now, i, n) == Bytes(was, i, n)
  }

  /** The flash outside the application area stays, the preserved area stays except for the serial
      number and the keys, and these stay once they are written. */
  ghost predicate Guarded(l: Layout, was: seq<byte>, now: seq<byte>) {
    && l.Valid() && |was| == |now| == l.size
    && (forall k :: 0 <= k < l.size && Frozen(l, l.base + k) ==> now[k] == was[k])
    && WriteOnce(was, now, l.keyBoot - l.base, 16)
    && WriteOnce(was, now, l.keyMac - l.base, 16)
    && WriteOnce(was, now, l.serial - l.base, 4)
  }

  predicate Frozen(l: Layout, a: nat) {
    !l.InApp(a) || (l.InKept(a) && !IsIdentity(l, a))
  }

  /** Outside the application area and inside the preserved area nothing changes at all. */
  ghost predicate Untouched(l: Layout, was: seq<byte>, now: seq<byte>) {
    |was| == |now| == l.size &&
    forall k :: 0 <= k < l.size && (!l.InApp(l.base + k) || l.InKept(l.base + k)) ==> now[k] == was[k]
  }

  lemma UntouchedIsGuarded(l: Layout, was: seq<byte>, now: seq<byte>)
    requires l.Valid() && Untouched(l, was, now)
    ensures Guarded(l, was, now)
  {
  }

  lemma GuardedTwice(l: Layout, a: seq<byte>, b: seq<byte>, c: seq<byte>)
    requires Guarded(l, a, b) && Guarded(l, b, c)
    ensures Guarded(l, a, c)
  {
    hide Layout.Valid, Unwritten, Bytes;
  }

  lemma WordUntouched(l: Layout, flash: seq<byte>, a: nat, w: seq<byte>)
    requires l.Valid() && |flash| == l.size && a < WORD32 && |w| == 4
    ensures Untouched(l, flash, WriteWord(l, flash, a, w))
  {
    hide OnPage;
    LayoutWords(l);
    var p := Kva(a);
    if l.Writable(p) {
      forall k | 0 <= k < l.size && k / 4 == (p - l.base) / 4 ensures l.InApp(l.base + k) && !l.InKept(l.base + k) {
        SameWord(l.base, l.base + k, p);
        SideOfWord(l.base + k, p, l.appBase);
        SideOfWord(l.base + k, p, l.appEnd + 1);
        SideOfWord(l.base + k, p, l.keepBase);
        SideOfWord(l.base + k, p, l.keepEnd + 1);
      }
    }
  }

  lemma SameWord(base: nat, a: nat, p: nat)
    requires base % 4 == 0 && base <= a && base <= p && (a - base) / 4 == (p - base) / 4
    ensures a / 4 == p / 4
  {
  }

  lemma SideOfWord(a: nat, p: nat, edge: nat)
    requires edge % 4 == 0 && a / 4 == p / 4
    ensures a < edge <==> p < edge
  {
  }

  lemma {:induction false} DataUntouched(l: Layout, flash: seq<byte>, a: nat, data: seq<byte>)
    requires l.Valid() && |flash| == l.size && a < WORD32
    ensures Untouched(l, flash, WriteData(l, flash, a, data))
    decreases |data|
  {
    hide WriteWord, Layout.Valid, WordOf;
    if data != [] {
      WordUntouched(l, flash, a, WordOf(data));
      DataUntouched(l, WriteWord(l, flash, a, WordOf(data)), (a + 4) % WORD32, AfterWord(data));
    }
  }

  lemma {:induction false} RecordsUntouched(l: Layout, d: Image, recs: seq<seq<byte>>)
    requires l.Valid() && |d.flash| == l.size && forall k :: 0 <= k < |recs| ==> Complete(recs[k])
    ensures Untouched(l, d.flash, ApplyAll(l, d, recs).flash)
    decreases |recs|
  {
    hide WriteData, Decode, Complete, Checksum, Layout.Valid;
    if recs != [] {
      var rec := Decode(recs[0]);
      if rec.DataAt? {
        DataUntouched(l, d.flash, (rec.offset + d.lin + d.seg) % WORD32, rec.data);
      }
      RecordsUntouched(l, ApplyRecord(l, d, recs[0]), recs[1..]);
    }
  }

  lemma ErasedUntouched(l: Layout, flash: seq<byte>)
    requires |flash| == l.size
    ensures Untouched(l, flash, Erased(l, flash))
  {
  }

  lemma UnwrittenAt(flash: seq<byte>, i: nat, n: nat)
    requires i + n <= |flash| && Unwritten(Bytes(flash, i, n))
    ensures forall k :: i <= k < i + n ==> flash[k] == 0xFF
  {
    forall k | i <= k < i + n ensures flash[k] == 0xFF {
      assert Bytes(flash, i, n)[k - i] == 0xFF;
    }
  }

  lemma IdentityPlaces(l: Layout)
    requires l.Valid()
    ensures l.base <= l.keyBoot && l.base <= l.keyMac && l.base <= l.serial && l.size % 4 == 0
    ensures l.keyBoot + 16 <= l.base + l.size && l.keyMac + 16 <= l.base + l.size && l.serial + 4 <= l.base + l.size
    ensures (l.keyBoot - l.base) % 4 == 0 && (l.keyMac - l.base) % 4 == 0 && (l.serial - l.base) % 4 == 0
    ensures l.keyBoot + 16 <= l.keyMac && l.keyMac + 16 <= l.serial
    ensures l.appBase <= l.keepBase <= l.keyBoot && l.serial + 4 <= l.keepEnd + 1 <= l.appEnd + 1
  {
    hide OnPage, Layout.Valid;
    IdentityOrder(l);
    LayoutWords(l);
    WordsApart(l.keyBoot, l.base);
    WordsApart(l.keyMac, l.base);
    WordsApart(l.serial, l.base);
  }

  lemma IdentityOrder(l: Layout)
    requires l.Valid()
    ensures l.base <= l.appBase <= l.keepBase <= l.keyBoot && l.keyBoot + 16 <= l.keyMac && l.keyMac + 16 <= l.serial
    ensures l.serial + 4 <= l.keepEnd + 1 <= l.appEnd + 1 <= l.base + l.size
    ensures l.keyBoot % 4 == 0 && l.keyMac % 4 == 0 && l.serial % 4 == 0 && l.size % 4 == 0
  {
    hide OnPage;
  }

  lemma SerialGuarded(l: Layout, flash: seq<byte>, serial: seq<byte>)
    requires l.Valid() && |flash| == l.size && |serial| == 4
    ensures Guarded(l, flash, AfterWriteSerial(l, flash, serial))
    ensures Unwritten(Bytes(flash, l.serial - l.base, 4)) ==>
              Bytes(AfterWriteSerial(l, flash, serial), l.serial - l.base, 4) == [serial[3], serial[2], serial[1], serial[0]]
  {
    var i, w := l.serial - l.base, [serial[3], serial[2], serial[1], serial[0]];
    hide ProgramWord, Layout.Valid, Guarded, Unwritten;
    IdentityPlaces(l);
    NothingGuarded(l, flash);
    if Unwritten(Bytes(flash, i, 4)) {
      UnwrittenAt(flash, i, 4);
      IdentityWord(flash, i, w);
      FieldGuarded(l, flash, ProgramWord(flash, i, w), i, w);
    }
  }

  /** Programming an aligned, unwritten word stores it and changes nothing else. */
  lemma IdentityWord(flash: seq<byte>, i: nat, w: seq<byte>)
    requires i % 4 == 0 && i + 4 <= |flash| && |flash| % 4 == 0 && |w| == 4
    requires forall k :: i <= k < i + 4 ==> flash[k] == 0xFF
    ensures ProgramWord(flash, i, w) == flash[..i] + w + flash[i + 4..]
  {
    WordProgrammed(flash, i, w);
  }

  lemma KeyStored(flash: seq<byte>, i: nat, key: seq<byte>)
    requires i % 4 == 0 && i + 16 <= |flash| && |flash| % 4 == 0 && |key| == 16
    requires forall k :: i <= k < i + 16 ==> flash[k] == 0xFF
    ensures KeyWritten(flash, i, key) == flash[..i] + key + flash[i + 16..]
  {
    hide ProgramWord;
    var f1 := ProgramWord(flash, i, key[..4]);
    IdentityWord(flash, i, key[..4]);
    assert f1 == flash[..i] + key[..4] + flash[i + 4..];
    var f2 := ProgramWord(f1, i + 4, key[4..8]);
    IdentityWord(f1, i + 4, key[4..8]);
    assert f2 == flash[..i] + key[..8] + flash[i + 8..];
    var f3 := ProgramWord(f2, i + 8, key[8..12]);
    IdentityWord(f2, i + 8, key[8..12]);
    assert f3 == flash[..i] + key[..12] + flash[i + 12..];
    IdentityWord(f3, i + 12, key[12..16]);
    assert ProgramWord(f3, i + 12, key[12..16]) == flash[..i] + key[..16] + flash[i + 16..];
  }

  lemma OtherField(flash: seq<byte>, flash': seq<byte>, i: nat, field: seq<byte>, j: nat, n: nat)
    requires i + |field| <= |flash| && flash' == flash[..i] + field + flash[i + |field|..]
    requires j + n <= |flash| && (j + n <= i || i + |field| <= j)
    ensures WriteOnce(flash, flash', j, n)
  {
    hide Unwritten;
    forall k | 0 <= k < n ensures Bytes(flash', j, n)[k] == Bytes(flash, j, n)[k] {
      assert flash'[j + k] == flash[j + k];
    }
    assert Bytes(flash', j, n) == Bytes(flash, j, n);
  }

  lemma FrozenField(l: Layout, flash: seq<byte>, flash': seq<byte>, i: nat, field: seq<byte>)
    requires i + |field| <= |flash| == l.size && flash' == flash[..i] + field + flash[i + |field|..]
    requires forall a: nat :: i <= a - l.base < i + |field| ==> !Frozen(l, a)
    ensures forall k :: 0 <= k < l.size && Frozen(l, l.base + k) ==> flash'[k] == flash[k]
  {
    hide Frozen;
    forall k | 0 <= k < l.size && Frozen(l, l.base + k) ensures flash'[k] == flash[k] {
      assert !(i <= (l.base + k) - l.base < i + |field|);
    }
  }

  lemma FieldGuarded(l: Layout, flash: seq<byte>, flash': seq<byte>, i: nat, field: seq<byte>)
    requires l.Valid() && |flash| == l.size && i + |field| <= |flash|
    requires flash' == flash[..i] + field + flash[i + |field|..] && Unwritten(Bytes(flash, i, |field|))
    requires (i == l.serial - l.base && |field| == 4) || ((i == l.keyBoot - l.base || i == l.keyMac - l.base) && |field| == 16)
    ensures Guarded(l, flash, flash') && Bytes(flash', i, |field|) == field
  {
    hide Layout.Valid, Unwritten, WriteOnce, Frozen, Bytes;
    IdentityPlaces(l);
    FieldFrozen(l, flash, flash', i, field);
    FieldOnce(flash, flash', i, field, l.keyBoot - l.base, 16);
    FieldOnce(flash, flash', i, field, l.keyMac - l.base, 16);
    FieldOnce(flash, flash', i, field, l.serial - l.base, 4);
    FieldStored(flash, flash', i, field);
  }

  lemma FieldStored(flash: seq<byte>, flash': seq<byte>, i: nat, field: seq<byte>)
    requires i + |field| <= |flash| && flash' == flash[..i] + field + flash[i + |field|..]
    ensures |flash'| == |flash| && Bytes(flash', i, |field|) == field
  {
  }

  lemma FieldFrozen(l: Layout, flash: seq<byte>, flash': seq<byte>, i: nat, field: seq<byte>)
    requires l.Valid() && |flash| == l.size && i + |field| <= |flash| && flash' == flash[..i] + field + flash[i + |field|..]
    requires (i == l.serial - l.base && |field| == 4) || ((i == l.keyBoot - l.base || i == l.keyMac - l.base) && |field| == 16)
    ensures forall k :: 0 <= k < l.size && Frozen(l, l.base + k) ==> flash'[k] == flash[k]
  {
    hide Layout.Valid;
    IdentityPlaces(l);
    FrozenField(l, flash, flash', i, field);
  }

  /** A field is either the one that is written, which was unwritten, or apart from it. */
  lemma FieldOnce(flash: seq<byte>, flash': seq<byte>, i: nat, field: seq<byte>, j: nat, n: nat)
    requires i + |field| <= |flash| && flash' == flash[..i] + field + flash[i + |field|..]
    requires j + n <= |flash| && ((j == i && n == |field| && Unwritten(Bytes(flash, j, n))) || j + n <= i || i + |field| <= j)
    ensures |flash'| == |flash| && WriteOnce(flash, flash', j, n)
  {
    hide Unwritten, Bytes;
    FieldStored(flash, flash', i, field);
    if j + n <= i || i + |field| <= j {
      OtherField(flash, flash', i, field, j, n);
    }
  }

  lemma KeyGuarded(l: Layout, flash: seq<byte>, address: nat, key: seq<byte>)
    requires l.Valid() && |flash| == l.size && |key| == 16 && (address == l.keyBoot || address == l.keyMac)
    ensures Guarded(l, flash, AfterWriteKey(l, flash, address, key))
    ensures Unwritten(Bytes(flash, address - l.base, 16)) ==>
              Bytes(AfterWriteKey(l, flash, address, key), address - l.base, 16) == key
  {
    hide KeyWritten, Layout.Valid, Guarded, Unwritten;
    IdentityPlaces(l);
    var i := address - l.base;
    NothingGuarded(l, flash);
    if Unwritten(Bytes(flash, i, 16)) {
      UnwrittenAt(flash, i, 16);
      KeyStored(flash, i, key);
      FieldGuarded(l, flash, KeyWritten(flash, i, key), i, key);
    }
  }

  lemma EventGuarded(l: Layout, aes: Cipher, s: Boot, e: Event)
    requires Settled(l, s) && Possible(l, e)
    ensures Guarded(l, s.img.flash, Happen(l, aes, s, e).img.flash)
    ensures !e.Command? || e.data[0] !in {WRITE_SERIAL_NUMBER, WRITE_CRYPTO_KEY_BOOT_CMAC, WRITE_CRYPTO_KEY_BOOT} ==>
              Untouched(l, s.img.flash, Happen(l, aes, s, e).img.flash)
  {
    hide ApplyAll, Split, Mac, View, Layout.Valid, Unwritten, Number, Framed, Bytes, Guarded, Untouched, Erased, WriteData,
         AfterWriteSerial, AfterWriteKey, KeyEnds, Padded;
    var flash := s.img.flash;
    SameUntouched(l, flash);
    ErasedUntouched(l, flash);
    UntouchedIsGuarded(l, flash, flash);
    UntouchedIsGuarded(l, flash, Erased(l, flash));
    match e {
      case StrayQuery(view) =>
      case StrayRecord(address, bytes) =>
        DataUntouched(l, flash, address, bytes);
        UntouchedIsGuarded(l, flash, WriteData(l, flash, address, bytes));
      case Command(data, len) =>
        if data[0] == PROGRAM_FLASH {
          RecordsUntouched(l, s.img, Split(data[1..len - 2]));
          UntouchedIsGuarded(l, flash, ApplyAll(l, s.img, Split(data[1..len - 2])).flash);
        }
        SerialGuarded(l, flash, data[1..5]);
        KeyGuarded(l, flash, l.keyMac, data[1..17]);
        KeyGuarded(l, flash, l.keyBoot, data[1..17]);
    }
  }

  lemma SameUntouched(l: Layout, flash: seq<byte>)
    requires |flash| == l.size
    ensures Untouched(l, flash, flash)
  {
  }

  /** Over every run of commands, failed verifications and malformed frames included: flash outside the
      application area never changes, the preserved area changes only in the serial number and the keys,
      and none of these changes once it is written. */
  lemma {:induction false} RunGuarded(l: Layout, aes: Cipher, s: Boot, events: seq<Event>)
    requires Settled(l, s) && forall k :: 0 <= k < |events| ==> Possible(l, events[k])
    ensures Guarded(l, s.img.flash, Run(l, aes, s, events).img.flash)
    decreases |events|
  {
    hide Happen, Possible, Guarded, Layout.Valid;
    if events == [] {
      NothingGuarded(l, s.img.flash);
    } else {
      StaysSettled(l, aes, s, events[0]);
      EventGuarded(l, aes, s, events[0]);
      var s' := Happen(l, aes, s, events[0]);
      RunGuarded(l, aes, s', events[1..]);
      GuardedTwice(l, s.img.flash, s'.img.flash, Run(l, aes, s', events[1..]).img.flash);
    }
  }

  lemma NothingGuarded(l: Layout, flash: seq<byte>)
    requires l.Valid() && |flash| == l.size
    ensures Guarded(l, flash, flash)
  {
  }
}
