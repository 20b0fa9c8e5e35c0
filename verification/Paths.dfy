/** The agreement of the three ways in which the text of a hex file reaches the flash. */
module Paths {
  import opened Crc16
  import opened Flash
  import opened HexText
  import opened HostFile
  import opened HostImage
  import opened Cbc
  import Ingest
  import DecryptedIngest
  import Commands
  import Update
  import Replay

  // ---------------------------------------------------------------- three paths, one image

  /** The same hex file leaves the same flash and the same extended addresses, whether its text comes from
      the memory card (in any chunks, by Ingest.LoadConcat), or decrypted (in any frames) into a line
      buffer that may hold anything, or whether the PC reads it and sends its records in frames (in any
      batches). The PC may send one record more, the one left in its line buffer; the images are equal
      exactly if there is none or it changes nothing. */
  lemma PathsAgree(l: Layout, aes: Cipher, s: Commands.Boot, lines: seq<TextLine>, n: nat, was: nat -> seq<byte>,
                   batches: seq<seq<seq<byte>>>, stale: seq<seq<byte>>, buf: seq<byte>)
    requires Commands.Settled(l, s) && GoodLines(lines) && n >= 203 && forall k: nat :: was(k) != []
    requires Update.Records(batches) == HostReads(Text(Plain(lines)), false, n, was, 0)
    requires RecordIn(was(|lines|)) == [] || Complete(RecordIn(was(|lines|)))
    requires |stale| == |batches| && forall k :: 0 <= k < |stale| ==> |stale[k]| >= 17
    requires |buf| < DecryptedIngest.SIZE
    ensures var img, extra := ApplyAll(l, s.img, Recs(lines)), RecordIn(was(|lines|));
            && Update.TakesAll(l, Update.ProgramBodies(batches), stale)
            && (var host := Update.Session(l, aes, s, Update.ProgramBodies(batches), stale).0.img;
                && host == (if extra == [] then img else ApplyRecord(l, img, extra))
                && (host == img <==> extra == [] || ApplyRecord(l, img, extra) == img))
            && Ingest.Loadable(Ingest.Outside, Text(lines))
            && Ingest.Load(l, Ingest.Outside, s.img, Text(lines)) == (Ingest.Outside, img)
            && DecryptedIngest.Assemblable(buf, Text(lines))
            && DecryptedIngest.Assemble(l, buf, s.img, Text(lines)).1 == img
  {
    hide Layout.Valid, Complete, GoodLines, HostReads, RecordIn, ApplyRecord, ApplyAll, Text;
    var img, extra := ApplyAll(l, s.img, Recs(lines)), RecordIn(was(|lines|));
    HostReadsText(lines, n, was);
    if extra == [] {
      assert Recs(lines) + [] == Recs(lines);
    } else {
      ApplyAllConcat(l, s.img, Recs(lines), [extra]);
      OneApplied(l, img, extra);
    }
    Update.ProgramPhase(l, aes, s, batches, stale);
    Ingest.LoadText(l, s.img, lines);
    DecryptedIngest.AssembleText(l, buf, s.img, lines);
  }

  lemma OneApplied(l: Layout, img: Image, r: seq<byte>)
    requires l.Valid() && |img.flash| == l.size && Complete(r)
    ensures ApplyAll(l, img, [r]) == ApplyRecord(l, img, r)
  {
    hide Layout.Valid, Complete, ApplyRecord;
    assert [r][1..] == [];
    assert ApplyAll(l, ApplyRecord(l, img, r), []) == ApplyRecord(l, img, r);
  }

  /** If the line buffer still holds the last line, the record more changes nothing: neither on the device ... */
  lemma LastRecordAgain(l: Layout, img: Image, recs: seq<seq<byte>>)
    requires l.Valid() && |img.flash| == l.size && recs != [] && forall k :: 0 <= k < |recs| ==> Complete(recs[k])
    ensures var img' := ApplyAll(l, img, recs); ApplyRecord(l, img', recs[|recs| - 1]) == img'
  {
    hide Layout.Valid, Complete, ApplyRecord, Replay.SetsAddress;
    var init, last := recs[..|recs| - 1], recs[|recs| - 1];
    assert recs == init + [last];
    ApplyAllConcat(l, img, init, [last]);
    var d := ApplyAll(l, img, init);
    OneApplied(l, d, last);
    Replay.RepeatHarmless(l, d, [last]);
    OneApplied(l, ApplyRecord(l, d, last), last);
  }

  /** ... nor in the image that the PC verifies against. */
  lemma LastRecordAgainOnHost(l: Layout, h: Host, rec: Rec)
    requires CopyFits(l, h, rec)
    ensures var h' := HostRecord(l, h, rec); CopyFits(l, h', rec) && HostRecord(l, h', rec) == h'
  {
    if rec.DataAt? {
      var p := Start(h.seg, h.lin, rec.offset);
      if !Skipped(l, p) {
        OverwrittenTwice(h.image, p - l.base, rec.data);
      }
    }
  }

  lemma OverwrittenTwice(s: seq<byte>, i: nat, data: seq<byte>)
    requires i + |data| <= |s|
    ensures Overwritten(Overwritten(s, i, data), i, data) == Overwritten(s, i, data)
  {
  }

  /** The header of an encrypted file begins with the size of its text, the lowest byte first; the rest of the
      header does not matter. */
  lemma HeaderNamesSize(n: nat, rest: seq<byte>)
    requires n < WORD32 && |rest| == 12
    ensures FileSize(Commands.LittleEndian(n) + rest) == n
  {
    Commands.NumberRead([], n, rest);
    assert [] + Commands.LittleEndian(n) + rest == Commands.LittleEndian(n) + rest;
    hide Commands.LittleEndian;
  }

  /** The frames of an encrypted file hand on its text, whatever follows the file up to a whole block. */
  lemma EncryptedTextHandedOn(aes: Cipher, inv: Cipher, key: Block, header: Block, text: seq<byte>, filling: seq<byte>)
    requires forall b: Block :: inv(key, aes(key, b)) == b
    requires |text + filling| % 16 == 0 && FileSize(header) == |text|
    ensures DecryptedIngest.HandedOn(inv, key, Encrypt(aes, key, ZERO, header + text + filling)) == text
  {
    hide Encrypt, Decrypt, Emitted;
    EncryptedFileEmitted(aes, inv, key, header, text, filling);
    var secret := Encrypt(aes, key, ZERO, header + text + filling);
    assert DecryptedIngest.WholeBlocks(secret) == secret;
  }

  /** An encrypted hex file, in any frames and into any line buffer, leaves the image of its records. */
  lemma EncryptedFileProgrammed(l: Layout, aes: Cipher, inv: Cipher, key: Block, img: Image, buf: seq<byte>,
                                header: Block, lines: seq<TextLine>, filling: seq<byte>, frames: seq<seq<byte>>)
    requires forall b: Block :: inv(key, aes(key, b)) == b
    requires l.Valid() && |img.flash| == l.size && |buf| < DecryptedIngest.SIZE && GoodLines(lines)
    requires |Text(lines) + filling| % 16 == 0 && FileSize(header) == |Text(lines)|
    requires Flat(frames) == Encrypt(aes, key, ZERO, header + Text(lines) + filling)
    ensures var text := DecryptedIngest.HandedOn(inv, key, Flat(frames));
            && DecryptedIngest.Assemblable(buf, text)
            && DecryptedIngest.Assemble(l, buf, img, text).1 == ApplyAll(l, img, Recs(lines))
  {
    hide Encrypt, Layout.Valid, DecryptedIngest.HandedOn, GoodLines;
    EncryptedTextHandedOn(aes, inv, key, header, Text(lines), filling);
    DecryptedIngest.AssembleText(l, buf, img, lines);
  }

  /** The same on the device: the frames of an encrypted file after the stream was reset. */
  method ProgramEncryptedFile(loader: DecryptedIngest.DecryptLoader, frames: seq<seq<byte>>, ghost aes: Cipher,
                              ghost header: Block, ghost lines: seq<TextLine>, ghost filling: seq<byte>)
    requires loader.Shape() && loader.dec.Valid() && loader.dec.stream == [] && loader.dec.output == []
    requires forall b: Block :: loader.dec.inv(loader.dec.contextKey, aes(loader.dec.contextKey, b)) == b
    requires GoodLines(lines) && |Text(lines) + filling| % 16 == 0 && FileSize(header) == |Text(lines)|
    requires Flat(frames) == Encrypt(aes, loader.dec.contextKey, ZERO, header + Text(lines) + filling)
    modifies loader, loader.asciiBuffer, loader.usbBuffer, loader.dev, loader.dev.flash, loader.dec, loader.dec.buffer
    ensures loader.Shape() && loader.dec.Valid()
    ensures loader.dev.Img() == ApplyAll(loader.l, old(loader.dev.Img()), Recs(lines))
  {
    hide Encrypt, Layout.Valid, DecryptedIngest.HandedOn, DecryptedIngest.Assemble, DecryptedIngest.Assemblable, Decrypting,
         GoodLines, Text, ApplyAll;
    EncryptedFileProgrammed(loader.l, aes, loader.dec.inv, loader.dec.contextKey, loader.dev.Img(), loader.Buf(),
                            header, lines, filling, frames);
    loader.ProgramFile(frames, DecryptedIngest.HandedOn(loader.dec.inv, loader.dec.contextKey, Flat(frames)));
  }
}
