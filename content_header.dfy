/**
 * The content header as archiver.py writes it (line 62): the file's size on
 * disk, `os.path.getsize(file)`, in front of the text that `f.read()` returns
 * for a file opened in text mode.  Text mode applies Python's universal
 * newlines, so every "\r\n" pair that is read shortens the payload by one
 * byte while the header keeps the size on disk.  Archiver.Arch writes the length of the
 * payload instead; this module shows what the size on disk does.
 */
module ContentHeader {
  import opened BigEndian
  import opened Framing
  import opened Archiver
  import opened Seqs

  const CR: byte := 13
  const LF: byte := 10

  /** A file as it lies on disk: its name and its raw bytes. */
  datatype DiskFile = DiskFile(name: seq<byte>, raw: seq<byte>)

  /**
   * What `f.read()` yields in text mode, for bytes that decode as themselves:
   * "\r\n" and a lone "\r" both become "\n", every other byte is kept.
   */
  function TextRead(raw: seq<byte>): seq<byte>
    decreases |raw|
  {
    if raw == [] then []
    else if raw[0] == CR then
      if |raw| > 1 && raw[1] == LF then [LF] + TextRead(raw[2..]) else [LF] + TextRead(raw[1..])
    else [raw[0]] + TextRead(raw[1..])
  }

  /** How many "\r\n" pairs a file holds. */
  function CrLfCount(raw: seq<byte>): nat
    decreases |raw|
  {
    if |raw| < 2 then 0
    else if raw[0] == CR && raw[1] == LF then 1 + CrLfCount(raw[2..])
    else CrLfCount(raw[1..])
  }

  /** Text mode shortens a file by exactly one byte per "\r\n" pair in it. */
  lemma {:induction false} TextReadLength(raw: seq<byte>)
    ensures |TextRead(raw)| + CrLfCount(raw) == |raw|
    decreases |raw|
  {
    if raw != [] {
      if |raw| > 1 && raw[0] == CR && raw[1] == LF {
        TextReadLength(raw[2..]);
      } else {
        TextReadLength(raw[1..]);
      }
    }
  }

  /** A file without a carriage return reads back unchanged. */
  lemma {:induction false} TextReadIdentity(raw: seq<byte>)
    requires CR !in raw
    ensures TextRead(raw) == raw
    decreases |raw|
  {
    if raw != [] {
      assert CR !in raw[1..] by { assert forall b :: b in raw[1..] ==> b in raw; }
      TextReadIdentity(raw[1..]);
    }
  }

  predicate FitsOnDisk(f: DiskFile) {
    FitsFrame(f.name) && FitsFrame(f.raw)
  }

  /** The entry a file should become: its name and the text that was read. */
  function ReadEntry(f: DiskFile): Entry {
    Entry(f.name, TextRead(f.raw))
  }

  /** The two frames `arch` writes for a file, the content header being the size on disk. */
  function EntryAsWritten(f: DiskFile): seq<byte>
    requires FitsOnDisk(f)
  {
    EncodeFrame(f.name) + (Digits(|f.raw|, HEADER_SIZE) + TextRead(f.raw))
  }

  /**
   * The frames written with the size on disk are the well-formed frames of
   * the entry exactly when the file holds no "\r\n" pair.
   */
  lemma AsWrittenWellFormedIff(f: DiskFile)
    requires FitsOnDisk(f)
    ensures Fits(ReadEntry(f))
    ensures EntryAsWritten(f) == EntryBytes(ReadEntry(f)) <==> CrLfCount(f.raw) == 0
  {
    var text := TextRead(f.raw);
    TextReadLength(f.raw);
    if CrLfCount(f.raw) != 0 && EntryAsWritten(f) == EntryBytes(ReadEntry(f)) {
      var onDisk, read := Digits(|f.raw|, HEADER_SIZE), Digits(|text|, HEADER_SIZE);
      CancelLeft(EncodeFrame(f.name), onDisk + text, read + text);
      assert onDisk == (onDisk + text)[..HEADER_SIZE];
      assert read == (read + text)[..HEADER_SIZE];
      FromBytesDigits(|f.raw|, HEADER_SIZE);
      FromBytesDigits(|text|, HEADER_SIZE);
      assert false;
    }
  }

  /**
   * The checked reader rejects the frames written for a file holding a
   * carriage return: the header promises more bytes than were written.
   */
  lemma AsWrittenRejected(f: DiskFile)
    requires FitsOnDisk(f) && CrLfCount(f.raw) > 0
    ensures ReadArchive(EntryAsWritten(f)).Err?
  {
    var text := TextRead(f.raw);
    TextReadLength(f.raw);
    var afterName := Digits(|f.raw|, HEADER_SIZE) + text;
    FromBytesDigits(|f.raw|, HEADER_SIZE);
    DecodeOverlongHeader(Digits(|f.raw|, HEADER_SIZE), text);
    DecodeEncoded(f.name, afterName);
    EncodeFrameLayout(f.name);
    assert EntryAsWritten(f) != [];
  }

  /**
   * `unarch` on such frames followed by anything else: the first entry's
   * contents swallow one following byte per "\r\n" pair, so every later
   * frame is read out of step.
   */
  lemma AsWrittenSwallowsNext(f: DiskFile, rest: seq<byte>)
    requires FitsOnDisk(f) && CrLfCount(f.raw) > 0
    requires CrLfCount(f.raw) <= |rest|
    ensures Extract(EntryAsWritten(f) + rest)
         == [Entry(f.name, TextRead(f.raw) + rest[..CrLfCount(f.raw)])]
            + Extract(rest[CrLfCount(f.raw)..])
  {
    var text := TextRead(f.raw);
    var header := Digits(|f.raw|, HEADER_SIZE);
    var k := CrLfCount(f.raw);
    var afterName := header + text + rest;
    assert PeelFrame(afterName) == (text + rest[..k], rest[k..]) by {
      TextReadLength(f.raw);
      FromBytesDigits(|f.raw|, HEADER_SIZE);
      MoveCut(header, text, rest, k);
      PeelLaidOut(header, text + rest[..k], rest[k..]);
    }
    var data := EntryAsWritten(f) + rest;
    assert PeelFrame(data) == (f.name, afterName) by {
      Associate(EncodeFrame(f.name), header + text, rest);
      PeelEncoded(f.name, afterName);
    }
    assert data != [] by { EncodeFrameLayout(f.name); }
    ExtractUnfold(data, f.name, afterName, text + rest[..k], rest[k..]);
  }
}
