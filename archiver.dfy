/**
 * The archive pipeline of archiver.py: `arch` writes, for every readable
 * file in order, a name frame and a content frame; `unarch` peels frames off
 * the front of a container until no byte is left.
 */
module Archiver {
  import opened Errors
  import opened BigEndian
  import opened Framing
  import opened Seqs

  /** One archived file: its name and its contents, both as raw bytes. */
  datatype Entry = Entry(name: seq<byte>, content: seq<byte>)

  /**
   * A file named on the command line as `arch` finds it: `contents` is None
   * when opening or reading it fails.
   */
  datatype SourceFile = SourceFile(name: seq<byte>, contents: Option<seq<byte>>)

  predicate Fits(e: Entry) {
    FitsFrame(e.name) && FitsFrame(e.content)
  }

  predicate AllFit(es: seq<Entry>) {
    forall i :: 0 <= i < |es| ==> Fits(es[i])
  }

  /** The bytes one entry occupies in a well-formed container. */
  function EntrySize(e: Entry): nat {
    HEADER_SIZE + |e.name| + HEADER_SIZE + |e.content|
  }

  function ContainerSize(es: seq<Entry>): nat {
    if es == [] then 0 else EntrySize(es[0]) + ContainerSize(es[1..])
  }

  /** A name frame immediately followed by a content frame. */
  function EntryBytes(e: Entry): seq<byte>
    requires Fits(e)
  {
    EncodeFrame(e.name) + EncodeFrame(e.content)
  }

  /**
   * The container for `es`: the entries' frames concatenated in order, with
   * no count, separator or end marker.
   */
  function WriteArchive(es: seq<Entry>): seq<byte>
    requires AllFit(es)
  {
    if es == [] then [] else EntryBytes(es[0]) + WriteArchive(es[1..])
  }

  /** The container is exactly as long as its entries' frames; only no entries give no bytes. */
  lemma {:induction false} WriteArchiveSize(es: seq<Entry>)
    requires AllFit(es)
    ensures |WriteArchive(es)| == ContainerSize(es)
    ensures WriteArchive(es) == [] <==> es == []
  {
    if es != [] {
      WriteArchiveSize(es[1..]);
    }
  }

  lemma {:induction false} WriteArchiveConcat(a: seq<Entry>, b: seq<Entry>)
    requires AllFit(a) && AllFit(b)
    ensures AllFit(a + b)
    ensures WriteArchive(a + b) == WriteArchive(a) + WriteArchive(b)
  {
    assert AllFit(a + b) by {
      forall i | 0 <= i < |a + b| ensures Fits((a + b)[i]) {
        if i >= |a| { assert (a + b)[i] == b[i - |a|]; }
      }
    }
    if a != [] {
      assert (a + b)[1..] == a[1..] + b;
      WriteArchiveConcat(a[1..], b);
    } else {
      assert a + b == b;
    }
  }

  /** Appending one entry appends exactly its two frames. */
  lemma WriteArchiveSnoc(es: seq<Entry>, e: Entry)
    requires AllFit(es) && Fits(e)
    ensures AllFit(es + [e])
    ensures WriteArchive(es + [e]) == WriteArchive(es) + EncodeFrame(e.name) + EncodeFrame(e.content)
  {
    WriteArchiveConcat(es, [e]);
    assert WriteArchive([e]) == EntryBytes(e) by { assert [e][1..] == []; }
  }

  /** A file gets into the archive when it can be read and both its lengths fit a header. */
  predicate Archivable(f: SourceFile) {
    f.contents.Some? && FitsFrame(f.name) && FitsFrame(f.contents.value)
  }

  /** The entry an archivable file becomes. */
  function EntryOf(f: SourceFile): Entry
    requires f.contents.Some?
  {
    Entry(f.name, f.contents.value)
  }

  /** The entries `arch` emits for `files`: the archivable ones, in their order. */
  function Collected(files: seq<SourceFile>): (r: seq<Entry>)
    ensures AllFit(r)
    ensures |r| <= |files|
  {
    if files == [] then []
    else
      var f := files[|files| - 1];
      Collected(files[..|files| - 1]) + (if Archivable(f) then [EntryOf(f)] else [])
  }

  /** One more file adds its entry when it is archivable and nothing otherwise. */
  lemma CollectedSnoc(files: seq<SourceFile>, f: SourceFile)
    ensures Archivable(f) ==> Collected(files + [f]) == Collected(files) + [EntryOf(f)]
    ensures !Archivable(f) ==> Collected(files + [f]) == Collected(files)
  {
    assert (files + [f])[..|files|] == files;
    assert (files + [f])[|files|] == f;
    assert Collected(files) + [] == Collected(files);
  }

  /** The same step, for the prefixes the writer's loop walks through. */
  lemma CollectedPrefix(files: seq<SourceFile>, i: nat)
    requires i < |files|
    ensures Archivable(files[i]) ==> Collected(files[..i + 1]) == Collected(files[..i]) + [EntryOf(files[i])]
    ensures !Archivable(files[i]) ==> Collected(files[..i + 1]) == Collected(files[..i])
  {
    assert files[..i + 1] == files[..i] + [files[i]];
    CollectedSnoc(files[..i], files[i]);
  }

  lemma {:induction false} CollectedConcat(a: seq<SourceFile>, b: seq<SourceFile>)
    ensures Collected(a + b) == Collected(a) + Collected(b)
    decreases |b|
  {
    if b == [] {
      assert a + b == a;
    } else {
      var init := b[..|b| - 1];
      assert (a + b)[..|a + b| - 1] == a + init;
      assert (a + b)[|a + b| - 1] == b[|b| - 1];
      CollectedConcat(a, init);
    }
  }

  /**
   * A file that cannot be opened or read, or whose header cannot be written,
   * adds no byte to the archive: the frames are built aside and written only
   * once both exist.
   */
  lemma SkippedFileAddsNothing(before: seq<SourceFile>, f: SourceFile, after: seq<SourceFile>)
    requires !Archivable(f)
    ensures WriteArchive(Collected(before + [f] + after)) == WriteArchive(Collected(before + after))
  {
    CollectedConcat(before + [f], after);
    CollectedSnoc(before, f);
    CollectedConcat(before, after);
    assert Collected(before + [f]) == Collected(before);
  }

  /** An archivable file adds exactly its name frame then its content frame, in place. */
  lemma ArchivedFileAddsFrames(before: seq<SourceFile>, f: SourceFile, after: seq<SourceFile>)
    requires Archivable(f)
    ensures WriteArchive(Collected(before + [f] + after))
         == WriteArchive(Collected(before))
            + EncodeFrame(f.name) + EncodeFrame(f.contents.value)
            + WriteArchive(Collected(after))
  {
    var e := EntryOf(f);
    var head, tail := Collected(before), Collected(after);
    CollectedConcat(before + [f], after);
    CollectedSnoc(before, f);
    assert Collected(before + [f] + after) == (head + [e]) + tail;
    WriteArchiveSnoc(head, e);
    WriteArchiveConcat(head + [e], tail);
  }

  /** The writer's loop on an archivable file: its two frames are appended. */
  lemma ArchStepKeeps(files: seq<SourceFile>, i: nat)
    requires i < |files| && Archivable(files[i])
    ensures WriteArchive(Collected(files[..i + 1]))
         == WriteArchive(Collected(files[..i])) + (EncodeFrame(files[i].name) + EncodeFrame(files[i].contents.value))
  {
    var e := EntryOf(files[i]);
    CollectedPrefix(files, i);
    WriteArchiveSnoc(Collected(files[..i]), e);
    Associate(WriteArchive(Collected(files[..i])), EncodeFrame(e.name), EncodeFrame(e.content));
  }

  /** The writer's loop on a file it cannot archive: the archive stays as it was. */
  lemma ArchStepSkips(files: seq<SourceFile>, i: nat)
    requires i < |files| && !Archivable(files[i])
    ensures WriteArchive(Collected(files[..i + 1])) == WriteArchive(Collected(files[..i]))
  {
    CollectedPrefix(files, i);
  }

  /**
   * `arch`: for each file, build the name frame (header = byte length of
   * the name) and then the content frame into a fresh buffer, and append
   * the buffer to the archive only when both were built; a failure at any
   * step abandons that file and goes on with the next.
   */
  method Arch(files: seq<SourceFile>) returns (archive: seq<byte>)
    ensures archive == WriteArchive(Collected(files))
  {
    archive := [];
    for i := 0 to |files|
      invariant archive == WriteArchive(Collected(files[..i]))
    {
      var file := files[i];
      if file.contents.Some? {
        var data: seq<byte> := [];
        var metadata := Mtob(file.name, |file.name|);
        if metadata.Ok? {
          data := data + metadata.value;
          var message := Mtob(file.contents.value, |file.contents.value|);
          if message.Ok? {
            data := data + message.value;
            assert data == EncodeFrame(file.name) + EncodeFrame(file.contents.value) by {
              assert [] + metadata.value == metadata.value;
            }
            ArchStepKeeps(files, i);
            archive := archive + data;
          } else {
            ArchStepSkips(files, i);
          }
        } else {
          ArchStepSkips(files, i);
        }
      } else {
        ArchStepSkips(files, i);
      }
    }
    assert files[..|files|] == files;
  }

  /**
   * What `unarch` extracts from `data`, clamping every short read as Python
   * does: while a byte is left, a name frame then a content frame.
   */
  function Extract(data: seq<byte>): seq<Entry>
    decreases |data|
  {
    if |data| == 0 then []
    else
      var name := PeelFrame(data);
      var contents := PeelFrame(name.1);
      PeelFrameSplits(data);
      PeelFrameSplits(name.1);
      [Entry(name.0, contents.0)] + Extract(contents.1)
  }

  /** One pass of the extraction loop, stated for named pieces. */
  lemma ExtractUnfold(data: seq<byte>, name: seq<byte>, afterName: seq<byte>, content: seq<byte>, rest: seq<byte>)
    requires data != [] && PeelFrame(data) == (name, afterName) && PeelFrame(afterName) == (content, rest)
    ensures Extract(data) == [Entry(name, content)] + Extract(rest)
  {
  }

  /**
   * `unarch`'s loop: rebinding `data` to the unconsumed suffix, each pass
   * yields one (name, contents) pair, in container order.  The loop ends
   * because every pass removes at least one byte.
   */
  method Unarch(archive: seq<byte>) returns (extracted: seq<Entry>)
    ensures extracted == Extract(archive)
  {
    var data := archive;
    extracted := [];
    while |data| > 0
      invariant Extract(archive) == extracted + Extract(data)
      decreases |data|
    {
      ghost var before := data;
      var fnameLen := FromBytes(Slice(data, 0, HEADER_SIZE));
      var fname := Slice(data, HEADER_SIZE, HEADER_SIZE + fnameLen);
      data := Drop(data, HEADER_SIZE + fnameLen);
      assert PeelFrame(before) == (fname, data);
      ghost var afterName := data;

      var fcontentsLen := FromBytes(Slice(data, 0, HEADER_SIZE));
      var fcontents := Slice(data, HEADER_SIZE, HEADER_SIZE + fcontentsLen);
      data := Drop(data, HEADER_SIZE + fcontentsLen);
      assert PeelFrame(afterName) == (fcontents, data);
      PeelFrameSplits(before);
      PeelFrameSplits(afterName);
      ExtractUnfold(before, fname, afterName, fcontents, data);
      Associate(extracted, [Entry(fname, fcontents)], Extract(data));

      extracted := extracted + [Entry(fname, fcontents)];
    }
  }

  /**
   * On a well-formed entry one pass yields (name, content) and removes
   * exactly its 8 + |name| + 8 + |content| bytes.
   */
  lemma ExtractStep(e: Entry, rest: seq<byte>)
    requires Fits(e)
    ensures |EntryBytes(e)| == EntrySize(e)
    ensures Extract(EntryBytes(e) + rest) == [e] + Extract(rest)
  {
    var data := EntryBytes(e) + rest;
    assert data == EncodeFrame(e.name) + (EncodeFrame(e.content) + rest);
    PeelEncoded(e.name, EncodeFrame(e.content) + rest);
    PeelEncoded(e.content, rest);
  }

  /**
   * Extracting what was written gives back the same entries in the same
   * order, byte for byte, whatever bytes the names and contents hold.
   */
  lemma {:induction false} ExtractWriteArchive(es: seq<Entry>)
    requires AllFit(es)
    ensures Extract(WriteArchive(es)) == es
  {
    if es != [] {
      ExtractStep(es[0], WriteArchive(es[1..]));
      ExtractWriteArchive(es[1..]);
    }
  }

  /** Archiving and then extracting reproduces exactly the archivable files. */
  lemma ArchThenUnarch(files: seq<SourceFile>)
    ensures Extract(WriteArchive(Collected(files))) == Collected(files)
  {
    ExtractWriteArchive(Collected(files));
  }

  /**
   * The checked reader: like Extract on well-formed input, but a container
   * that ends inside a header or a payload is an error, not a partial entry.
   */
  function ReadArchive(data: seq<byte>): Result<seq<Entry>>
    decreases |data|
  {
    if data == [] then Ok([])
    else
      match DecodeEntry(data)
      case Err(e) => Err(e)
      case Ok((e, rest)) => Prepend([e], ReadArchive(rest))
  }

  /** One checked pass: a name frame, then a content frame. */
  function DecodeEntry(data: seq<byte>): (r: Result<(Entry, seq<byte>)>)
    ensures r.Ok? ==> |r.value.1| < |data|
  {
    match DecodeFrame(data)
    case Err(e) => Err(e)
    case Ok((name, afterName)) =>
      match DecodeFrame(afterName)
      case Err(e) => Err(e)
      case Ok((content, rest)) => Ok((Entry(name, content), rest))
  }

  /** What one checked pass accepts is a well-formed entry's two frames, then the rest. */
  lemma DecodeEntrySound(data: seq<byte>)
    requires DecodeEntry(data).Ok?
    ensures Fits(DecodeEntry(data).value.0)
    ensures data == EntryBytes(DecodeEntry(data).value.0) + DecodeEntry(data).value.1
  {
    var (name, afterName) := DecodeFrame(data).value;
    var (content, rest) := DecodeFrame(afterName).value;
    DecodeFrameSound(data);
    DecodeFrameSound(afterName);
    Associate(EncodeFrame(name), EncodeFrame(content), rest);
  }

  /** One checked pass accepts a well-formed entry's frames, whatever follows them. */
  lemma DecodeEntryEncoded(e: Entry, tail: seq<byte>)
    requires Fits(e)
    ensures DecodeEntry(EntryBytes(e) + tail) == Ok((e, tail))
  {
    Associate(EncodeFrame(e.name), EncodeFrame(e.content), tail);
    DecodeEncoded(e.name, EncodeFrame(e.content) + tail);
    DecodeEncoded(e.content, tail);
  }

  lemma WriteArchiveCons(e: Entry, es: seq<Entry>)
    requires Fits(e) && AllFit(es)
    ensures AllFit([e] + es)
    ensures WriteArchive([e] + es) == EntryBytes(e) + WriteArchive(es)
  {
    assert ([e] + es)[1..] == es;
    assert forall i :: 0 < i < |[e] + es| ==> ([e] + es)[i] == es[i - 1];
  }

  /** Whatever the checked reader accepts is the container of the entries it returns. */
  lemma {:induction false} ReadArchiveSound(data: seq<byte>)
    requires ReadArchive(data).Ok?
    ensures AllFit(ReadArchive(data).value)
    ensures data == WriteArchive(ReadArchive(data).value)
    decreases |data|
  {
    if data != [] {
      var (e, rest) := DecodeEntry(data).value;
      DecodeEntrySound(data);
      ReadArchiveSound(rest);
      WriteArchiveCons(e, ReadArchive(rest).value);
    }
  }

  /** Entries read before `r`, put in front of what `r` read, or `r`'s error unchanged. */
  function Prepend(es: seq<Entry>, r: Result<seq<Entry>>): Result<seq<Entry>> {
    match r
    case Ok(more) => Ok(es + more)
    case Err(e) => Err(e)
  }

  lemma PrependTwice(a: seq<Entry>, b: seq<Entry>, r: Result<seq<Entry>>)
    ensures Prepend(a, Prepend(b, r)) == Prepend(a + b, r)
  {
    if r.Ok? {
      Associate(a, b, r.value);
    }
  }

  /** The checked reader consumes one well-formed entry and goes on with what follows it. */
  lemma ReadArchiveStep(e: Entry, tail: seq<byte>)
    requires Fits(e)
    ensures ReadArchive(EntryBytes(e) + tail) == Prepend([e], ReadArchive(tail))
  {
    DecodeEntryEncoded(e, tail);
    assert EntryBytes(e) + tail != [] by { EncodeFrameLayout(e.name); }
  }

  /**
   * A well-formed container followed by more bytes reads as its own entries
   * and then those of the bytes that follow; an error there is the error of
   * the whole.
   */
  lemma {:induction false} ReadArchivePrefix(es: seq<Entry>, rest: seq<byte>)
    requires AllFit(es)
    ensures ReadArchive(WriteArchive(es) + rest) == Prepend(es, ReadArchive(rest))
  {
    if es == [] {
      assert WriteArchive(es) + rest == rest;
      assert ReadArchive(rest).Ok? ==> es + ReadArchive(rest).value == ReadArchive(rest).value;
    } else {
      var e := es[0];
      var tail := WriteArchive(es[1..]) + rest;
      assert WriteArchive(es) + rest == EntryBytes(e) + tail by {
        Associate(EntryBytes(e), WriteArchive(es[1..]), rest);
      }
      assert ReadArchive(EntryBytes(e) + tail) == Prepend([e], ReadArchive(tail)) by {
        ReadArchiveStep(e, tail);
      }
      assert ReadArchive(tail) == Prepend(es[1..], ReadArchive(rest)) by {
        ReadArchivePrefix(es[1..], rest);
      }
      PrependTwice([e], es[1..], ReadArchive(rest));
      assert [e] + es[1..] == es;
    }
  }

  /** The checked reader accepts everything the writer produces. */
  lemma ReadWriteArchive(es: seq<Entry>)
    requires AllFit(es)
    ensures ReadArchive(WriteArchive(es)) == Ok(es)
  {
    ReadArchivePrefix(es, []);
    assert WriteArchive(es) + [] == WriteArchive(es);
    assert es + [] == es;
  }

  /** A buffer is accepted by the checked reader exactly when it is the container of some entries. */
  lemma ReadArchiveCharacterises(data: seq<byte>, es: seq<Entry>)
    ensures ReadArchive(data) == Ok(es) <==> AllFit(es) && data == WriteArchive(es)
  {
    if AllFit(es) && data == WriteArchive(es) {
      ReadWriteArchive(es);
    }
    if ReadArchive(data) == Ok(es) {
      ReadArchiveSound(data);
    }
  }

  /** On a well-formed container the clamping reader and the checked reader agree. */
  lemma {:induction false} ExtractAgreesWithReadArchive(data: seq<byte>)
    requires ReadArchive(data).Ok?
    ensures Extract(data) == ReadArchive(data).value
  {
    ReadArchiveSound(data);
    ExtractWriteArchive(ReadArchive(data).value);
  }

  /** A container with one stray byte after it is rejected: one byte cannot hold a header. */
  lemma ContainerPlusByte(es: seq<Entry>, b: byte)
    requires AllFit(es)
    ensures ReadArchive(WriteArchive(es) + [b]) == Err(TruncatedHeader)
  {
    assert ReadArchive([b]) == Err(TruncatedHeader);
    ReadArchivePrefix(es, [b]);
  }

  /** Dropping the last byte of a non-empty container is always detected by the checked reader. */
  lemma TruncationDetected(es: seq<Entry>)
    requires AllFit(es) && es != []
    ensures ReadArchive(WriteArchive(es)[..|WriteArchive(es)| - 1]).Err?
  {
    var full := WriteArchive(es);
    var cut, last := full[..|full| - 1], full[|full| - 1];
    if ReadArchive(cut).Ok? {
      var es' := ReadArchive(cut).value;
      assert AllFit(es') && cut == WriteArchive(es') by { ReadArchiveSound(cut); }
      assert full == WriteArchive(es') + [last] by { InitLast(full); }
      ContainerPlusByte(es', last);
      ReadWriteArchive(es);
      assert false;
    }
  }

  /** Cutting the last byte off an entry cuts it off the content frame. */
  lemma EntryBytesInit(e: Entry)
    requires Fits(e) && e.content != []
    ensures |EncodeFrame(e.content)| == HEADER_SIZE + |e.content|
    ensures EntryBytes(e)[..|EntryBytes(e)| - 1]
         == EncodeFrame(e.name) + EncodeFrame(e.content)[..HEADER_SIZE + |e.content| - 1]
  {
    EncodeFrameLayout(e.content);
    InitOfConcat(EncodeFrame(e.name), EncodeFrame(e.content));
  }

  /**
   * The clamping reader does not detect it: with the last content byte cut
   * off, `unarch` still yields the entry, its contents one byte short.
   */
  lemma TruncatedContentIsClamped(e: Entry)
    requires Fits(e) && e.content != []
    ensures Extract(EntryBytes(e)[..|EntryBytes(e)| - 1])
         == [Entry(e.name, e.content[..|e.content| - 1])]
  {
    EntryBytesInit(e);
    var short := EncodeFrame(e.content)[..HEADER_SIZE + |e.content| - 1];
    var cut := EncodeFrame(e.name) + short;
    PeelTruncated(e.content);
    PeelEncoded(e.name, short);
    ExtractUnfold(cut, e.name, short, e.content[..|e.content| - 1], []);
  }
}
