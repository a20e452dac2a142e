# archiver.py: frame codec and archive pipeline

`archiver.py` packs files into one container and unpacks them again. Each
file becomes two frames. A frame is an eight-byte big-endian length
followed by that many bytes. The name frame comes first, then the content
frame. The container is those frames laid end to end, with no count and no
end marker.

The model has six modules.

- `Errors` (errors.dfy): the failure values, plus `Result` and `Option`.
- `Seqs` (seqs.dfy): generic facts about cutting and joining sequences.
- `BigEndian` (bigendian.dfy): `int.to_bytes(8, 'big')` as `ToBytes`, `int.from_bytes(s, 'big')` as `FromBytes`, and the round trips between them.
- `Framing` (framing.dfy):
  - `mtob` as the method `Mtob`.
  - The well-formed frame `EncodeFrame`.
  - Python's clamping slices `s[lo:hi]` and `s[lo:]` as `Slice` and `Drop`.
  - One clamping step of the reading loop as `PeelFrame`.
  - A checked frame decoder `DecodeFrame` that reports a short header or payload.
- `Archiver` (archiver.dfy):
  - The writing loop of `arch` as the method `Arch`, specified by `WriteArchive(Collected(files))`.
  - The reading loop of `unarch` as the method `Unarch`, specified by the function `Extract`.
  - A checked reader `ReadArchive` for the same format.
  - The lemmas relating these.
- `ContentHeader` (content_header.dfy): the content header as the source writes it, which is the file's size on disk. See Findings.

Inputs and outputs are parameters and results.

- A file named on the command line is a `SourceFile`: its name bytes, plus the bytes that reading it yields. Those bytes are `None` when opening or reading fails.
- `Arch` returns the container bytes that `arch` writes to its output file.
- `Unarch` takes the container bytes and returns the (name, contents) pairs in the order in which `unarch` writes them out as files.

Two behaviours of the source that a stricter reader or writer would handle differently:

- Short input. `unarch` slices with Python's clamping, so a cut container yields a shortened last entry without any error. `Unarch` and `Extract` model the clamping exactly (`TruncatedContentIsClamped`). `ReadArchive` is a stricter reader that rejects a container ending inside a header or a payload (`TruncationDetected`). The two agree on every well-formed container (`ExtractAgreesWithReadArchive`).
  - No separate error for trailing bytes is needed: bytes after the last complete entry are read as the next frame, and the stricter reader rejects them as a short header or a short payload.
- Oversized lengths. `to_bytes` raises for a length of 2^64 or more, the bare `except` around the loop body catches it, and the file is skipped. `Mtob` returns `Err(Overflow)` and `Arch` skips the file (`SkippedFileAddsNothing`).

## Model

| member | source | states |
|---|---|---|
| BigEndian.Pow256Eight | archiver.py:14 | eight header bytes hold exactly the values below 2^64 |
| BigEndian.ToBytes | archiver.py:14 | `to_bytes(width, 'big')` succeeds exactly when the value is below 256^width; its result is `width` bytes that read back as the value; otherwise it fails with Overflow |
| BigEndian.FromBytes | archiver.py:78 | `int.from_bytes(s, 'big')`: the bytes as an unsigned big-endian number, any length accepted, the empty string reading as 0 |
| BigEndian.Digits | archiver.py:14 | the `width` lowest base-256 digits of a number, most significant first |
| BigEndian.FromBytesBound | archiver.py:78 | `int.from_bytes` of k bytes is below 256^k, so a header never declares 2^64 or more |
| BigEndian.FromBytesDigits | archiver.py:78 | reading back the fixed-width big-endian digits of n gives n |
| BigEndian.DigitsFromBytes | archiver.py:82 | a byte string is the fixed-width digits of its own value, so two headers with the same value are the same bytes |
| Framing.EncodeFrame | archiver.py:12-17 | the frame `mtob` builds when the size is the message's own length: header of that length, then the payload |
| Framing.EncodeFrameLayout | archiver.py:12-17 | a frame is eight header bytes reading as the payload length, followed by the payload |
| Framing.Mtob | archiver.py:12-17 | fails exactly when size is 2^64 or more; otherwise returns 8 + \|message\| bytes whose header reads as `size` and whose tail is the message, which is the well-formed frame when size is the message length |
| Framing.Slice | archiver.py:79 | Python's `s[lo:hi]` for 0 <= lo <= hi: both bounds clamped to the length, so a slice past the end is shorter or empty |
| Framing.Drop | archiver.py:80 | Python's `s[lo:]` for lo >= 0: empty once lo passes the end |
| Framing.PeelFrame | archiver.py:78-80 | one step of the reading loop as written: the length from the first (up to) eight bytes, that many following bytes as payload, and the rest after them, all slices clamped |
| Framing.PeelFrameSplits | archiver.py:78-80 | one clamped step keeps everything after the header, split into payload and rest; on non-empty input the rest is strictly shorter, so the loop ends |
| Framing.DecodeFrame | archiver.py:78-80 | a successful checked step leaves strictly less input; it fails with TruncatedHeader below eight bytes and with TruncatedPayload otherwise |
| Framing.DecodeFrameSound | archiver.py:78-80 | whatever the checked step accepts is a well-formed frame of its payload followed by the rest |
| Framing.PeelLaidOut | archiver.py:78-80 | the clamped step on a header, the payload it declares and any rest yields exactly that payload and that rest |
| Framing.PeelLaidOutShort | archiver.py:78-80 | the clamped step on a header whose payload lacks its last byte yields the short payload and an empty rest |
| Framing.DecodeLaidOut | archiver.py:78-80 | the checked step on a header, the payload it declares and any rest yields exactly that payload and that rest |
| Framing.DecodeOverlongHeader | archiver.py:79 | the checked step rejects with TruncatedPayload a header that declares more bytes than follow it |
| Framing.PeelEncoded | archiver.py:78-80 | peeling `EncodeFrame(p) + rest` gives back `p` and `rest` |
| Framing.PeelTruncated | archiver.py:78-80 | peeling a frame that is cut one byte short silently returns the payload one byte short |
| Framing.DecodeEncoded | archiver.py:78-80 | the checked step accepts every encoded frame followed by anything |
| Framing.DecodeAgreesWithPeel | archiver.py:78-80 | where the checked step succeeds, the clamped step produces the same payload and rest |
| Archiver.WriteArchive | archiver.py:55-65 | the container for a run of entries: each entry's name frame then content frame, in order, nothing between or after |
| Archiver.WriteArchiveSize | archiver.py:55-65 | the container is exactly the sum over entries of 8 + \|name\| + 8 + \|content\|, and it is empty only for no entries |
| Archiver.WriteArchiveConcat | archiver.py:55-65 | the container of two runs of entries is the concatenation of their containers |
| Archiver.WriteArchiveSnoc | archiver.py:61-65 | one more entry appends exactly its name frame and then its content frame |
| Archiver.WriteArchiveCons | archiver.py:55-65 | an entry in front contributes its two frames in front |
| Archiver.Archivable | archiver.py:56-68 | a file survives the `try`: it can be opened and read, and both its name and its contents have a length below 2^64 |
| Archiver.Collected | archiver.py:55-68 | the archived entries all fit a header, and there are no more of them than files |
| Archiver.CollectedSnoc | archiver.py:55-68 | one more file adds its entry when it can be read and its lengths fit, and nothing otherwise |
| Archiver.CollectedPrefix | archiver.py:55-68 | the same step for each prefix that the loop walks through |
| Archiver.CollectedConcat | archiver.py:55-68 | files are processed independently and in order |
| Archiver.SkippedFileAddsNothing | archiver.py:56-68 | a file that cannot be read, or whose header overflows, leaves no byte in the archive, wherever it stands |
| Archiver.ArchivedFileAddsFrames | archiver.py:56-65 | an archivable file contributes exactly its name frame then its content frame, in its place |
| Archiver.ArchStepKeeps | archiver.py:58-65 | one pass of the loop over an archivable file appends its two frames |
| Archiver.ArchStepSkips | archiver.py:56-68 | one pass of the loop over any other file leaves the archive unchanged |
| Archiver.Arch | archiver.py:55-68 | the method's output is the container of exactly the archivable files, in order |
| Archiver.Extract | archiver.py:77-84 | what the reading loop yields: while a byte is left, a clamped name step then a clamped content step, one (name, contents) pair per pass |
| Archiver.ExtractUnfold | archiver.py:77-84 | one pass of the reading loop yields one (name, contents) pair and continues on the rest |
| Archiver.Unarch | archiver.py:77-84 | the loop's output is `Extract(archive)`, the pairs produced by clamped reading, in container order |
| Archiver.ExtractStep | archiver.py:77-84 | on a well-formed entry, one pass yields that entry and consumes exactly its bytes |
| Archiver.ExtractWriteArchive | archiver.py:77-84 | extracting a container gives back exactly the entries written, in order |
| Archiver.ArchThenUnarch | archiver.py:55-84 | unpacking what `arch` wrote gives exactly the archivable files, byte for byte, in order |
| Archiver.ReadArchive | archiver.py:77-84 | the stricter reader: one checked name step and one checked content step per pass until no byte is left, the first failure being the result |
| Archiver.DecodeEntry | archiver.py:77-84 | a successful checked pass leaves strictly less input |
| Archiver.DecodeEntrySound | archiver.py:77-84 | whatever a checked pass accepts is the two frames of an entry that fits, followed by the rest |
| Archiver.DecodeEntryEncoded | archiver.py:77-84 | a checked pass accepts an entry's two frames followed by anything |
| Archiver.ReadArchiveSound | archiver.py:77-84 | every container the checked reader accepts is the writer's container of the entries it returns |
| Archiver.ReadArchiveStep | archiver.py:77-84 | the checked reader reads one well-formed entry and then goes on; an error further on is the error of the whole |
| Archiver.ReadArchivePrefix | archiver.py:77-84 | a well-formed container followed by more bytes reads as its entries and then those of the bytes after it; an error there is the error of the whole |
| Archiver.ReadWriteArchive | archiver.py:77-84 | the checked reader accepts every container the writer produces and returns its entries |
| Archiver.ReadArchiveCharacterises | archiver.py:77-84 | the checked reader returns Ok(es) if and only if the input is the container of es and every entry fits |
| Archiver.ExtractAgreesWithReadArchive | archiver.py:77-84 | on every input the checked reader accepts, the clamped reading loop yields the same entries |
| Archiver.ContainerPlusByte | archiver.py:77-78 | a container followed by one stray byte is rejected with TruncatedHeader |
| Archiver.TruncationDetected | archiver.py:77-84 | dropping the last byte of a non-empty container always makes the checked reader fail |
| Archiver.EntryBytesInit | archiver.py:61-63 | cutting the last byte off an entry cuts it off the content frame |
| Archiver.TruncatedContentIsClamped | archiver.py:82-84 | with the last byte cut off, the reading loop still returns the entry, with contents one byte short, and reports no error |
| ContentHeader.TextRead | archiver.py:57 | what a text-mode `f.read()` yields for bytes that decode as themselves: "\r\n" and a lone "\r" both become "\n" |
| ContentHeader.EntryAsWritten | archiver.py:60-63 | the two frames `arch` writes for a file: the name frame, then a header of the size on disk followed by the text read |
| ContentHeader.TextReadLength | archiver.py:57 | reading in text mode shortens a file by exactly one byte per "\r\n" pair |
| ContentHeader.TextReadIdentity | archiver.py:57 | a file without a carriage return reads back unchanged |
| ContentHeader.AsWrittenWellFormedIff | archiver.py:60-63 | the frames written with the on-disk size as header are the entry's well-formed frames if and only if the file holds no "\r\n" |
| ContentHeader.AsWrittenRejected | archiver.py:62 | frames written for a file holding "\r\n" are rejected by the checked reader |
| ContentHeader.AsWrittenSwallowsNext | archiver.py:62 | on such frames followed by more bytes, the reading loop's first contents take in one following byte per "\r\n" pair, and every later frame is read out of step |

## Left out

- File I/O is not modelled. This covers opening the output (archiver.py:53), opening and reading each input (57), writing and closing (65-66, 70), reading the container (74-75), and creating the extracted files (86-88). File contents are inputs or results. A file that cannot be opened or read is a `SourceFile` with `None` contents.
- Text encoding and decoding are not modelled: `message.encode()` (15), `file.encode()` (60) and `fname.decode()` (86). Names and contents are byte sequences. A file whose text fails to decode raises inside the same `try`, so it is covered by `None` contents.
- The message printed for a skipped file (68) is not modelled. Only the skip is. The `FileNotFoundError` report in `unarch` (100-101) is I/O and is also left out.
- `btom` (32-43) is left out because nothing calls it. It is also broken as written: it reads an undefined `byte_array` at line 33, and it assigns into an empty list at line 40.
- The command-line dispatch and its prints (104-122) are left out. They are the user interface that calls `arch` and `unarch`.
- Archiver.Arch: the content header is the byte length of the payload actually written, not `os.path.getsize(file)` as at line 62. The two differ for files holding "\r\n"; see Findings, and `ContentHeader` for the size on disk.
- Archiver.SourceFile: `contents` are the bytes the text-mode read yields, so a file holding "\r", paired or lone, is not reproduced byte for byte even with the corrected header; only its framing is restored.
- ContentHeader.TextRead: models universal-newline translation for bytes that decode as themselves, as ASCII text does. Other characters, and locale encodings, are not modelled.
- `unarch` writes each extracted file while it reads. If a later step fails, the files already written stay on disk. The model returns the list of extracted pairs instead.

## Findings

| source | as written | input that shows it | evidently intended | confidence | as-written member | corrected member |
|---|---|---|---|---|---|---|
| archiver.py:62 | the content header is `os.path.getsize(file)`, the size on disk, but the payload is `f.read()` from a file opened in text mode, where "\r\n" is read as "\n" | a file whose bytes are `a\r\n` followed by any other file: the header says 3, only 2 bytes are written, and `unarch` gives the first file the bytes `a\n\0`, then reads every later frame out of step | the header is the length of the bytes actually written, so that every later frame is read in step | high, not executed | ContentHeader.AsWrittenSwallowsNext | Archiver.Arch |
