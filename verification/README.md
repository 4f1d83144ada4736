# A verified model of the libnokogiri pcap reader

libnokogiri opens a pcap capture, plain or gzip-compressed, in two passes. The
first parses the file header and builds an index by skipping from record to
record; the second fetches and caches any packet on demand. This project models
that reader in Dafny, from the descriptor wrapper up to the iterator, and proves
that the two-pass reader agrees with a plain one that takes whole records off
the front of the file.

| file | models |
|---|---|
| `Bytes.dfy` | fixed-width integers, both byte orders, the swap macros |
| `FdSpec.dfy`, `Fd.dfy` | `fd_t`: cursor, lagging end-of-file flag, cached length, codecs |
| `Zlib.dfy` | `gzfile_t::decompress_to` |
| `Packets.dfy`, `Records.dfy`, `RecordLaws.dfy` | packet headers, the record grammar, the index and their laws |
| `Header.dfy` | the file header, its ten magics |
| `Captures.dfy` | whole captures as values: what opens, what fetching does |
| `Layout.dfy` | the formats in plain numbers: which bytes mean what |
| `IndexLoop.dfy`, `Pcap.dfy` | `pcap_t`: constructor, header pass, index pass, fetching |
| `Iterator.dfy` | `bi_iterator`, walks in both directions, the test tool's loop |
| `Clients.dfy` | whole uses: two ways of opening compared, a written capture opened and fetched from |

## How the pieces fit

`Fd.Descriptor` is a class whose every method is proved to take exactly one step
of `FdSpec.FdState`. The end-of-file flag is the subtle part: a read that
delivers all it was asked for leaves it alone, a seek sets it exactly when it
lands on the length, and a seek past the end clears it. `FdSpec.FileInvOverRuns`
is the law of that state over all runs on an unchanging file.

`Records.ReadAll` is the plain reader. `Pcap.PcapFile.IngestPackets` is the
source's loop, which looks only at the flag; its contract says, for every file
and from any cursor, that it succeeds exactly when the plain reader finds at
least one record and nothing left over, and that its index is the plain reader's
records plus, when at least 12 bytes are left over, one overrunning entry
(`Records.ScanIndex`). `RecordLaws.IndexFetches` and `Captures.CaptureRefines`
close the circle: fetching an entry gives back that record.

The constructor's contract determines validity, header, swapping flag and
contents from the bytes it parses and holds (`Captures.Seen`, `Captures.Held`),
for files it accepts and files it refuses alike. The methods of `Clients.dfy`
open captures and fetch from them, and carry the theorems about captures as
values over to the objects: a compressed file against its stream, autodetection
against the explicit modes, a written capture against what was written.

## What the code does that its documentation does not say

* Records are read raw. The header of a file of the other byte order is swapped
  (pcap.cc:84-121), its records are not (pcap.cc:181, 205, 216).
  `Captures.BigCaptureIff` gives the exact condition under which such a capture
  is nevertheless read as written; `RecordLaws.BigRecordRefused` is a file of one
  captured byte that is refused.
* A header with no record after it is refused: exact reads leave the flag false,
  so the loop starts and its first read fails (`RecordLaws.FailureShape`, third case).
* pcap/packet.hh:372 says an index entry holds the size including the header; the
  code stores the captured length alone, and so does the model.
* A length asked for before a write is kept after it, so `tail` can then stop
  short of the end (`FdSpec.StaleLengthMissesEnd`); `FdSpec.TailAfterWriteIff`
  gives the exact condition under which it does not. The reader is safe because
  the temporary file's length is first asked for when the copy is rewound.
* The copy counts in a signed 32-bit integer. Its overflow is undefined in C++;
  the model wraps in two's complement, and `Clients.OpenCompressedAndPlain` then names
  the stream lengths for which a complete copy is mistaken for a failure. Below
  2^31 bytes nothing of this shows.

## Assumptions

The host is little-endian with 64-bit offsets, so shifts and masks of the codecs
are written as multiplication, division and remainder. The file is regular, is
not changed by others while it is open, and is no longer than the largest
`off_t`. A read on an open file delivers everything between cursor and end, up to
the count asked for. A write stops short where the file system's size limit is
reached. The temporary file starts empty. What zlib makes of a file is a
parameter: any stream, ending cleanly or in an error. An unopenable file, an
uncreatable temporary file and a full disk are all covered.

Formats follow sections 4 (File Header) and 5 (Packet Record) of
draft-ietf-opsawg-pcap and section 2.3.1 of RFC 1952.

## Model

| member | source | states |
|---|---|---|
| `Bytes.SwapMacros` | src/libnokogiri/internal/defs.hh:36-40 | each of the three swap macros, applied to a value read in host order, gives the value its bytes spell in the other order |
| `Bytes.SwapTwice` | src/libnokogiri/internal/defs.hh:36-40 | the three macros are the general byte reversal, and applying one twice is the identity |
| `FdSpec.FileInvOverRuns` | src/libnokogiri/internal/fd.hh:155-209 | over every run of reads, seeks, head, tail, tell, length and relative seeks: the flag implies cursor at or past the end, a known length is the true one, every operation leaves the cursor at a place given in plain numbers, after a successful seek the flag holds exactly on the end, a read sets it exactly when it asks for something at or past the end |
| `FdSpec.ClosedLaw` | src/libnokogiri/internal/fd.hh:155-209 | on a descriptor that is not open everything answers -1, nothing moves, and a seek sets the flag |
| `FdSpec.StaleLengthMissesEnd` | src/libnokogiri/internal/fd.hh:164-209 | a length cached before a write makes tail stop short of the end with the flag set |
| `FdSpec.TailExact` | src/libnokogiri/internal/fd.hh:182-209 | tail ends on the end with the flag set exactly when the length was unknown or known truly |
| `FdSpec.TailAfterWriteIff` | src/libnokogiri/internal/fd.hh:171-209 | after a write it does exactly when the length had not been asked for, nothing was written, or the write stayed within the old length |
| `FdSpec.CodecRoundTrip` | src/libnokogiri/internal/fd.hh:309-483 | any sequence of 2, 4 and 8 byte values, signed or not, each in its own order, written to an empty file with room and read back from the head returns the sequence and ends at the end |
| `FdSpec.OtherOrderSwaps` | src/libnokogiri/internal/fd.hh:309-483 | a value read in the order it was not written in is its byte swap, signed overloads included, and swapping again restores it |
| `Fd.Descriptor.Open` | src/libnokogiri/internal/fd.hh:114-115 | a fresh descriptor: cursor 0, flag false, length unknown, closed when the open failed |
| `Fd.Descriptor.ReadRaw` | src/libnokogiri/internal/fd.hh:155-162 | the bytes at the cursor land at the front of the buffer, the rest of it is kept, the flag is set exactly when something was asked for at or past the end and is never cleared |
| `Fd.Descriptor.Read` | src/libnokogiri/internal/fd.hh:215-229 | true exactly when all bytes arrived |
| `Fd.Descriptor.ReadObject` | src/libnokogiri/internal/fd.hh:279-285 | the object's bytes, or nothing when fewer arrived; the cursor moves either way |
| `Fd.Descriptor.Seek` | src/libnokogiri/internal/fd.hh:164-169 | moves unless the target is negative or too large, then compares the result with the length, caching it |
| `Fd.Descriptor.Length` | src/libnokogiri/internal/fd.hh:200-209 | asks the kernel once and keeps the answer |
| `Fd.Descriptor.Head` | src/libnokogiri/internal/fd.hh:177-178 | succeeds exactly on an open descriptor and leaves the cursor at 0 |
| `Fd.Descriptor.Tail` | src/libnokogiri/internal/fd.hh:182-189 | a seek to the length as the wrapper knows it; lands on the end with the flag set exactly when that length is unknown so far or true |
| `Fd.Descriptor.SeekRel` | src/libnokogiri/internal/fd.hh:485-491 | refuses to go before the start, otherwise a seek from the cursor |
| `Fd.Descriptor.WriteRaw` | src/libnokogiri/internal/fd.hh:171-173 | the bytes there is room for replace or extend the content at the cursor, every other byte is kept and a gap reads as zeros; flag and cached length are untouched |
| `Fd.Descriptor.Write` | src/libnokogiri/internal/fd.hh:230-238 | true exactly when all bytes landed |
| `Fd.Descriptor.ReadLE` | src/libnokogiri/internal/fd.hh:309-357 | the shifts compute the little-endian value of the bytes delivered, missing ones being zero |
| `Fd.Descriptor.ReadBE` | src/libnokogiri/internal/fd.hh:397-445 | the same, big-endian |
| `Fd.Descriptor.ReadSigned` | src/libnokogiri/internal/fd.hh:375-385 | the signed value with the same bytes: the unsigned one, or that less 2^(8w), whichever is in range |
| `Fd.Descriptor.WriteLE` | src/libnokogiri/internal/fd.hh:317-373 | the truncated shifts are the value's little-endian bytes |
| `Fd.Descriptor.WriteBE` | src/libnokogiri/internal/fd.hh:405-461 | the same, big-endian |
| `Fd.Descriptor.WriteSigned` | src/libnokogiri/internal/fd.hh:387-395 | the bytes of the value, or of the value plus 2^(8w) when it is negative |
| `Packets.DecodeEncode` | src/libnokogiri/pcap/packet.hh:68-198 | a packet header survives being written to and read from its 16 or 24 object bytes |
| `Packets.EncodeDecode` | src/libnokogiri/pcap/packet.hh:68-198 | and those bytes hold nothing but the header |
| `Packets.BigHeaderIsSwapped` | src/libnokogiri/pcap.cc:204-221 | a big-endian header's bytes are those of the header with every field swapped, which is what a raw read sees |
| `Records.EncodeReadAll` | src/libnokogiri/pcap.cc:140-170 | the plain parse splits any input into re-encodable complete records and a rest that begins with none |
| `Records.ReadAllEncode` | src/libnokogiri/pcap.cc:140-170 | written packets come back one by one, whatever follows them |
| `Records.RecordRoundTrip` | src/libnokogiri/pcap.cc:171-194 | the records of written packets are the packets, with nothing left over |
| `Records.AcceptedIffWritten` | src/libnokogiri/pcap.cc:171-194 | the accepted bodies are exactly the non-empty concatenations of complete records |
| `RecordLaws.ConcatenationLaw` | src/libnokogiri/pcap.cc:171-194 | after an accepted body, what follows decides; the index is the first body's followed by the second's with offsets moved |
| `RecordLaws.CutLaw` | src/libnokogiri/pcap.cc:171-194 | a cut accepted body is accepted exactly when the cut is the end of one of its records, and then holds the records before it and a front of its index |
| `RecordLaws.IndexFetches` | src/libnokogiri/pcap.cc:186-217 | for every file, fetching entry i gives record i of the plain reader, and an overrunning entry gives nothing |
| `RecordLaws.ScanIndexChained` | src/libnokogiri/pcap.cc:175-191 | for every file, entries follow one another and end at the end of the file only when nothing is left over |
| `RecordLaws.Tiling` | src/libnokogiri/pcap.cc:126-191 | the entries of an accepted body start at its start, partition its bytes and number at most its size over the header size |
| `RecordLaws.FailureShape` | src/libnokogiri/pcap.cc:175-191 | a refused body fails in exactly one of three ways, keeps the chain law, has all entries but the last inside and a bounded count |
| `RecordLaws.BigIndexIff` | src/libnokogiri/pcap.cc:181-186 | big-endian records are indexed as meant exactly when every captured length reads the same in both orders |
| `RecordLaws.BigRecordsIff` | src/libnokogiri/pcap.cc:204-247 | and read back as meant exactly when every header field does |
| `RecordLaws.BigRecordRefused` | src/libnokogiri/pcap.cc:175-191 | a concrete one-packet body accepted in host order and refused in the other |
| `Layout.OrderByMagic` | src/libnokogiri/pcap.cc:52-80 | the order is the host's exactly for the five magics and the other exactly for their five swaps, by value |
| `Layout.HeaderAccepted` | src/libnokogiri/pcap.cc:51-124 | a header is taken exactly when 24 bytes are there and the first four are one of the ten values |
| `Layout.FormatByMagic` | src/libnokogiri/pcap/header.hh:20-33 | which of the five formats each magic value stores, and the record sizes it brings |
| `Layout.RecordSizes` | src/libnokogiri/pcap.cc:126-138 | 24-byte record headers exactly for the Modified magic, 16-byte ones otherwise, the body offset being 12 less |
| `Layout.HeaderFields` | src/libnokogiri/pcap.cc:82-121 | each field of the file header as the number at its offset in the file's order, the timezone signed, the link type its low half |
| `Layout.NothingStored` | src/libnokogiri/pcap/header.hh:96-99 | a file without a known magic leaves the initial header, field by field |
| `Layout.PacketFields` | src/libnokogiri/pcap/packet.hh:68-156 | each field of a fetched packet as the number at its offset in the record, and its data as the bytes after the header |
| `Header.SwappedMagics` | src/libnokogiri/pcap/header.hh:20-33 | the five swapped enumerators are the byte swaps of the other five |
| `Header.MagicSwitch` | src/libnokogiri/pcap.cc:52-80 | looking the raw magic up among the ten finds the byte order in which it spells one of the five |
| `Header.HeaderRoundTrip` | src/libnokogiri/pcap.cc:82-121 | the same fields written in either order parse to the same header, sign of the timezone kept, link type cut to 16 bits |
| `Header.ParseHeaderRoundTrip` | src/libnokogiri/pcap.cc:82-121 | a parsed header, its order and the dropped half of the link type determine the 24 bytes |
| `Header.HeaderIsNotGzip` | src/libnokogiri/common.cc:13-26 | nothing with a known magic begins with the gzip identification |
| `Zlib.GzFile.DecompressTo` | src/libnokogiri/internal/zlib.hh:137-165 | for every stream and every point of failure: how much of it lands in the file, and what is returned |
| `Zlib.CopyOutcome` | src/libnokogiri/internal/zlib.hh:137-165 | a non-negative result means the file grew by exactly the stream; below 2^31 bytes the result is its length and -1 a failure; a failure leaves a front of it, after a read error whole 8192-byte chunks |
| `Captures.FetchRunCoherent` | src/libnokogiri/pcap.cc:196-250 | after any fetches in any order every answer is its entry's record, as long as entry and header say, the index is unchanged, and each cache is the empty packet or its record |
| `Captures.FetchOrderIrrelevant` | src/libnokogiri/pcap.cc:196-250 | only which entries were fetched matters to what is cached |
| `Captures.CaptureRefines` | src/libnokogiri/pcap.cc:171-250 | an open capture has as many entries as the plain reader has packets, and a fetch of entry i at any point of any run gives packet i, of the length its entry and header say |
| `Captures.CaptureRoundTrip` | src/libnokogiri/pcap.cc:51-250 | a written capture opens with its header, its count and exactly its packets |
| `Captures.CaptureIsWritten` | src/libnokogiri/pcap.cc:51-250 | every file that opens is what the writer makes of its own header and packets |
| `Captures.BigCaptureIff` | src/libnokogiri/pcap.cc:68-72 | a capture wholly in the other order is read as written exactly when every record header reads the same in both orders |
| `Clients.OpenCompressedAndPlain` | src/libnokogiri/pcap.cc:26-48 | a compressed file whose stream is copied whole opens as the stream opens on its own: same validity, header, swapping flag, index and caches, exactly unless the stream's length is -1 in 32 bits and it begins with a magic |
| `Clients.OpenAutodetectAndExplicit` | src/libnokogiri/pcap.cc:19-48 | autodetection opens every file, openable or not, as Compressed would when it begins with the gzip identification and as Uncompressed would otherwise; a capture is always opened as one |
| `Clients.FetchAll` | src/libnokogiri/pcap.hh:104-109 | any sequence of fetches by position on an object is that run of fetches on the capture it stands for |
| `Clients.OpenWritten` | src/libnokogiri/pcap.cc:19-250 | a written capture opens as valid with the header and count written, and gives packet i, first and again |
| `IndexLoop.Advances` | src/libnokogiri/pcap.cc:186-190 | one more entry keeps the loop's invariant, and past the end it was the last |
| `Pcap.PacketStorage.constructor` | src/libnokogiri/pcap/packet.hh:385-387 | an entry starts with the empty packet |
| `Pcap.DetectCompression` | src/libnokogiri/common.cc:12-29 | Compressed exactly when the bytes are 1F 8B, Unknown exactly when there are not two; the cursor is back at 0 and the flag false unless the file is empty |
| `Pcap.PcapFile.constructor` | src/libnokogiri/pcap.cc:19-49 | valid exactly when the bytes seen are a header, at least one record and nothing else; header, swapping flag, index and empty caches are determined by the bytes, also when a pass failed |
| `Pcap.PcapFile.ReadHeader` | src/libnokogiri/pcap.cc:51-124 | true exactly on 24 bytes with a known magic; cursor then at 24 with the flag false; for every file each field is stored exactly when its bytes are there, never with a swapped variant, and swapping is needed exactly for the other order |
| `Pcap.PcapFile.IngestPackets` | src/libnokogiri/pcap.cc:171-194 | succeeds exactly on a non-empty run of complete records ending with the file, takes at most one iteration more than it makes entries, and leaves the index the plain reader determines |
| `Pcap.PcapFile.FetchPacket` | src/libnokogiri/pcap.cc:196-250 | the record at the entry's offset, from any cursor and flag; cached exactly when there is one; nothing else of the capture changes |
| `Pcap.PcapFile.GetPacket` | src/libnokogiri/pcap.hh:104-109 | fetches within bounds, nothing beyond |
| `Iterator.MovesStayInside` | src/libnokogiri/internal/iterator.hh:26-42 | over every run of ++ and -- the position stays between beginning and end |
| `Iterator.StraightRuns` | src/libnokogiri/internal/iterator.hh:26-42 | k steps from one side reach the k-th position or saturate at the other side |
| `Iterator.BiIterator.Increment` | src/libnokogiri/internal/iterator.hh:26-33 | one step forward, none at the end |
| `Iterator.BiIterator.Decrement` | src/libnokogiri/internal/iterator.hh:35-42 | one step back, none at the beginning |
| `Iterator.BiIterator.Access` | src/libnokogiri/internal/iterator.hh:44-45 | dereferencing is a fetch of the current entry |
| `Iterator.Traverse` | src/libnokogiri/pcap.hh:113-123 | ++ and * from begin until end fetch every entry once, in order |
| `Iterator.TraverseBack` | src/libnokogiri/internal/iterator.hh:35-53 | -- and * from end until begin fetch every entry once, in reverse |
| `Iterator.ReadTool` | tests/pcap_test.cc:67-81 | 0 exactly when every entry has a record with data, otherwise 1 at the first that has none, with nothing after it fetched |
| `Iterator.TraversalComplete` | src/libnokogiri/pcap.hh:113-123 | over a capture the fetches of `Traverse` yield every packet in file order, those of `TraverseBack` the reverse, and both leave every packet cached |

## Left out

- IngestPackets: where a failed index pass leaves the cursor; nothing later depends on it.
- GetPacket: position equal to the count, which the source's bounds test lets through to an element that does not exist.
- `save` and `remove_packet` are stubs in the source; captures are written by the specification instead.
- Moving and swapping `pcap_t`, and changing the header or a fetched packet through the references its accessors hand out.
- `version_t` ordering, typed views into packet data, name tables, unit literals.
- Interrupted reads, read errors on an open file and the kernel's per-call read cap; a packet above about 2 GiB is read in one call here.
- Names, modes and deletion of temporary files, closing of descriptors, and the Windows branches.
- `gzfile_t` beyond `decompress_to`, and everything pcapng, which has no parser.
