# Model of Lunix:TNG and cryptodev-linux

This project models two kernel components and proves properties of the model with Dafny 4.11.
`dafny verify dfyconfig.toml` checks all of it.

**Lunix:TNG** is a sensor driver. `LunixProtocol` is its packet parser, which keeps its state
from one chunk of serial input to the next, as a class whose methods change the parser's
fields; `LunixFraming` proves what the parser makes of whole streams. `LunixReader` is one
reader of a device file against updates by other threads: a transition system over atomic
actions, and a class that performs them on the driver's fields; `ReadCalls` says what a whole
read comes to.

**cryptodev-linux** is `/dev/crypto`. `Scatterlist`, `UserPages` and `AuthMapping` turn user
memory into scatterlists; a list means a sequence of physical addresses, and each routine is
proved to do to that sequence what it should. `Ciphers` states what is expected of the
kernel's ciphers and hashes and shows that CBC (section 6.2 of NIST SP 800-38A) and counter
mode meet it. `CryptoRun`, `MultiUpdate` and `CryptoOps` are the traditional operation: two
paths for the data, the hash flags, and one call from its checks to its digest. `TlsRecord`
(section 6.2.3.2 of RFC 5246) and `SrtpRecord` (section 3.3 of RFC 3711) are the
authenticated operations, with `AuthRecord` for what they share. `SessionTable` and
`AsyncRing` are the two concurrent structures, as transition systems over any number of
threads together with classes that take the steps on the driver's fields; `SessionCalls` and
`RingCalls` follow single calls from their start to their return through any interleaving.

## What the code does, where one might expect otherwise

Each of these is proved, with the exact condition where there is one.

- A call of the packet parser drops whatever follows a frame's end in the same chunk
  (`LunixFraming.SecondFrameInChunkIsLost`, `ChunkLosesNothing`).
- A measurement packet with a short payload is read together with stale bytes of an earlier
  packet (`LunixFraming.StaleBytes`).
- A reader compares time stamps after releasing the spinlock, so it can deliver a value that
  was never measured, or one measurement twice: exactly when the test passes for a snapshot
  that the buffer already holds (`LunixReader.NewerIffNeverOvertaken`).
- The time stamp is taken over before the copy, so a text whose first copy faults or asks for
  no bytes is lost (`LunixReader.FirstCopyDecides`).
- The two data paths part on a hash-only decryption from one buffer to another, of which they
  hash different ones, and on null buffers: two of them pass for an operation in place on
  whatever table entry the session used last, and a single one that is used is a null list
  (`CryptoRun.PathsAgreeExactly`, `NullBuffersPart`).
- The hash is reset by a call without any flag; a flag that concerns only the data path, such
  as COP_FLAG_NO_ZC, suppresses the reset (`MultiUpdate.OneShotNeedsReset`). A call sets that
  flag in its block when a buffer is misaligned, so a block that is used again keeps the old
  hash (`CryptoOps.ReusedBlockNeedsAlignment`).
- The reset happens even when the call is then refused for its length (`CryptoOps.Prepare`).
- A tag longer than the digest is filled up with whatever the stack held, and a record sealed
  with it need not open again (`TlsRecord.RoundTrip`, `SrtpRecord.RoundTrip`).
- SRTP decryption refuses a tag longer than the encrypted part, which encryption accepts
  (`SrtpRecord.RoundTrip`).
- A null SRTP auth buffer is refused only if the destination is null too. With a source address
  of at most 256 the call goes on with whatever table entry the session used last, and puts
  pages that it has not pinned (`SrtpRecord.SrtpRun`, `NullAuthBufferPutsUnpinned`).
- A source 4 GB behind its SRTP auth buffer passes for one near it
  (`AuthMapping.TailIsSource`, `FarSourceAliases`).
- TLS decryption refuses good padding that leaves no room for the tag with another error than
  bad padding (`TlsRecord.OneErrorIff`).
- An authenticated operation whose pages can only be pinned in part keeps those pinned
  (`TlsRecord.TlsRun`, `SrtpRecord.SrtpRun`).
- A copy of no bytes leaves its target's first entry in the target's list
  (`Scatterlist.SgCopy`).
- Finishing a session that does not exist returns 0: the cursor of the list walk ends at the
  head, never at null, so the branch for -ENOENT cannot be taken
  (`SessionTable.Fcrypt.Walk`, `MissingSidReturnsZero`).
- A failed item allocation leaves the item count too high for good, and release then reports
  fewer items than it expects (`AsyncRing.FailedAllocationLeaks`, `ReleaseFreesAll`).

A remark that needs no proof beyond its definition: without a hash, bad TLS padding goes
unreported (`TlsRecord.NoHashNoPadCheck`).

## Model

| member | source | states |
|---|---|---|
| LunixProtocol.ProtocolState.constructor | 2/lunix-tng-helpcode-2021/lunix-protocol.c:116-121 | a fresh parser waits for one start byte at position 0 with no escape pending, and is in the invariant of all runs |
| LunixProtocol.ProtocolState.ConsumeByte | 2/lunix-tng-helpcode-2021/lunix-protocol.c:160-192 | one turn of the loop: an escape byte is remembered and not stored; the byte after it is stored as it is after 0x7E and xored with 0x20 after 0x7D |
| LunixProtocol.ProtocolState.ParseState | 2/lunix-tng-helpcode-2021/lunix-protocol.c:134-205 | the loop takes bytes exactly until its field is full or the chunk ends, and returns 1 exactly in the first case; the overflow guard is never taken |
| LunixProtocol.ProtocolState.ReceivedBuf | 2/lunix-tng-helpcode-2021/lunix-protocol.c:212-268 | the whole cascade of field tests equals folding a one-byte step over the chunk up to the byte that completes a frame, for every parser state in the invariant and every chunk; sensors change exactly by the delivered packet |
| LunixProtocol.FieldIsSteps | 2/lunix-tng-helpcode-2021/lunix-protocol.c:134-205 | running one field's loop and then switching fields is the same as single-byte steps |
| LunixProtocol.ProtocolState.SensorsFromPacket | 2/lunix-tng-helpcode-2021/lunix-protocol.c:57-84 | sensor n - 1 gets the packet's three little-endian values with the current time if and only if the AM type is 0x0B and n is in range; no other sensor changes |
| LunixFraming.PositionBound | 2/lunix-tng-helpcode-2021/lunix-protocol.h:21 | in every parser state the position is at most 265, so the 300-byte packet buffer cannot overflow |
| LunixFraming.RunSplit | 2/lunix-tng-helpcode-2021/lunix-protocol.c:212-268 | the state left by a piece of a stream is all that the next piece depends on |
| LunixFraming.FoldIsCutRun | 2/lunix-tng-helpcode-2021/lunix-protocol.c:255-263 | one call runs the byte-wise parser on the shortest prefix of its chunk that completes a frame, or on all of it |
| LunixFraming.ChunkLosesNothing | 2/lunix-tng-helpcode-2021/lunix-protocol.c:255-268 | a call treats its chunk like the byte-wise parser if and only if no frame ends before the chunk's last byte |
| LunixFraming.ChunkingIsInvisible | 2/lunix-tng-helpcode-2021/lunix-protocol.c:212-268 | if no chunk runs past a frame's end, the packets delivered and the final state are those of the undivided stream |
| LunixFraming.FrameRoundTrip | 2/lunix-tng-helpcode-2021/lunix-protocol.c:86-98 | a frame with any header, 0 to 255 payload bytes and any CRC, byte-stuffed and fed to an idle parser, is stored unstuffed, delivered with its last byte and no earlier, and leaves the parser idle |
| LunixFraming.EscapedField | 2/lunix-tng-helpcode-2021/lunix-protocol.c:160-192 | unstuffing undoes stuffing for a field of any content |
| LunixFraming.AnyChunkingOfAFrame | 2/lunix-tng-helpcode-2021/lunix-protocol.c:212-268 | one frame cut into chunks in any way, empty chunks included, is delivered exactly once and unchanged |
| LunixFraming.StreamOfFrames | 2/lunix-tng-helpcode-2021/lunix-protocol.c:212-268 | a sequence of frames, each cut in any way at and between its bytes, is delivered frame by frame in order |
| LunixFraming.SecondFrameInChunkIsLost | 2/lunix-tng-helpcode-2021/lunix-protocol.c:255-268 | whatever follows a frame's end in the same chunk is dropped: the call ends as if it were not there |
| LunixFraming.FrameUpdatesSensors | 2/lunix-tng-helpcode-2021/lunix-protocol.c:57-84 | a delivered frame of type 0x0B with 17 or more payload bytes, whose payload bytes 2 and 3 name a sensor that exists, puts battery, temperature and light from the little-endian pairs at 11, 13 and 15 into that sensor's own pages, stamped with the clock cut to 32 bits, and changes no other sensor; any other frame changes none |
| LunixFraming.WireUpdatesSensors | 2/lunix-tng-helpcode-2021/lunix-protocol.c:212-268 | the same from the wire to the sensors: the stuffed frame, in one chunk with whatever follows it, handed to an idle parser |
| LunixFraming.WireBytes | 2/lunix-tng-helpcode-2021/lunix-protocol.c:86-98 | the fields of a frame on the wire, in order, and which of them are stuffed |
| LunixFraming.EscapeBytes | 2/lunix-tng-helpcode-2021/lunix-protocol.c:160-182 | 0x7E travels as 7D 5E, 0x7D as 7D 5D, any other byte as itself |
| LunixFraming.EscapesMean | 2/lunix-tng-helpcode-2021/lunix-protocol.c:160-182 | what an escaping field stores behind 0x7E, behind 0x7D, and without an escape |
| Bytes.XorBit5 | 2/lunix-tng-helpcode-2021/lunix-protocol.c:167 | the exclusive-or with 0x20 flips bit 5 and nothing else |
| LunixFraming.StaleBytes | 2/lunix-tng-helpcode-2021/lunix-protocol.c:66-82 | the update is the frame's own, whatever the buffer held before, if and only if the frame is not of type 0x0B, or its payload has at least 14 bytes, CRC and end byte then covering the last fields, or it names node 0 |
| LunixReader.OpenFile.constructor | 2/lunix-tng-helpcode-2021/lunix-chrdev.c:148-160 | a newly opened file has an empty buffer, time stamp 0 and position 0, whatever the sensor has published before |
| LunixReader.OpenFile.SensorUpdate | 2/lunix-tng-helpcode-2021/lunix-sensors.c:74-96 | an update by another thread replaces value and time stamp together and touches nothing of the reader |
| LunixReader.OpenFile.StateUpdateSnapshot | 2/lunix-tng-helpcode-2021/lunix-chrdev.c:69-73 | value and time stamp are copied as one publication, without yet changing the buffer |
| LunixReader.OpenFile.StateUpdateDecide | 2/lunix-tng-helpcode-2021/lunix-chrdev.c:82-116 | the unlocked freshness test decides between formatting the snapshot into the buffer, returning -EAGAIN and sleeping; it returns 0 exactly after a refresh |
| LunixReader.OpenFile.WakeUp | 2/lunix-tng-helpcode-2021/lunix-chrdev.c:212-221 | a woken reader looks again; an interrupted one returns -ERESTARTSYS with nothing consumed |
| LunixReader.OpenFile.CopyToUser | 2/lunix-tng-helpcode-2021/lunix-chrdev.c:226-254 | the user gets the next bytes of the cached text up to its end, the position follows, and rewinds exactly at the end; a fault delivers nothing |
| LunixReader.ApplyInv | 2/lunix-tng-helpcode-2021/lunix-chrdev.c:179-255 | every atomic action of reader and publisher keeps the buffer equal to one publication's text and the delivered bytes equal to whole texts and a piece of it |
| LunixReader.StreamIntegrity | 2/lunix-tng-helpcode-2021/lunix-chrdev.c:57-255 | for every file opened at any time and every schedule of reads of any size and updates with a non-decreasing clock, the bytes delivered are a prefix of whole measurement texts, each of one publication, in order of time stamps |
| LunixReader.NewerIffNeverOvertaken | 2/lunix-tng-helpcode-2021/lunix-chrdev.c:69-111 | every text put in the buffer is newer than the one before it if and only if no freshness test passes for a snapshot that the buffer already holds; for every run from every state of the invariant |
| LunixReader.FinishedAreShown | 2/lunix-tng-helpcode-2021/lunix-chrdev.c:206-249 | only texts that are put in the buffer reach the user, each read to its end at most once for each time it is put there, and in that order |
| LunixReader.ReadersSeeEachMeasurementOnce | 2/lunix-tng-helpcode-2021/lunix-chrdev.c:57-255 | where no test passes for an overtaken snapshot, every measurement is read to its end at most once, in order, and the initial zero never |
| LunixReader.QuietReadersSeeEachMeasurementOnce | 2/lunix-tng-helpcode-2021/lunix-chrdev.c:69-82 | in particular if no update falls between a snapshot and its freshness test |
| LunixReader.FirstCopyDecides | 2/lunix-tng-helpcode-2021/lunix-chrdev.c:97-249 | in a run in which no test passes for an overtaken snapshot, a refreshed text reaches the user if and only if its first copy neither faults nor asks for no bytes; otherwise no later call hands out a byte of it |
| LunixReader.RaceShowsUnmeasuredValue | 2/lunix-tng-helpcode-2021/lunix-chrdev.c:69-82 | a schedule in which a test passes for an overtaken snapshot, and the reader gets a value that was never measured |
| LunixReader.ReaderCanStep | 2/lunix-tng-helpcode-2021/lunix-chrdev.c:206-223 | a reader inside a call can always go on, or sleeps until there is something new or a signal |
| ReadCalls.ReadOutcome | 2/lunix-tng-helpcode-2021/lunix-chrdev.c:182-252 | a whole read, whatever is published meanwhile: it hands out as many bytes as are asked for or the rest of one text, that of the text read before, or, at position 0, of a measurement at least as new as the newest at entry, and moves the position by as many or back to 0 at the end; or it hands out nothing and leaves the position alone, because the copy faulted, a signal came, or the file does not block and the newest measurement is of the second that the buffer shows |
| ReadCalls.NonBlockingNeverSleeps | 2/lunix-tng-helpcode-2021/lunix-chrdev.c:213-219 | in no run of a file opened with O_NONBLOCK does the reader sleep |
| Scatterlist.SgAdvance | 3/cryptodev/cryptodev-linux-1.10/cryptodev-linux/util.c:28-53 | NULL exactly when the list has no more bytes than asked for; otherwise the entry returned denotes the list without its first bytes, with its offset below a page and no other entry changed |
| Scatterlist.NormalisedAddrs | 3/cryptodev/cryptodev-linux-1.10/cryptodev-linux/util.c:46-50 | moving whole pages of the offset into the page number keeps every address |
| Scatterlist.SgCopy | 3/cryptodev/cryptodev-linux-1.10/cryptodev-linux/util.c:59-79 | the table afterwards, for any two lists; if they do not overlap, it succeeds exactly when the bytes are there and fit the target's entries, and then the target denotes the first len bytes of the source if and only if len is positive or the target's first entry is empty |
| Scatterlist.CopyMeaning | 3/cryptodev/cryptodev-linux-1.10/cryptodev-linux/util.c:59-79 | what the copy loop computes, in success and in failure, in terms of the addresses denoted |
| Scatterlist.CopyShort | 3/cryptodev/cryptodev-linux-1.10/cryptodev-linux/util.c:61-72 | a copy that asks a single entry for more than it has fails, and leaves that entry's bytes in the target |
| UserPages.SegmentCount | 3/cryptodev/cryptodev-linux-1.10/cryptodev-linux/zc.h:17-21 | PAGECOUNT is the number of per-page segments of a range |
| UserPages.SegmentsInPages | 3/cryptodev/cryptodev-linux-1.10/cryptodev-linux/zc.c:83-92 | each segment lies inside its own page, is not empty, and only the last one is marked |
| UserPages.SegmentsCoverRange | 3/cryptodev/cryptodev-linux-1.10/cryptodev-linux/zc.c:81-92 | the segments of a range denote exactly the addresses of the range, in order |
| UserPages.PagesAreTheRange | 3/cryptodev/cryptodev-linux-1.10/cryptodev-linux/zc.c:52-92 | the frames pinned for a range are those of exactly the pages that it touches, one each and in order, and each of its bytes lies in one of them |
| UserPages.GetUserbufRange | 3/cryptodev/cryptodev-linux-1.10/cryptodev-linux/zc.c:49-94 | succeeds exactly when nothing is to be mapped or all pages were pinned; then the entries from base on are the segments of the range and denote it; other entries are untouched |
| UserPages.FillSegments | 3/cryptodev/cryptodev-linux-1.10/cryptodev-linux/zc.c:83-91 | the loop fills exactly one entry per page |
| UserPages.InPlacePageCount | 3/cryptodev/cryptodev-linux-1.10/cryptodev-linux/zc.c:163-167 | in place, the larger of two page counts is that of the longer length |
| UserPages.AdjustSgArray | 3/cryptodev/cryptodev-linux-1.10/cryptodev-linux/zc.c:96-120 | the arrays grow by doublings, no further than the pages asked for need; old entries move along |
| UserPages.ReleaseUserPages | 3/cryptodev/cryptodev-linux-1.10/cryptodev-linux/zc.c:122-138 | every used page is dirtied unless reserved, flushed if behind the read-only ones, and put; the counters end at 0 if the read-only pages were among the used ones |
| UserPages.ReleaseBalancesPins | 3/cryptodev/cryptodev-linux-1.10/cryptodev-linux/zc.c:122-138 | a release puts every pinned page exactly once |
| UserPages.ReleaseFlushesWritable | 3/cryptodev/cryptodev-linux-1.10/cryptodev-linux/zc.c:130-133 | exactly the pages behind the read-only prefix are flushed |
| UserPages.ReleaseMarks | 3/cryptodev/cryptodev-linux-1.10/cryptodev-linux/zc.c:120-139 | each page is put once for each time it was pinned; exactly the pages that are not reserved are marked dirty, once for each put, and none of them is put before |
| UserPages.GetUserbuf | 3/cryptodev/cryptodev-linux-1.10/cryptodev-linux/zc.c:143-220 | succeeds exactly when all pages of both ranges can be pinned; then each is pinned once, the lists denote the ranges, in place over the longer length, and the counters say which pages are read-only; with two null buffers the list is that of a stale table entry |
| AuthMapping.GetUserbufTls | 3/cryptodev/cryptodev-linux-1.10/cryptodev-linux/authenc.c:54-94 | succeeds exactly when there is a record buffer and its pages can be pinned; the list denotes the buffer; pages pinned half way stay pinned |
| AuthMapping.GetUserbufSrtp | 3/cryptodev/cryptodev-linux-1.10/cryptodev-linux/authenc.c:105-173 | when it succeeds, for every auth buffer, null or not; the auth list and the dst list it then leaves; and its page log: behind a null auth buffer that passes the guards the lists are those of a stale table entry, nothing is pinned, and the table's pages count as used; when it fails, every page put had been pinned if and only if the call stopped at a guard or the auth buffer is not null |
| AuthMapping.MapAuth | 3/cryptodev/cryptodev-linux-1.10/cryptodev-linux/authenc.c:142-170 | the part behind the guards: the auth list stays intact and the dst list is its tail |
| AuthMapping.TailIsSource | 3/cryptodev/cryptodev-linux-1.10/cryptodev-linux/authenc.c:136-165 | for an accepted call with a non-null auth buffer the dst list is the range from the source to the end of the buffer if and only if the source is less than 2 GB behind its start |
| AuthMapping.GuardsMean | 3/cryptodev/cryptodev-linux-1.10/cryptodev-linux/authenc.c:113-128 | for addresses less than 2 GB apart the guards let through exactly the sources at most 256 bytes behind the start of the auth buffer, with lengths above 0 and a buffer that is not null |
| AuthMapping.FarSourceAliases | 3/cryptodev/cryptodev-linux-1.10/cryptodev-linux/authenc.c:136-165 | a source 4 GB behind the auth buffer is accepted, and the whole buffer taken for it |
| AuthMapping.CarveTail | 3/cryptodev/cryptodev-linux-1.10/cryptodev-linux/authenc.c:162-170 | copying the list behind itself and advancing the copy leaves the first list as it was and makes the second its tail, also when the list is too short |
| Ciphers.CbcInverts | 3/cryptodev/cryptodev-linux-1.10/cryptodev-linux/cryptlib.c:329-349 | CBC decryption undoes CBC encryption for every block permutation, IV and whole number of blocks, and leaves the same IV |
| Ciphers.CbcChains | 3/cryptodev/cryptodev-linux-1.10/cryptodev-linux/main.c:126-155 | CBC over two pieces with the IV carried over is CBC over the whole |
| Ciphers.CbcBlock | 3/cryptodev/cryptodev-linux-1.10/cryptodev-linux/cryptlib.c:308-349 | block by block: a block of plain text is combined with the cipher text before it, the first one with the IV, and goes through the block cipher; backwards for decryption |
| Ciphers.CbcLeaves | 3/cryptodev/cryptodev-linux-1.10/cryptodev-linux/main.c:126-155 | the IV left is the last block of the cipher text, in both directions |
| Ciphers.CbcLawful | 3/cryptodev/cryptodev-linux-1.10/cryptodev-linux/main.c:73-87 | CBC over a block permutation meets all that the data paths need of a cipher |
| Ciphers.CtrLawful | 3/cryptodev/cryptodev-linux-1.10/cryptodev-linux/authenc.c:618-622 | so does counter mode, as a stream cipher that may be cut at counter blocks |
| Ciphers.CtrByte | 3/cryptodev/cryptodev-linux-1.10/cryptodev-linux/authenc.c:618-622 | byte by byte: each byte is combined with the byte of the key stream that belongs to its place, and the counter left is the next one |
| CryptoRun.HashNCryptSplit | 3/cryptodev/cryptodev-linux-1.10/cryptodev-linux/main.c:56-100 | hashing and ciphering two lists cut at the same place, one piece after the other, is doing it to the whole lists, in both directions |
| CryptoRun.PassRoundTrip | 3/cryptodev/cryptodev-linux-1.10/cryptodev-linux/main.c:63-95 | encryption hashes the source bytes as they were before; decrypting the result restores them and ends with the same hash and IV, so the hash covers the plaintext in both directions |
| CryptoRun.TurnIsPass | 3/cryptodev/cryptodev-linux-1.10/cryptodev-linux/main.c:126-155 | one turn through the kernel page equals one pass over the user's bytes, outside that page |
| CryptoRun.StdIsUserPass | 3/cryptodev/cryptodev-linux-1.10/cryptodev-linux/main.c:104-159 | the bounce run leaves the memory outside the kernel page, the IV and the hash that one pass over the user's buffers leaves, for buffers that coincide or are disjoint and any number of pages |
| CryptoRun.StdFaultsIff | 3/cryptodev/cryptodev-linux-1.10/cryptodev-linux/main.c:126-155 | the bounce run returns 0 if and only if every source byte can be read and, with a cipher, every target byte be written, and -EFAULT otherwise |
| CryptoRun.ZcIsUserPass | 3/cryptodev/cryptodev-linux-1.10/cryptodev-linux/main.c:171-181 | the zero-copy run is that pass if the buffers that are used are not null, whatever the table holds |
| CryptoRun.StdIsZc | 3/cryptodev/cryptodev-linux-1.10/cryptodev-linux/main.c:104-182 | so the zero-copy run refines the bounce run when the buffers that are used are not null |
| CryptoRun.PathsAgreeExactly | 3/cryptodev/cryptodev-linux-1.10/cryptodev-linux/main.c:56-182 | the two paths agree on every memory, IV, hash and table entry if and only if the buffers that are used are not null, and the call has a cipher, has no hash, encrypts, or works in place |
| CryptoRun.NullBuffersPart | 3/cryptodev/cryptodev-linux-1.10/cryptodev-linux/zc.c:155-190 | two null buffers with page 0 mapped: of an encryption that hashes, the two paths end with the same hash if and only if page 0 and the stale table entry hold the same bytes |
| MultiUpdate.StateIsHistory | 3/cryptodev/cryptodev-linux-1.10/cryptodev-linux/main.c:202-262 | after any sequence of calls the hash holds exactly the data since the last reset, or nothing once a digest was taken of it |
| MultiUpdate.DigestIsOfWholeMessage | 3/cryptodev/cryptodev-linux-1.10/cryptodev-linux/main.c:252-262 | a digest that is handed out, when none has been since the last reset, is that of all data since it |
| MultiUpdate.SplitIsInvisible | 3/cryptodev/cryptodev-linux-1.10/cryptodev-linux/main.c:202-262 | a message split into updates in any way and closed by a final call gives the digest of one call over all of it |
| MultiUpdate.OneShotNeedsReset | 3/cryptodev/cryptodev-linux-1.10/cryptodev-linux/main.c:202 | a call hashes its own data alone, whatever came before, if and only if it carries no flag at all or the reset flag; a flag that has nothing to do with hashing, such as the one against zero copy, keeps the old state |
| CryptoOps.HashNCryptLists | 3/cryptodev/cryptodev-linux-1.10/cryptodev-linux/main.c:56-100 | hash before encryption, after decryption, with the session's own IV and hash |
| CryptoOps.RunStd | 3/cryptodev/cryptodev-linux-1.10/cryptodev-linux/main.c:104-159 | the page-by-page loop, with its -EFAULT exits before and behind the work on a page, ends in the state of the bounce run |
| CryptoOps.RunZeroCopy | 3/cryptodev/cryptodev-linux-1.10/cryptodev-linux/main.c:164-182 | if all pages can be pinned, one pass over the mapped lists, after which every page pinned has been put, exactly the target's pages flushed and both counters are 0; otherwise the bounce run; two null buffers give the list of a stale table entry |
| CryptoOps.RunData | 3/cryptodev/cryptodev-linux-1.10/cryptodev-linux/main.c:224-245 | which of the two paths a call takes, and its outcome, two null buffers included: zero copy needs the flag off and both addresses aligned |
| CryptoOps.PathIsInvisible | 3/cryptodev/cryptodev-linux-1.10/cryptodev-linux/main.c:104-182 | a call whose used buffers are not null and fit ends in the same state on every path and with every table entry, the fallback included, and returns 0; without a cipher an encryption needs only a readable source |
| CryptoOps.HashOnlyRun | 3/cryptodev/cryptodev-linux-1.10/cryptodev-linux/main.c:104-159 | without a cipher the bounce loop hashes the source and writes nothing |
| CryptoOps.Prepare | 3/cryptodev/cryptodev-linux-1.10/cryptodev-linux/main.c:202-222 | the hash is reset by the flags even if the length is then refused; the IV comes in up to the shorter of the two IV lengths |
| CryptoOps.Report | 3/cryptodev/cryptodev-linux-1.10/cryptodev-linux/main.c:247-262 | the IV goes out and the digest is handed out exactly when the flags or an empty input ask for it |
| CryptoOps.HashFinal | 3/cryptodev/cryptodev-linux-1.10/cryptodev-linux/cryptlib.c:434-444 | the digest of what was absorbed is laid over the front of the output buffer; the hash is finished |
| CryptoOps.RunCall | 3/cryptodev/cryptodev-linux-1.10/cryptodev-linux/main.c:184-267 | -EINVAL for an unknown operation or a partial block; otherwise the return value and the state are those of the data phase, on every path and with any buffers. On a call that fits, whatever its path: the target holds what the session's cipher makes of the source bytes, under the first bytes of the call's IV and the rest of the session's; no other user byte changes; the IV left goes to the session and over the front of the call's; the hash message is the plain text, behind the old message unless the reset flag or no flag is set; and the digest goes out, over the front of its buffer, if and only if the call is final, no update, or empty |
| CryptoOps.FittingMeans | 3/cryptodev/cryptodev-linux-1.10/cryptodev-linux/main.c:184-267 | the same as a statement about any way a call that fits can end |
| CryptoOps.FittingCall | 3/cryptodev/cryptodev-linux-1.10/cryptodev-linux/main.c:184-267 | a call that fits returns 0 in the state of one pass over its buffers and reports that state's IV and digest |
| CryptoOps.HashOnlyCall | 3/cryptodev/cryptodev-linux-1.10/cryptodev-linux/main.c:184-267 | a call on a session with only a hash is one step of the hash protocol over the source bytes, and its digest is that of the message so far |
| CryptoOps.DigestOfAllSources | 3/cryptodev/cryptodev-linux-1.10/cryptodev-linux/main.c:184-267 | over any history of calls on such a session, the memory changing in any way in between, a digest that is handed out, when none has been since the last reset, is that of all source bytes since that reset |
| CryptoOps.ReusedBlockNeedsAlignment | 3/cryptodev/cryptodev-linux-1.10/cryptodev-linux/main.c:202-237 | of two calls without flags with the same non-empty call block, the first hashes its own data, and the second does if and only if both buffers are aligned: otherwise the first has left the flag against zero copy in the block, which is copied back to the user |
| CryptoOps.CallsRoundTrip | 3/cryptodev/cryptodev-linux-1.10/cryptodev-linux/main.c:104-182 | encrypting on one path and decrypting in place on either restores the source bytes and the hash, for buffers that are not null |
| AuthRecord.PartOfList | 3/cryptodev/cryptodev-linux-1.10/cryptodev-linux/authenc.c:305-323 | what is written through a part of a mapped list is read back at its place in the whole list, and nothing outside the list changes |
| AuthRecord.CipherInPlace | 3/cryptodev/cryptodev-linux-1.10/cryptodev-linux/authenc.c:400-407 | the cipher overwrites exactly its part of a mapped list and refuses partial blocks |
| AuthRecord.AuthPrepare | 3/cryptodev/cryptodev-linux-1.10/cryptodev-linux/authenc.c:805-833 | an unknown operation or a session without cipher is refused before anything changes; otherwise the hash starts afresh and the IV is taken in |
| TlsRecord.PadRecord | 3/cryptodev/cryptodev-linux-1.10/cryptodev-linux/authenc.c:315-325 | padding of 1 to blocksize bytes, each holding its own count less one cut to a byte, lands behind the record and nowhere else |
| TlsRecord.VerifyTlsRecordPad | 3/cryptodev/cryptodev-linux-1.10/cryptodev-linux/authenc.c:327-349 | returns the padding's length exactly when that many last bytes agree with the last one, and -EBADMSG otherwise |
| TlsRecord.PadFound | 3/cryptodev/cryptodev-linux-1.10/cryptodev-linux/authenc.c:315-349 | the padding check finds the padding that was written if and only if the padding has at most 256 bytes |
| TlsRecord.ReservedCoversWritten | 3/cryptodev/cryptodev-linux-1.10/cryptodev-linux/authenc.c:193-209 | the reserved length is never less than what encryption writes; with hash and block cipher both are the next whole block |
| TlsRecord.NextMultipleIsLeast | 3/cryptodev/cryptodev-linux-1.10/cryptodev-linux/authenc.c:203-206 | the reserved length is the least multiple of the block size strictly above record and tag |
| TlsRecord.TlsEncrypt | 3/cryptodev/cryptodev-linux-1.10/cryptodev-linux/authenc.c:363-408 | the record ends as the encryption of fragment, tag and padding, the length reported is what was written, and nothing behind it changes |
| TlsRecord.TlsDecrypt | 3/cryptodev/cryptodev-linux-1.10/cryptodev-linux/authenc.c:409-470 | return value, record and reported length are those of deciphering and checking, on every path |
| TlsRecord.TlsRun | 3/cryptodev/cryptodev-linux-1.10/cryptodev-linux/authenc.c:638-683 | the whole operation on user memory: which calls are refused and how; the record afterwards in terms of the session's own cipher and hash, under the call's IV; no byte outside it changed; every page pinned is put again if and only if pinning did not fail half way; the IV goes out exactly on success |
| TlsRecord.SealMeans | 3/cryptodev/cryptodev-linux-1.10/cryptodev-linux/authenc.c:366-409 | a sealed record is the cipher's work on the fragment, the front of its digest, and, for a block size above 1, padding up to the next whole block whose bytes all hold their number less one |
| TlsRecord.OpenMeans | 3/cryptodev/cryptodev-linux-1.10/cryptodev-linux/authenc.c:410-470 | opening deciphers the record; with a hash it accepts it if and only if it is a good one, for every block size, and reports the length of its fragment; which error it gives otherwise; without a hash it only cuts off good padding |
| TlsRecord.RoundTrip | 3/cryptodev/cryptodev-linux-1.10/cryptodev-linux/authenc.c:354-471 | decrypting an encrypted record returns 0, restores the fragment and reports its length, for every fragment, additional data, IV, tag length and content of the stack, if and only if the tag is no longer than the digest |
| TlsRecord.OpenSealed | 3/cryptodev/cryptodev-linux-1.10/cryptodev-linux/authenc.c:354-471 | what decryption makes of an encrypted record, for every tag length |
| TlsRecord.OneErrorIff | 3/cryptodev/cryptodev-linux-1.10/cryptodev-linux/authenc.c:419-466 | refused records of one length all give the same error if and only if the tag is empty, cannot be there, or is out of the padding's reach; section 6.2.3.2 of RFC 5246 wants one error always |
| TlsRecord.OpenIff | 3/cryptodev/cryptodev-linux-1.10/cryptodev-linux/authenc.c:409-470 | with a hash and a block cipher, decryption returns 0 exactly when the deciphered bytes are a fragment, its tag and p + 1 bytes that all hold p, and then reports the one fragment they can be |
| SrtpRecord.RoundTrip | 3/cryptodev/cryptodev-linux-1.10/cryptodev-linux/authenc.c:476-560 | decrypting an encrypted packet returns 0 and restores every authenticated byte, for every tag length and content of the stack, if and only if the tag is no longer than the digest and than the encrypted part |
| SrtpRecord.RefusalChangesNothing | 3/cryptodev/cryptodev-linux-1.10/cryptodev-linux/authenc.c:519-545 | a refused packet, a tag mismatch above all, changes no byte; bytes outside the encrypted part never change; -EBADMSG is exactly a tag that differs |
| SrtpRecord.CipherTail | 3/cryptodev/cryptodev-linux-1.10/cryptodev-linux/authenc.c:489-496 | the cipher changes the encrypted part of the region as seen through the auth list, and no other memory |
| SrtpRecord.SrtpEncrypt | 3/cryptodev/cryptodev-linux-1.10/cryptodev-linux/authenc.c:488-516 | the region is encrypted in place and the tag is that of the encrypted region; a tag that cannot be written is -EFAULT after the encryption |
| SrtpRecord.SrtpDecrypt | 3/cryptodev/cryptodev-linux-1.10/cryptodev-linux/authenc.c:518-557 | the tag is checked over the region as received, before anything is decrypted |
| SrtpRecord.SrtpRun | 3/cryptodev/cryptodev-linux-1.10/cryptodev-linux/authenc.c:612-636 | the operation on user memory, for every auth buffer, null or not: which calls are refused; the encrypted part afterwards is what the session's cipher makes of it under the call's IV, and every other byte is as before; the tag is the front of the digest of the region as it leaves, and a received one is compared with that of the region as it came; every page put had been pinned if and only if the call stops at a guard or the auth buffer is not null, and every page pinned is put again if and only if, moreover, pinning did not fail half way |
| SrtpRecord.NullAuthBufferPutsUnpinned | 3/cryptodev/cryptodev-linux-1.10/cryptodev-linux/authenc.c:113-170 | a null auth buffer and a source at address 1 pass the guards, and a page that was never pinned is put |
| AuthMapping.MappingFailed | 3/cryptodev/cryptodev-linux-1.10/cryptodev-linux/authenc.c:150-170 | the balance of pins and puts of a mapping that fails behind the guards, in each of its ways |
| SessionTable.SessionLifetime | 3/cryptodev/cryptodev-linux-1.10/cryptodev-linux/ioctl.c:304-425 | in every state that any number of threads reach by any interleaving: sids are distinct, no thread holds or waits for a freed session, no session is handed to two threads, sessions got less sessions put are those still held, and every session created is in the list, being finished or freed |
| SessionTable.StepInv | 3/cryptodev/cryptodev-linux-1.10/cryptodev-linux/ioctl.c:304-425 | each step between two mutex operations keeps the invariant |
| SessionTable.GetFindsItsSession | 3/cryptodev/cryptodev-linux-1.10/cryptodev-linux/ioctl.c:414-424 | the lookup ends at the one session with that sid, or at none if and only if no session has it |
| SessionTable.FinishUnlinksItsSession | 3/cryptodev/cryptodev-linux-1.10/cryptodev-linux/ioctl.c:367-375 | exactly the session with that sid leaves the list and is then destroyed |
| SessionTable.SomeoneCanMove | 3/cryptodev/cryptodev-linux-1.10/cryptodev-linux/ioctl.c:304-425 | no deadlock: while a call is under way some thread in a call can go on |
| SessionTable.CallsReturn | 3/cryptodev/cryptodev-linux-1.10/cryptodev-linux/ioctl.c:304-425 | no livelock: calls under way take a bounded number of steps in all, whatever the schedule, apart from drawing new sids |
| SessionTable.MissingSidIsNotReported | 3/cryptodev/cryptodev-linux-1.10/cryptodev-linux/ioctl.c:377-383 | in every run the code returned by finishing a session is 0 |
| SessionTable.MissingSidReturnsZero | 3/cryptodev/cryptodev-linux-1.10/cryptodev-linux/ioctl.c:360-384 | a run in which a sid that no session has is finished with 0 |
| SessionCalls.GetOutcome | 3/cryptodev/cryptodev-linux-1.10/cryptodev-linux/ioctl.c:405-425 | a whole lookup, in any interleaving: it ends with its thread holding exactly the entry that had the sid when it looked, or without a session if and only if none had |
| SessionCalls.CreateOutcome | 3/cryptodev/cryptodev-linux-1.10/cryptodev-linux/ioctl.c:304-327 | a whole creation ends with exactly one session added, under a sid that no other had |
| SessionCalls.FinishOutcome | 3/cryptodev/cryptodev-linux-1.10/cryptodev-linux/ioctl.c:360-384 | a whole removal takes out and frees exactly the session with the sid |
| SessionCalls.FinishAllOutcome | 3/cryptodev/cryptodev-linux-1.10/cryptodev-linux/ioctl.c:387-403 | the removal of all sessions ends with an empty list and every session ever created freed |
| SessionCalls.PutOutcome | 3/cryptodev/cryptodev-linux-1.10/cryptodev-linux/cryptodev_int.h:139-142 | giving a session back frees its mutex and nothing else |
| SessionTable.RingAdds | 3/cryptodev/cryptodev-linux-1.10/cryptodev-linux/ioctl.c:320 | list_add on the circular list puts the entry behind its head |
| SessionTable.RingRemoves | 3/cryptodev/cryptodev-linux-1.10/cryptodev-linux/ioctl.c:371 | list_del on the circular list links the neighbours of the entry to each other |
| SessionTable.Fcrypt.constructor | 3/cryptodev/cryptodev-linux-1.10/cryptodev-linux/ioctl.c:501 | an empty circular list: the head points to itself |
| SessionTable.Fcrypt.Walk | 3/cryptodev/cryptodev-linux-1.10/cryptodev-linux/ioctl.c:369-375 | the cursor of the walk along the pointers ends at the first session with the sid, or at the head, and never at null |
| SessionTable.Fcrypt.LockTable | 3/cryptodev/cryptodev-linux-1.10/cryptodev-linux/ioctl.c:367 | the table mutex is taken when nobody holds it |
| SessionTable.Fcrypt.Insert | 3/cryptodev/cryptodev-linux-1.10/cryptodev-linux/ioctl.c:308-320 | a session is added in front with a sid that is not in the list; a taken sid is drawn again |
| SessionTable.Fcrypt.Lookup | 3/cryptodev/cryptodev-linux-1.10/cryptodev-linux/ioctl.c:414-421 | the session with the sid is looked up under the table mutex |
| SessionTable.Fcrypt.LockSession | 3/cryptodev/cryptodev-linux-1.10/cryptodev-linux/ioctl.c:417 | its mutex is taken while the table mutex is held |
| SessionTable.Fcrypt.HandOut | 3/cryptodev/cryptodev-linux-1.10/cryptodev-linux/ioctl.c:422-424 | the table mutex is given back and the locked session, if any, handed out |
| SessionTable.Fcrypt.Put | 3/cryptodev/cryptodev-linux-1.10/cryptodev-linux/cryptodev_int.h:139-142 | the session's mutex is given back |
| SessionTable.Fcrypt.Unlink | 3/cryptodev/cryptodev-linux-1.10/cryptodev-linux/ioctl.c:367-380 | the session is taken out of the list before its mutex is asked for; the test of the cursor for null behind the loop never succeeds |
| SessionTable.Fcrypt.UnlinkNext | 3/cryptodev/cryptodev-linux-1.10/cryptodev-linux/ioctl.c:393-399 | all sessions are taken out one by one from the front |
| SessionTable.Fcrypt.UnlockTable | 3/cryptodev/cryptodev-linux-1.10/cryptodev-linux/ioctl.c:381-383 | the table mutex is given back and the code returned |
| SessionTable.Fcrypt.Destroy | 3/cryptodev/cryptodev-linux-1.10/cryptodev-linux/ioctl.c:341-357 | its mutex is taken, given back, and the session freed |
| AsyncRing.RingConservesAndKeepsOrder | 3/cryptodev/cryptodev-linux-1.10/cryptodev-linux/ioctl.c:455-669 | in every reachable state: each item is in exactly one place, their number is itemcount less failed allocations and at most 64; the n-th run is of the n-th job appended, the n-th item ever fetched carries that job and that run's outcome, and a fetcher holds the item of its turn; a job on the todo list has someone who will see to it |
| RingCalls.SubmissionOutcome | 3/cryptodev/cryptodev-linux-1.10/cryptodev-linux/ioctl.c:601-637 | a whole submission, in any interleaving: -EINVAL exactly for a job with COP_FLAG_NO_ZC, -EBUSY exactly if no item was free and 64 were counted at its turn, -EFAULT exactly if the allocation is refused, and otherwise 0 with exactly this job appended |
| RingCalls.FetchOutcome | 3/cryptodev/cryptodev-linux-1.10/cryptodev-linux/ioctl.c:644-669 | a whole fetch: -EBUSY exactly if nothing was done at its turn; otherwise it has taken the oldest finished item and no other, and returns its result |
| RingCalls.FetchedAreTheRuns | 3/cryptodev/cryptodev-linux-1.10/cryptodev-linux/ioctl.c:455-486 | in every reachable state the n-th item ever fetched carries the n-th job ever appended and what the n-th run of crypto_run gave |
| RingCalls.CallsAdvance | 3/cryptodev/cryptodev-linux-1.10/cryptodev-linux/ioctl.c:601-669 | neither call waits for another thread: it is over after four steps of its own |
| RingCalls.OpenedWithSixteen | 3/cryptodev/cryptodev-linux-1.10/cryptodev-linux/ioctl.c:510-517 | a new ring has 16 free items, all counted, and nothing to do |
| AsyncRing.ApplyInv | 3/cryptodev/cryptodev-linux-1.10/cryptodev-linux/ioctl.c:455-669 | each critical section and each job run keeps the invariant |
| AsyncRing.ApplyMoves | 3/cryptodev/cryptodev-linux-1.10/cryptodev-linux/ioctl.c:601-669 | each step moves every item it touches from one place to one other |
| AsyncRing.FetchKeepsOrder | 3/cryptodev/cryptodev-linux-1.10/cryptodev-linux/ioctl.c:649-656 | a fetch takes the oldest finished job, and its turn is the number of fetches before it |
| AsyncRing.RunKeepsOrder | 3/cryptodev/cryptodev-linux-1.10/cryptodev-linux/ioctl.c:467-471 | the job the worker runs next is the oldest one not yet run |
| AsyncRing.ApplyKeepsUnstranded | 3/cryptodev/cryptodev-linux-1.10/cryptodev-linux/ioctl.c:461-464 | a non-empty todo list implies a queued work item, a worker before its cut, or a submitter about to queue it |
| AsyncRing.WorkerDrains | 3/cryptodev/cryptodev-linux-1.10/cryptodev-linux/ioctl.c:455-480 | with no call under way the worker, left alone, comes to rest with every job run and on the done list |
| AsyncRing.ReleaseFreesAll | 3/cryptodev/cryptodev-linux-1.10/cryptodev-linux/ioctl.c:548-563 | release frees each item once; their number is itemcount if and only if no allocation ever failed |
| AsyncRing.FailedAllocationLeaks | 3/cryptodev/cryptodev-linux-1.10/cryptodev-linux/ioctl.c:613-624 | a failed allocation returns -EFAULT, and however the ring is used from then on, its release frees fewer items than are counted |
| AsyncRing.CryptPriv.constructor | 3/cryptodev/cryptodev-linux-1.10/cryptodev-linux/ioctl.c:510-517 | 16 items on the free list |
| AsyncRing.CryptPriv.Enter | 3/cryptodev/cryptodev-linux-1.10/cryptodev-linux/ioctl.c:605-606 | a job that refuses zero copy is refused with -EINVAL |
| AsyncRing.CryptPriv.TakeFree | 3/cryptodev/cryptodev-linux-1.10/cryptodev-linux/ioctl.c:608-619 | an item comes from the front of the free list, or is counted as new below 64, or the call returns -EBUSY |
| AsyncRing.CryptPriv.Allocate | 3/cryptodev/cryptodev-linux-1.10/cryptodev-linux/ioctl.c:621-626 | a new item, or -EFAULT |
| AsyncRing.CryptPriv.Append | 3/cryptodev/cryptodev-linux-1.10/cryptodev-linux/ioctl.c:628-632 | the job goes to the end of the todo list |
| AsyncRing.CryptPriv.QueueWork | 3/cryptodev/cryptodev-linux-1.10/cryptodev-linux/ioctl.c:634-635 | the work item is queued and the call returns 0 |
| AsyncRing.CryptPriv.TakeDone | 3/cryptodev/cryptodev-linux-1.10/cryptodev-linux/ioctl.c:649-656 | the first finished item is taken, or the call returns -EBUSY |
| AsyncRing.CryptPriv.GiveBack | 3/cryptodev/cryptodev-linux-1.10/cryptodev-linux/ioctl.c:658-668 | the call returns the job and the outcome of its turn, and the item goes to the end of the free list |
| AsyncRing.CryptPriv.StartWork | 3/cryptodev/cryptodev-linux-1.10/cryptodev-linux/ioctl.c:455-457 | a queued work item starts, one at a time |
| AsyncRing.CryptPriv.CutTodo | 3/cryptodev/cryptodev-linux-1.10/cryptodev-linux/ioctl.c:461-464 | the worker takes the whole todo list |
| AsyncRing.CryptPriv.RunNext | 3/cryptodev/cryptodev-linux-1.10/cryptodev-linux/ioctl.c:467-471 | one job is run and its result stored in its item |
| AsyncRing.CryptPriv.SpliceDone | 3/cryptodev/cryptodev-linux-1.10/cryptodev-linux/ioctl.c:473-476 | the worker's items go behind the done list in their order |
| AsyncRing.CryptPriv.Release | 3/cryptodev/cryptodev-linux-1.10/cryptodev-linux/ioctl.c:548-563 | the count of items freed equals itemcount if and only if nothing leaked |

## Left out

- The ciphers and hashes themselves, and failures of the kernel's crypto calls: a cipher is a
  function with laws of length, inversion and chaining, a hash is a function of the message.
- What a hash gives when it is finalised twice without a reset; the model allows any output.
- The bytes that a failing copy to or from user memory has moved before its fault: the model
  moves none.
- A TLS record without a cipher, which `crypto_auth_run` refuses before it gets that far.
- Failed allocations of pages, arrays, sessions and the first 16 ring items.
- User buffers in which one page appears twice.
- UserPages.GetUserbuf: says nothing of the page log when a mapping fails half way, where the
  source itself carries a FIXME; pin conservation is stated for calls whose pages can all be
  pinned. A destination of length 0 behind a source that fills the whole table is left out:
  the source then writes behind the table's end.
- CryptoOps.RunZeroCopy: leaves out the calls that the kernel does not survive: a null list that is
  used, and two null buffers when the stale entry is shorter than the data. `CryptoRun.ZcRun`
  and the theorems about it have them as calls without an outcome.
- CryptoOps.RunData: leaves out the same calls.
- CryptoOps.RunCall: leaves out the same calls.
- TlsRecord.TlsRun: leaves out additional data at a null pointer with a positive length.
- SrtpRecord.SrtpRun: leaves out the accepted calls whose lengths run past the memory they work
  on, which the driver does not check.
- AsyncRing.CryptPriv.RunNext: the outcome of `crypto_run` is a parameter; `CryptoOps` says what
  it is for one session.
- Address wrap-around at the end of the address space, and lengths above 2^31: addresses and
  lengths are natural numbers, except for the 32-bit distance of the SRTP mapping.
- Default tag lengths, the AEAD path, algorithm names, key layout, session information,
  compatibility calls and the module's start and end.
- crypto_copy_hash_state, which takes the table mutex while it holds a session's mutex.
- What a session is used for while it is held: `SessionTable` models locks and lifetime, and
  `CryptoOps` the work on one session.
- Fairness: `SessionTable.CallsReturn` bounds the steps, it does not schedule them.
- Several processes sharing one open sensor file: the read position is not checked again
  after a sleep.
- The lookup tables and the decimal format of a measurement: a text is any function of the
  value that fits the buffer.
- The parser's debug build with its early return after 50 turns, and all printing.
- The socket chat, the virtio guest and backend, line discipline, attach tool, memory mapping,
  device registration, tests and examples.
