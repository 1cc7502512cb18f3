/**
 * Byte ranges of a zone split into the 4- and 32-byte accesses the Read
 * and Write commands allow: atcabReadBytesZoneAsync,
 * atcabWriteBytesZoneAsync and atcabWriteConfigZoneAsync of lib/ecc.js,
 * and writeBytesZoneAsync of lib/commands/write.js, which repeats the
 * write planner (with its undeclared zone constants given the values 2
 * and 0 they stand for). For a read the device's zone is a byte sequence and each
 * chunk read returns its slice; a write range becomes the list of Write
 * commands it issues, each with its location and the data it carries.
 */
module ByteRange {
  import opened Base
  import opened Zone

  /** One Read command: a block, a word in it and 4 or 32 bytes. */
  datatype Chunk = Chunk(block: nat, word: nat, size: nat)

  /** One Write command: a block, a word in it and the bytes to store. */
  datatype WriteCall = WriteCall(block: nat, word: nat, bytes: seq<Byte>)

  /** The first zone byte a (block, word) location addresses. */
  function Start(block: nat, word: nat): nat
  {
    block * BlockSize + word * WordSize
  }

  function ChunkEnd(c: Chunk): nat
  {
    Start(c.block, c.word) + c.size
  }

  function CallEnd(w: WriteCall): nat
  {
    Start(w.block, w.word) + |w.bytes|
  }

  /** The Config zone's bytes 84..87 (block 2, word 5: UserExtra, Selector,
      LockValue, LockConfig), which the byte-range writer never writes; the
      Lock and UpdateExtra commands set them. */
  const LockWordStart: nat := 84
  const LockWordEnd: nat := 88

  /** The bytes from s to e stay clear of the lock word. */
  predicate MissesLock(zone: nat, s: nat, e: nat)
  {
    zone == ZoneConfig ==> e <= LockWordStart || s >= LockWordEnd
  }

  /** The checks both range operations start with. */
  predicate GoodZone(zone: nat, slot: nat)
  {
    (zone == ZoneConfig || zone == ZoneOtp || zone == ZoneData) && !(zone == ZoneData && slot > 15)
  }

  // ---- Reading ----

  /** What the device answers to one Read command. */
  function ReadChunk(mem: seq<Byte>, c: Chunk): (b: seq<Byte>)
    requires ChunkEnd(c) <= |mem|
    ensures |b| == c.size
  {
    mem[Start(c.block, c.word)..ChunkEnd(c)]
  }

  /** atcabReadBytesZoneAsync. Checks, in order: the zone, a Data slot
      past 15, an empty range (nothing to read) and the range against the
      zone size; the offset need not be aligned. 32-byte chunks go block by
      block while a whole block fits before the end of the zone, 4-byte
      chunks after that. Two lines of the source are taken as intended:
      the block and word divisions floor, and each chunk contributes the
      copy_length bytes from read_buf_idx (the source marks this copy with
      a comment only and returns the chunks as read). */
  method ReadBytesZone(zone: nat, slot: nat, offset: nat, length: nat, mem: seq<Byte>)
    returns (r: Result<seq<Byte>, ParamError>, chunks: seq<Chunk>)
    requires AtcabGetZoneSize(zone, slot).Ok? ==> |mem| == AtcabGetZoneSize(zone, slot).value
    ensures r.Err? <==> !GoodZone(zone, slot) || (length > 0 && offset + length > |mem|)
    ensures r.Err? ==> r.error == BadParam
    ensures r.Ok? ==> |r.value| == length
    ensures r.Ok? && length > 0 ==> offset + length <= |mem| && r.value == mem[offset..offset + length]
    ensures chunks != [] <==> r.Ok? && length > 0
    ensures forall i :: 0 <= i < |chunks| ==>
              && ChunkEnd(chunks[i]) <= |mem|
              && chunks[i].size == (if Start(chunks[i].block, 0) + BlockSize <= |mem| then BlockSize else WordSize)
              && (chunks[i].size == BlockSize ==> chunks[i].word == 0)
              && Start(chunks[i].block, chunks[i].word) < offset + length
    ensures chunks != [] ==> Start(chunks[0].block, chunks[0].word) <= offset < ChunkEnd(chunks[0])
    ensures forall i :: 0 < i < |chunks| ==> Start(chunks[i].block, chunks[i].word) == ChunkEnd(chunks[i - 1])
    ensures chunks != [] ==> offset + length <= ChunkEnd(chunks[|chunks| - 1])
  {
    chunks := [];
    if !(zone == ZoneConfig || zone == ZoneOtp || zone == ZoneData) {
      return Err(BadParam), chunks;
    }
    if zone == ZoneData && slot > 15 {
      return Err(BadParam), chunks;
    }
    if length == 0 {
      return Ok([]), chunks;
    }
    var zoneSize := AtcabGetZoneSize(zone, slot).value;
    if offset + length > zoneSize {
      return Err(BadParam), chunks;
    }
    var out;
    out, chunks := ReadRange(mem, offset, length);
    PlannedForall(chunks, offset, |mem|);
    r := Ok(out);
  }

  /** What the read loop keeps: dataIdx bytes are copied, the next
      location is a block read at or before the next byte or a word read
      at the next byte, the chunks so far follow the rule and end at the
      next location. */
  predicate ReadInv(mem: seq<Byte>, offset: nat, length: nat, dataIdx: nat, curBlock: nat, curOffset: nat,
                    readSize: nat, chunks: seq<Chunk>, out: seq<Byte>)
  {
    && dataIdx <= length && offset + length <= |mem| && |mem| % WordSize == 0
    && out == mem[offset..offset + dataIdx]
    && (readSize == BlockSize || readSize == WordSize)
    && (readSize == BlockSize ==> curOffset == 0)
    && (readSize == WordSize ==> |mem| < Start(curBlock, 0) + BlockSize)
    && (dataIdx == 0 ==> readSize == BlockSize && Start(curBlock, 0) <= offset < Start(curBlock, 0) + BlockSize)
    && (chunks == [] <==> dataIdx == 0)
    && (0 < dataIdx < length ==> Start(curBlock, curOffset) == offset + dataIdx)
    && (dataIdx == length ==> offset + length <= Start(curBlock, curOffset))
    && (chunks != [] ==>
          && ChunkEnd(chunks[|chunks| - 1]) == Start(curBlock, curOffset)
          && Start(chunks[|chunks| - 1].block, chunks[|chunks| - 1].word) < offset + dataIdx)
    && Planned(chunks, offset, |mem|)
  }

  /** One pass of the read loop: switch to word reads near the end of the
      zone, read a chunk, copy its part of the range, move on. */
  method ReadPass(mem: seq<Byte>, offset: nat, length: nat, dataIdx: nat, curBlock: nat, curOffset: nat,
                  readSize: nat, chunks: seq<Chunk>, out: seq<Byte>)
    returns (dataIdx': nat, curBlock': nat, curOffset': nat, readSize': nat, chunks': seq<Chunk>, out': seq<Byte>)
    requires ReadInv(mem, offset, length, dataIdx, curBlock, curOffset, readSize, chunks, out) && dataIdx < length
    ensures ReadInv(mem, offset, length, dataIdx', curBlock', curOffset', readSize', chunks', out')
    ensures dataIdx < dataIdx'
  {
    curBlock', curOffset', readSize' := curBlock, curOffset, readSize;
    if readSize == BlockSize && |mem| < Start(curBlock, 0) + BlockSize {
      // fewer than 32 bytes left before the end of the zone: word reads
      readSize' := WordSize;
      curOffset' := WordIn(dataIdx + offset, curBlock);
    }
    var c := Chunk(curBlock', curOffset', readSize');
    var copied := ReadStep(mem, offset, dataIdx, length, c);
    assert (chunks + [c])[..|chunks|] == chunks;
    chunks' := chunks + [c];
    out' := out + copied;
    dataIdx' := dataIdx + |copied|;
    if readSize' == BlockSize {
      curBlock' := curBlock' + 1;
    } else {
      curOffset' := curOffset' + 1;
    }
  }

  /** The loop of atcabReadBytesZoneAsync, once the checks have passed:
      the bytes copied are exactly the range, and the reads follow the
      rule and cover it. */
  method ReadRange(mem: seq<Byte>, offset: nat, length: nat) returns (out: seq<Byte>, chunks: seq<Chunk>)
    requires 0 < length && offset + length <= |mem| && |mem| % WordSize == 0
    ensures out == mem[offset..offset + length]
    ensures chunks != [] && Planned(chunks, offset, |mem|)
    ensures Start(chunks[|chunks| - 1].block, chunks[|chunks| - 1].word) < offset + length <= ChunkEnd(chunks[|chunks| - 1])
  {
    chunks := [];
    var dataIdx: nat := 0;
    var curBlock: nat := offset / BlockSize;
    var curOffset: nat := 0;
    var readSize := BlockSize;
    out := [];
    while dataIdx < length
      invariant ReadInv(mem, offset, length, dataIdx, curBlock, curOffset, readSize, chunks, out)
      decreases length - dataIdx
    {
      dataIdx, curBlock, curOffset, readSize, chunks, out :=
        ReadPass(mem, offset, length, dataIdx, curBlock, curOffset, readSize, chunks, out);
    }
  }


  /** The rule every read follows: inside the zone, 32 bytes exactly when a
      whole block fits (and then at word 0), the first one holding the byte
      at offset, each later one starting where the one before ended. */
  predicate Planned(chunks: seq<Chunk>, offset: nat, zoneSize: nat)
    decreases |chunks|
  {
    if chunks == [] then true
    else
      var c := chunks[|chunks| - 1];
      var before := chunks[..|chunks| - 1];
      && Planned(before, offset, zoneSize)
      && ChunkEnd(c) <= zoneSize
      && c.size == (if Start(c.block, 0) + BlockSize <= zoneSize then BlockSize else WordSize)
      && (c.size == BlockSize ==> c.word == 0)
      && (before == [] ==> Start(c.block, c.word) <= offset < ChunkEnd(c))
      && (before != [] ==> Start(c.block, c.word) == ChunkEnd(before[|before| - 1]))
  }

  /** The rule, spelt out read by read; no read starts after the last one. */
  lemma {:induction false} PlannedForall(chunks: seq<Chunk>, offset: nat, zoneSize: nat)
    requires Planned(chunks, offset, zoneSize)
    decreases |chunks|
    ensures forall i :: 0 <= i < |chunks| ==>
              && ChunkEnd(chunks[i]) <= zoneSize
              && chunks[i].size == (if Start(chunks[i].block, 0) + BlockSize <= zoneSize then BlockSize else WordSize)
              && (chunks[i].size == BlockSize ==> chunks[i].word == 0)
              && Start(chunks[i].block, chunks[i].word) <= Start(chunks[|chunks| - 1].block, chunks[|chunks| - 1].word)
    ensures chunks != [] ==> Start(chunks[0].block, chunks[0].word) <= offset < ChunkEnd(chunks[0])
    ensures forall i :: 0 < i < |chunks| ==> Start(chunks[i].block, chunks[i].word) == ChunkEnd(chunks[i - 1])
  {
    if chunks != [] {
      var before := chunks[..|chunks| - 1];
      PlannedForall(before, offset, zoneSize);
      forall i | 0 <= i < |chunks| - 1 ensures chunks[i] == before[i] {}
    }
  }

  /** One pass of the loop once the chunk is chosen: the Read command and
      the copy_length bytes it contributes, the next ones of the range. */
  method ReadStep(mem: seq<Byte>, offset: nat, dataIdx: nat, length: nat, c: Chunk) returns (copied: seq<Byte>)
    requires dataIdx < length && offset + length <= |mem| && |mem| % WordSize == 0
    requires c.size == BlockSize || c.size == WordSize
    requires c.size == BlockSize ==>
               && c.word == 0 && Start(c.block, 0) + BlockSize <= |mem|
               && Start(c.block, 0) <= offset + dataIdx < Start(c.block, 0) + BlockSize
    requires c.size == WordSize ==>
               && |mem| < Start(c.block, 0) + BlockSize
               && Start(c.block, c.word) <= offset + dataIdx < Start(c.block, c.word) + WordSize
    requires dataIdx > 0 ==> Start(c.block, c.word) == offset + dataIdx
    ensures ChunkEnd(c) <= |mem| && Start(c.block, c.word) <= offset + dataIdx
    ensures c.size == (if Start(c.block, 0) + BlockSize <= |mem| then BlockSize else WordSize)
    ensures 0 < |copied| && dataIdx + |copied| <= length && offset + dataIdx + |copied| <= ChunkEnd(c)
    ensures dataIdx + |copied| < length ==> offset + dataIdx + |copied| == ChunkEnd(c)
    ensures mem[offset..offset + dataIdx] + copied == mem[offset..offset + dataIdx + |copied|]
  {
    ChunkFacts(offset + dataIdx, |mem|, c);
    var readOffset := Start(c.block, c.word);
    var readBuf := ReadChunk(mem, c);
    var readBufIdx, copyLength := CopyWindow(readOffset, offset, dataIdx, length, c.size);
    CopyFacts(mem, c, offset, dataIdx, readBufIdx, copyLength);
    copied := readBuf[readBufIdx..readBufIdx + copyLength];
  }

  /** cur_offset = ((data_idx + offset) / ATCA_WORD_SIZE) % 8: the word
      of its block that holds byte p. */
  method WordIn(p: nat, ghost block: nat) returns (w: nat)
    requires Start(block, 0) <= p < Start(block, 0) + BlockSize
    ensures w < 8 && Start(block, w) <= p < Start(block, w) + WordSize
    ensures p == Start(block, 0) ==> w == 0
  {
    var r := p - Start(block, 0);
    DivUnique(p, WordSize, block * 8 + r / 4, r % 4);
    DivUnique(p / WordSize, 8, block, r / 4);
    w := (p / WordSize) % 8;
  }

  /** The window of a chunk that the range takes: from read_buf_idx (the
      bytes before offset skipped), copy_length bytes, which reach the end
      of the chunk unless the range ends first. */
  method CopyWindow(readOffset: nat, offset: nat, dataIdx: nat, length: nat, readSize: nat)
    returns (readBufIdx: nat, copyLength: nat)
    requires readOffset <= offset + dataIdx < readOffset + readSize && dataIdx < length
    requires dataIdx > 0 ==> readOffset == offset + dataIdx
    ensures readOffset + readBufIdx == offset + dataIdx
    ensures 0 < copyLength && readBufIdx + copyLength <= readSize && dataIdx + copyLength <= length
    ensures dataIdx + copyLength < length ==> readBufIdx + copyLength == readSize
  {
    readBufIdx := if readOffset < offset then offset - readOffset else 0;
    copyLength := if length - dataIdx < readSize - readBufIdx then length - dataIdx else readSize - readBufIdx;
  }

  /** A location's first byte is word aligned. */
  lemma StartAligned(block: nat, word: nat)
    ensures Start(block, word) % WordSize == 0
  {
    DivUnique(Start(block, word), WordSize, block * 8 + word, 0);
  }

  /** Where the next read lies: at or before the next wanted byte p, past
      it, and inside the zone. */
  lemma ChunkFacts(p: nat, zoneSize: nat, c: Chunk)
    requires p < zoneSize && zoneSize % WordSize == 0
    requires c.size == BlockSize || c.size == WordSize
    requires c.size == BlockSize ==>
               c.word == 0 && Start(c.block, 0) + BlockSize <= zoneSize && Start(c.block, 0) <= p < Start(c.block, 0) + BlockSize
    requires c.size == WordSize ==>
               zoneSize < Start(c.block, 0) + BlockSize && Start(c.block, c.word) <= p < Start(c.block, c.word) + WordSize
    ensures Start(c.block, c.word) <= p < ChunkEnd(c) <= zoneSize
    ensures c.size == (if Start(c.block, 0) + BlockSize <= zoneSize then BlockSize else WordSize)
  {
    if c.size == WordSize {
      var s := Start(c.block, c.word);
      StartAligned(c.block, c.word);
      assert s == 4 * (s / 4) && zoneSize == 4 * (zoneSize / 4);
      assert s / 4 < zoneSize / 4;
    }
  }

  /** The bytes a read contributes are the next ones of the wanted range. */
  lemma CopyFacts(mem: seq<Byte>, c: Chunk, offset: nat, dataIdx: nat, readBufIdx: nat, copyLength: nat)
    requires ChunkEnd(c) <= |mem| && readBufIdx + copyLength <= c.size
    requires Start(c.block, c.word) + readBufIdx == offset + dataIdx
    ensures offset + dataIdx + copyLength <= |mem|
    ensures ReadChunk(mem, c)[readBufIdx..readBufIdx + copyLength] == mem[offset + dataIdx..offset + dataIdx + copyLength]
    ensures mem[offset..offset + dataIdx] + mem[offset + dataIdx..offset + dataIdx + copyLength] ==
            mem[offset..offset + dataIdx + copyLength]
  {
    var s := Start(c.block, c.word);
    var chunk := ReadChunk(mem, c);
    assert chunk == mem[s..ChunkEnd(c)];
    var window := chunk[readBufIdx..readBufIdx + copyLength];
    forall k | 0 <= k < copyLength ensures window[k] == mem[offset + dataIdx + k] {
      assert window[k] == chunk[readBufIdx + k];
    }
  }

  // ---- Writing ----

  /** The rule for one write of a range of length bytes at offset: 4 or 32
      bytes at a word of a block, inside the range; 32 bytes only at word
      0 and never in Config block 2; 4 bytes at word 0 only where a
      32-byte write was not allowed; never a byte of the lock word. */
  predicate WriteOk(c: Chunk, zone: nat, offset: nat, length: nat)
  {
    && (c.size == WordSize || c.size == BlockSize) && c.word < 8
    && offset <= Start(c.block, c.word) && ChunkEnd(c) <= offset + length
    && (c.size == BlockSize ==> c.word == 0 && !(zone == ZoneConfig && c.block == 2))
    && (c.size == WordSize && c.word == 0 ==>
          (zone == ZoneConfig && c.block == 2) || offset + length < Start(c.block, 0) + BlockSize)
    && MissesLock(zone, Start(c.block, c.word), ChunkEnd(c))
  }

  /** Every write follows the rule and starts at or after the end of the
      one before. */
  predicate WritePlanned(plan: seq<Chunk>, zone: nat, offset: nat, length: nat)
    decreases |plan|
  {
    if plan == [] then true
    else
      var c := plan[|plan| - 1];
      var before := plan[..|plan| - 1];
      && WritePlanned(before, zone, offset, length)
      && WriteOk(c, zone, offset, length)
      && (before != [] ==> ChunkEnd(before[|before| - 1]) <= Start(c.block, c.word))
  }

  /** Number of bytes the writes cover. */
  function Written(plan: seq<Chunk>): nat
    decreases |plan|
  {
    if plan == [] then 0 else Written(plan[..|plan| - 1]) + plan[|plan| - 1].size
  }

  /** The lock word's bytes among the first n of a word-aligned range from
      offset: all four once the range has passed it, none before. */
  function SkippedBelow(zone: nat, offset: nat, n: nat): nat
  {
    if zone == ZoneConfig && offset <= LockWordStart && LockWordEnd <= offset + n then WordSize else 0
  }

  /** The rule write by write, and the writes in ascending, disjoint order. */
  lemma {:induction false} WritePlannedForall(plan: seq<Chunk>, zone: nat, offset: nat, length: nat)
    requires WritePlanned(plan, zone, offset, length)
    decreases |plan|
    ensures forall i :: 0 <= i < |plan| ==> WriteOk(plan[i], zone, offset, length)
    ensures forall i, j :: 0 <= i < j < |plan| ==> ChunkEnd(plan[i]) <= Start(plan[j].block, plan[j].word)
    ensures forall i :: 0 <= i < |plan| ==> ChunkEnd(plan[i]) <= ChunkEnd(plan[|plan| - 1])
  {
    if plan != [] {
      var before := plan[..|plan| - 1];
      WritePlannedForall(before, zone, offset, length);
      forall i | 0 <= i < |plan| - 1 ensures plan[i] == before[i] {}
    }
  }

  /** Appending a write that follows the rule and starts past the last. */
  lemma WritePlannedSnoc(plan: seq<Chunk>, c: Chunk, zone: nat, offset: nat, length: nat)
    requires WritePlanned(plan, zone, offset, length) && WriteOk(c, zone, offset, length)
    requires plan != [] ==> ChunkEnd(plan[|plan| - 1]) <= Start(c.block, c.word)
    ensures WritePlanned(plan + [c], zone, offset, length)
    ensures Written(plan + [c]) == Written(plan) + c.size
  {
    assert (plan + [c])[..|plan|] == plan;
  }

  /** data[from..to], or nothing when that is not a slice of data. */
  function Slice(data: seq<Byte>, from: int, to: int): (s: seq<Byte>)
    ensures 0 <= from <= to <= |data| ==> s == data[from..to]
  {
    if 0 <= from <= to <= |data| then data[from..to] else []
  }

  /** The Write commands of a plan: each carries the range's bytes for its
      place. */
  function ToCalls(data: seq<Byte>, offset: nat, plan: seq<Chunk>): (calls: seq<WriteCall>)
    decreases |plan|
    ensures |calls| == |plan|
  {
    if plan == [] then []
    else
      var c := plan[|plan| - 1];
      ToCalls(data, offset, plan[..|plan| - 1]) +
        [WriteCall(c.block, c.word, Slice(data, Start(c.block, c.word) - offset, ChunkEnd(c) - offset))]
  }

  /** Each Write command of a planned range: its location, and data sliced
      at its place. */
  lemma {:induction false} ToCallsAt(data: seq<Byte>, zone: nat, offset: nat, plan: seq<Chunk>, calls: seq<WriteCall>)
    requires WritePlanned(plan, zone, offset, |data|) && calls == ToCalls(data, offset, plan)
    decreases |plan|
    ensures forall i :: 0 <= i < |plan| ==>
              && calls[i].block == plan[i].block && calls[i].word == plan[i].word
              && offset <= Start(plan[i].block, plan[i].word) && ChunkEnd(plan[i]) <= offset + |data|
              && calls[i].bytes == data[Start(plan[i].block, plan[i].word) - offset..ChunkEnd(plan[i]) - offset]
  {
    if plan != [] {
      var before := plan[..|plan| - 1];
      ToCallsAt(data, zone, offset, before, ToCalls(data, offset, before));
      forall i | 0 <= i < |plan| - 1 ensures plan[i] == before[i] {}
    }
  }

  /** The first write location of a word-aligned offset. */
  lemma StartOfOffset(offset: nat)
    requires offset % WordSize == 0
    ensures (offset % BlockSize) / WordSize < 8
    ensures Start(offset / BlockSize, (offset % BlockSize) / WordSize) == offset
  {
    var r := offset % BlockSize;
    assert offset == BlockSize * (offset / BlockSize) + r;
    DivUnique(offset, WordSize, (offset / BlockSize) * 8 + r / WordSize, r % WordSize);
  }

  /** A whole number of words left: at least one while any is left, and
      still a whole number after a write of size bytes. */
  lemma WordsLeft(i: nat, n: nat, size: nat)
    requires i <= n && (n - i) % WordSize == 0 && size % WordSize == 0
    ensures i < n ==> i + WordSize <= n
    ensures i + size <= n ==> (n - (i + size)) % WordSize == 0
  {
    var k := (n - i) / WordSize;
    assert n - i == WordSize * k;
    if i + size <= n {
      DivUnique(n - (i + size), WordSize, k - size / WordSize, 0);
    }
  }

  /** What the write loop keeps: dataIdx bytes of the range are done, a
      whole number of words is left, the next location is the next byte,
      the writes so far follow the rule and end here, and every done byte
      was written or is the lock word. */
  predicate WriteInv(zone: nat, offset: nat, length: nat, dataIdx: nat,
                     curBlock: nat, curWord: nat, plan: seq<Chunk>)
  {
    && dataIdx <= length && (length - dataIdx) % WordSize == 0
    && curWord < 8 && Start(curBlock, curWord) == offset + dataIdx
    && WritePlanned(plan, zone, offset, length)
    && (plan != [] ==> ChunkEnd(plan[|plan| - 1]) <= offset + dataIdx)
    && Written(plan) + SkippedBelow(zone, offset, dataIdx) == dataIdx
  }

  /** The location after a 4-byte write. */
  function NextWord(block: nat, word: nat): (nat, nat)
  {
    if word + 1 == BlockSize / WordSize then (block + 1, 0) else (block, word + 1)
  }

  /** A write clear of the lock word does not change how much of it the
      range has passed. */
  lemma SkippedSame(zone: nat, offset: nat, dataIdx: nat, size: nat)
    requires MissesLock(zone, offset + dataIdx, offset + dataIdx + size)
    ensures SkippedBelow(zone, offset, dataIdx + size) == SkippedBelow(zone, offset, dataIdx)
  {
  }

  /** The location after a word is the next word of the zone. */
  lemma NextWordStart(block: nat, word: nat)
    requires word < 8
    ensures NextWord(block, word).1 < 8
    ensures Start(NextWord(block, word).0, NextWord(block, word).1) == Start(block, word) + WordSize
  {
  }

  /** A 32-byte write at word 0 of a block other than Config block 2
      follows the rule. */
  lemma BlockOk(zone: nat, offset: nat, length: nat, dataIdx: nat, block: nat)
    requires Start(block, 0) == offset + dataIdx && dataIdx + BlockSize <= length
    requires !(zone == ZoneConfig && block == 2)
    ensures WriteOk(Chunk(block, 0, BlockSize), zone, offset, length)
  {
  }

  /** A 4-byte write where a block was not allowed, away from the lock
      word, follows the rule. */
  lemma WordOk(zone: nat, offset: nat, length: nat, dataIdx: nat, block: nat, word: nat)
    requires word < 8 && Start(block, word) == offset + dataIdx && dataIdx + WordSize <= length
    requires !(word == 0 && dataIdx + BlockSize <= length && !(zone == ZoneConfig && block == 2))
    requires !(zone == ZoneConfig && block == 2 && word == 5)
    ensures WriteOk(Chunk(block, word, WordSize), zone, offset, length)
  {
  }

  /** A whole block at word 0. */
  lemma BlockStep(zone: nat, offset: nat, length: nat, dataIdx: nat, curBlock: nat, plan: seq<Chunk>)
    requires WriteInv(zone, offset, length, dataIdx, curBlock, 0, plan)
    requires dataIdx + BlockSize <= length && !(zone == ZoneConfig && curBlock == 2)
    ensures WriteInv(zone, offset, length, dataIdx + BlockSize, curBlock + 1, 0,
                     plan + [Chunk(curBlock, 0, BlockSize)])
  {
    WordsLeft(dataIdx, length, BlockSize);
    var c := Chunk(curBlock, 0, BlockSize);
    BlockOk(zone, offset, length, dataIdx, curBlock);
    WritePlannedSnoc(plan, c, zone, offset, length);
    SkippedSame(zone, offset, dataIdx, BlockSize);
  }

  /** One word, not the lock word, where a whole block is not allowed. */
  lemma WordStep(zone: nat, offset: nat, length: nat, dataIdx: nat,
                 curBlock: nat, curWord: nat, plan: seq<Chunk>)
    requires WriteInv(zone, offset, length, dataIdx, curBlock, curWord, plan)
    requires dataIdx + WordSize <= length
    requires !(curWord == 0 && dataIdx + BlockSize <= length && !(zone == ZoneConfig && curBlock == 2))
    requires !(zone == ZoneConfig && curBlock == 2 && curWord == 5)
    ensures WriteInv(zone, offset, length, dataIdx + WordSize,
                     NextWord(curBlock, curWord).0, NextWord(curBlock, curWord).1,
                     plan + [Chunk(curBlock, curWord, WordSize)])
  {
    WordsLeft(dataIdx, length, WordSize);
    var c := Chunk(curBlock, curWord, WordSize);
    WordOk(zone, offset, length, dataIdx, curBlock, curWord);
    NextWordStart(curBlock, curWord);
    WritePlannedSnoc(plan, c, zone, offset, length);
    SkippedSame(zone, offset, dataIdx, WordSize);
  }

  /** The lock word: nothing is written. */
  lemma SkipStep(zone: nat, offset: nat, length: nat, dataIdx: nat, plan: seq<Chunk>)
    requires WriteInv(zone, offset, length, dataIdx, 2, 5, plan)
    requires dataIdx + WordSize <= length && zone == ZoneConfig
    ensures WriteInv(zone, offset, length, dataIdx + WordSize, NextWord(2, 5).0, NextWord(2, 5).1, plan)
  {
    WordsLeft(dataIdx, length, WordSize);
  }

  /** One pass of the write loop: a block, a word or the skipped lock
      word, then the next location. */
  method WriteStep(zone: nat, offset: nat, length: nat, dataIdx: nat, curBlock: nat, curWord: nat,
                   plan: seq<Chunk>)
    returns (dataIdx': nat, curBlock': nat, curWord': nat, plan': seq<Chunk>)
    requires WriteInv(zone, offset, length, dataIdx, curBlock, curWord, plan) && dataIdx < length
    ensures WriteInv(zone, offset, length, dataIdx', curBlock', curWord', plan')
    ensures dataIdx < dataIdx'
  {
    if curWord == 0 && length - dataIdx >= BlockSize && !(zone == ZoneConfig && curBlock == 2) {
      BlockStep(zone, offset, length, dataIdx, curBlock, plan);
      plan' := plan + [Chunk(curBlock, 0, BlockSize)];
      dataIdx', curBlock', curWord' := dataIdx + BlockSize, curBlock + 1, 0;
    } else {
      dataIdx', curBlock', curWord', plan' := WordOrSkip(zone, offset, length, dataIdx, curBlock, curWord, plan);
    }
  }

  /** The pass where a whole block is not allowed: a word, or the skipped
      lock word. */
  method WordOrSkip(zone: nat, offset: nat, length: nat, dataIdx: nat, curBlock: nat, curWord: nat,
                    plan: seq<Chunk>)
    returns (dataIdx': nat, curBlock': nat, curWord': nat, plan': seq<Chunk>)
    requires WriteInv(zone, offset, length, dataIdx, curBlock, curWord, plan) && dataIdx < length
    requires !(curWord == 0 && dataIdx + BlockSize <= length && !(zone == ZoneConfig && curBlock == 2))
    ensures WriteInv(zone, offset, length, dataIdx', curBlock', curWord', plan')
    ensures dataIdx < dataIdx'
  {
    WordsLeft(dataIdx, length, WordSize);
    dataIdx', curBlock', curWord' := dataIdx + WordSize, NextWord(curBlock, curWord).0, NextWord(curBlock, curWord).1;
    if !(zone == ZoneConfig && curBlock == 2 && curWord == 5) {
      WordStep(zone, offset, length, dataIdx, curBlock, curWord, plan);
      plan' := plan + [Chunk(curBlock, curWord, WordSize)];
    } else {
      SkipStep(zone, offset, length, dataIdx, plan);
      plan' := plan;
    }
  }

  /** The loop of atcabWriteBytesZoneAsync (lib/ecc.js) and of
      writeBytesZoneAsync (lib/commands/write.js), which are the same once
      the checks have passed and ATCA_ZONE_CONFIG is read as zone 0: walk the range a word at a time, a whole
      block where allowed, and skip the lock word; `plan` lists the
      locations written, in order. */
  method WriteRange(zone: nat, offset: nat, length: nat) returns (plan: seq<Chunk>)
    requires length > 0 && offset % WordSize == 0 && length % WordSize == 0
    ensures WritePlanned(plan, zone, offset, length)
    ensures Written(plan) + SkippedBelow(zone, offset, length) == length
  {
    var dataIdx: nat := 0;
    StartOfOffset(offset);
    var curBlock: nat := offset / BlockSize;
    var curWord: nat := (offset % BlockSize) / WordSize;
    plan := [];
    while dataIdx < length
      invariant WriteInv(zone, offset, length, dataIdx, curBlock, curWord, plan)
      decreases length - dataIdx
    {
      dataIdx, curBlock, curWord, plan := WriteStep(zone, offset, length, dataIdx, curBlock, curWord, plan);
    }
  }

  /** The zone size atcabGetZoneSize gives a zone and slot that pass the
      checks. */
  function ZoneSize(zone: nat, slot: nat): nat
    requires GoodZone(zone, slot)
  {
    AtcabGetZoneSize(zone, slot).value
  }

  /** atcabWriteBytesZoneAsync (and writeBytesZoneAsync). Checks, in
      order: the zone, a Data slot past 15, an empty range (nothing to
      write), word alignment of offset and length, and the range against
      the zone size; every failure is BAD_PARAM. Then the range goes out
      as the Write commands of `plan`, in order, each carrying the data
      for its place; together they cover the whole range but the lock
      word. */
  method WriteBytesZone(zone: nat, slot: nat, offset: nat, data: seq<Byte>)
    returns (r: Result<(), ParamError>, plan: seq<Chunk>, calls: seq<WriteCall>)
    ensures r.Err? <==>
              || !GoodZone(zone, slot)
              || (|data| > 0 && (offset % WordSize != 0 || |data| % WordSize != 0 || offset + |data| > ZoneSize(zone, slot)))
    ensures r.Err? ==> r.error == BadParam
    ensures r.Err? || |data| == 0 ==> plan == [] && calls == []
    ensures |calls| == |plan|
    ensures forall i :: 0 <= i < |plan| ==> WriteOk(plan[i], zone, offset, |data|)
    ensures forall i, j :: 0 <= i < j < |plan| ==> ChunkEnd(plan[i]) <= Start(plan[j].block, plan[j].word)
    ensures r.Ok? ==> Written(plan) + SkippedBelow(zone, offset, |data|) == |data|
    ensures r.Ok? && |data| > 0 ==> offset + |data| <= ZoneSize(zone, slot)
    ensures forall i :: 0 <= i < |plan| ==>
              && calls[i].block == plan[i].block && calls[i].word == plan[i].word
              && offset <= Start(plan[i].block, plan[i].word) && ChunkEnd(plan[i]) <= offset + |data|
              && calls[i].bytes == data[Start(plan[i].block, plan[i].word) - offset..ChunkEnd(plan[i]) - offset]
  {
    plan, calls := [], [];
    if !(zone == ZoneConfig || zone == ZoneOtp || zone == ZoneData) {
      return Err(BadParam), plan, calls;
    }
    if zone == ZoneData && slot > 15 {
      return Err(BadParam), plan, calls;
    }
    if |data| == 0 {
      return Ok(()), plan, calls;
    }
    if offset % WordSize != 0 || |data| % WordSize != 0 {
      return Err(BadParam), plan, calls;
    }
    var zoneSize := AtcabGetZoneSize(zone, slot).value;
    if offset + |data| > zoneSize {
      return Err(BadParam), plan, calls;
    }
    plan, calls := PlanWrites(zone, offset, data);
    r := Ok(());
  }

  /** The walk of a checked range and the Write commands it issues. */
  method PlanWrites(zone: nat, offset: nat, data: seq<Byte>) returns (plan: seq<Chunk>, calls: seq<WriteCall>)
    requires |data| > 0 && offset % WordSize == 0 && |data| % WordSize == 0
    ensures |calls| == |plan|
    ensures forall i :: 0 <= i < |plan| ==> WriteOk(plan[i], zone, offset, |data|)
    ensures forall i, j :: 0 <= i < j < |plan| ==> ChunkEnd(plan[i]) <= Start(plan[j].block, plan[j].word)
    ensures Written(plan) + SkippedBelow(zone, offset, |data|) == |data|
    ensures forall i :: 0 <= i < |plan| ==>
              && calls[i].block == plan[i].block && calls[i].word == plan[i].word
              && offset <= Start(plan[i].block, plan[i].word) && ChunkEnd(plan[i]) <= offset + |data|
              && calls[i].bytes == data[Start(plan[i].block, plan[i].word) - offset..ChunkEnd(plan[i]) - offset]
  {
    plan := WriteRange(zone, offset, |data|);
    calls := ToCalls(data, offset, plan);
    ToCallsAt(data, zone, offset, plan, calls);
    WritePlannedForall(plan, zone, offset, |data|);
  }

  /** Where atcabWriteConfigZoneAsync starts: the first 16 bytes (serial
      number, revision, I2C settings) cannot be written. */
  const ConfigWritableStart: nat := 16

  /** atcabWriteConfigZoneAsync: bytes 16 on of a Config image go to the
      same places, through the byte-range writer. An image of at most 16
      bytes writes nothing; a longer one must be word-aligned and fit the
      128-byte zone. The lock word is skipped as always; the UpdateExtra
      commands for bytes 84 and 85 are commented out in the source. */
  method WriteConfigZone(data: seq<Byte>) returns (r: Result<(), ParamError>, plan: seq<Chunk>, calls: seq<WriteCall>)
    ensures r.Err? <==>
              |data| > ConfigWritableStart &&
              ((|data| - ConfigWritableStart) % WordSize != 0 || |data| > ZoneSize(ZoneConfig, 0))
    ensures r.Err? ==> r.error == BadParam
    ensures |data| <= ConfigWritableStart ==> calls == []
    ensures |calls| == |plan|
    ensures forall i :: 0 <= i < |plan| ==>
              && ConfigWritableStart <= Start(plan[i].block, plan[i].word) && ChunkEnd(plan[i]) <= |data|
              && MissesLock(ZoneConfig, Start(plan[i].block, plan[i].word), ChunkEnd(plan[i]))
              && calls[i].block == plan[i].block && calls[i].word == plan[i].word
              && calls[i].bytes == data[Start(plan[i].block, plan[i].word)..ChunkEnd(plan[i])]
    ensures forall i, j :: 0 <= i < j < |plan| ==> ChunkEnd(plan[i]) <= Start(plan[j].block, plan[j].word)
    ensures r.Ok? && |data| > ConfigWritableStart ==>
              Written(plan) + (if |data| >= LockWordEnd then WordSize else 0) == |data| - ConfigWritableStart
  {
    var rest := if |data| >= ConfigWritableStart then data[ConfigWritableStart..] else [];
    r, plan, calls := WriteBytesZone(ZoneConfig, 0, ConfigWritableStart, rest);
    forall i | 0 <= i < |plan|
      ensures calls[i].bytes == data[Start(plan[i].block, plan[i].word)..ChunkEnd(plan[i])]
    {
      SliceOfTail(data, rest, Start(plan[i].block, plan[i].word), ChunkEnd(plan[i]));
    }
  }

  /** A slice of data[16..] is the slice of data 16 bytes on. */
  lemma SliceOfTail(data: seq<Byte>, rest: seq<Byte>, s: nat, e: nat)
    requires |data| >= ConfigWritableStart && rest == data[ConfigWritableStart..]
    requires ConfigWritableStart <= s <= e <= |data|
    ensures rest[s - ConfigWritableStart..e - ConfigWritableStart] == data[s..e]
  {
  }
}
