/** A compressed file: read through a cache of one chunk, written in memory, and stored again when closed. */
module HfsCompressed {
  import opened Bits
  import opened Codecs
  import opened Collections
  import opened CompressedBlocks
  import opened Extents
  import opened HfsRawFile
  import opened HfsFileRuns
  import opened Numbers
  import opened Wrappers

  /** The attribute of a compressed file: where the data are, their size, and the data if they fit in. */
  datatype Attribute = Attribute(flags: nat, size: nat, data: seq<Byte>)

  const INLINE := 3
  const IN_FORK := 4

  /** The sizes of the attribute without data, and of its key. */
  const DECMPFS_SIZE := 16
  const ATTR_KEY_SIZE := 524

  /** What is on the volume is the contents. */
  ghost predicate OnVolume(c: Codec, attribute: Option<Attribute>, fork: seq<Byte>, contents: seq<Byte>) {
    match attribute
    case None => contents == []
    case Some(a) =>
      && a.size == |contents|
      && if a.flags == INLINE then c.inflate(a.data) == contents
         else exists blocks :: StoredInFork(c, fork, blocks, contents)
  }

  /** The block of the chunk in which a location lies. */
  lemma BlockOf(c: Codec, fork: seq<Byte>, base: nat, blocks: seq<Block>, contents: seq<Byte>, location: nat)
    requires Stored(c, fork, base, blocks, contents) && location < |contents|
    ensures var i := location / CHUNK;
      && i < |blocks| && base + blocks[i].offset + blocks[i].size <= |fork|
      && var data := c.inflate(fork[base + blocks[i].offset..base + blocks[i].offset + blocks[i].size]);
      && i * CHUNK <= location < i * CHUNK + |data| <= |contents| && data == contents[i * CHUNK..i * CHUNK + |data|]
  {
    var i := location / CHUNK;
    ChunkBounds(|contents|, i);
    ChunkBounds(|contents|, i + 1);
    assert Holds(c, fork, base, blocks[i], ChunkAt(contents, i));
  }

  /** The marker at the end of the fork. */
  const END_MARKER: seq<Byte> :=
    seq(24, _ => 0) + [0, 0x1C, 0, 0x32, 0, 0, 0x63, 0x6D, 0x70, 0x66, 0, 0, 0, 0xA, 1, 0xFF, 0xFF, 0, 0, 0, 0, 0, 0, 0, 0, 0]

  lemma EndMarker()
    ensures END_MARKER == Marker()
  {
    assert END_MARKER[..24] == Marker()[..24];
  }

  /** There is something to store, the library gets back what it compressed, and the fork's numbers are of 32 bits. */
  ghost predicate Storable(c: Codec, contents: seq<Byte>) {
    && contents != [] && Inverse(c)
    && BASE + FirstOffset(Chunks(|contents|)) + DeflatedUpTo(c, contents, Chunks(|contents|)) < TWO32
  }

  /** A file of one chunk that is small enough when it is compressed. */
  ghost predicate FitsInline(c: Codec, contents: seq<Byte>) {
    Chunks(|contents|) <= 1 && |c.deflate(contents)| + 16 + 524 <= 0x1000
  }

  /** How many bytes of data the buffer of the attribute holds: that of a new file is 0x1000 bytes long, any other just
      as long as the attribute that was read into it. */
  function Capacity(attribute: Option<Attribute>): nat {
    match attribute
    case None => 0x1000 - DECMPFS_SIZE
    case Some(a) => |a.data|
  }

  /** The attribute was there, and is too short for the compressed contents that are to be stored in it. */
  ghost predicate Overruns(c: Codec, attribute: Option<Attribute>, contents: seq<Byte>) {
    attribute.Some? && FitsInline(c, contents) && |c.deflate(contents)| > |attribute.value.data|
  }

  lemma OverrunsIsFull(c: Codec, attribute: Option<Attribute>, contents: seq<Byte>)
    requires FitsInline(c, contents)
    ensures Overruns(c, attribute, contents) <==> |c.deflate(contents)| > Capacity(attribute)
  {}

  lemma OneOrMore(c: Codec, contents: seq<Byte>)
    ensures FitsInline(c, contents) ==> Chunks(|contents|) <= 1
  {}

  lemma NothingLaid(c: Codec, fork: seq<Byte>, base: nat, contents: seq<Byte>, start: nat)
    ensures LaidOut(c, fork, base, [], contents, start) && DeflatedUpTo(c, contents, 0) == 0
  {}

  /** Whether the chunk at hand is small enough and the only one is whether the file fits inline. */
  lemma InlineOrNot(c: Codec, contents: seq<Byte>, i: nat, buffer: seq<Byte>)
    requires contents != [] && i < Chunks(|contents|) && buffer == c.deflate(ChunkAt(contents, i))
    ensures FitsInline(c, contents) <==> Chunks(|contents|) <= 1 && |buffer| + DECMPFS_SIZE + ATTR_KEY_SIZE <= 0x1000
    ensures FitsInline(c, contents) ==> buffer == c.deflate(contents)
  {
    if Chunks(|contents|) <= 1 {
      OneChunk(contents);
    }
  }

  lemma WhatIsStored(c: Codec, attribute: Option<Attribute>, fork: seq<Byte>, contents: seq<Byte>) returns (blocks: seq<Block>)
    requires OnVolume(c, attribute, fork, contents)
    ensures attribute.None? ==> contents == []
    ensures attribute.Some? ==> attribute.value.size == |contents|
    ensures attribute.Some? ==> if attribute.value.flags == INLINE then c.inflate(attribute.value.data) == contents
                                else StoredInFork(c, fork, blocks, contents)
  {
    blocks := [];
    if attribute.Some? && attribute.value.flags != INLINE {
      blocks :| StoredInFork(c, fork, blocks, contents);
    }
  }

  lemma OneMore(c: Codec, contents: seq<Byte>, i: nat)
    requires i < Chunks(|contents|)
    ensures DeflatedUpTo(c, contents, i + 1) == DeflatedUpTo(c, contents, i) + |c.deflate(ChunkAt(contents, i))|
  {}

  lemma TableInside(fork: seq<Byte>, at: nat, blocks: seq<Block>)
    requires HasTable(fork, at, blocks)
    ensures at + 8 + 8 * |blocks| <= |fork|
  {}

  lemma ClosedOnVolume(c: Codec, a: Attribute, fork: seq<Byte>, blocks: seq<Block>, contents: seq<Byte>)
    requires a.size == |contents|
    requires if a.flags == INLINE then c.inflate(a.data) == contents else StoredInFork(c, fork, blocks, contents)
    ensures OnVolume(c, Some(a), fork, contents)
  {}

  class CompressedFile {
    const codec: Codec
    var attribute: Option<Attribute>
    var fork: seq<Byte>
    var size: nat
    var cached: Option<seq<Byte>>
    var cachedStart: nat
    var cachedEnd: nat
    var capacity: nat
    var headerSize: nat
    var blocks: seq<Block>
    var dirty: bool
    ghost var contents: seq<Byte>

    /** The cache holds a part of the contents. */
    ghost predicate CacheOK()
      reads this
    {
      && cachedStart <= cachedEnd <= |contents|
      && (cached.None? ==> cachedStart == cachedEnd == 0)
      && (cached.Some? ==> cachedEnd - cachedStart <= |cached.value|
                           && cached.value[..cachedEnd - cachedStart] == contents[cachedStart..cachedEnd])
    }

    /** All of it. */
    ghost predicate AllCached()
      reads this
    {
      cachedStart == 0 && cachedEnd == |contents|
    }

    /** The contents are in the cache, or can be fetched from the fork; unless they have been changed, they are
        what is on the volume. */
    ghost predicate Valid()
      reads this
    {
      && size == |contents| && CacheOK() && capacity == Capacity(attribute)
      && (AllCached() || Stored(codec, fork, headerSize + 4, blocks, contents))
      && (if dirty then AllCached() else OnVolume(codec, attribute, fork, contents))
    }

    /** Fetches the chunk in which a location lies. */
    method CacheChunk(location: nat)
      requires Valid() && !AllCached() && location < |contents|
      modifies this`cached, this`cachedStart, this`cachedEnd
      ensures Valid() && cachedStart <= location < cachedEnd && cached.Some?
    {
      hide OnVolume, Stored;
      var block := location / CHUNK;
      BlockOf(codec, fork, headerSize + 4, blocks, contents, location);
      var at := headerSize + 4 + blocks[block].offset;
      var compressed := fork[at..at + blocks[block].size];
      var data := codec.inflate(compressed);
      cached := Some(data);
      cachedStart := block * CHUNK;
      cachedEnd := cachedStart + |data|;
    }

    /** Reads bytes of the file. */
    method CompressedRead(location: nat, size: nat) returns (buffer: seq<Byte>)
      requires Valid() && location + size <= |contents|
      modifies this`cached, this`cachedStart, this`cachedEnd
      ensures Valid() && buffer == contents[location..location + size]
    {
      hide Stored, OnVolume;
      var at, left := location, size;
      buffer := [];
      while left > 0
        invariant Valid() && location <= at && at + left == location + size && left >= 0
        invariant buffer == contents[location..at]
        decreases left, if cached.Some? && cachedStart <= at < cachedEnd then 0 else 1
      {
        if cached.Some? && at >= cachedStart && at < cachedEnd {
          var toRead := if cachedEnd - at < left then cachedEnd - at else left;
          ReadFromCache(at, toRead);
          buffer := buffer + cached.value[at - cachedStart..at - cachedStart + toRead];
          left := left - toRead;
          at := at + toRead;
        }
        if left == 0 {
          break;
        }
        CacheChunk(at);
      }
    }

    lemma ReadFromCache(at: nat, n: nat)
      requires CacheOK() && cached.Some? && cachedStart <= at && at + n <= cachedEnd
      ensures cached.value[at - cachedStart..at - cachedStart + n] == contents[at..at + n]
    {
      var k := cachedEnd - cachedStart;
      SliceOfSlice(cached.value, 0, k, at - cachedStart, n);
      SliceOfSlice(contents, cachedStart, k, at - cachedStart, n);
    }

    /** Writes bytes into the file or right behind it; all of it is cached for that. */
    method CompressedWrite(location: nat, data: seq<Byte>)
      requires Valid() && location <= |contents|
      modifies this`cached, this`cachedStart, this`cachedEnd, this`size, this`dirty, this`contents
      ensures Valid() && dirty && contents == PlainWrite(old(contents), WriteOp(location, data))
    {
      hide Stored, OnVolume, PlainWrite;
      if cachedStart != 0 || cachedEnd != size {
        CacheAll();
      }
      ghost var was := contents;
      var buffer := if cached.None? then [] else cached.value;
      var end := size;
      if location + |data| > size {
        buffer := Realloc(buffer, location + |data|);
        end := location + |data|;
      }
      ghost var full := buffer;
      assert was == full[..|was|];
      buffer := buffer[..location] + data + buffer[location + |data|..];
      CacheWritten(was, full, buffer, location, data);
      size, cachedEnd, cached, dirty := end, end, Some(buffer), true;
      contents := PlainWrite(was, WriteOp(location, data));
    }

    /** Reads the whole file into the cache. */
    method CacheAll()
      requires Valid()
      modifies this`cached, this`cachedStart, this`cachedEnd
      ensures Valid() && AllCached() && cached.Some? && cached.value == contents
    {
      hide Stored, OnVolume;
      var newCache := CompressedRead(0, size);
      assert contents[0..size] == contents;
      cached := Some(newCache);
      cachedStart := 0;
      cachedEnd := size;
    }

    /** Writes bytes into the resource fork, which grows if need be. */
    method WriteFork(at: nat, data: seq<Byte>)
      modifies this`fork
      ensures fork == Put(old(fork), at, data)
    {
      var end := at + |data|;
      if |fork| < end {
        fork := fork + seq(end - |fork|, _ => 0);
      }
      fork := fork[..at] + data + fork[end..];
    }

    /** The cached bytes of a chunk. */
    lemma CachedChunk(i: nat)
      requires CacheOK() && AllCached() && i < Chunks(|contents|)
      ensures cached.Some? && CHUNK * i < ChunkEnd(|contents|, i) <= |cached.value|
      ensures cached.value[CHUNK * i..ChunkEnd(|contents|, i)] == ChunkAt(contents, i)
    {
      ChunkBounds(|contents|, i);
      SliceOfSlice(cached.value, 0, |contents|, CHUNK * i, ChunkEnd(|contents|, i) - CHUNK * i);
    }

    /** Compresses the chunks of a changed file and writes them into the fork one behind the other, unless there is
        only one and it is small enough. Then it is copied into the attribute's buffer; where that is left, the model
        stops. */
    method StoreChunks() returns (flags: nat, data: seq<Byte>, totalSize: nat, dataSize: nat, blockData: nat, ok: bool)
      requires Valid() && dirty && Storable(codec, contents)
      modifies this`fork, this`blocks, this`headerSize
      ensures flags == if FitsInline(codec, contents) then INLINE else IN_FORK
      ensures flags == INLINE ==> data == codec.deflate(contents) && fork == old(fork)
      ensures flags == IN_FORK ==> data == []
      ensures flags == IN_FORK ==> LaidOut(codec, fork, BASE, blocks, contents, FirstOffset(|blocks|))
      ensures flags == IN_FORK ==> |blocks| == Chunks(|contents|) && headerSize == HEADER_SIZE
      ensures flags == IN_FORK ==> totalSize == BASE + FirstOffset(|blocks|) + DeflatedUpTo(codec, contents, |blocks|)
      ensures totalSize == dataSize + HEADER_SIZE == blockData + BASE
      ensures ok <==> !Overruns(codec, attribute, contents)
    {
      hide Stored, OnVolume, LaidOut, Put, Chunks, ChunkAt, DeflatedUpTo, FitsInline;
      ChunkCount();
      OneOrMore(codec, contents);
      flags, data, ok := IN_FORK, [], true;
      var numBlocks := Chunks(size);
      var blocksSize := 8 + 8 * numBlocks;
      totalSize, dataSize, blockData := HEADER_SIZE + blocksSize, blocksSize, blocksSize - 4;
      var curFileOffset := blockData;
      headerSize := HEADER_SIZE;
      blocks := [];
      NothingLaid(codec, fork, BASE, contents, FirstOffset(numBlocks));
      while |blocks| < numBlocks
        invariant |blocks| <= numBlocks && (|blocks| > 0 ==> !FitsInline(codec, contents))
        invariant headerSize == HEADER_SIZE && (|blocks| == 0 ==> fork == old(fork))
        invariant LaidOut(codec, fork, BASE, blocks, contents, FirstOffset(numBlocks))
        invariant curFileOffset == FirstOffset(numBlocks) + DeflatedUpTo(codec, contents, |blocks|)
        invariant totalSize == BASE + curFileOffset && dataSize == curFileOffset + 4 && blockData == curFileOffset
      {
        CachedChunk(|blocks|);
        var buffer := codec.deflate(cached.value[CHUNK * |blocks|..ChunkEnd(size, |blocks|)]);
        InlineOrNot(codec, contents, |blocks|, buffer);
        if numBlocks <= 1 && |buffer| + DECMPFS_SIZE + ATTR_KEY_SIZE <= 0x1000 {
          flags, data := INLINE, buffer;
          OverrunsIsFull(codec, attribute, contents);
          ok := |buffer| <= capacity;
          return;
        }
        LayOne(codec, fork, BASE, blocks, contents, FirstOffset(numBlocks));
        OneMore(codec, contents, |blocks|);
        WriteFork(headerSize + 4 + curFileOffset, buffer);
        blocks := blocks + [Block(curFileOffset, |buffer|)];
        curFileOffset, blockData := curFileOffset + |buffer|, blockData + |buffer|;
        dataSize, totalSize := dataSize + |buffer|, totalSize + |buffer|;
      }
    }

    /** Closing stores a changed file again: in its attribute if the only chunk is small enough when it is
        compressed, and in the resource fork otherwise. It fails exactly if the attribute was there and is too short. */
    method Close() returns (ok: bool)
      requires Valid() && (dirty ==> Storable(codec, contents))
      modifies this`attribute, this`fork, this`blocks, this`headerSize
      ensures ok <==> !dirty || !Overruns(codec, old(attribute), contents)
      ensures ok ==> OnVolume(codec, attribute, fork, contents)
      ensures !dirty ==> attribute == old(attribute) && fork == old(fork)
      ensures ok && dirty ==>
        attribute == Some(if FitsInline(codec, contents) then Attribute(3, |contents|, codec.deflate(contents)) else Attribute(4, |contents|, []))
      ensures ok && dirty && !FitsInline(codec, contents) ==> IsFork(codec, fork, blocks, contents)
      ensures dirty && FitsInline(codec, contents) ==> fork == old(fork)
    {
      hide Stored, OnVolume, LaidOut, Put, Chunks, StoredInFork, AllFit, DeflatedUpTo, FitsInline, Head, Table, IsFork;
      ok := true;
      if dirty {
        var flags, data, totalSize, dataSize, blockData;
        flags, data, totalSize, dataSize, blockData, ok := StoreChunks();
        if !ok {
          return;
        }
        if flags == IN_FORK {
          EndMarker();
          ForkComplete(codec, fork, blocks, contents, totalSize, dataSize, blockData, END_MARKER);
          WriteFork(0, Head(totalSize, dataSize));
          WriteFork(headerSize, Table(blockData, blocks));
          WriteFork(totalSize, END_MARKER);
        }
        attribute := Some(Attribute(flags, size, data));
        ClosedOnVolume(codec, attribute.value, fork, blocks, contents);
      }
    }

    /** A changed file that is not empty has chunks. */
    lemma ChunkCount()
      requires Valid() && dirty && contents != []
      ensures size == |contents| && CacheOK() && AllCached() && Chunks(|contents|) > 0
    {
      ChunkBounds(|contents|, 0);
    }

    /** Opens a file that may have been compressed before. */
    constructor Open(codec: Codec, attribute: Option<Attribute>, fork: seq<Byte>, ghost contents: seq<Byte>)
      requires OnVolume(codec, attribute, fork, contents)
      ensures Valid() && !dirty && this.contents == contents
      ensures this.codec == codec && this.attribute == attribute && this.fork == fork
    {
      hide OnVolume, Stored, StoredInFork;
      this.codec, this.attribute, this.fork, this.contents := codec, attribute, fork, contents;
      cached, cachedStart, cachedEnd, blocks, dirty, headerSize := None, 0, 0, [], false, 0;
      capacity := Capacity(attribute);
      size := if attribute.None? then 0 else attribute.value.size;
      new;
      ghost var bs := WhatIsStored(codec, attribute, fork, contents);
      if attribute.Some? {
        if attribute.value.flags == INLINE {
          cached := Some(codec.inflate(attribute.value.data));
          cachedEnd := |cached.value|;
        } else {
          headerSize, blocks := ReadBlocks(codec, fork, bs, contents);
        }
      }
    }

    /** Reads the table of blocks. */
    static method ReadBlocks(codec: Codec, fork: seq<Byte>, ghost bs: seq<Block>, ghost contents: seq<Byte>)
      returns (headerSize: nat, blocks: seq<Block>)
      requires StoredInFork(codec, fork, bs, contents)
      ensures blocks == bs && Stored(codec, fork, headerSize + 4, blocks, contents)
    {
      hide Stored, HasTable, ReadBe32, ReadLe32;
      headerSize := ReadBe32(fork, 0);
      CountRead(fork, headerSize, bs);
      TableInside(fork, headerSize, bs);
      var numBlocks := ReadLe32(fork, headerSize + 4);
      blocks := [];
      for i := 0 to numBlocks
        invariant blocks == bs[..i]
      {
        TableRead(fork, headerSize, bs, i);
        blocks := blocks + [Block(ReadLe32(fork, headerSize + 8 + 8 * i), ReadLe32(fork, headerSize + 12 + 8 * i))];
      }
    }

    /** A buffer of another length; what is beyond the old one is not said. */
    static method Realloc(buffer: seq<Byte>, n: nat) returns (b: seq<Byte>)
      ensures |b| == n && forall i | 0 <= i < n && i < |buffer| :: b[i] == buffer[i]
    {
      b := if n <= |buffer| then buffer[..n] else buffer + seq(n - |buffer|, _ => 0);
    }

    /** The bytes written into the cache are those of the plain array. */
    static lemma CacheWritten(was: seq<Byte>, full: seq<Byte>, buffer: seq<Byte>, at: nat, data: seq<Byte>)
      requires at <= |was| <= |full| && at + |data| <= |full| && full[..|was|] == was
      requires buffer == full[..at] + data + full[at + |data|..]
      ensures var s := PlainWrite(was, WriteOp(at, data)); |s| <= |buffer| && buffer[..|s|] == s
    {
      var s := PlainWrite(was, WriteOp(at, data));
      forall i | 0 <= i < |s| ensures buffer[i] == s[i] {
        if i < |was| {
          assert full[..|was|][i] == full[i];
        }
      }
    }
  }

  datatype Step = Reading(at: nat, size: nat) | Writing(op: WriteOp)

  /** The plain array after some reads and writes. */
  ghost function After(s: seq<Byte>, steps: seq<Step>): seq<Byte> {
    if steps == [] then s
    else var t := After(s, steps[..|steps| - 1]);
      match steps[|steps| - 1]
      case Reading(_, _) => t
      case Writing(op) => PlainWrite(t, op)
  }

  /** Reads are of bytes that are there, and writes start in the file or right behind it. */
  ghost predicate InRange(s: seq<Byte>, steps: seq<Step>) {
    forall i: nat | i < |steps| :: StepInRange(After(s, steps[..i]), steps[i])
  }

  ghost predicate StepInRange(t: seq<Byte>, step: Step) {
    match step
    case Reading(at, size) => at + size <= |t|
    case Writing(op) => op.at <= |t|
  }

  /** What a step gives back on a plain array. */
  ghost function Answer(t: seq<Byte>, step: Step): seq<Byte> {
    match step
    case Reading(at, size) => if at + size <= |t| then t[at..at + size] else []
    case Writing(_) => []
  }

  ghost predicate Changes(steps: seq<Step>) {
    exists i :: 0 <= i < |steps| && steps[i].Writing?
  }

  /** Any reads and writes give what they give on a plain array. */
  method RunSteps(f: CompressedFile, steps: seq<Step>) returns (answers: seq<seq<Byte>>)
    requires f.Valid() && InRange(f.contents, steps)
    modifies f`cached, f`cachedStart, f`cachedEnd, f`size, f`dirty, f`contents
    ensures f.Valid() && f.contents == After(old(f.contents), steps)
    ensures |answers| == |steps|
    ensures forall i: nat | i < |steps| :: answers[i] == Answer(After(old(f.contents), steps[..i]), steps[i])
    ensures f.dirty <==> old(f.dirty) || Changes(steps)
  {
    hide CompressedFile.Valid, PlainWrite, Answer;
    answers := [];
    ghost var s := f.contents;
    var i := 0;
    assert steps[..0] == [];
    while i < |steps|
      invariant i <= |steps| && f.Valid() && f.contents == After(s, steps[..i])
      invariant |answers| == i && forall j: nat | j < i :: answers[j] == Answer(After(s, steps[..j]), steps[j])
      invariant f.dirty <==> old(f.dirty) || Changes(steps[..i])
    {
      assert StepInRange(After(s, steps[..i]), steps[i]);
      OneStep(s, steps, i);
      var answer := RunStep(f, steps[i]);
      answers := answers + [answer];
      i := i + 1;
    }
    assert steps[..i] == steps;
  }

  lemma OneStep(s: seq<Byte>, steps: seq<Step>, i: nat)
    requires i < |steps|
    ensures var t := After(s, steps[..i]);
      After(s, steps[..i + 1]) == if steps[i].Writing? then PlainWrite(t, steps[i].op) else t
    ensures Changes(steps[..i + 1]) <==> Changes(steps[..i]) || steps[i].Writing?
  {
    var part := steps[..i + 1];
    assert part[..i] == steps[..i] && part[i] == steps[i];
    forall j | 0 <= j < i && steps[..i][j].Writing? ensures part[j].Writing? {}
  }

  method RunStep(f: CompressedFile, step: Step) returns (answer: seq<Byte>)
    requires f.Valid() && StepInRange(f.contents, step)
    modifies f`cached, f`cachedStart, f`cachedEnd, f`size, f`dirty, f`contents
    ensures f.Valid() && answer == Answer(old(f.contents), step)
    ensures f.contents == if step.Writing? then PlainWrite(old(f.contents), step.op) else old(f.contents)
    ensures f.dirty <==> old(f.dirty) || step.Writing?
  {
    hide CompressedFile.Valid, PlainWrite;
    match step {
      case Reading(at, size) =>
        answer := f.CompressedRead(at, size);
      case Writing(op) =>
        f.CompressedWrite(op.at, op.data);
        answer := [];
    }
  }

  /** A file that has been opened, read and written in any order, closed, and opened again, is the plain array
      after the same writes: whatever is read from it then is read from that array. Closing fails exactly if the file
      was changed and its attribute, which was there, is too short for the contents that are to be stored in it. */
  method Reopened(codec: Codec, attribute: Option<Attribute>, fork: seq<Byte>, ghost contents: seq<Byte>,
                  steps: seq<Step>, again: seq<Step>)
    returns (ok: bool, g: CompressedFile?, answers: seq<seq<Byte>>)
    requires OnVolume(codec, attribute, fork, contents) && InRange(contents, steps)
    requires Changes(steps) ==> Storable(codec, After(contents, steps))
    requires InRange(After(contents, steps), again)
    ensures ok <==> !(Changes(steps) && Overruns(codec, attribute, After(contents, steps)))
    ensures ok ==> g != null && g.Valid() && g.contents == After(After(contents, steps), again)
    ensures ok ==> |answers| == |again|
    ensures ok ==> forall i: nat | i < |again| :: answers[i] == Answer(After(After(contents, steps), again[..i]), again[i])
  {
    hide OnVolume, CompressedFile.Valid, Storable, After, Answer, InRange, Overruns;
    g, answers := null, [];
    var f := new CompressedFile.Open(codec, attribute, fork, contents);
    var _ := RunSteps(f, steps);
    ok := f.Close();
    if ok {
      var h := new CompressedFile.Open(codec, f.attribute, f.fork, f.contents);
      answers := RunSteps(h, again);
      g := h;
    }
  }

  // ----- An input -----

  /** A file of one byte, stored in its attribute, to which one byte is added: the attribute's buffer is too short. */
  lemma AddedByteOverruns()
    ensures var c, attribute := OneMoreByte(), Some(Attribute(INLINE, 1, [0, 97]));
      && Inverse(c) && OnVolume(c, attribute, [], [97])
      && After([97], [Writing(WriteOp(1, [98]))]) == [97, 98]
      && Overruns(c, attribute, [97, 98])
  {
    OneMoreByteInverse();
    var steps := [Writing(WriteOp(1, [98]))];
    assert steps[..0] == [];
    assert PlainWrite([97], WriteOp(1, [98])) == [97, 98];
    assert [0, 97][1..] == [97];
  }

  /** So is that of a file in the fork whose compressed contents have become small. */
  lemma ForkToInlineOverruns(c: Codec, attribute: Attribute, contents: seq<Byte>)
    requires attribute.data == [] && c.deflate(contents) != []
    ensures Overruns(c, Some(attribute), contents) <==> FitsInline(c, contents)
  {}
}
