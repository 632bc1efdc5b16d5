/** The ChaCha20 stream cipher of section 2.4 of RFC 8439: a keystream consumed through a buffer by
    any sequence of calls. */
module ChaCha20 {
  import opened Words
  import opened ChaChaBlock

  // ---- Keystreams ----

  /** What determines a keystream: a key, a nonce and the counter of its first block. */
  datatype Origin = Origin(key: seq<byte>, nonce: Nonce, counter: nat)

  /** A byte of the keystream. The block counter wraps, see `BlockWraps`. */
  ghost function StreamByte(o: Origin, i: nat): (b: byte)
    requires |o.key| == 32
    ensures 0 <= b < 256
  {
    hide Block;
    Block(o.key, o.nonce, o.counter + i / BLOCK)[i % BLOCK]
  }

  ghost function Stream(o: Origin, from: nat, size: nat): (r: seq<byte>)
    requires |o.key| == 32
    ensures |r| == size
  {
    seq<byte>(size, k requires 0 <= k < size => StreamByte(o, from + k))
  }

  lemma {:induction false} StreamAppend(o: Origin, from: nat, a: nat, b: nat)
    requires |o.key| == 32
    ensures Stream(o, from, a + b) == Stream(o, from, a) + Stream(o, from + a, b)
  {
    hide StreamByte;
  }

  lemma {:induction false} StreamAt(o: Origin, block: nat, index: nat)
    requires |o.key| == 32 && index < BLOCK
    ensures StreamByte(o, BLOCK * block + index) == Block(o.key, o.nonce, o.counter + block)[index]
  {
    hide Block;
    assert (BLOCK * block + index) / BLOCK == block && (BLOCK * block + index) % BLOCK == index;
  }

  lemma {:induction false} StreamBlock(o: Origin, block: nat)
    requires |o.key| == 32
    ensures Stream(o, BLOCK * block, BLOCK) == Block(o.key, o.nonce, o.counter + block)
  {
    hide Block, StreamByte;
    forall index | 0 <= index < BLOCK
      ensures Stream(o, BLOCK * block, BLOCK)[index] == Block(o.key, o.nonce, o.counter + block)[index]
    {
      StreamAt(o, block, index);
    }
  }

  lemma {:induction false} StreamBlocks(o: Origin, block: nat, count: nat)
    requires |o.key| == 32
    ensures Stream(o, BLOCK * block, BLOCK * count) == Blocks(o.key, o.nonce, o.counter + block, count)
    decreases count
  {
    hide Block, Stream;
    if count > 0 {
      StreamBlocks(o, block, count - 1);
      StreamBlock(o, block + (count - 1));
      StreamAppend(o, BLOCK * block, BLOCK * (count - 1), BLOCK);
    } else {
      assert |Stream(o, BLOCK * block, 0)| == 0;
    }
  }

  function XorBytes(a: seq<byte>, b: seq<byte>): (r: seq<byte>)
    requires |a| == |b|
    ensures |r| == |a|
  {
    seq(|a|, i requires 0 <= i < |a| => XorByte(a[i], b[i]))
  }

  lemma {:induction false} XorBytesCancels(a: seq<byte>, b: seq<byte>)
    requires |a| == |b|
    ensures XorBytes(XorBytes(a, b), b) == a
  {
    hide BitXor;
    forall i | 0 <= i < |a|
      ensures XorBytes(XorBytes(a, b), b)[i] == a[i]
    {
      XorCancels(a[i], b[i]);
    }
  }

  lemma {:induction false} XorBytesAppend(a: seq<byte>, x: seq<byte>, b: seq<byte>, y: seq<byte>)
    requires |a| == |x| && |b| == |y|
    ensures XorBytes(a + b, x + y) == XorBytes(a, x) + XorBytes(b, y)
  {
    hide XorByte;
  }

  /** The message past a keystream, from a position on. */
  ghost function Crypted(o: Origin, from: nat, message: seq<byte>): (r: seq<byte>)
    requires |o.key| == 32
    ensures |r| == |message|
  {
    XorBytes(message, Stream(o, from, |message|))
  }

  lemma {:induction false} CryptedTwice(o: Origin, from: nat, message: seq<byte>)
    requires |o.key| == 32
    ensures Crypted(o, from, Crypted(o, from, message)) == message
  {
    XorBytesCancels(message, Stream(o, from, |message|));
  }

  lemma {:induction false} CryptedAppend(o: Origin, from: nat, a: seq<byte>, b: seq<byte>)
    requires |o.key| == 32
    ensures Crypted(o, from, a + b) == Crypted(o, from, a) + Crypted(o, from + |a|, b)
  {
    hide Stream, XorBytes;
    StreamAppend(o, from, |a|, |b|);
    XorBytesAppend(a, Stream(o, from, |a|), b, Stream(o, from + |a|, |b|));
  }

  ghost function Concat(parts: seq<seq<byte>>): seq<byte> {
    if parts == [] then [] else Concat(parts[..|parts| - 1]) + parts[|parts| - 1]
  }

  /** What successive calls yield for the parts of a message. */
  ghost function CryptedParts(o: Origin, from: nat, parts: seq<seq<byte>>): seq<byte>
    requires |o.key| == 32
  {
    if parts == [] then []
    else
      var front := parts[..|parts| - 1];
      CryptedParts(o, from, front) + Crypted(o, from + |Concat(front)|, parts[|parts| - 1])
  }

  /** Every partition of a message into calls yields the same bytes. */
  lemma {:induction false} PartitionIrrelevant(o: Origin, from: nat, parts: seq<seq<byte>>)
    requires |o.key| == 32
    ensures CryptedParts(o, from, parts) == Crypted(o, from, Concat(parts))
    decreases |parts|
  {
    hide Crypted;
    if parts == [] {
      assert |Crypted(o, from, [])| == 0;
    } else {
      var front := parts[..|parts| - 1];
      PartitionIrrelevant(o, from, front);
      CryptedAppend(o, from, Concat(front), parts[|parts| - 1]);
    }
  }

  // ---- Spans of memory ----

  datatype Span = Span(data: array<byte>, at: nat, size: nat) {
    ghost predicate Fits() {
      at + size <= data.Length
    }

    ghost function Bytes(): (r: seq<byte>)
      requires Fits()
      reads data
      ensures |r| == size
    {
      data[at..at + size]
    }
  }

  /** An empty input stands for zeros: the keystream itself is written. */
  ghost function Source(input: Span, size: nat): (r: seq<byte>)
    requires input.Fits() && (input.size == 0 || input.size == size)
    reads input.data
    ensures |r| == size
  {
    if input.size == 0 then Zeros(size) else input.Bytes()
  }

  /** Bytes are put out in order, so that the output may be the input or overlap it from below. */
  ghost predicate Compatible(input: Span, out: Span) {
    && input.Fits() && out.Fits() && (input.size == 0 || input.size == out.size)
    && (input.data == out.data ==> out.at <= input.at || input.at + input.size <= out.at)
  }

  /** Memory with bytes put at an index. */
  ghost function Put(memory: seq<byte>, at: nat, bytes: seq<byte>): (r: seq<byte>)
    requires at + |bytes| <= |memory|
    ensures |r| == |memory|
  {
    memory[..at] + bytes + memory[at + |bytes|..]
  }

  lemma {:induction false} PutTwice(memory: seq<byte>, at: nat, a: seq<byte>, b: seq<byte>)
    requires at + |a| + |b| <= |memory|
    ensures Put(Put(memory, at, a), at + |a|, b) == Put(memory, at, a + b)
  {
  }

  /** The first bytes of the output are done, and the rest of the input is as it was. */
  ghost predicate Done(input: Span, out: Span, before: seq<byte>, source: seq<byte>, o: Origin, from: nat, done: nat)
    reads input.data, out.data
  {
    && Compatible(input, out) && |o.key| == 32 && done <= out.size
    && |before| == out.data.Length && |source| == out.size
    && out.data[..] == Put(before, out.at, Crypted(o, from, source[..done]))
    && Source(input, out.size)[done..] == source[done..]
  }

  lemma {:induction false} XorZero(b: byte)
    ensures XorByte(0, b) == b
  {
  }

  /** Memory with a byte exclusively combined into each place from an index on. */
  ghost predicate Combined(memory: seq<byte>, before: seq<byte>, base: nat, source: seq<byte>, stream: seq<byte>,
                           count: nat)
    requires count <= |source| == |stream| && base + |stream| <= |before| == |memory|
  {
    && (forall k :: 0 <= k < count ==> memory[base + k] == XorByte(source[k], stream[k]))
    && (forall k :: 0 <= k < base || base + count <= k < |memory| ==> memory[k] == before[k])
  }

  lemma {:induction false} CombinedNext(memory: seq<byte>, before: seq<byte>, base: nat, source: seq<byte>,
                                        stream: seq<byte>, count: nat)
    requires count < |source| == |stream| && base + |stream| <= |before| == |memory|
    requires Combined(memory, before, base, source, stream, count)
    ensures memory[base + count] == before[base + count]
    ensures Combined(memory[base + count := XorByte(source[count], stream[count])], before, base, source, stream,
                     count + 1)
  {
    hide XorByte;
  }

  lemma {:induction false} CombinedPut(memory: seq<byte>, before: seq<byte>, base: nat, source: seq<byte>,
                                       stream: seq<byte>)
    requires |source| == |stream| && base + |stream| <= |before| == |memory|
    requires Combined(memory, before, base, source, stream, |stream|)
    ensures memory == Put(before, base, XorBytes(source, stream))
  {
    hide XorByte;
    assert memory[base..base + |stream|] == XorBytes(source, stream);
    assert memory[..base] == before[..base];
    assert memory[base + |stream|..] == before[base + |stream|..];
    assert memory == memory[..base] + memory[base..base + |stream|] + memory[base + |stream|..];
  }

  /** Combines one byte. What follows it in the input is as it was. */
  method XorAt(input: Span, out: Span, k: nat, b: byte)
    requires Compatible(input, out) && k < out.size
    modifies out.data
    ensures out.data[..] == old(out.data[..])[out.at + k := XorByte(old(Source(input, out.size))[k], b)]
    ensures Source(input, out.size)[k + 1..] == old(Source(input, out.size))[k + 1..]
  {
    XorZero(b);
    hide XorByte;
    out.data[out.at + k] := if input.size == 0 then b else XorByte(input.data[input.at + k], b);
  }

  /** Applies keystream to the next bytes of the output. */
  method XorInto(input: Span, out: Span, done: nat, stream: seq<byte>)
    requires Compatible(input, out) && done + |stream| <= out.size
    modifies out.data
    ensures out.data[..] == Put(old(out.data[..]), out.at + done,
                                XorBytes(old(Source(input, out.size))[done..done + |stream|], stream))
    ensures Source(input, out.size)[done + |stream|..] == old(Source(input, out.size))[done + |stream|..]
  {
    hide Put, XorByte, XorBytes, Source;
    ghost var before, source := out.data[..], Source(input, out.size);
    ghost var part := source[done..done + |stream|];
    var base := out.at + done;
    var index: nat := 0;
    while index < |stream|
      invariant index <= |stream|
      invariant Combined(out.data[..], before, base, part, stream, index)
      invariant Source(input, out.size)[done + index..] == source[done + index..]
    {
      CombinedNext(out.data[..], before, base, part, stream, index);
      hide Combined;
      assert Source(input, out.size)[done + index..][0] == source[done + index..][0];
      XorAt(input, out, done + index, stream[index]);
      assert source[done + index..][1..] == source[done + index + 1..];
      index := index + 1;
    }
    CombinedPut(out.data[..], before, base, part, stream);
  }

  /** More bytes put after those already done. */
  lemma {:induction false} PutMore(before: seq<byte>, at: nat, source: seq<byte>, o: Origin, from: nat, done: nat,
                                   more: nat)
    requires |o.key| == 32 && done + more <= |source| && at + |source| <= |before|
    ensures Put(Put(before, at, Crypted(o, from, source[..done])), at + done,
                Crypted(o, from + done, source[done..done + more])) ==
            Put(before, at, Crypted(o, from, source[..done + more]))
  {
    hide Crypted, Put;
    var a, b := source[..done], source[done..done + more];
    assert source[..done + more] == a + b;
    CryptedAppend(o, from, a, b);
    PutTwice(before, at, Crypted(o, from, a), Crypted(o, from + done, b));
  }

  lemma {:induction false} SplitTail(a: seq<byte>, b: seq<byte>, at: nat, size: nat)
    requires |a| == |b| && at + size <= |a| && a[at..] == b[at..]
    ensures a[at..at + size] == b[at..at + size] && a[at + size..] == b[at + size..]
  {
    assert a[at..][..size] == a[at..at + size] && b[at..][..size] == b[at..at + size];
    assert a[at..][size..] == a[at + size..] && b[at..][size..] == b[at + size..];
  }

  /** Applies the next bytes of a keystream. */
  method Emit(input: Span, out: Span, done: nat, stream: seq<byte>, ghost before: seq<byte>, ghost source: seq<byte>,
              ghost o: Origin, ghost from: nat)
    requires Done(input, out, before, source, o, from, done) && done + |stream| <= out.size
    requires stream == Stream(o, from + done, |stream|)
    modifies out.data
    ensures Done(input, out, before, source, o, from, done + |stream|)
  {
    ghost var memory, current := out.data[..], Source(input, out.size);
    hide Stream, XorBytes, Put, Crypted, Source;
    XorInto(input, out, done, stream);
    DoneNext(input, out, memory, current, before, source, o, from, done, stream);
  }

  lemma {:induction false} DoneNext(input: Span, out: Span, memory: seq<byte>, current: seq<byte>, before: seq<byte>,
                                    source: seq<byte>, o: Origin, from: nat, done: nat, stream: seq<byte>)
    requires Compatible(input, out) && |o.key| == 32 && done + |stream| <= out.size
    requires |before| == |memory| == out.data.Length && |source| == |current| == out.size
    requires memory == Put(before, out.at, Crypted(o, from, source[..done])) && current[done..] == source[done..]
    requires stream == Stream(o, from + done, |stream|)
    requires out.data[..] == Put(memory, out.at + done, XorBytes(current[done..done + |stream|], stream))
    requires Source(input, out.size)[done + |stream|..] == current[done + |stream|..]
    ensures Done(input, out, before, source, o, from, done + |stream|)
  {
    hide Stream, XorBytes, Put, Source;
    SplitTail(current, source, done, |stream|);
    PutMore(before, out.at, source, o, from, done, |stream|);
    assert Crypted(o, from + done, source[done..done + |stream|]) == XorBytes(source[done..done + |stream|], stream);
    hide Crypted;
  }

  lemma {:induction false} CryptedZeros(o: Origin, from: nat, size: nat)
    requires |o.key| == 32
    ensures Crypted(o, from, Zeros(size)) == Stream(o, from, size)
  {
    hide Stream, XorByte;
    forall i | 0 <= i < size
      ensures Crypted(o, from, Zeros(size))[i] == Stream(o, from, size)[i]
    {
      XorZero(Stream(o, from, size)[i]);
    }
  }

  // ---- The cipher ----

  /** `origin` is the keystream since the last seek, of which `blocks` have been generated. */
  class Cipher {
    const platform: Platform
    var key: seq<byte>
    var nonce: Nonce
    var counter: nat
    var offset: nat
    const buffer: array<byte>
    ghost var origin: Origin
    ghost var blocks: nat

    /** The buffer holds the last block generated, if any of it is unused. */
    ghost predicate Valid()
      reads this, buffer
    {
      && |key| == 32 && buffer.Length == BLOCK && offset <= BLOCK
      && origin.key == key && origin.nonce == nonce && counter == (origin.counter + blocks) % POW32
      && (blocks == 0 ==> offset == BLOCK)
      && (offset < BLOCK ==> buffer[..] == Block(key, nonce, origin.counter + (blocks - 1)))
    }

    /** The bytes of keystream consumed since the last seek. */
    ghost function Position(): nat
      requires Valid()
      reads this, buffer
    {
      BLOCK * blocks + offset - BLOCK
    }

    constructor (platform: Platform, key: seq<byte>)
      requires |key| == 32
      ensures Valid() && fresh(buffer) && Position() == 0 && origin == Origin(key, Nonce(0, 0, 0), 0)
    {
      this.platform := platform;
      buffer := new byte[BLOCK](_ => 0);
      this.key, nonce, counter, offset := key, Nonce(0, 0, 0), 0, BLOCK;
      origin, blocks := Origin(key, Nonce(0, 0, 0), 0), 0;
    }

    method SetKey(key: seq<byte>)
      requires Valid() && |key| == 32
      modifies this
      ensures Valid() && Position() == 0 && origin == Origin(key, Nonce(0, 0, 0), 0)
    {
      hide Block;
      this.key, nonce, counter, offset := key, Nonce(0, 0, 0), 0, BLOCK;
      origin, blocks := Origin(key, Nonce(0, 0, 0), 0), 0;
    }

    method Seek(nonce32: nat, nonce64: nat, counter: nat)
      requires Valid() && counter < POW32
      modifies this
      ensures Valid() && Position() == 0 && origin == Origin(old(origin.key), NonceOf(nonce32, nonce64), counter)
    {
      hide NonceOf, Block;
      nonce := NonceOf(nonce32, nonce64);
      this.counter, offset := counter, BLOCK;
      origin, blocks := Origin(key, nonce, counter), 0;
    }

    /** Generates the next block into the buffer. */
    method Next()
      requires Valid()
      modifies this`counter, this`blocks, buffer
      ensures blocks == old(blocks) + 1 && counter == (origin.counter + blocks) % POW32
      ensures buffer[..] == Block(key, nonce, origin.counter + (blocks - 1))
    {
      hide Block;
      BlockWraps(key, nonce, origin.counter + blocks);
      var block := Block(key, nonce, counter);
      forall i | 0 <= i < BLOCK {
        buffer[i] := block[i];
      }
      counter := (counter + 1) % POW32;
      blocks := blocks + 1;
      assert buffer[..] == block;
    }

    /** Bytes of the output are done, and the position is past them. */
    ghost predicate Progress(input: Span, out: Span, before: seq<byte>, source: seq<byte>, from: nat, done: nat)
      reads this, buffer, input.data, out.data
    {
      Valid() && Position() == from + done && Done(input, out, before, source, origin, from, done)
    }

    /** Consumes what is left in the buffer, as far as the output goes. */
    method Drain(input: Span, out: Span, start: nat, ghost before: seq<byte>, ghost source: seq<byte>,
                 ghost from: nat) returns (done: nat)
      requires Progress(input, out, before, source, from, start) && start <= out.size
      requires buffer != out.data && buffer != input.data
      modifies this`offset, out.data
      ensures Progress(input, out, before, source, from, done) && done <= out.size
      ensures done == out.size || offset == BLOCK
    {
      hide Block, Done;
      done := start;
      while offset < BLOCK && done < out.size
        invariant Progress(input, out, before, source, from, done) && done <= out.size
      {
        hide Stream;
        OneByte(origin, blocks - 1, offset);
        Emit(input, out, done, [buffer[offset]], before, source, origin, from);
        offset, done := offset + 1, done + 1;
      }
    }

    /** A group of blocks, one in each lane. */
    method XGroup(lanes: nat, input: Span, out: Span, done: nat, ghost before: seq<byte>, ghost source: seq<byte>,
                  ghost from: nat)
      requires Progress(input, out, before, source, from, done) && done + BLOCK * lanes <= out.size
      requires offset == BLOCK && buffer != out.data && buffer != input.data
      modifies this`counter, this`blocks, out.data
      ensures Progress(input, out, before, source, from, done + BLOCK * lanes)
    {
      hide Block, Done, Stream, XNext, Blocks;
      var stream := XNext(key, nonce, counter, lanes);
      WideStream(origin, blocks, lanes);
      Emit(input, out, done, stream, before, source, origin, from);
      CounterAdds(origin.counter + blocks, lanes);
      counter := (counter + lanes) % POW32;
      blocks := blocks + lanes;
    }

    /** Whole groups of blocks, if the platform has such words. */
    method XCrypt(have: bool, lanes: nat, input: Span, out: Span, start: nat, ghost before: seq<byte>,
                  ghost source: seq<byte>, ghost from: nat) returns (done: nat)
      requires lanes > 0 && Progress(input, out, before, source, from, start) && start <= out.size
      requires start == out.size || offset == BLOCK
      requires buffer != out.data && buffer != input.data
      modifies this`counter, this`blocks, out.data
      ensures Progress(input, out, before, source, from, done) && done <= out.size
      ensures done == out.size || offset == BLOCK
    {
      hide Progress;
      done := start;
      var size := BLOCK * lanes;
      if have {
        while out.size - done >= size
          invariant Progress(input, out, before, source, from, done) && done <= out.size
          invariant done == out.size || offset == BLOCK
        {
          XGroup(lanes, input, out, done, before, source, from);
          done := done + size;
        }
      }
    }

    /** Whole blocks one by one. */
    method WholeBlocks(input: Span, out: Span, start: nat, ghost before: seq<byte>, ghost source: seq<byte>,
                       ghost from: nat) returns (done: nat)
      requires Progress(input, out, before, source, from, start) && start <= out.size
      requires start == out.size || offset == BLOCK
      requires buffer != out.data && buffer != input.data
      modifies this`counter, this`blocks, buffer, out.data
      ensures Progress(input, out, before, source, from, done) && done <= out.size < done + BLOCK
      ensures done == out.size || offset == BLOCK
    {
      hide Block, Done;
      done := start;
      while out.size - done >= BLOCK
        invariant Progress(input, out, before, source, from, done) && done <= out.size
        invariant done == out.size || offset == BLOCK
      {
        hide Stream;
        StreamBlock(origin, blocks);
        Next();
        Emit(input, out, done, buffer[..], before, source, origin, from);
        done := done + BLOCK;
      }
    }

    /** A partial block, of which the rest stays in the buffer. */
    method Partial(input: Span, out: Span, start: nat, ghost before: seq<byte>, ghost source: seq<byte>,
                   ghost from: nat)
      requires Progress(input, out, before, source, from, start) && start < out.size < start + BLOCK
      requires offset == BLOCK && buffer != out.data && buffer != input.data
      modifies this`counter, this`offset, this`blocks, buffer, out.data
      ensures Progress(input, out, before, source, from, out.size)
    {
      hide Block, Done;
      Next();
      offset := 0;
      var done := Drain(input, out, start, before, source, from);
    }

    /** Any call, whatever mix of wide, whole and partial blocks it triggers, applies the next bytes
        of the keystream. */
    method Crypt(input: Span, out: Span)
      requires Valid() && Compatible(input, out) && buffer != out.data && buffer != input.data
      modifies this`counter, this`offset, this`blocks, buffer, out.data
      ensures Valid() && Position() == old(Position()) + out.size
      ensures out.data[..] == Put(old(out.data[..]), out.at,
                                  Crypted(origin, old(Position()), old(Source(input, out.size))))
    {
      ghost var before, source, from := out.data[..], Source(input, out.size), Position();
      hide Valid, Done, Position, Put, Crypted;
      NothingDone(input, out, before, source, from);
      hide Progress, Source;
      var done := Drain(input, out, 0, before, source, from);
      done := XCrypt(platform.have512, 16, input, out, done, before, source, from);
      done := XCrypt(platform.have256, 8, input, out, done, before, source, from);
      done := XCrypt(platform.have128, 4, input, out, done, before, source, from);
      done := WholeBlocks(input, out, done, before, source, from);
      if done < out.size {
        Partial(input, out, done, before, source, from);
      }
      AllDone(input, out, before, source, from);
    }

    /** The next bytes of the keystream. */
    method Draw(size: nat) returns (bytes: seq<byte>)
      requires Valid()
      modifies this`counter, this`offset, this`blocks, buffer
      ensures Valid() && Position() == old(Position()) + size
      ensures bytes == Stream(origin, old(Position()), size)
    {
      hide Stream, Crypted, Zeros;
      var memory := new byte[size](_ => 0);
      var empty := new byte[0];
      CryptedZeros(origin, Position(), size);
      Crypt(Span(empty, 0, 0), Span(memory, 0, size));
      bytes := memory[..];
    }

    lemma {:induction false} NothingDone(input: Span, out: Span, before: seq<byte>, source: seq<byte>, from: nat)
      requires Valid() && Compatible(input, out)
      requires before == out.data[..] && source == Source(input, out.size) && from == Position()
      ensures Progress(input, out, before, source, from, 0)
    {
      hide Stream;
      assert Crypted(origin, from, source[..0]) == [];
    }

    lemma {:induction false} AllDone(input: Span, out: Span, before: seq<byte>, source: seq<byte>, from: nat)
      requires Progress(input, out, before, source, from, out.size)
      ensures Valid() && Position() == from + out.size && |before| == out.data.Length && |source| == out.size
      ensures out.Fits() && out.data[..] == Put(before, out.at, Crypted(origin, from, source))
    {
      assert source[..out.size] == source;
    }
  }

  function NonceOf(nonce32: nat, nonce64: nat): Nonce {
    Nonce(nonce32, nonce64 % POW32, nonce64 / POW32)
  }

  /** The words of a nonce are those of its bytes: the four of the first part and the eight of the
      second, each part from its lowest byte. */
  lemma {:induction false} NonceIs(nonce32: nat, nonce64: nat)
    requires nonce32 < POW32 && nonce64 < POW64
    ensures var n := NonceOf(nonce32, nonce64);
      ToLittleEndian(n.low, 4) + ToLittleEndian(n.middle, 4) + ToLittleEndian(n.high, 4) ==
      ToLittleEndian(nonce32, 4) + ToLittleEndian(nonce64, 8)
  {
    assert Pow256(4) == POW32;
    hide ToLittleEndian, LittleEndian, Pow256;
    var n := NonceOf(nonce32, nonce64);
    var middle, high := ToLittleEndian(n.middle, 4), ToLittleEndian(n.high, 4);
    ReadWrite(n.middle, 4);
    ReadWrite(n.high, 4);
    LittleEndianAppend(middle, high);
    WriteRead(middle + high);
  }

  lemma {:induction false} CounterAdds(counter: nat, lanes: nat)
    ensures (counter % POW32 + lanes) % POW32 == (counter + lanes) % POW32
  {
  }

  lemma {:induction false} OneByte(o: Origin, block: nat, index: nat)
    requires |o.key| == 32 && index < BLOCK
    ensures Stream(o, BLOCK * block + index, 1) == [Block(o.key, o.nonce, o.counter + block)[index]]
  {
    hide Block, StreamByte;
    StreamAt(o, block, index);
  }

  lemma {:induction false} WideStream(o: Origin, block: nat, lanes: nat)
    requires |o.key| == 32
    ensures XNext(o.key, o.nonce, (o.counter + block) % POW32, lanes) == Stream(o, BLOCK * block, BLOCK * lanes)
  {
    hide XNext, Blocks, Stream;
    XNextIsBlocks(o.key, o.nonce, (o.counter + block) % POW32, lanes);
    BlocksWrap(o.key, o.nonce, o.counter + block, lanes);
    StreamBlocks(o, block, lanes);
  }

  lemma {:induction false} BlocksWrap(key: seq<byte>, nonce: Nonce, counter: nat, count: nat)
    requires |key| == 32
    ensures Blocks(key, nonce, counter % POW32, count) == Blocks(key, nonce, counter, count)
    decreases count
  {
    hide Block;
    if count > 0 {
      BlocksWrap(key, nonce, counter, count - 1);
      BlockWraps(key, nonce, counter % POW32 + (count - 1));
      BlockWraps(key, nonce, counter + (count - 1));
      CounterAdds(counter, count - 1);
    }
  }
}
