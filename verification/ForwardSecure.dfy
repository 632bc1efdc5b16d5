/** Forward-secure ciphers of BIP324: nonces advance with each message or chunk, and keys are
    replaced from their own keystream after an interval of them. */
module ForwardSecure {
  import opened Common
  import opened Words
  import opened ChaChaBlock
  import opened ChaCha20
  import opened Aead

  const REKEY_NONCE: nat := 0xffff_ffff

  // ---- Messages: the states of a peer ----

  datatype State = State(key: seq<byte>, packets: nat, rekeys: nat)

  ghost predicate IsState(s: State) {
    |s.key| == 32 && s.packets < POW32 && s.rekeys < POW64
  }

  ghost function NextKey(s: State): (key: seq<byte>)
    requires IsState(s)
    ensures |key| == 32
  {
    Stream(Origin(s.key, NonceOf(REKEY_NONCE, s.rekeys), 1), 0, 32)
  }

  /** The state after a message. Counters are words. */
  ghost function Next(s: State, interval: nat): (r: State)
    requires IsState(s)
    ensures IsState(r)
  {
    if (s.packets + 1) % POW32 == interval then State(NextKey(s), 0, (s.rekeys + 1) % POW64)
    else s.(packets := (s.packets + 1) % POW32)
  }

  ghost function StateAt(key: seq<byte>, interval: nat, n: nat): (s: State)
    requires |key| == 32
    ensures IsState(s)
  {
    if n == 0 then State(key, 0, 0) else Next(StateAt(key, interval, n - 1), interval)
  }

  /** The messages under one key: an interval of zero is reached only when the counter wraps. */
  function Period(interval: nat): (p: nat)
    ensures p > 0
  {
    if interval == 0 then POW32 else interval
  }

  /** What the counters are after a number of messages. */
  ghost predicate Counted(s: State, interval: nat, n: nat, rekeys: nat) {
    s.packets < Period(interval) && n == rekeys * Period(interval) + s.packets && s.rekeys == rekeys % POW64
  }

  lemma {:induction false} WrapNext(n: nat)
    ensures (n % POW64 + 1) % POW64 == (n + 1) % POW64
  {
  }

  lemma {:induction false} CountNext(s: State, interval: nat, n: nat, rekeys: nat) returns (next: nat)
    requires IsState(s) && interval < POW32 && Counted(s, interval, n, rekeys)
    ensures Counted(Next(s, interval), interval, n + 1, next)
  {
    hide NextKey;
    WrapNext(rekeys);
    var p := Period(interval);
    next := if s.packets + 1 == p then rekeys + 1 else rekeys;
    assert (rekeys + 1) * p == rekeys * p + p;
    assert (s.packets + 1) % POW32 == interval <==> s.packets + 1 == p;
  }

  /** The packets stay below the interval, and with the rekeys count the messages. */
  lemma {:induction false} Counts(key: seq<byte>, interval: nat, n: nat) returns (rekeys: nat)
    requires |key| == 32 && interval < POW32
    ensures Counted(StateAt(key, interval, n), interval, n, rekeys)
  {
    hide Next;
    if n == 0 {
      rekeys := 0;
    } else {
      rekeys := Counts(key, interval, n - 1);
      hide Counted;
      rekeys := CountNext(StateAt(key, interval, n - 1), interval, n - 1, rekeys);
    }
  }

  /** The nonce of a message. */
  ghost function MessageNonce(s: State): (nat, nat) {
    (s.packets, s.rekeys)
  }

  /** Two messages have the same nonce exactly when their numbers differ by whole wraps of the
      rekey counter, and so never within one key or in fewer rekeys than wrap it. */
  lemma {:induction false} NonceRepeats(key: seq<byte>, interval: nat, m: nat, n: nat)
    requires |key| == 32 && interval < POW32 && m <= n
    ensures MessageNonce(StateAt(key, interval, m)) == MessageNonce(StateAt(key, interval, n)) <==>
            (n - m) % (Period(interval) * POW64) == 0
  {
    var i := Counts(key, interval, m);
    var j := Counts(key, interval, n);
    var s, t := StateAt(key, interval, m), StateAt(key, interval, n);
    hide StateAt;
    CountersRepeat(m, n, Period(interval), i, j, s.packets, t.packets);
  }

  lemma {:induction false} CountersRepeat(m: nat, n: nat, p: nat, i: nat, j: nat, a: nat, b: nat)
    requires p > 0 && a < p && b < p && m <= n && m == i * p + a && n == j * p + b
    ensures p * POW64 > 0
    ensures a == b && i % POW64 == j % POW64 <==> (n - m) % (p * POW64) == 0
  {
    if a == b && i % POW64 == j % POW64 {
      SameCounters(m, n, p, i, j, a);
    }
    if (n - m) % (p * POW64) == 0 {
      var w := (n - m) / (p * POW64);
      assert n - m == w * (p * POW64) && w >= 0;
      WholeWraps(m, n, p, i, j, a, b, w);
    }
  }

  lemma {:induction false} SameCounters(m: nat, n: nat, p: nat, i: nat, j: nat, a: nat)
    requires p > 0 && a < p && m <= n && m == i * p + a && n == j * p + a && i % POW64 == j % POW64
    ensures p * POW64 > 0 && (n - m) % (p * POW64) == 0
  {
    OrderedQuotients(m, n, p, i, j, a, a);
    var w: nat := j / POW64 - i / POW64;
    assert j - i == w * POW64;
    assert (j - i) * p == j * p - i * p;
    MulAssociative(w, POW64, p);
    assert POW64 * p == p * POW64;
    DivideUnique(n - m, p * POW64, w, 0);
  }

  lemma {:induction false} WholeWraps(m: nat, n: nat, p: nat, i: nat, j: nat, a: nat, b: nat, w: nat)
    requires p > 0 && a < p && b < p && m == i * p + a && n == j * p + b && n - m == w * (p * POW64)
    ensures a == b && i % POW64 == j % POW64
  {
    var d := w * POW64;
    MulAssociative(w, POW64, p);
    assert POW64 * p == p * POW64;
    assert (i + d) * p == i * p + d * p;
    DivideUnique(n, p, j, b);
    DivideUnique(n, p, i + d, a);
    assert j == i + w * POW64;
  }

  lemma {:induction false} OrderedQuotients(m: nat, n: nat, p: nat, i: nat, j: nat, a: nat, b: nat)
    requires p > 0 && a < p && b < p && m <= n && m == i * p + a && n == j * p + b
    ensures i <= j
  {
    assert p * (j + 1) == j * p + p && p * i == i * p;
    if j < i {
      MulMonotone(p, j + 1, i);
    }
  }

  /** No message has the rekeying nonce, in any run, exactly when there is an interval. */
  lemma {:induction false} RekeyNonceReserved(key: seq<byte>, interval: nat)
    requires |key| == 32 && interval < POW32
    ensures (forall n: nat :: StateAt(key, interval, n).packets != REKEY_NONCE) <==> interval != 0
  {
    if interval != 0 {
      forall n: nat
        ensures StateAt(key, interval, n).packets != REKEY_NONCE
      {
        var rekeys := Counts(key, interval, n);
      }
    } else {
      RekeyNonceUsed(key);
    }
  }

  /** Without an interval the message of that number has the rekeying nonce. */
  lemma {:induction false} RekeyNonceUsed(key: seq<byte>)
    requires |key| == 32
    ensures StateAt(key, 0, REKEY_NONCE).packets == REKEY_NONCE
  {
    var rekeys := Counts(key, 0, REKEY_NONCE);
    MulMonotone(POW32, if rekeys > 0 then 1 else 0, rekeys);
  }

  // ---- Messages: the peers ----

  class Peer {
    const interval: nat
    const aead: Sealer
    var packets: nat
    var rekeys: nat
    ghost const first: seq<byte>
    ghost var count: nat

    /** The state is that of the number of messages, whether they were authentic or not. */
    ghost predicate Valid()
      reads this, aead, aead.cipher, aead.cipher.buffer
    {
      && |first| == 32 && interval < POW32 && aead.Valid()
      && Current() == StateAt(first, interval, count)
    }

    ghost function Current(): State
      requires aead.Valid()
      reads this, aead, aead.cipher, aead.cipher.buffer
    {
      State(aead.Key(), packets, rekeys)
    }

    constructor (platform: Platform, key: seq<byte>, interval: nat)
      requires |key| == 32 && interval < POW32
      ensures Valid() && count == 0 && first == key && this.interval == interval
      ensures fresh(aead) && fresh(aead.cipher) && fresh(aead.cipher.buffer)
    {
      this.interval := interval;
      aead := new Sealer(platform, key);
      packets, rekeys := 0, 0;
      first, count := key, 0;
    }

    method Advance()
      requires Valid()
      modifies this, aead.cipher, aead.cipher.buffer
      ensures Valid() && count == old(count) + 1
    {
      hide Block, Stream, NonceOf;
      ghost var s := Current();
      packets := (packets + 1) % POW32;
      if packets == interval {
        var key := aead.StreamKey(REKEY_NONCE, rekeys);
        aead.SetKey(key);
        packets := 0;
        rekeys := (rekeys + 1) % POW64;
      }
      count := count + 1;
      assert Current() == Next(s, interval);
    }

    /** Seals with the nonce and the key of the message's number. */
    method Encrypt(plain1: Span, plain2: Span, aad: seq<byte>, out: Span)
      requires Valid() && aead.cipher.buffer !in {out.data, plain1.data, plain2.data}
      requires out.Fits() && out.size == plain1.size + plain2.size + EXPANSION
      requires Compatible(plain1, Part(out, 0, plain1.size))
      requires Compatible(plain2, Part(out, plain1.size, plain2.size)) && Apart(plain2, Part(out, 0, plain1.size))
      modifies this, aead.cipher, aead.cipher.buffer, out.data
      ensures Valid() && count == old(count) + 1
      ensures out.data[..] == Put(old(out.data[..]), out.at,
                                  Sealed(first, interval, old(count), aad, old(plain1.Bytes()) + old(plain2.Bytes())))
    {
      hide Block, Seal, NonceOf, Put, StateAt;
      aead.Encrypt(plain1, plain2, aad, packets, rekeys, out);
      Advance();
    }

    /** Opens with the nonce and the key of the message's number, which advances in any case. */
    method Decrypt(out: Span, aad: seq<byte>, input: Span) returns (authentic: bool)
      requires Valid() && aead.cipher.buffer !in {out.data, input.data}
      requires input.Fits() && input.size == out.size + EXPANSION && Compatible(Part(input, 0, out.size), out)
      modifies this, aead.cipher, aead.cipher.buffer, out.data
      ensures Valid() && count == old(count) + 1
      ensures var plain := Opened(first, interval, old(count), aad, old(input.Bytes()));
        && authentic == plain.Some?
        && out.data[..] == Put(old(out.data[..]), out.at, if authentic then plain.value else Zeros(out.size))
    {
      hide Block, Open, NonceOf, Put, StateAt, Zeros;
      authentic := aead.Decrypt(out, aad, packets, rekeys, input);
      Advance();
    }
  }

  ghost function Sealed(key: seq<byte>, interval: nat, n: nat, aad: seq<byte>, plain: seq<byte>): (r: seq<byte>)
    requires |key| == 32
    ensures |r| == |plain| + EXPANSION
  {
    var s := StateAt(key, interval, n);
    Seal(s.key, NonceOf(s.packets, s.rekeys), aad, plain)
  }

  ghost function Opened(key: seq<byte>, interval: nat, n: nat, aad: seq<byte>, cipher: seq<byte>):
    (r: Option<seq<byte>>)
    requires |key| == 32 && |cipher| >= EXPANSION
    ensures r.Some? ==> |r.value| == |cipher| - EXPANSION
  {
    var s := StateAt(key, interval, n);
    Open(s.key, NonceOf(s.packets, s.rekeys), aad, cipher)
  }

  /** A peer with the same key, after as many messages of any kind, opens what was sealed and
      nothing else. */
  lemma {:induction false} Lockstep(key: seq<byte>, interval: nat, n: nat, aad: seq<byte>, plain: seq<byte>,
                                    cipher: seq<byte>)
    requires |key| == 32 && |cipher| >= EXPANSION
    ensures Opened(key, interval, n, aad, cipher) == Some(plain) <==>
            cipher == Sealed(key, interval, n, aad, plain)
  {
    var s := StateAt(key, interval, n);
    OpenIffSealed(s.key, NonceOf(s.packets, s.rekeys), aad, plain, cipher);
  }

  // ---- Chunks ----

  /** A peer's keystream, how much of it is consumed, and the chunks since the key was replaced. */
  datatype ChunkState = ChunkState(origin: Origin, position: nat, chunks: nat, rekeys: nat)

  ghost predicate IsChunkState(s: ChunkState) {
    |s.origin.key| == 32
  }

  /** The state after a chunk of a size. The next key is the next of the keystream. */
  ghost function NextChunk(s: ChunkState, interval: nat, size: nat): (r: ChunkState)
    requires IsChunkState(s)
    ensures IsChunkState(r)
  {
    var chunks := (s.chunks + 1) % POW32;
    if chunks == interval then
      var rekeys := (s.rekeys + 1) % POW64;
      ChunkState(Origin(Stream(s.origin, s.position + size, 32), NonceOf(0, rekeys), 0), 0, 0, rekeys)
    else s.(position := s.position + size, chunks := chunks)
  }

  /** The state after chunks of any sizes. */
  ghost function ChunksAt(key: seq<byte>, interval: nat, sizes: seq<nat>): (s: ChunkState)
    requires |key| == 32
    ensures IsChunkState(s)
    decreases |sizes|
  {
    if sizes == [] then ChunkState(Origin(key, Nonce(0, 0, 0), 0), 0, 0, 0)
    else NextChunk(ChunksAt(key, interval, sizes[..|sizes| - 1]), interval, sizes[|sizes| - 1])
  }

  /** What a peer yields for a chunk that follows others. */
  ghost function Chunk(key: seq<byte>, interval: nat, sizes: seq<nat>, chunk: seq<byte>): (r: seq<byte>)
    requires |key| == 32
    ensures |r| == |chunk|
  {
    var s := ChunksAt(key, interval, sizes);
    Crypted(s.origin, s.position, chunk)
  }

  ghost function Sizes(chunks: seq<seq<byte>>): (r: seq<nat>)
    ensures |r| == |chunks|
  {
    seq(|chunks|, i requires 0 <= i < |chunks| => |chunks[i]|)
  }

  /** What a peer yields for a stream of chunks. */
  ghost function Chunked(key: seq<byte>, interval: nat, chunks: seq<seq<byte>>): (r: seq<seq<byte>>)
    requires |key| == 32
    ensures |r| == |chunks|
    decreases |chunks|
  {
    if chunks == [] then []
    else
      var front := chunks[..|chunks| - 1];
      Chunked(key, interval, front) + [Chunk(key, interval, Sizes(front), chunks[|chunks| - 1])]
  }

  lemma {:induction false} ChunkedSizes(key: seq<byte>, interval: nat, chunks: seq<seq<byte>>)
    requires |key| == 32
    ensures Sizes(Chunked(key, interval, chunks)) == Sizes(chunks)
    decreases |chunks|
  {
    if chunks != [] {
      var front, last := chunks[..|chunks| - 1], chunks[|chunks| - 1];
      ChunkedSizes(key, interval, front);
      hide Chunk;
      assert Sizes(chunks) == Sizes(front) + [|last|];
      assert Sizes(Chunked(key, interval, chunks)) == Sizes(Chunked(key, interval, front)) + [|last|];
    }
  }

  /** A peer with the same key recovers every chunk of a stream, across any number of rekeys. */
  lemma {:induction false} ChunksRecovered(key: seq<byte>, interval: nat, chunks: seq<seq<byte>>)
    requires |key| == 32
    ensures Chunked(key, interval, Chunked(key, interval, chunks)) == chunks
    decreases |chunks|
  {
    if chunks != [] {
      var front, last := chunks[..|chunks| - 1], chunks[|chunks| - 1];
      ChunksRecovered(key, interval, front);
      ChunkedSizes(key, interval, front);
      var s := ChunksAt(key, interval, Sizes(front));
      CryptedTwice(s.origin, s.position, last);
      hide Sizes, Crypted, ChunksAt;
      var once := Chunked(key, interval, chunks);
      assert once[..|once| - 1] == Chunked(key, interval, front);
      assert chunks == front + [last];
    }
  }

  class ChunkPeer {
    const interval: nat
    const cipher: Cipher
    var chunks: nat
    var rekeys: nat
    ghost const first: seq<byte>
    ghost var sizes: seq<nat>

    ghost predicate Valid()
      reads this, cipher, cipher.buffer
    {
      && |first| == 32 && interval < POW32 && cipher.Valid()
      && Current() == ChunksAt(first, interval, sizes)
    }

    ghost function Current(): ChunkState
      requires cipher.Valid()
      reads this, cipher, cipher.buffer
    {
      ChunkState(cipher.origin, cipher.Position(), chunks, rekeys)
    }

    constructor (platform: Platform, key: seq<byte>, interval: nat)
      requires |key| == 32 && interval < POW32
      ensures Valid() && sizes == [] && first == key && this.interval == interval
      ensures fresh(cipher) && fresh(cipher.buffer)
    {
      this.interval := interval;
      cipher := new Cipher(platform, key);
      chunks, rekeys := 0, 0;
      first, sizes := key, [];
    }

    /** Encrypts or decrypts one chunk, and replaces the key after an interval of them. */
    method Crypt(input: Span, out: Span)
      requires Valid() && Compatible(input, out) && cipher.buffer != out.data && cipher.buffer != input.data
      modifies this, cipher, cipher.buffer, out.data
      ensures Valid() && sizes == old(sizes) + [out.size]
      ensures out.data[..] == Put(old(out.data[..]), out.at,
                                  Chunk(first, interval, old(sizes), old(Source(input, out.size))))
    {
      hide Block, Put, Crypted, ChunksAt, Source;
      ghost var s := Current();
      cipher.Crypt(input, out);
      assert cipher.Position() == s.position + out.size && cipher.origin == s.origin;
      Rotate(s, out.size);
      sizes := sizes + [out.size];
      ChunksNext(first, interval, old(sizes), out.size);
    }

    /** Counts a chunk, and replaces the key if it completes an interval. */
    method Rotate(ghost s: ChunkState, ghost size: nat)
      requires cipher.Valid() && IsChunkState(s) && chunks == s.chunks && rekeys == s.rekeys
      requires cipher.origin == s.origin && cipher.Position() == s.position + size
      modifies this`chunks, this`rekeys, cipher, cipher.buffer
      ensures cipher.Valid() && Current() == NextChunk(s, interval, size)
    {
      hide Block, Stream, NonceOf;
      chunks := (chunks + 1) % POW32;
      if chunks == interval {
        var key := cipher.Draw(32);
        cipher.SetKey(key);
        rekeys := (rekeys + 1) % POW64;
        cipher.Seek(0, rekeys, 0);
        chunks := 0;
      }
    }
  }

  lemma {:induction false} ChunksNext(key: seq<byte>, interval: nat, sizes: seq<nat>, size: nat)
    requires |key| == 32
    ensures ChunksAt(key, interval, sizes + [size]) == NextChunk(ChunksAt(key, interval, sizes), interval, size)
  {
    hide NextChunk;
    assert (sizes + [size])[..|sizes|] == sizes;
  }
}
