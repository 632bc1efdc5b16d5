/** ChaCha20-Poly1305 authenticated encryption of section 2.8 of RFC 8439. */
module Aead {
  import opened Common
  import opened Words
  import opened ChaChaBlock
  import opened ChaCha20
  import Poly1305

  const EXPANSION: nat := 16

  // ---- The standard ----

  /** The count of zeros that pads a size to a multiple of sixteen. */
  function Padding(size: nat): (n: nat)
    ensures n < 16 && (size + n) % 16 == 0
  {
    if size % 16 == 0 then 0 else 16 - size % 16
  }

  ghost function MacData(aad: seq<byte>, text: seq<byte>): seq<byte> {
    aad + Zeros(Padding(|aad|)) + text + Zeros(Padding(|text|)) + ToLittleEndian(|aad|, 8) + ToLittleEndian(|text|, 8)
  }

  ghost function TextTag(key: seq<byte>, nonce: Nonce, aad: seq<byte>, text: seq<byte>): (tag: seq<byte>)
    requires |key| == 32
    ensures |tag| == EXPANSION
  {
    Poly1305.Tag(Stream(Origin(key, nonce, 0), 0, 32), MacData(aad, text))
  }

  ghost function Seal(key: seq<byte>, nonce: Nonce, aad: seq<byte>, plain: seq<byte>): (r: seq<byte>)
    requires |key| == 32
    ensures |r| == |plain| + EXPANSION
  {
    var text := Crypted(Origin(key, nonce, 1), 0, plain);
    text + TextTag(key, nonce, aad, text)
  }

  ghost function Open(key: seq<byte>, nonce: Nonce, aad: seq<byte>, cipher: seq<byte>): Option<seq<byte>>
    requires |key| == 32 && |cipher| >= EXPANSION
  {
    var text := cipher[..|cipher| - EXPANSION];
    if cipher[|text|..] == TextTag(key, nonce, aad, text)
    then Some(Crypted(Origin(key, nonce, 1), 0, text)) else None
  }

  /** A message opens exactly when it is a sealed one, and to what was sealed. */
  lemma {:induction false} OpenIffSealed(key: seq<byte>, nonce: Nonce, aad: seq<byte>, plain: seq<byte>,
                                         cipher: seq<byte>)
    requires |key| == 32 && |cipher| >= EXPANSION
    ensures Open(key, nonce, aad, cipher) == Some(plain) <==> cipher == Seal(key, nonce, aad, plain)
  {
    hide TextTag, Crypted;
    var o := Origin(key, nonce, 1);
    var text := cipher[..|cipher| - EXPANSION];
    assert cipher == text + cipher[|text|..];
    CryptedTwice(o, 0, text);
    CryptedTwice(o, 0, plain);
    var sealed := Seal(key, nonce, aad, plain);
    var own := Crypted(o, 0, plain);
    assert sealed[..|own|] == own && sealed[|own|..] == TextTag(key, nonce, aad, own);
  }

  // ---- The cipher ----

  class Sealer {
    const platform: Platform
    const cipher: Cipher

    ghost predicate Valid()
      reads this, cipher, cipher.buffer
    {
      cipher.Valid()
    }

    ghost function Key(): (key: seq<byte>)
      requires Valid()
      reads this, cipher, cipher.buffer
      ensures |key| == 32
    {
      cipher.origin.key
    }

    constructor (platform: Platform, key: seq<byte>)
      requires |key| == 32
      ensures Valid() && fresh(cipher) && fresh(cipher.buffer) && Key() == key
    {
      this.platform := platform;
      cipher := new Cipher(platform, key);
    }

    method SetKey(key: seq<byte>)
      requires Valid() && |key| == 32
      modifies cipher
      ensures Valid() && Key() == key
    {
      cipher.SetKey(key);
    }

    /** The tag of a text. The cipher must be at block zero. */
    method Authenticate(aad: seq<byte>, text: seq<byte>) returns (tag: seq<byte>)
      requires Valid() && cipher.Position() == 0 && cipher.origin.counter == 0
      modifies cipher`counter, cipher`offset, cipher`blocks, cipher.buffer
      ensures Valid() && Key() == old(Key())
      ensures tag == TextTag(Key(), cipher.origin.nonce, aad, text)
    {
      hide Block, Stream, Poly1305.Tag, MacData;
      var key := cipher.Draw(32);
      tag := Mac(platform, key, aad, text);
    }

    /** Encrypts one more part of a plaintext, after the parts that are done. */
    method CryptPart(input: Span, out: Span, at: nat, ghost memory: seq<byte>, ghost done: seq<byte>)
      requires Valid() && cipher.buffer !in {out.data, input.data}
      requires out.Fits() && at + input.size <= out.size && Compatible(input, Part(out, at, input.size))
      requires at == |done| == cipher.Position() && |memory| == out.data.Length
      requires out.data[..] == Put(memory, out.at, Crypted(cipher.origin, 0, done))
      modifies cipher`counter, cipher`offset, cipher`blocks, cipher.buffer, out.data
      ensures Valid() && cipher.Position() == at + input.size
      ensures out.data[..] == Put(memory, out.at, Crypted(cipher.origin, 0, done + old(input.Bytes())))
    {
      hide Block, Crypted, Put, Source;
      SourceIsBytes(input);
      ghost var o, bytes := cipher.origin, input.Bytes();
      cipher.Crypt(input, Part(out, at, input.size));
      assert out.data[..] == Put(Put(memory, out.at, Crypted(o, 0, done)), out.at + at, Crypted(o, at, bytes));
      JoinParts(memory, out.at, o, done, bytes);
    }

    /** Encrypts the two parts of a plaintext, one after the other. */
    method CryptParts(plain1: Span, plain2: Span, nonce32: nat, nonce64: nat, out: Span)
      requires Valid() && cipher.buffer !in {out.data, plain1.data, plain2.data}
      requires out.Fits() && out.size >= plain1.size + plain2.size
      requires Compatible(plain1, Part(out, 0, plain1.size))
      requires Compatible(plain2, Part(out, plain1.size, plain2.size)) && Apart(plain2, Part(out, 0, plain1.size))
      modifies cipher, cipher.buffer, out.data
      ensures Valid() && Key() == old(Key())
      ensures out.data[..] == Put(old(out.data[..]), out.at,
                                  Crypted(Origin(Key(), NonceOf(nonce32, nonce64), 1), 0,
                                          old(plain1.Bytes()) + old(plain2.Bytes())))
    {
      hide Block, NonceOf, Crypted, Put;
      ghost var memory, first, second := out.data[..], plain1.Bytes(), plain2.Bytes();
      cipher.Seek(nonce32, nonce64, 1);
      PutNothing(memory, out.at, cipher.origin);
      CryptPart(plain1, out, 0, memory, []);
      assert [] + first == first;
      assert plain2.Bytes() == second by {
        if plain2.data == out.data {
          PutApart(memory, out.at, Crypted(cipher.origin, 0, first), plain2.at, plain2.size);
        }
      }
      CryptPart(plain2, out, plain1.size, memory, first);
    }

    /** Encrypts and authenticates into the output. */
    method Encrypt(plain1: Span, plain2: Span, aad: seq<byte>, nonce32: nat, nonce64: nat, out: Span)
      requires Valid() && cipher.buffer !in {out.data, plain1.data, plain2.data}
      requires out.Fits() && out.size == plain1.size + plain2.size + EXPANSION
      requires Compatible(plain1, Part(out, 0, plain1.size))
      requires Compatible(plain2, Part(out, plain1.size, plain2.size)) && Apart(plain2, Part(out, 0, plain1.size))
      modifies cipher, cipher.buffer, out.data
      ensures Valid() && Key() == old(Key())
      ensures out.data[..] == Put(old(out.data[..]), out.at,
                                  Seal(Key(), NonceOf(nonce32, nonce64), aad,
                                       old(plain1.Bytes()) + old(plain2.Bytes())))
    {
      hide Block, NonceOf, Crypted, Put, TextTag;
      ghost var memory, plain := out.data[..], plain1.Bytes() + plain2.Bytes();
      CryptParts(plain1, plain2, nonce32, nonce64, out);
      var size := plain1.size + plain2.size;
      var text := out.data[out.at..out.at + size];
      ghost var own := Crypted(Origin(Key(), NonceOf(nonce32, nonce64), 1), 0, plain);
      PutAt(memory, out.at, own);
      cipher.Seek(nonce32, nonce64, 0);
      var tag := Authenticate(aad, text);
      Write(out.data, out.at + size, tag);
      PutTwice(memory, out.at, own, tag);
    }

    /** Decrypts if the tag is authentic, otherwise clears the output. */
    method Decrypt(out: Span, aad: seq<byte>, nonce32: nat, nonce64: nat, input: Span) returns (authentic: bool)
      requires Valid() && cipher.buffer !in {out.data, input.data}
      requires input.Fits() && input.size == out.size + EXPANSION && Compatible(Part(input, 0, out.size), out)
      modifies cipher, cipher.buffer, out.data
      ensures Valid() && Key() == old(Key())
      ensures var plain := Open(Key(), NonceOf(nonce32, nonce64), aad, old(input.Bytes()));
        && authentic == plain.Some?
        && out.data[..] == Put(old(out.data[..]), out.at, if authentic then plain.value else Zeros(out.size))
    {
      hide Block, NonceOf, Crypted, Put, TextTag, Source;
      var text := input.data[input.at..input.at + out.size];
      var tag := input.data[input.at + out.size..input.at + input.size];
      ghost var bytes := input.Bytes();
      assert bytes[..out.size] == text && bytes[out.size..] == tag;
      cipher.Seek(nonce32, nonce64, 0);
      var expected := Authenticate(aad, text);
      authentic := expected == tag;
      if authentic {
        cipher.Seek(nonce32, nonce64, 1);
        SourceIsBytes(Part(input, 0, out.size));
        cipher.Crypt(Part(input, 0, out.size), out);
      } else {
        Write(out.data, out.at, seq(out.size, _ => 0));
      }
    }

    /** Keystream of a nonce, from block one. */
    method StreamKey(nonce32: nat, nonce64: nat) returns (key: seq<byte>)
      requires Valid()
      modifies cipher, cipher.buffer
      ensures Valid() && Key() == old(Key())
      ensures key == Stream(Origin(Key(), NonceOf(nonce32, nonce64), 1), 0, 32)
    {
      hide Block, NonceOf, Stream;
      cipher.Seek(nonce32, nonce64, 1);
      key := cipher.Draw(32);
    }
  }

  /** A part of a span. */
  function Part(span: Span, at: nat, size: nat): Span {
    Span(span.data, span.at + at, size)
  }

  /** Spans that have no byte in common. */
  predicate Apart(a: Span, b: Span) {
    a.data != b.data || a.at + a.size <= b.at || b.at + b.size <= a.at
  }

  lemma {:induction false} SourceIsBytes(span: Span)
    requires span.Fits()
    ensures Source(span, span.size) == span.Bytes()
  {
  }

  lemma {:induction false} PutAt(memory: seq<byte>, at: nat, bytes: seq<byte>)
    requires at + |bytes| <= |memory|
    ensures Put(memory, at, bytes)[at..at + |bytes|] == bytes
  {
  }

  lemma {:induction false} JoinParts(memory: seq<byte>, at: nat, o: Origin, a: seq<byte>, b: seq<byte>)
    requires |o.key| == 32 && at + |a| + |b| <= |memory|
    ensures Put(Put(memory, at, Crypted(o, 0, a)), at + |a|, Crypted(o, |a|, b)) == Put(memory, at, Crypted(o, 0, a + b))
  {
    hide Crypted, Put;
    CryptedAppend(o, 0, a, b);
    PutTwice(memory, at, Crypted(o, 0, a), Crypted(o, |a|, b));
  }

  lemma {:induction false} PutNothing(memory: seq<byte>, at: nat, o: Origin)
    requires at <= |memory| && |o.key| == 32
    ensures Put(memory, at, Crypted(o, 0, [])) == memory
  {
    hide Crypted;
    assert Crypted(o, 0, []) == [];
  }

  /** What is put before a part of memory does not change it. */
  lemma {:induction false} PutApart(memory: seq<byte>, at: nat, bytes: seq<byte>, from: nat, size: nat)
    requires at + |bytes| <= |memory| && from + size <= |memory| && (at + |bytes| <= from || from + size <= at)
    ensures Put(memory, at, bytes)[from..from + size] == memory[from..from + size]
  {
  }

  method Write(memory: array<byte>, at: nat, bytes: seq<byte>)
    requires at + |bytes| <= memory.Length
    modifies memory
    ensures memory[..] == Put(old(memory[..]), at, bytes)
  {
    var index := 0;
    while index < |bytes|
      invariant 0 <= index <= |bytes|
      invariant memory[..at] == old(memory[..at]) && memory[at..at + index] == bytes[..index]
      invariant memory[at + index..] == old(memory[at + index..])
    {
      memory[at + index] := bytes[index];
      index := index + 1;
    }
    assert memory[..] == memory[..at] + memory[at..at + |bytes|] + memory[at + |bytes|..];
  }

  /** Authenticates a text and its additional data. */
  method Mac(platform: Platform, key: seq<byte>, aad: seq<byte>, text: seq<byte>) returns (tag: seq<byte>)
    requires |key| == 32
    ensures tag == Poly1305.Tag(key, MacData(aad, text))
  {
    hide *;
    var mac := new Poly1305.Authenticator(platform, key);
    WritePadded(mac, aad);
    WritePadded(mac, text);
    mac.Write(ToLittleEndian(|aad|, 8));
    mac.Write(ToLittleEndian(|text|, 8));
    MacDataIs(aad, text, mac.message);
    tag := mac.Flush();
  }

  lemma {:induction false} MacDataIs(aad: seq<byte>, text: seq<byte>, message: seq<byte>)
    requires message == [] + (aad + Zeros(Padding(|aad|))) + (text + Zeros(Padding(|text|))) +
                        ToLittleEndian(|aad|, 8) + ToLittleEndian(|text|, 8)
    ensures message == MacData(aad, text)
  {
    hide ToLittleEndian, Zeros, Padding;
  }

  method WritePadded(mac: Poly1305.Authenticator, data: seq<byte>)
    requires mac.Valid()
    modifies mac, mac.buffer
    ensures mac.Valid() && mac.message == old(mac.message) + (data + Zeros(Padding(|data|)))
  {
    hide Poly1305.Authenticator.Valid, Padding;
    mac.Write(data);
    mac.Write(seq(Padding(|data|), _ => 0));
  }
}
