/** Cipher block chaining without padding (NIST SP 800-38A, section 6.2), as a value and in place. */
module Cbc {
  import opened Bytes
  import opened Primitives

  function Encrypt(p: Primitives, key: Key, iv: Block, plain: seq<byte>): (cipher: seq<byte>)
    requires |plain| % 16 == 0
    ensures |cipher| == |plain|
    decreases |plain|
  {
    if plain == [] then [] else
    var block := EncryptBlock(p, key, XorBytes(plain[..16], iv));
    block + Encrypt(p, key, block, plain[16..])
  }

  function Decrypt(p: Primitives, key: Key, iv: Block, cipher: seq<byte>): (plain: seq<byte>)
    requires |cipher| % 16 == 0
    ensures |plain| == |cipher|
    decreases |cipher|
  {
    if cipher == [] then [] else
    XorBytes(DecryptBlock(p, key, cipher[..16]), iv) + Decrypt(p, key, cipher[..16], cipher[16..])
  }

  lemma {:induction false} DecryptUndoesEncrypt(p: Primitives, key: Key, iv: Block, plain: seq<byte>)
    requires |plain| % 16 == 0
    ensures Decrypt(p, key, iv, Encrypt(p, key, iv, plain)) == plain
    decreases |plain|
  {
    if plain != [] {
      var masked := XorBytes(plain[..16], iv);
      var block := EncryptBlock(p, key, masked);
      var rest := Encrypt(p, key, block, plain[16..]);
      assert (block + rest)[..16] == block && (block + rest)[16..] == rest;
      BlocksPermute(p, key, masked);
      XorBytesCancels(plain[..16], iv);
      DecryptUndoesEncrypt(p, key, block, plain[16..]);
      assert plain[..16] + plain[16..] == plain;
    }
  }

  lemma {:induction false} EncryptUndoesDecrypt(p: Primitives, key: Key, iv: Block, cipher: seq<byte>)
    requires |cipher| % 16 == 0
    ensures Encrypt(p, key, iv, Decrypt(p, key, iv, cipher)) == cipher
    decreases |cipher|
  {
    if cipher != [] {
      var block := cipher[..16];
      var plain := XorBytes(DecryptBlock(p, key, block), iv);
      var rest := Decrypt(p, key, block, cipher[16..]);
      assert (plain + rest)[..16] == plain && (plain + rest)[16..] == rest;
      XorBytesCancels(DecryptBlock(p, key, block), iv);
      BlocksPermute(p, key, block);
      EncryptUndoesDecrypt(p, key, block, cipher[16..]);
      assert cipher[..16] + cipher[16..] == cipher;
    }
  }

  lemma EncryptStep(p: Primitives, key: Key, previous: Block, todo: seq<byte>, done: seq<byte>)
    requires |todo| % 16 == 0 && todo != []
    ensures var block := EncryptBlock(p, key, XorBytes(todo[..16], previous));
            done + Encrypt(p, key, previous, todo) == (done + block) + Encrypt(p, key, block, todo[16..])
  {
  }

  lemma DecryptStep(p: Primitives, key: Key, previous: Block, todo: seq<byte>, done: seq<byte>)
    requires |todo| % 16 == 0 && todo != []
    ensures var block := XorBytes(DecryptBlock(p, key, todo[..16]), previous);
            done + Decrypt(p, key, previous, todo) == (done + block) + Decrypt(p, key, todo[..16], todo[16..])
  {
  }

  lemma SpliceNothing(original: seq<byte>, lo: nat)
    requires lo <= |original|
    ensures Splice(original, lo, []) == original
  {
  }

  /** `done` is the encryption of the first part of the region, and `previous` chains the rest to it. */
  ghost predicate EncryptsTo(p: Primitives, key: Key, iv: Block, original: seq<byte>, lo: nat, hi: nat, previous: Block,
                         done: seq<byte>)
  {
    && lo + |done| <= hi <= |original| && (hi - lo) % 16 == 0 && |done| % 16 == 0
    && Encrypt(p, key, iv, original[lo..hi]) == done + Encrypt(p, key, previous, original[lo + |done|..hi])
  }

  lemma EncryptStart(p: Primitives, key: Key, iv: Block, original: seq<byte>, lo: nat, hi: nat)
    requires lo <= hi <= |original| && (hi - lo) % 16 == 0
    ensures EncryptsTo(p, key, iv, original, lo, hi, iv, [])
  {
    hide Encrypt;
    assert [] + Encrypt(p, key, iv, original[lo..hi]) == Encrypt(p, key, iv, original[lo..hi]);
  }

  lemma EncryptAdvance(p: Primitives, key: Key, iv: Block, original: seq<byte>, lo: nat, hi: nat, previous: Block,
                       done: seq<byte>)
    requires EncryptsTo(p, key, iv, original, lo, hi, previous, done) && lo + |done| < hi
    ensures lo + |done| + 16 <= hi <= |original|
    ensures var source := original[lo + |done|..lo + |done| + 16];
            var block := EncryptBlock(p, key, XorBytes(source, previous));
            EncryptsTo(p, key, iv, original, lo, hi, block, done + block)
  {
    hide Encrypt, XorBytes;
    var at := lo + |done|;
    assert original[at..hi][..16] == original[at..at + 16] && original[at..hi][16..] == original[at + 16..hi];
    EncryptStep(p, key, previous, original[at..hi], done);
  }

  lemma EncryptEnd(p: Primitives, key: Key, iv: Block, original: seq<byte>, lo: nat, hi: nat, previous: Block,
                   done: seq<byte>)
    requires EncryptsTo(p, key, iv, original, lo, hi, previous, done) && lo + |done| == hi
    ensures done == Encrypt(p, key, iv, original[lo..hi])
  {
    assert done + [] == done;
  }

  method EncryptInPlace(p: Primitives, key: Key, iv: Block, page: array<byte>, lo: nat, hi: nat)
    requires lo <= hi <= page.Length && (hi - lo) % 16 == 0
    modifies page
    ensures page[..] == Splice(old(page[..]), lo, Encrypt(p, key, iv, old(page[lo..hi])))
  {
    hide Splice, Encrypt, XorBytes, EncryptsTo;
    ghost var original := page[..];
    ghost var done: seq<byte> := [];
    var previous: Block := iv;
    var at := lo;
    SpliceNothing(original, lo);
    EncryptStart(p, key, iv, original, lo, hi);
    while at < hi
      invariant at == lo + |done| <= hi
      invariant page[..] == Splice(original, lo, done)
      invariant EncryptsTo(p, key, iv, original, lo, hi, previous, done)
    {
      EncryptAdvance(p, key, iv, original, lo, hi, previous, done);
      var source := page[at..at + 16];
      SpliceParts(original, lo, done, at, at + 16);
      var block := EncryptBlock(p, key, XorBytes(source, previous));
      CopyInto(page, at, block);
      SpliceGrows(original, lo, done, block);
      done, previous, at := done + block, block, at + 16;
    }
    EncryptEnd(p, key, iv, original, lo, hi, previous, done);
  }

  /** `done` is the decryption of the first part of the region, and `previous` chains the rest to it. */
  ghost predicate DecryptsTo(p: Primitives, key: Key, iv: Block, original: seq<byte>, lo: nat, hi: nat, previous: Block,
                         done: seq<byte>)
  {
    && lo + |done| <= hi <= |original| && (hi - lo) % 16 == 0 && |done| % 16 == 0
    && Decrypt(p, key, iv, original[lo..hi]) == done + Decrypt(p, key, previous, original[lo + |done|..hi])
  }

  lemma DecryptStart(p: Primitives, key: Key, iv: Block, original: seq<byte>, lo: nat, hi: nat)
    requires lo <= hi <= |original| && (hi - lo) % 16 == 0
    ensures DecryptsTo(p, key, iv, original, lo, hi, iv, [])
  {
    hide Decrypt;
    assert [] + Decrypt(p, key, iv, original[lo..hi]) == Decrypt(p, key, iv, original[lo..hi]);
  }

  lemma DecryptAdvance(p: Primitives, key: Key, iv: Block, original: seq<byte>, lo: nat, hi: nat, previous: Block,
                       done: seq<byte>)
    requires DecryptsTo(p, key, iv, original, lo, hi, previous, done) && lo + |done| < hi
    ensures lo + |done| + 16 <= hi <= |original|
    ensures var source := original[lo + |done|..lo + |done| + 16];
            var block := XorBytes(DecryptBlock(p, key, source), previous);
            DecryptsTo(p, key, iv, original, lo, hi, source, done + block)
  {
    hide Decrypt, XorBytes;
    var at := lo + |done|;
    assert original[at..hi][..16] == original[at..at + 16] && original[at..hi][16..] == original[at + 16..hi];
    DecryptStep(p, key, previous, original[at..hi], done);
  }

  lemma DecryptEnd(p: Primitives, key: Key, iv: Block, original: seq<byte>, lo: nat, hi: nat, previous: Block,
                   done: seq<byte>)
    requires DecryptsTo(p, key, iv, original, lo, hi, previous, done) && lo + |done| == hi
    ensures done == Decrypt(p, key, iv, original[lo..hi])
  {
    assert done + [] == done;
  }

  method DecryptInPlace(p: Primitives, key: Key, iv: Block, page: array<byte>, lo: nat, hi: nat)
    requires lo <= hi <= page.Length && (hi - lo) % 16 == 0
    modifies page
    ensures page[..] == Splice(old(page[..]), lo, Decrypt(p, key, iv, old(page[lo..hi])))
  {
    hide Splice, Decrypt, XorBytes, DecryptsTo;
    ghost var original := page[..];
    ghost var done: seq<byte> := [];
    var previous: Block := iv;
    var at := lo;
    SpliceNothing(original, lo);
    DecryptStart(p, key, iv, original, lo, hi);
    while at < hi
      invariant at == lo + |done| <= hi
      invariant page[..] == Splice(original, lo, done)
      invariant DecryptsTo(p, key, iv, original, lo, hi, previous, done)
    {
      DecryptAdvance(p, key, iv, original, lo, hi, previous, done);
      var source := page[at..at + 16];
      SpliceParts(original, lo, done, at, at + 16);
      var block := XorBytes(DecryptBlock(p, key, source), previous);
      CopyInto(page, at, block);
      SpliceGrows(original, lo, done, block);
      done, previous, at := done + block, source, at + 16;
    }
    DecryptEnd(p, key, iv, original, lo, hi, previous, done);
  }
}
