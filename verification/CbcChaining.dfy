/** How each block is chained to the one before it, said bit by bit. */
module CbcChaining {
  import opened Bytes
  import opened Bits
  import opened Primitives
  import Cbc

  function BlockAt(s: seq<byte>, i: nat): Block
    requires 16 * i + 16 <= |s|
  {
    s[16 * i..16 * i + 16]
  }

  /** What block `i` is masked with: the IV, or the ciphertext block before. */
  function Mask(iv: Block, cipher: seq<byte>, i: nat): Block
    requires 16 * i <= |cipher|
  {
    if i == 0 then iv else BlockAt(cipher, i - 1)
  }

  /** Every bit of `r` is the parity of the same bits of `block` and `mask`. */
  predicate IsMasked(r: Block, block: Block, mask: Block) {
    forall j :: 0 <= j < 16 ==> Parity(r[j], block[j], mask[j])
  }

  lemma MaskedExactly(r: Block, block: Block, mask: Block)
    ensures IsMasked(r, block, mask) <==> r == XorBytes(block, mask)
  {
    hide Parity, XorBytes;
    XorBytesExactly(r, block, mask);
  }

  lemma LaterBlock(s: seq<byte>, i: nat)
    requires i > 0 && 16 * i + 16 <= |s|
    ensures BlockAt(s[16..], i - 1) == BlockAt(s, i)
  {
  }

  lemma {:induction false} DecryptedBlock(p: Primitives, key: Key, iv: Block, cipher: seq<byte>, i: nat)
    requires |cipher| % 16 == 0 && 16 * i + 16 <= |cipher|
    ensures BlockAt(Cbc.Decrypt(p, key, iv, cipher), i)
         == XorBytes(p.decryptBlock(key, BlockAt(cipher, i)), Mask(iv, cipher, i))
    decreases i
  {
    hide XorBytes;
    var plain := Cbc.Decrypt(p, key, iv, cipher);
    if i > 0 {
      hide BlockAt;
      DecryptedBlock(p, key, cipher[..16], cipher[16..], i - 1);
      LaterBlock(cipher, i);
      LaterBlock(plain, i);
      FirstBlock(cipher);
      if i > 1 {
        LaterBlock(cipher, i - 1);
      }
    }
  }

  lemma FirstBlock(s: seq<byte>)
    requires |s| >= 16
    ensures BlockAt(s, 0) == s[..16]
  {
  }

  /** Every bit of the plaintext is the parity of the decrypted block's bit and the bit it is masked with. */
  lemma DecryptChains(p: Primitives, key: Key, iv: Block, cipher: seq<byte>, i: nat)
    requires |cipher| % 16 == 0 && 16 * i + 16 <= |cipher|
    ensures IsMasked(BlockAt(Cbc.Decrypt(p, key, iv, cipher), i),
                     p.decryptBlock(key, BlockAt(cipher, i)), Mask(iv, cipher, i))
  {
    hide IsMasked, XorBytes, BlockAt, Mask, Cbc.Decrypt;
    DecryptedBlock(p, key, iv, cipher, i);
    MaskedExactly(BlockAt(Cbc.Decrypt(p, key, iv, cipher), i),
                  p.decryptBlock(key, BlockAt(cipher, i)), Mask(iv, cipher, i));
  }

  lemma {:induction false} EncryptedBlock(p: Primitives, key: Key, iv: Block, plain: seq<byte>, i: nat)
    requires |plain| % 16 == 0 && 16 * i + 16 <= |plain|
    ensures var cipher := Cbc.Encrypt(p, key, iv, plain);
            BlockAt(cipher, i) == p.encryptBlock(key, XorBytes(BlockAt(plain, i), Mask(iv, cipher, i)))
    decreases i
  {
    hide XorBytes;
    var cipher := Cbc.Encrypt(p, key, iv, plain);
    if i > 0 {
      hide BlockAt;
      var block := p.encryptBlock(key, XorBytes(plain[..16], iv));
      EncryptedBlock(p, key, block, plain[16..], i - 1);
      LaterBlock(plain, i);
      LaterBlock(cipher, i);
      FirstBlock(cipher);
      if i > 1 {
        LaterBlock(cipher, i - 1);
      }
    }
  }

  /** A ciphertext block encrypts the one block whose bits are the parities of the plaintext's and the mask's. */
  lemma EncryptChains(p: Primitives, key: Key, iv: Block, plain: seq<byte>, i: nat, masked: Block)
    requires |plain| % 16 == 0 && 16 * i + 16 <= |plain|
    ensures var cipher := Cbc.Encrypt(p, key, iv, plain);
            BlockAt(cipher, i) == p.encryptBlock(key, masked) <==>
            IsMasked(masked, BlockAt(plain, i), Mask(iv, cipher, i))
  {
    hide XorBytes, Cbc.Encrypt, IsMasked, BlockAt, Mask;
    var cipher := Cbc.Encrypt(p, key, iv, plain);
    EncryptedBlock(p, key, iv, plain, i);
    MaskedExactly(masked, BlockAt(plain, i), Mask(iv, cipher, i));
    BlocksPermute(p, key, masked);
    BlocksPermute(p, key, XorBytes(BlockAt(plain, i), Mask(iv, cipher, i)));
  }

  /** Changing one byte of the IV changes that byte of the plaintext and no other. */
  lemma ChangedIv(p: Primitives, key: Key, iv: Block, cipher: seq<byte>, j: nat, v: byte)
    requires |cipher| % 16 == 0 && cipher != [] && j < 16 && v != iv[j]
    ensures var (plain, plain') := (Cbc.Decrypt(p, key, iv, cipher), Cbc.Decrypt(p, key, iv[j := v], cipher));
            plain'[j] != plain[j] && plain' == plain[j := plain'[j]]
  {
    hide Xor;
    XorTellsApart(p.decryptBlock(key, cipher[..16])[j], iv[j], v);
  }
}
