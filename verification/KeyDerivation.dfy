/** How the two keys of a decryptor come about, said apart from its set-up. */
module KeyDerivation {
  import opened Bytes
  import opened Bits
  import opened Config
  import opened Primitives
  import opened Decryptor

  /** The salt with bits 1, 3, 4 and 5 of every byte inverted, which are the bits of 0x3a. */
  predicate IsMaskedSalt(masked: Block, salt: Block) {
    forall i, bit :: 0 <= i < 16 && 0 <= bit < 8 ==>
      Bit(masked[i], bit) == if bit in {1, 3, 4, 5} then 1 - Bit(salt[i], bit) else Bit(salt[i], bit)
  }

  lemma BitsOfMask(bit: nat)
    requires bit < 8
    ensures Bit(0x3a, bit) == if bit in {1, 3, 4, 5} then 1 else 0
  {
    assert Pow2(0) == 1 && Pow2(1) == 2 && Pow2(2) == 4 && Pow2(3) == 8;
    assert Pow2(4) == 16 && Pow2(5) == 32 && Pow2(6) == 64 && Pow2(7) == 128;
  }

  lemma AddedBit(x: nat, bit: nat, m: nat)
    requires m < 2
    ensures (Bit(x, bit) + m) % 2 == if m == 1 then 1 - Bit(x, bit) else Bit(x, bit)
  {
  }

  lemma ParityWithMask(r: byte, x: byte)
    ensures r == Xor(x, 0x3a) <==> forall bit :: 0 <= bit < 8 ==>
              Bit(r, bit) == if bit in {1, 3, 4, 5} then 1 - Bit(x, bit) else Bit(x, bit)
  {
    hide Xor, Bit;
    XorExactly(r, x, 0x3a);
    forall bit | 0 <= bit < 8
      ensures (Bit(x, bit) + Bit(0x3a, bit)) % 2 == if bit in {1, 3, 4, 5} then 1 - Bit(x, bit) else Bit(x, bit)
    {
      BitsOfMask(bit);
      AddedBit(x, bit, Bit(0x3a, bit));
    }
  }

  /** The HMAC salt inverts exactly the bits of 0x3a. */
  lemma HmacSaltExactly(masked: Block, salt: Block)
    ensures masked == HmacSalt(salt) <==> IsMaskedSalt(masked, salt)
  {
    hide Bit, Xor;
    forall i | 0 <= i < 16
      ensures masked[i] == HmacSalt(salt)[i] <==> forall bit :: 0 <= bit < 8 ==>
                Bit(masked[i], bit) == if bit in {1, 3, 4, 5} then 1 - Bit(salt[i], bit) else Bit(salt[i], bit)
    {
      ParityWithMask(masked[i], salt[i]);
    }
  }

  /**
   * The encryption key is PBKDF2 of the passphrase, the salt and the configured count. The HMAC key is the encryption
   * key of another set-up: with the encryption key as passphrase, the masked salt, and two iterations.
   */
  lemma KeysAreDerived(p: Primitives, config: CipherConfig, passphrase: seq<byte>, salt: Block, masked: Block)
    requires passphrase != [] && IsMaskedSalt(masked, salt)
    ensures var made := NewDecryptor(p, config, passphrase, salt);
            && made.Success? && made.value.primitives == p && made.value.config == config
            && made.value.encryptionKey == p.pbkdf2(config.kdfAlgorithm, passphrase, salt, config.kdfIterations)
            && var again := NewDecryptor(p, config.(kdfIterations := 2), made.value.encryptionKey, masked);
               again.Success? && made.value.hmacKey == again.value.encryptionKey
  {
    hide IsMaskedSalt, HmacSalt, AcceptsPageSize;
    HmacSaltExactly(masked, salt);
  }

  /** Passphrase and count reach the HMAC key through the encryption key alone. */
  lemma HmacKeyFollowsEncryptionKey(p: Primitives, config: CipherConfig, other: CipherConfig, passphrase: seq<byte>,
                                    otherPassphrase: seq<byte>, salt: Block, masked: Block)
    requires passphrase != [] && otherPassphrase != [] && config.kdfAlgorithm == other.kdfAlgorithm
    requires IsMaskedSalt(masked, salt)
    ensures var (d, d') := (NewDecryptor(p, config, passphrase, salt), NewDecryptor(p, other, otherPassphrase, salt));
            && d.Success? && d'.Success?
            && d.value.hmacKey == p.pbkdf2(config.kdfAlgorithm, d.value.encryptionKey, masked, 2)
            && (d.value.encryptionKey == d'.value.encryptionKey ==> d.value.hmacKey == d'.value.hmacKey)
  {
    hide IsMaskedSalt, HmacSalt;
    HmacSaltExactly(masked, salt);
  }
}
