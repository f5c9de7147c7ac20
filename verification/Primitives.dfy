/** AES-256, HMAC and PBKDF2 as uninterpreted functions that satisfy the laws the layers above rely on. */
module Primitives {
  import opened Bytes
  import opened Config

  type Block = s: seq<byte> | |s| == 16 witness Zeros(16)
  type Key = s: seq<byte> | |s| == 32 witness Zeros(32)

  datatype PrimitiveFunctions = PrimitiveFunctions(
    encryptBlock: (Key, Block) -> Block,
    decryptBlock: (Key, Block) -> Block,
    hmac: (HashAlgorithm, Key, seq<byte>) -> seq<byte>,
    pbkdf2: (HashAlgorithm, seq<byte>, seq<byte>, nat) -> Key)
  {
    /** Every key permutes the blocks, and a MAC is as long as its hash. */
    ghost predicate Lawful() {
      && (forall k: Key, b: Block :: decryptBlock(k, encryptBlock(k, b)) == b)
      && (forall k: Key, b: Block :: encryptBlock(k, decryptBlock(k, b)) == b)
      && (forall h, k: Key, m: seq<byte> :: |hmac(h, k, m)| == h.OutputLen())
    }
  }

  /** The witness shows that the laws can be met. */
  type Primitives = p: PrimitiveFunctions | p.Lawful() ghost witness Trivial()

  function Trivial(): PrimitiveFunctions {
    PrimitiveFunctions(
      (k: Key, b: Block) => b,
      (k: Key, b: Block) => b,
      (h: HashAlgorithm, k: Key, m: seq<byte>) => Zeros(h.OutputLen()),
      (h: HashAlgorithm, password: seq<byte>, salt: seq<byte>, iterations: nat) => Zeros(32))
  }

  function EncryptBlock(p: Primitives, key: Key, block: Block): (r: seq<byte>)
    ensures |r| == 16
  {
    p.encryptBlock(key, block)
  }

  function DecryptBlock(p: Primitives, key: Key, block: Block): (r: seq<byte>)
    ensures |r| == 16
  {
    p.decryptBlock(key, block)
  }

  function Hmac(p: Primitives, algorithm: HashAlgorithm, key: Key, message: seq<byte>): (tag: seq<byte>)
    ensures |tag| == algorithm.OutputLen()
  {
    p.hmac(algorithm, key, message)
  }

  function Pbkdf2(p: Primitives, algorithm: HashAlgorithm, password: seq<byte>, salt: seq<byte>, iterations: nat): Key {
    p.pbkdf2(algorithm, password, salt, iterations)
  }

  lemma BlocksPermute(p: Primitives, key: Key, block: Block)
    ensures DecryptBlock(p, key, EncryptBlock(p, key, block)) == block
    ensures EncryptBlock(p, key, DecryptBlock(p, key, block)) == block
  {
  }
}
