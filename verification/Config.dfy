/** The cipher configuration and the page layout it fixes. */
module Config {
  import opened Outcomes

  const MIN_PAGE_SIZE := 1024
  const MAX_PAGE_SIZE := 65_536
  const MAX_KDF_ITERATIONS := 0x7FFF_FFFF
  const AES_BLOCK_SIZE := 16
  const IV_SIZE := 16

  datatype HashAlgorithm = Sha1 | Sha256 | Sha512 {
    function OutputLen(): nat {
      match this
      case Sha1 => 20
      case Sha256 => 32
      case Sha512 => 64
    }
  }

  predicate IsPowerOfTwo(n: nat) {
    n == 1 || (n > 0 && n % 2 == 0 && IsPowerOfTwo(n / 2))
  }

  function NextMultipleOf(n: nat, m: nat): nat
    requires m > 0
  {
    (n + m - 1) / m * m
  }

  function ReserveSizeFor(hmacAlgorithm: HashAlgorithm): nat {
    NextMultipleOf(IV_SIZE + hmacAlgorithm.OutputLen(), AES_BLOCK_SIZE)
  }

  predicate AcceptsPageSize(pageSize: nat) {
    MIN_PAGE_SIZE <= pageSize <= MAX_PAGE_SIZE && IsPowerOfTwo(pageSize)
  }

  datatype Settings = Settings(pageSize: nat, kdfIterations: nat, kdfAlgorithm: HashAlgorithm,
                               hmacAlgorithm: HashAlgorithm) {
    predicate Valid() {
      AcceptsPageSize(pageSize) && 1 <= kdfIterations <= MAX_KDF_ITERATIONS
    }

    function ReserveSize(): nat {
      ReserveSizeFor(hmacAlgorithm)
    }
  }

  /** The fields are private to the source's type, so only validated settings exist. */
  type CipherConfig = c: Settings | c.Valid() witness Settings(1024, 1, Sha1, Sha1)

  datatype CipherConfigError = InvalidPageSize(pageSize: nat) | InvalidKdfIterations(kdfIterations: nat)

  function NewConfig(pageSize: nat, kdfIterations: nat, kdfAlgorithm: HashAlgorithm, hmacAlgorithm: HashAlgorithm)
    : Result<CipherConfig, CipherConfigError>
  {
    if !(MIN_PAGE_SIZE <= pageSize <= MAX_PAGE_SIZE) || !IsPowerOfTwo(pageSize) then
      Failure(InvalidPageSize(pageSize))
    else if !(1 <= kdfIterations <= MAX_KDF_ITERATIONS) then
      Failure(InvalidKdfIterations(kdfIterations))
    else
      Success(Settings(pageSize, kdfIterations, kdfAlgorithm, hmacAlgorithm))
  }

  /** The accepted sizes are exactly the seven that SQLCipher pages may have. */
  lemma AcceptedPageSizes(n: nat)
    ensures AcceptsPageSize(n) <==> n in {1024, 2048, 4096, 8192, 16_384, 32_768, 65_536}
  {
    if AcceptsPageSize(n) {
      var k := HalveTenTimes(n);
      SmallPowers(k);
    }
    TheSevenSizes();
  }

  lemma TheSevenSizes()
    ensures forall n :: n in {1024, 2048, 4096, 8192, 16_384, 32_768, 65_536} ==> AcceptsPageSize(n)
  {
    assert IsPowerOfTwo(65_536);
    assert IsPowerOfTwo(32_768);
    assert IsPowerOfTwo(16_384);
    assert IsPowerOfTwo(8192);
    assert IsPowerOfTwo(4096);
    assert IsPowerOfTwo(2048);
    assert IsPowerOfTwo(1024);
  }

  lemma HalveTenTimes(n: nat) returns (k: nat)
    requires n >= 1024 && IsPowerOfTwo(n)
    ensures n == 1024 * k && IsPowerOfTwo(k)
  {
    var scale := 1;
    k := n;
    while scale < 1024
      invariant scale in {1, 2, 4, 8, 16, 32, 64, 128, 256, 512, 1024}
      invariant n == scale * k && IsPowerOfTwo(k)
      decreases k
    {
      k, scale := k / 2, scale * 2;
    }
  }

  lemma {:induction false} SmallPowers(k: nat)
    requires IsPowerOfTwo(k) && k <= 64
    ensures k in {1, 2, 4, 8, 16, 32, 64}
  {
    if k > 1 {
      SmallPowers(k / 2);
    }
  }

  /** Accepted are exactly seven page sizes with a positive 31-bit iteration count; the page size is checked first. */
  lemma AcceptedSettings(pageSize: nat, kdfIterations: nat, kdfAlgorithm: HashAlgorithm, hmacAlgorithm: HashAlgorithm)
    ensures var r := NewConfig(pageSize, kdfIterations, kdfAlgorithm, hmacAlgorithm);
            var sizeFits := pageSize in {1024, 2048, 4096, 8192, 16_384, 32_768, 65_536};
            && (r.Success? <==> sizeFits && 1 <= kdfIterations < 0x8000_0000)
            && (r.Success? ==> r.value == Settings(pageSize, kdfIterations, kdfAlgorithm, hmacAlgorithm))
            && (r.Failure? ==>
                  r.error == if sizeFits then InvalidKdfIterations(kdfIterations) else InvalidPageSize(pageSize))
  {
    hide IsPowerOfTwo;
    AcceptedPageSizes(pageSize);
  }

  lemma ReserveSizes(h: HashAlgorithm)
    ensures ReserveSizeFor(h) == if h.Sha512? then 80 else 48
  {
  }

  function UsableEnd(config: CipherConfig): (end: nat)
    ensures 944 <= end && end % AES_BLOCK_SIZE == 0
    ensures end + config.ReserveSize() == config.pageSize
  {
    LayoutFits(config);
    config.pageSize - config.ReserveSize()
  }

  lemma BlocksInPage(config: CipherConfig)
    ensures 1024 <= config.pageSize <= MAX_PAGE_SIZE && config.pageSize % AES_BLOCK_SIZE == 0
  {
    hide IsPowerOfTwo;
    AcceptedPageSizes(config.pageSize);
  }

  /** Every accepted configuration has room for a block-aligned body, the IV and the MAC. */
  lemma LayoutFits(config: CipherConfig)
    ensures config.ReserveSize() in {48, 80} && config.ReserveSize() < config.pageSize
    ensures IV_SIZE + config.hmacAlgorithm.OutputLen() <= config.ReserveSize()
    ensures config.pageSize - config.ReserveSize() >= 944
    ensures (config.pageSize - config.ReserveSize()) % AES_BLOCK_SIZE == 0
    ensures config.pageSize <= MAX_PAGE_SIZE
  {
    hide AcceptsPageSize, ReserveSizeFor;
    ReserveSizes(config.hmacAlgorithm);
    BlocksInPage(config);
  }
}
