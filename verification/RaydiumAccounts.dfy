/** Telling Raydium pool accounts from fee configuration accounts by discriminator and length
    (ingestor/internal/pools/raydium.go and the branches of handleRaydiumAccount). */
module RaydiumAccounts {
  import opened Wrappers
  import opened Words

  /** An account address; base58 is left out, being injective. */
  type Key = seq<byte>

  const POOL_CONFIG_OFFSET: nat := 8 + 1
  const POOL_CONFIG_END: nat := POOL_CONFIG_OFFSET + 32
  const AMM_TRADE_FEE_OFFSET: nat := 8 + 1 + 2 + 32 + 4
  const AMM_REQUIRED_LENGTH: nat := AMM_TRADE_FEE_OFFSET + 4
  const APPROX_CONFIG_ACCOUNT_MAX: nat := 256

  const AMM_CONFIG_DISCRIMINATOR: seq<byte> := [218, 244, 33, 104, 203, 203, 43, 111]
  const POOL_STATE_DISCRIMINATOR: seq<byte> := [247, 237, 227, 245, 215, 195, 222, 70]

  predicate HasAmmConfigDiscriminator(data: seq<byte>) {
    |data| >= 8 && data[..8] == AMM_CONFIG_DISCRIMINATOR
  }

  predicate HasPoolDiscriminator(data: seq<byte>) {
    |data| >= 8 && data[..8] == POOL_STATE_DISCRIMINATOR
  }

  /** The address of the pool's fee configuration. */
  function DecodeRaydiumPool(data: seq<byte>): Option<Key> {
    if |data| < POOL_CONFIG_END then None else Some(data[POOL_CONFIG_OFFSET..POOL_CONFIG_END])
  }

  function LittleEndian32(b: seq<byte>): u32
    requires |b| == 4
  {
    var b0: int, b1: int, b2: int, b3: int := b[0], b[1], b[2], b[3];
    b0 + 0x100 * b1 + 0x1_0000 * b2 + 0x100_0000 * b3
  }

  /** The trade fee rate in millionths. */
  function DecodeAmmConfig(data: seq<byte>): Option<u32> {
    if |data| < AMM_REQUIRED_LENGTH then None
    else Some(LittleEndian32(data[AMM_TRADE_FEE_OFFSET..AMM_TRADE_FEE_OFFSET + 4]))
  }

  /** The rate in basis points, truncated to 16 bits. */
  function FeeBps(tradeRate: u32): u16 { (tradeRate / 100) % 0x1_0000 }

  datatype Account = Pool(config: Key) | FeeConfig(feeBps: u16) | Unrecognized

  function Classify(data: seq<byte>): Account {
    var pool, rate := DecodeRaydiumPool(data), DecodeAmmConfig(data);
    if HasPoolDiscriminator(data) && pool.Some? then Pool(pool.value)
    else if HasAmmConfigDiscriminator(data) && rate.Some? then FeeConfig(FeeBps(rate.value))
    else if |data| > APPROX_CONFIG_ACCOUNT_MAX && pool.Some? then Pool(pool.value)
    else if rate.Some? then FeeConfig(FeeBps(rate.value))
    else if pool.Some? then Pool(pool.value)
    else Unrecognized
  }

  /** Which accounts are taken for what: anything shorter than a pool header is ignored; a fee configuration
      is what is long enough and either says so, or is at most 256 bytes and does not say it is a pool. */
  lemma ClassifyByShape(data: seq<byte>)
    ensures Classify(data).Unrecognized? <==> |data| < 41
    ensures Classify(data).FeeConfig? <==>
      && |data| >= 51
      && (data[..8] == [218, 244, 33, 104, 203, 203, 43, 111]
          || (|data| <= 256 && data[..8] != [247, 237, 227, 245, 215, 195, 222, 70]))
  {
    assert AMM_CONFIG_DISCRIMINATOR[0] != POOL_STATE_DISCRIMINATOR[0];
  }

  /** What is read from a recognised account, byte by byte: the configuration's address after the pool's
      header and bump, or the configuration's trade rate, little-endian, in hundredths. */
  lemma ClassifyReads(data: seq<byte>)
    ensures Classify(data).Pool? ==> |data| >= 41 && Classify(data).config == data[9..41]
    ensures Classify(data).FeeConfig? ==>
      && |data| >= 51
      && Classify(data).feeBps
         == ((data[47] as int + 0x100 * (data[48] as int) + 0x1_0000 * (data[49] as int) + 0x100_0000 * (data[50] as int)) / 100) % 0x1_0000
  {
    if |data| >= 51 {
      var b := data[47..51];
      assert b[0] == data[47] && b[1] == data[48] && b[2] == data[49] && b[3] == data[50];
    }
  }
}
