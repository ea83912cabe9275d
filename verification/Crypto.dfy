/** Padding and key agreement (section 6.3 of RFC 5652; section 2.1.1 of RFC 2631). */
module Crypto {
  import opened Bytes
  import opened Text

  const AES_BLOCK_SIZE := 16

  datatype PadError = BadBlockSize | Misaligned | BadPaddingLength | BadPaddingBytes

  function Repeat(b: byte, n: nat): (s: seq<byte>)
    ensures |s| == n
  {
    seq(n, i => b)
  }

  predicate PadBlockSize(blockSize: int) {
    1 < blockSize <= 255
  }

  function Pad(data: seq<byte>, blockSize: int): Result<seq<byte>, PadError> {
    if !PadBlockSize(blockSize) then Err(BadBlockSize)
    else
      var n := blockSize - |data| % blockSize;
      Ok(data + Repeat(n, n))
  }

  function Unpad(data: seq<byte>, blockSize: int): Result<seq<byte>, PadError> {
    if !PadBlockSize(blockSize) then Err(BadBlockSize)
    else if |data| == 0 || |data| % blockSize != 0 then Err(Misaligned)
    else
      var n := data[|data| - 1];
      if !(0 < n <= blockSize) then Err(BadPaddingLength)
      else
        WholeBlocks(|data|, blockSize);
        if data[|data| - n..] != Repeat(n, n) then Err(BadPaddingBytes)
        else Ok(data[..|data| - n])
  }

  lemma WholeBlocks(n: nat, blockSize: nat)
    requires blockSize > 0 && n > 0 && n % blockSize == 0
    ensures n >= blockSize
  {
  }

  /** Padding always reaches a whole, nonempty number of blocks and comes off again. */
  lemma UnpadOfPad(data: seq<byte>, blockSize: int)
    requires PadBlockSize(blockSize)
    ensures var padded := Pad(data, blockSize).value;
      && |data| < |padded| <= |data| + blockSize
      && |padded| % blockSize == 0
      && Unpad(padded, blockSize) == Ok(data)
  {
    var n := blockSize - |data| % blockSize;
    var padded := data + Repeat(n, n);
    assert padded[|padded| - n..] == Repeat(n, n);
    assert padded[..|data|] == data;
    PaddedLength(|data|, blockSize);
  }

  lemma PaddedLength(n: nat, blockSize: nat)
    requires blockSize > 0
    ensures (n + (blockSize - n % blockSize)) % blockSize == 0
  {
    var q := n / blockSize;
    assert n + (blockSize - n % blockSize) == blockSize * (q + 1);
    MultipleMod(q + 1, blockSize);
  }

  lemma {:induction false} MultipleMod(q: nat, m: nat)
    requires m > 0
    ensures (m * q) % m == 0
  {
    if q > 0 {
      MultipleMod(q - 1, m);
      assert m * q == m * (q - 1) + m;
      AddModulus(m * (q - 1), m);
    }
  }

  lemma AddModulus(x: nat, m: nat)
    requires m > 0
    ensures (x + m) % m == x % m
  {
    assert x + m == m * (x / m + 1) + x % m;
    Euclid(x + m, m, x / m + 1, x % m);
  }

  /** The quotient and remainder are unique. */
  lemma Euclid(x: int, m: int, q: int, r: int)
    requires 0 <= r < m && x == m * q + r
    ensures x / m == q && x % m == r
  {
    var d := x / m - q;
    assert m * d == r - x % m;
    Multiples(m, d);
  }

  lemma Multiples(m: int, d: int)
    requires m > 0
    ensures d >= 1 ==> m * d >= m
    ensures d <= -1 ==> m * d <= -m
  {
  }

  /** Whatever unpadding accepts is the padding of its result. */
  lemma PadOfUnpad(data: seq<byte>, blockSize: int)
    requires Unpad(data, blockSize).Ok?
    ensures Pad(Unpad(data, blockSize).value, blockSize) == Ok(data)
  {
    var n := data[|data| - 1];
    WholeBlocks(|data|, blockSize);
    ResidueBelow(|data|, n, blockSize);
    assert data == data[..|data| - n] + data[|data| - n..];
  }

  lemma ResidueBelow(length: nat, n: nat, blockSize: nat)
    requires 0 < n <= blockSize <= length && length % blockSize == 0
    ensures blockSize - (length - n) % blockSize == n
  {
    var q := length / blockSize;
    assert length - n == blockSize * (q - 1) + (blockSize - n);
    if n == blockSize {
      Euclid(length - n, blockSize, q - 1, 0);
    } else {
      Euclid(length - n, blockSize, q - 1, blockSize - n);
    }
  }

  // ---------------------------------------------------------------- key agreement

  function Pow(b: nat, e: nat): nat {
    if e == 0 then 1 else b * Pow(b, e - 1)
  }

  /** `pow(base, exponent, modulus)`. */
  function ModPow(b: nat, e: nat, m: nat): (r: nat)
    requires m > 0
    ensures r < m
  {
    Pow(b, e) % m
  }

  lemma {:induction false} PowSum(b: nat, x: nat, y: nat)
    ensures Pow(b, x + y) == Pow(b, x) * Pow(b, y)
  {
    if x > 0 {
      PowSum(b, x - 1, y);
      assert b * (Pow(b, x - 1) * Pow(b, y)) == b * Pow(b, x - 1) * Pow(b, y);
    }
  }

  lemma {:induction false} PowProduct(b: nat, x: nat, y: nat)
    ensures Pow(Pow(b, x), y) == Pow(b, x * y)
  {
    if y > 0 {
      PowProduct(b, x, y - 1);
      PowSum(b, x, x * (y - 1));
      assert x + x * (y - 1) == x * y;
    } else {
      assert x * y == 0;
    }
  }

  lemma MulMod(x: nat, y: nat, m: nat)
    requires m > 0
    ensures (x * y) % m == ((x % m) * (y % m)) % m
  {
    var a, b := x / m, y / m;
    var r, s := x % m, y % m;
    var q := a * y + r * b;
    assert x * y == m * q + r * s by {
      assert x * y == (m * a + r) * y == m * a * y + r * y;
      assert r * y == r * (m * b + s) == m * (r * b) + r * s;
    }
    var t := (r * s) / m;
    assert x * y == m * (q + t) + (r * s) % m;
    Euclid(x * y, m, q + t, (r * s) % m);
  }

  /** Reducing the base first does not change a modular power. */
  lemma {:induction false} ReduceBase(b: nat, e: nat, m: nat)
    requires m > 0
    ensures ModPow(b % m, e, m) == ModPow(b, e, m)
  {
    if e > 0 {
      ReduceBase(b, e - 1, m);
      MulMod(b, Pow(b, e - 1), m);
      MulMod(b % m, Pow(b % m, e - 1), m);
      Euclid(b % m, m, 0, b % m);
    }
  }

  /** Both sides of a Diffie-Hellman exchange reach the same value; the modulus need not be prime. */
  lemma SecretsAgree(g: nat, a: nat, b: nat, m: nat)
    requires m > 0
    ensures ModPow(ModPow(g, a, m), b, m) == ModPow(ModPow(g, b, m), a, m)
  {
    ReduceBase(Pow(g, a), b, m);
    ReduceBase(Pow(g, b), a, m);
    PowProduct(g, a, b);
    PowProduct(g, b, a);
    assert a * b == b * a;
  }

  datatype KeyError = BadModulus | BadGenerator | BadPrivate | BadPeer | NotInt64

  datatype KeyExchange = KeyExchange(modulus: int, generator: int, publicValue: int)

  function ValidateDh(modulus: int, generator: int, privateValue: int): Option<KeyError> {
    if modulus <= 2 then Some(BadModulus)
    else if !(1 < generator < modulus) then Some(BadGenerator)
    else if privateValue <= 0 then Some(BadPrivate)
    else None
  }

  function FromPrivate(modulus: int, generator: int, privateValue: int): Result<KeyExchange, KeyError> {
    match ValidateDh(modulus, generator, privateValue)
    case Some(error) => Err(error)
    case None => Ok(KeyExchange(modulus, generator, ModPow(generator, privateValue, modulus)))
  }

  function SharedSecret(exchange: KeyExchange, privateValue: int, peer: int): Result<nat, KeyError> {
    match ValidateDh(exchange.modulus, exchange.generator, privateValue)
    case Some(error) => Err(error)
    case None =>
      if !(0 < peer < exchange.modulus) then Err(BadPeer)
      else Ok(ModPow(peer, privateValue, exchange.modulus))
  }

  function EncodeExchange(exchange: KeyExchange): Result<seq<byte>, KeyError> {
    if !(FitsSigned(exchange.modulus, 8) && FitsSigned(exchange.generator, 8) && FitsSigned(exchange.publicValue, 8))
    then Err(NotInt64)
    else Ok(PackSigned(exchange.modulus, 8) + PackSigned(exchange.generator, 8) + PackSigned(exchange.publicValue, 8))
  }

  /** `digest` stands for MD5, which the code takes from a library. */
  type Digest = seq<byte> -> Block

  type Block = b: seq<byte> | |b| == 16 witness [0, 0, 0, 0, 0, 0, 0, 0, 0, 0, 0, 0, 0, 0, 0, 0]

  function DeriveAesKey(secret: nat, digest: Digest): Block {
    DecimalIsAscii(secret);
    digest(EncodeAscii(Decimal(secret)))
  }

  lemma DecimalIsAscii(n: nat)
    ensures IsAscii(Decimal(n))
  {
    forall i | 0 <= i < |Decimal(n)| ensures Decimal(n)[i] < 128 as char {
      assert IsDigit(Decimal(n)[i]);
    }
  }

  function AddBytes(a: int, b: int): byte {
    (a + b) % 256
  }

  function IvOf(key: Block): Block {
    [0, 0, AddBytes(key[15], key[0]), 0, 0, AddBytes(key[1], key[13]), 0, 0, AddBytes(key[15], key[14]),
     0, 0, 0, AddBytes(key[11], key[12]), 0, AddBytes(key[3], key[9]), 0]
  }

  /** The buffer is filled cell by cell; a key of any other length is refused. */
  method DeriveIv(key: seq<byte>) returns (iv: Option<Block>)
    ensures iv.Some? <==> |key| == AES_BLOCK_SIZE
    ensures iv.Some? ==> iv.value == IvOf(key)
  {
    if |key| != AES_BLOCK_SIZE {
      return None;
    }
    var buffer := new byte[AES_BLOCK_SIZE](i => 0);
    buffer[2] := AddBytes(key[15], key[0]);
    buffer[5] := AddBytes(key[1], key[13]);
    buffer[8] := AddBytes(key[15], key[14]);
    buffer[12] := AddBytes(key[11], key[12]);
    buffer[14] := AddBytes(key[3], key[9]);
    return Some(buffer[..]);
  }
}
