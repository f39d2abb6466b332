/**
 * Cipher feedback mode with an 8-bit segment (CFB8), as section 6.3 of NIST SP 800-38A
 * defines it, over an arbitrary 128-bit block function CIPH_K.  CFB only ever calls the
 * forward block function, so nothing about the block function is assumed.
 */
module Cfb8 {
  import opened Bytes

  /** A 128-bit block (the CFB input register and the block function's output). */
  type Block = b: seq<byte> | |b| == 16
    witness [0, 0, 0, 0, 0, 0, 0, 0, 0, 0, 0, 0, 0, 0, 0, 0]

  /** A 256-bit key. */
  type Key = k: seq<byte> | |k| == 32
    witness [0, 0, 0, 0, 0, 0, 0, 0, 0, 0, 0, 0, 0, 0, 0, 0, 0, 0, 0, 0, 0, 0, 0, 0, 0, 0, 0, 0, 0, 0, 0, 0]

  /** The forward block function CIPH_K (AES-256 in the program; its internals are not modelled). */
  type BlockCipher = (Key, Block) -> Block

  /** The next input block: the current one shifted left by one byte, with byte `c` entering at the right. */
  function ShiftIn(reg: Block, c: byte): Block {
    reg[1..] + [c]
  }

  /** CFB8 encryption of `p` when the input register currently holds `reg`. */
  function EncryptFrom(ciph: BlockCipher, key: Key, reg: Block, p: seq<byte>): (c: seq<byte>)
    ensures |c| == |p|
    decreases |p|
  {
    if |p| == 0 then []
    else
      var cb := Xor(p[0], ciph(key, reg)[0]);
      [cb] + EncryptFrom(ciph, key, ShiftIn(reg, cb), p[1..])
  }

  /** CFB8 decryption of `c` when the input register currently holds `reg`. */
  function DecryptFrom(ciph: BlockCipher, key: Key, reg: Block, c: seq<byte>): (p: seq<byte>)
    ensures |p| == |c|
    decreases |c|
  {
    if |c| == 0 then []
    else
      var pb := Xor(c[0], ciph(key, reg)[0]);
      [pb] + DecryptFrom(ciph, key, ShiftIn(reg, c[0]), c[1..])
  }

  function Encrypt(ciph: BlockCipher, key: Key, iv: Block, p: seq<byte>): seq<byte> {
    EncryptFrom(ciph, key, iv, p)
  }

  function Decrypt(ciph: BlockCipher, key: Key, iv: Block, c: seq<byte>): seq<byte> {
    DecryptFrom(ciph, key, iv, c)
  }

  /**
   * The input block I_j of section 6.3: the 16 bytes of `iv ++ c` starting at `j`,
   * i.e. the IV shifted left by the j ciphertext bytes already produced.
   */
  function InputBlock(iv: Block, c: seq<byte>, j: nat): Block
    requires j <= |c|
  {
    (iv + c)[j..j + 16]
  }

  lemma {:induction false} EncryptFromIsStandard(ciph: BlockCipher, key: Key, reg: Block, p: seq<byte>, j: nat)
    requires j < |p|
    ensures EncryptFrom(ciph, key, reg, p)[j]
         == Xor(p[j], ciph(key, InputBlock(reg, EncryptFrom(ciph, key, reg, p), j))[0])
    decreases j
  {
    var c := EncryptFrom(ciph, key, reg, p);
    if j == 0 {
      assert InputBlock(reg, c, 0) == reg;
    } else {
      var cb := c[0];
      var next := ShiftIn(reg, cb);
      var rest := EncryptFrom(ciph, key, next, p[1..]);
      assert c == [cb] + rest;
      EncryptFromIsStandard(ciph, key, next, p[1..], j - 1);
      assert reg + c == [reg[0]] + (next + rest);
      assert InputBlock(reg, c, j) == InputBlock(next, rest, j - 1);
    }
  }

  lemma {:induction false} DecryptFromIsStandard(ciph: BlockCipher, key: Key, reg: Block, c: seq<byte>, j: nat)
    requires j < |c|
    ensures DecryptFrom(ciph, key, reg, c)[j] == Xor(c[j], ciph(key, InputBlock(reg, c, j))[0])
    decreases j
  {
    if j == 0 {
      assert InputBlock(reg, c, 0) == reg;
    } else {
      var next := ShiftIn(reg, c[0]);
      DecryptFromIsStandard(ciph, key, next, c[1..], j - 1);
      assert reg + c == [reg[0]] + (next + c[1..]);
      assert InputBlock(reg, c, j) == InputBlock(next, c[1..], j - 1);
    }
  }

  /**
   * Encryption follows section 6.3 of NIST SP 800-38A: every ciphertext byte is the
   * plaintext byte xor the leftmost byte of CIPH_K(I_j).
   */
  lemma EncryptIsStandard(ciph: BlockCipher, key: Key, iv: Block, p: seq<byte>)
    ensures |Encrypt(ciph, key, iv, p)| == |p|
    ensures forall j :: 0 <= j < |p| ==>
      Encrypt(ciph, key, iv, p)[j] == Xor(p[j], ciph(key, InputBlock(iv, Encrypt(ciph, key, iv, p), j))[0])
  {
    forall j | 0 <= j < |p|
      ensures Encrypt(ciph, key, iv, p)[j] == Xor(p[j], ciph(key, InputBlock(iv, Encrypt(ciph, key, iv, p), j))[0])
    {
      EncryptFromIsStandard(ciph, key, iv, p, j);
    }
  }

  /** Decryption follows section 6.3 too: it needs only the ciphertext to rebuild each I_j. */
  lemma DecryptIsStandard(ciph: BlockCipher, key: Key, iv: Block, c: seq<byte>)
    ensures |Decrypt(ciph, key, iv, c)| == |c|
    ensures forall j :: 0 <= j < |c| ==>
      Decrypt(ciph, key, iv, c)[j] == Xor(c[j], ciph(key, InputBlock(iv, c, j))[0])
  {
    forall j | 0 <= j < |c|
      ensures Decrypt(ciph, key, iv, c)[j] == Xor(c[j], ciph(key, InputBlock(iv, c, j))[0])
    {
      DecryptFromIsStandard(ciph, key, iv, c, j);
    }
  }

  lemma {:induction false} DecryptFromEncryptFrom(ciph: BlockCipher, key: Key, reg: Block, p: seq<byte>)
    ensures DecryptFrom(ciph, key, reg, EncryptFrom(ciph, key, reg, p)) == p
    decreases |p|
  {
    if |p| > 0 {
      var c := EncryptFrom(ciph, key, reg, p);
      var k := ciph(key, reg)[0];
      XorCancel(p[0], k);
      assert c[0] == Xor(p[0], k);
      assert c[1..] == EncryptFrom(ciph, key, ShiftIn(reg, c[0]), p[1..]);
      DecryptFromEncryptFrom(ciph, key, ShiftIn(reg, c[0]), p[1..]);
      assert [p[0]] + p[1..] == p;
    }
  }

  lemma {:induction false} EncryptFromDecryptFrom(ciph: BlockCipher, key: Key, reg: Block, c: seq<byte>)
    ensures EncryptFrom(ciph, key, reg, DecryptFrom(ciph, key, reg, c)) == c
    decreases |c|
  {
    if |c| > 0 {
      var p := DecryptFrom(ciph, key, reg, c);
      var k := ciph(key, reg)[0];
      XorCancel(c[0], k);
      assert p[0] == Xor(c[0], k);
      assert p[1..] == DecryptFrom(ciph, key, ShiftIn(reg, c[0]), c[1..]);
      EncryptFromDecryptFrom(ciph, key, ShiftIn(reg, c[0]), c[1..]);
      assert [c[0]] + c[1..] == c;
    }
  }

  /** Decryption undoes encryption under the same key and IV. */
  lemma DecryptEncrypt(ciph: BlockCipher, key: Key, iv: Block, p: seq<byte>)
    ensures Decrypt(ciph, key, iv, Encrypt(ciph, key, iv, p)) == p
  {
    DecryptFromEncryptFrom(ciph, key, iv, p);
  }

  /** Encryption undoes decryption, so the mode is a bijection on byte strings of each length. */
  lemma EncryptDecrypt(ciph: BlockCipher, key: Key, iv: Block, c: seq<byte>)
    ensures Encrypt(ciph, key, iv, Decrypt(ciph, key, iv, c)) == c
  {
    EncryptFromDecryptFrom(ciph, key, iv, c);
  }
}

/** The program's cipher wrapper: key checking, IV derivation, AES-256-CFB8, random keys. */
module Cipher {
  import opened Wrappers
  import opened Bytes
  import Utf8
  import Cfb8

  datatype CipherError = InvalidKeyLength | InvalidLength

  /** A key string the cipher accepts: exactly 32 bytes once UTF-8 encoded. */
  predicate ValidKey(key: string) {
    |Utf8.Encode(key)| == 32
  }

  /** The key's UTF-8 bytes, or `InvalidKeyLength` when there are not exactly 32 of them. */
  function GetKeyAsBytes(key: string): (r: Result<Cfb8.Key, CipherError>)
    ensures r.Success? <==> ValidKey(key)
    ensures r.Success? ==> r.value == Utf8.Encode(key)
    ensures r.Failure? ==> r.error == InvalidKeyLength
  {
    var bytes := Utf8.Encode(key);
    if |bytes| != 32 then Failure(InvalidKeyLength) else Success(bytes)
  }

  /** The IV: the first 16 bytes of the key. */
  function IvOf(key: Cfb8.Key): (iv: Cfb8.Block)
    ensures forall i :: 0 <= i < 16 ==> iv[i] == key[i]
  {
    key[..16]
  }

  /** AES-256-CFB8 encryption keyed and initialised from the key string. */
  function Aes256Cfb8Encrypt(aes: Cfb8.BlockCipher, key: string, bytes: seq<byte>): (r: Result<seq<byte>, CipherError>)
    ensures r.Failure? <==> !ValidKey(key)
    ensures r.Failure? ==> r.error == InvalidKeyLength
    ensures r.Success? ==> |r.value| == |bytes|
    ensures r.Success? ==> r.value == Cfb8.Encrypt(aes, Utf8.Encode(key), IvOf(Utf8.Encode(key)), bytes)
  {
    match GetKeyAsBytes(key)
    case Failure(e) => Failure(e)
    case Success(k) => Success(Cfb8.Encrypt(aes, k, IvOf(k), bytes))
  }

  /** AES-256-CFB8 decryption keyed and initialised from the key string. */
  function Aes256Cfb8Decrypt(aes: Cfb8.BlockCipher, key: string, bytes: seq<byte>): (r: Result<seq<byte>, CipherError>)
    ensures r.Failure? <==> !ValidKey(key)
    ensures r.Failure? ==> r.error == InvalidKeyLength
    ensures r.Success? ==> |r.value| == |bytes|
    ensures r.Success? ==> r.value == Cfb8.Decrypt(aes, Utf8.Encode(key), IvOf(Utf8.Encode(key)), bytes)
  {
    match GetKeyAsBytes(key)
    case Failure(e) => Failure(e)
    case Success(k) => Success(Cfb8.Decrypt(aes, k, IvOf(k), bytes))
  }

  /** With the same valid key, decryption gives back exactly what was encrypted. */
  lemma DecryptAfterEncrypt(aes: Cfb8.BlockCipher, key: string, m: seq<byte>)
    requires ValidKey(key)
    ensures Aes256Cfb8Encrypt(aes, key, m).Success?
    ensures Aes256Cfb8Decrypt(aes, key, Aes256Cfb8Encrypt(aes, key, m).value) == Success(m)
  {
    var k := Utf8.Encode(key);
    Cfb8.DecryptEncrypt(aes, k, IvOf(k), m);
  }

  /** With the same valid key, encrypting a decryption gives back the ciphertext. */
  lemma EncryptAfterDecrypt(aes: Cfb8.BlockCipher, key: string, c: seq<byte>)
    requires ValidKey(key)
    ensures Aes256Cfb8Decrypt(aes, key, c).Success?
    ensures Aes256Cfb8Encrypt(aes, key, Aes256Cfb8Decrypt(aes, key, c).value) == Success(c)
  {
    var k := Utf8.Encode(key);
    Cfb8.EncryptDecrypt(aes, k, IvOf(k), c);
  }

  /** The 62 characters a generated key is drawn from: `A`-`Z`, then `a`-`z`, then `0`-`9`. */
  const Charset: string :=
    seq(26, i requires 0 <= i < 26 => ('A' as int + i) as char)
    + seq(26, i requires 0 <= i < 26 => ('a' as int + i) as char)
    + seq(10, i requires 0 <= i < 10 => ('0' as int + i) as char)

  /** An index into `Charset`: what one `random_range(0..62)` call yields. */
  type CharsetIndex = i: int | 0 <= i < 62

  predicate IsAlphanumeric(c: char) {
    ('A' <= c <= 'Z') || ('a' <= c <= 'z') || ('0' <= c <= '9')
  }

  /** `Charset` holds exactly the ASCII letters and digits. */
  lemma CharsetIsAlphanumeric()
    ensures |Charset| == 62
    ensures forall i :: 0 <= i < |Charset| ==> IsAlphanumeric(Charset[i])
    ensures forall c :: IsAlphanumeric(c) ==> c in Charset
  {
    forall c | IsAlphanumeric(c) ensures c in Charset {
      if 'A' <= c <= 'Z' {
        assert Charset[c as int - 'A' as int] == c;
      } else if 'a' <= c <= 'z' {
        assert Charset[26 + c as int - 'a' as int] == c;
      } else {
        assert Charset[52 + c as int - '0' as int] == c;
      }
    }
  }

  /** A random key: 32 characters, the `i`-th being `Charset[draw(i)]`. */
  function GenerateRandomKey(draw: nat -> CharsetIndex): (key: string)
    ensures |key| == 32
    ensures forall i :: 0 <= i < 32 ==> IsAlphanumeric(key[i])
  {
    CharsetIsAlphanumeric();
    seq(32, i requires 0 <= i < 32 => Charset[draw(i)])
  }

  /** Every generated key passes the cipher's key check. */
  lemma GeneratedKeyIsValid(draw: nat -> CharsetIndex)
    ensures ValidKey(GenerateRandomKey(draw))
    ensures GetKeyAsBytes(GenerateRandomKey(draw)).Success?
  {
    var key := GenerateRandomKey(draw);
    assert Utf8.IsAscii(key);
    Utf8.AsciiEncoding(key);
  }
}
