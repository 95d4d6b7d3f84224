/** The RSA class of the two-digit-code program: keys from primes below 1000
    with a modulus above 10000, messages sent one character per block through
    the character table, and decryption that refuses any block not below the
    modulus. */
module RsaPersonal {
  import opened Wrappers
  import opened CppInt
  import opened CharTable
  import opened ModExp
  import opened KeyGen
  import RsaRoundTrip

  /** Largest prime the key generator draws from. */
  const MaxPrime: int := 1000
  /** The modulus must exceed this, otherwise generation starts over. */
  const MinModulus: int := 10000

  /** The blocks `encryptString` produces: each character's code raised to ex modulo modu. */
  function EncryptedBlocks(message: seq<CChar>, ex: int, modu: int): (blocks: seq<int>)
    requires modu != 0
    ensures |blocks| == |message|
    ensures forall i :: 0 <= i < |message| ==> blocks[i] == ModPow(EncodeChar(message[i]), ex, modu)
  {
    seq(|message|, i requires 0 <= i < |message| => ModPow(EncodeChar(message[i]), ex, modu))
  }

  /** Some block is not below the modulus. */
  predicate HasOutOfRange(ciphertext: seq<int>, n: int) {
    exists i :: 0 <= i < |ciphertext| && ciphertext[i] >= n
  }

  /** The text `decryptString` produces: empty when a block is out of range, otherwise one decoded character per block. */
  function DecryptedText(ciphertext: seq<int>, d: int, n: int): (text: seq<CChar>)
    requires n != 0
    ensures HasOutOfRange(ciphertext, n) ==> text == []
    ensures !HasOutOfRange(ciphertext, n) ==> |text| == |ciphertext|
    ensures !HasOutOfRange(ciphertext, n) ==>
              forall i :: 0 <= i < |ciphertext| ==> text[i] == DecodeNum(ModPow(ciphertext[i], d, n))
  {
    if HasOutOfRange(ciphertext, n) then []
    else seq(|ciphertext|, i requires 0 <= i < |ciphertext| => DecodeNum(ModPow(ciphertext[i], d, n)))
  }

  /** `encryptString`: one block per character, in order. */
  method EncryptString(message: seq<CChar>, ex: int, modu: int) returns (cipherText: seq<int>)
    requires modu != 0
    ensures cipherText == EncryptedBlocks(message, ex, modu)
  {
    cipherText := [];
    var i := 0;
    while i < |message|
      invariant 0 <= i <= |message|
      invariant cipherText == EncryptedBlocks(message[..i], ex, modu)
    {
      var num := EncodeChar(message[i]);
      var cipher;
      ghost var peak;
      cipher, peak := ModExp.ModExp(num, ex, modu);
      cipherText := cipherText + [cipher];
      i := i + 1;
    }
    assert message[..i] == message;
  }

  /** `decryptString`: stops with "" at the first block that is not below n. */
  method DecryptString(ciphertext: seq<int>, d: int, n: int) returns (result: seq<CChar>)
    requires n != 0
    ensures result == DecryptedText(ciphertext, d, n)
  {
    result := [];
    var i := 0;
    while i < |ciphertext|
      invariant 0 <= i <= |ciphertext|
      invariant !HasOutOfRange(ciphertext[..i], n)
      invariant result == DecryptedText(ciphertext[..i], d, n)
    {
      var cipher := ciphertext[i];
      if cipher >= n {
        assert ciphertext[i] >= n;
        return [];
      }
      var num;
      ghost var peak;
      num, peak := ModExp.ModExp(cipher, d, n);
      result := result + [DecodeNum(num)];
      i := i + 1;
      assert ciphertext[..i] == ciphertext[..i - 1] + [cipher];
    }
    assert ciphertext[..i] == ciphertext;
  }

  /** With generated keys, decrypting the blocks of a message over letters and space gives
      the message upper-cased: every code is below the modulus, so no block is refused. */
  lemma DecryptEncryptedText(k: Keys, message: seq<CChar>)
    requires KeysValid(k, MaxPrime, MinModulus)
    requires forall i :: 0 <= i < |message| ==> InAlphabet(ToUpper(message[i]))
    ensures DecryptedText(EncryptedBlocks(message, k.pubExp, k.modulus), k.privExp, k.modulus)
            == UpperString(message)
  {
    var blocks := EncryptedBlocks(message, k.pubExp, k.modulus);
    forall i | 0 <= i < |message|
      ensures 0 <= blocks[i] < k.modulus
      ensures ModPow(blocks[i], k.privExp, k.modulus) == EncodeChar(message[i])
    {
      BlockRoundTrip(k, message[i]);
    }
    assert !HasOutOfRange(blocks, k.modulus);
    forall i | 0 <= i < |message|
      ensures DecryptedText(blocks, k.privExp, k.modulus)[i] == UpperString(message)[i]
    {
      DecodeEncode(message[i]);
    }
  }

  /** One character's block is in range and decrypts to the character's code. */
  lemma BlockRoundTrip(k: Keys, c: CChar)
    requires KeysValid(k, MaxPrime, MinModulus) && InAlphabet(ToUpper(c))
    ensures var b := ModPow(EncodeChar(c), k.pubExp, k.modulus);
            0 <= b < k.modulus && ModPow(b, k.privExp, k.modulus) == EncodeChar(c)
  {
    RsaRoundTrip.ValidKeysArePair(k, MaxPrime, MinModulus);
    RsaRoundTrip.KeyPairRoundTrip(k.primeP, k.primeQ, k.pubExp, k.privExp, EncodeChar(c));
  }

  class Rsa {
    var keys: Keys
    var hasKey: bool
    var storedCipher: seq<int>
    var storedMessage: seq<CChar>

    /** Keys, once present, are keys the generator can produce. */
    predicate Valid()
      reads this
    {
      hasKey ==> KeysValid(keys, MaxPrime, MinModulus)
    }

    constructor()
      ensures Valid() && !hasKey && storedCipher == [] && storedMessage == []
    {
      keys := Keys(0, 0, 0, 0, 0);
      hasKey := false;
      storedCipher := [];
      storedMessage := [];
    }

    /** `generate`: with keys present, the answer 'n' keeps them; otherwise new keys replace them.
        The attempts stand for the random draws; when they run out, nothing changes. */
    method Generate(answer: char, attempts: seq<seq<nat>>)
      requires Valid()
      modifies this
      ensures Valid()
      ensures old(hasKey) && answer == 'n' ==> unchanged(this)
      ensures var generated := GeneratedKeys(MaxPrime, MinModulus, attempts);
                !(old(hasKey) && answer == 'n') ==>
                  if generated.Some? then hasKey && keys == generated.value else unchanged(this)
      ensures storedCipher == old(storedCipher) && storedMessage == old(storedMessage)
      ensures old(hasKey) ==> hasKey
    {
      if hasKey && answer == 'n' {
        return;
      }
      var generated := GenKeys(MaxPrime, MinModulus, attempts);
      StoreKeys(generated);
    }

    /** `keys = genKeys()`: keys that came back replace the current ones; none leaves the object as it was. */
    method StoreKeys(generated: Option<Keys>)
      requires Valid() && (generated.Some? ==> KeysValid(generated.value, MaxPrime, MinModulus))
      modifies this
      ensures Valid()
      ensures generated.Some? ==> hasKey && keys == generated.value
      ensures generated.Some? ==> storedCipher == old(storedCipher) && storedMessage == old(storedMessage)
      ensures generated.None? ==> unchanged(this)
    {
      if generated.Some? {
        keys := generated.value;
        hasKey := true;
      }
    }

    /** `encrypt`: no blocks without keys, otherwise the blocks under the public exponent. */
    method Encrypt(message: seq<CChar>) returns (cipher: seq<int>)
      requires Valid()
      ensures !hasKey ==> cipher == []
      ensures hasKey ==> keys.modulus != 0 && cipher == EncryptedBlocks(message, keys.pubExp, keys.modulus)
    {
      if !hasKey {
        return [];
      }
      cipher := EncryptString(message, keys.pubExp, keys.modulus);
    }

    /** `decrypt`: no text without keys, otherwise the text under the private exponent. */
    method Decrypt(ciphertext: seq<int>) returns (text: seq<CChar>)
      requires Valid()
      ensures !hasKey ==> text == []
      ensures hasKey ==> keys.modulus != 0 && text == DecryptedText(ciphertext, keys.privExp, keys.modulus)
    {
      if !hasKey {
        return [];
      }
      text := DecryptString(ciphertext, keys.privExp, keys.modulus);
    }

    /** `encryptStored`: with keys, remember the message and its blocks; without keys, change nothing. */
    method EncryptStored(message: seq<CChar>)
      requires Valid()
      modifies this
      ensures Valid() && keys == old(keys) && hasKey == old(hasKey)
      ensures !hasKey ==> unchanged(this)
      ensures hasKey ==> storedMessage == message && storedCipher == EncryptedBlocks(message, keys.pubExp, keys.modulus)
    {
      if !hasKey {
        return;
      }
      storedMessage := message;
      storedCipher := Encrypt(message);
    }

    /** `decryptStored`: the text of the stored blocks, or `None` without keys or without stored blocks. */
    method DecryptStored() returns (text: Option<seq<CChar>>)
      requires Valid()
      ensures text.Some? <==> hasKey && storedCipher != []
      ensures text.Some? ==> text.value == DecryptedText(storedCipher, keys.privExp, keys.modulus)
    {
      if !hasKey {
        return None;
      }
      if storedCipher == [] {
        return None;
      }
      var decrypted := Decrypt(storedCipher);
      text := Some(decrypted);
    }
  }
}
