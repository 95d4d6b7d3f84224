/** The RSA class of the ASCII program: keys from primes up to 10000 with no
    minimum modulus, each character sent as its `char` value, and each block
    decrypted straight back to a `char` with no range check. The class and
    helper functions are the same in the header and in the program file, so
    they are modelled once. */
module Rsa1 {
  import opened Wrappers
  import opened CppInt
  import opened ModExp
  import opened KeyGen
  import opened NumberTheory
  import RsaRoundTrip

  /** Largest prime the key generator draws from. */
  const MaxPrime: int := 10000
  /** No minimum modulus: a product of two odd primes is always above 0, so no draw is ever retried. */
  const MinModulus: int := 0

  /** The blocks `encryptString` produces: each character's value raised to ex modulo modu. */
  function EncryptedBlocks(message: seq<CChar>, ex: int, modu: int): (blocks: seq<int>)
    requires modu != 0
    ensures |blocks| == |message|
    ensures forall i :: 0 <= i < |message| ==> blocks[i] == ModPow(Code(message[i]), ex, modu)
  {
    seq(|message|, i requires 0 <= i < |message| => ModPow(Code(message[i]), ex, modu))
  }

  /** The text `decryptString` produces: each block raised to d modulo n, cut to a `char`. */
  function DecryptedText(ciphertext: seq<int>, d: int, n: int): (text: seq<CChar>)
    requires n != 0
    ensures |text| == |ciphertext|
    ensures forall i :: 0 <= i < |ciphertext| ==> text[i] == ToCChar(ModPow(ciphertext[i], d, n))
  {
    seq(|ciphertext|, i requires 0 <= i < |ciphertext| => ToCChar(ModPow(ciphertext[i], d, n)))
  }

  /** `encryptString`: one block per character, in order. */
  method EncryptString(message: seq<CChar>, ex: int, modu: int) returns (cipherText: seq<int>)
    requires modu != 0
    ensures cipherText == EncryptedBlocks(message, ex, modu)
  {
    cipherText := [];
    var i := 0;
    while i < |message|
      invariant 0 <= i <= |message|
      invariant cipherText == EncryptedBlocks(message[..i], ex, modu)
    {
      var num := Code(message[i]);
      var cipher;
      ghost var peak;
      cipher, peak := ModExp.ModExp(num, ex, modu);
      cipherText := cipherText + [cipher];
      i := i + 1;
    }
    assert message[..i] == message;
  }

  /** `decryptString`: one character per block, in order. */
  method DecryptString(ciphertext: seq<int>, d: int, n: int) returns (result: seq<CChar>)
    requires n != 0
    ensures result == DecryptedText(ciphertext, d, n)
  {
    result := [];
    var i := 0;
    while i < |ciphertext|
      invariant 0 <= i <= |ciphertext|
      invariant result == DecryptedText(ciphertext[..i], d, n)
    {
      var num;
      ghost var peak;
      num, peak := ModExp.ModExp(ciphertext[i], d, n);
      result := result + [ToCChar(num)];
      i := i + 1;
    }
    assert ciphertext[..i] == ciphertext;
  }

  /** `charToNum`: the character's value as a signed `char`. */
  function CharToNum(c: CChar): (r: int)
    ensures -128 <= r < 128
    ensures ToCChar(r) == c
  {
    CodeRoundTrip(c);
    Code(c)
  }

  /** `stringToNum`: one value per character, in order. */
  method StringToNum(message: seq<CChar>) returns (nums: seq<int>)
    ensures |nums| == |message|
    ensures forall i :: 0 <= i < |message| ==> nums[i] == CharToNum(message[i])
  {
    nums := [];
    var i := 0;
    while i < |message|
      invariant 0 <= i <= |message| && |nums| == i
      invariant forall k :: 0 <= k < i ==> nums[k] == CharToNum(message[k])
    {
      nums := nums + [Code(message[i])];
      i := i + 1;
    }
  }

  /** `numToString`: one character per value, the value's low byte. */
  method NumToString(nums: seq<int>) returns (result: seq<CChar>)
    ensures |result| == |nums|
    ensures forall i :: 0 <= i < |nums| ==> result[i] == ToCChar(nums[i])
  {
    result := [];
    var i := 0;
    while i < |nums|
      invariant 0 <= i <= |nums| && |result| == i
      invariant forall k :: 0 <= k < i ==> result[k] == ToCChar(nums[k])
    {
      result := result + [ToCChar(nums[i])];
      i := i + 1;
    }
  }

  /** Converting any string to values and back gives the string itself. */
  lemma NumToStringOfStringToNum(message: seq<CChar>, nums: seq<int>, back: seq<CChar>)
    requires |nums| == |message| && forall i :: 0 <= i < |message| ==> nums[i] == CharToNum(message[i])
    requires |back| == |nums| && forall i :: 0 <= i < |nums| ==> back[i] == ToCChar(nums[i])
    ensures back == message
  {
  }

  /** With generated keys, decrypting the blocks of a message gives the message back when
      every character's value is below the modulus. */
  lemma DecryptEncryptedText(k: Keys, message: seq<CChar>)
    requires KeysValid(k, MaxPrime, MinModulus)
    requires forall i :: 0 <= i < |message| ==> 0 <= Code(message[i]) < k.modulus
    ensures DecryptedText(EncryptedBlocks(message, k.pubExp, k.modulus), k.privExp, k.modulus) == message
  {
    var blocks := EncryptedBlocks(message, k.pubExp, k.modulus);
    forall i | 0 <= i < |message|
      ensures DecryptedText(blocks, k.privExp, k.modulus)[i] == message[i]
    {
      RsaRoundTrip.RoundTrip(k, MaxPrime, MinModulus, Code(message[i]));
      CodeRoundTrip(message[i]);
    }
  }

  /** Without a minimum modulus the smallest keys cannot carry letters: with p = 3 and q = 5
      (n = 15, e = 3, d = 3) the block of 'A' decrypts to the character 5. */
  lemma SmallModulusLosesLetter()
    ensures KeysValid(Keys(15, 3, 3, 3, 5), MaxPrime, MinModulus)
    ensures DecryptedText(EncryptedBlocks("A", 3, 15), 3, 15) == [5 as char]
  {
    assert IsPrime(5) by {
      assert 5 % 2 != 0 && 5 % 3 != 0 && 5 % 4 != 0;
    }
    assert Gcd(3, 8) == 1 by {
      assert Gcd(3, 8) == Gcd(8, 3) == Gcd(3, 2) == Gcd(2, 1) == Gcd(1, 0);
    }
    assert ModPow(65, 3, 15) == 5 by {
      assert Pow(65, 3) == 274625;
    }
    assert ModPow(5, 3, 15) == 5 by {
      assert Pow(5, 3) == 125;
    }
  }

  class Rsa {
    var keys: Keys
    var hasKey: bool
    var storedCipher: seq<int>
    var storedMessage: seq<CChar>

    /** Keys, once present, are keys the generator can produce. */
    predicate Valid()
      reads this
    {
      hasKey ==> KeysValid(keys, MaxPrime, MinModulus)
    }

    constructor()
      ensures Valid() && !hasKey && storedCipher == [] && storedMessage == []
    {
      keys := Keys(0, 0, 0, 0, 0);
      hasKey := false;
      storedCipher := [];
      storedMessage := [];
    }

    /** `generate`: with keys present, the answer 'n' keeps them; otherwise new keys replace them.
        The draws stand for the random indexes; when they run out, nothing changes. */
    method Generate(answer: char, draws: seq<nat>)
      requires Valid()
      modifies this
      ensures Valid()
      ensures old(hasKey) && answer == 'n' ==> unchanged(this)
      ensures var generated := GeneratedKeys(MaxPrime, MinModulus, [draws]);
                !(old(hasKey) && answer == 'n') ==>
                  if generated.Some? then hasKey && keys == generated.value else unchanged(this)
      ensures storedCipher == old(storedCipher) && storedMessage == old(storedMessage)
      ensures old(hasKey) ==> hasKey
    {
      if hasKey && answer == 'n' {
        return;
      }
      var generated := GenKeys(MaxPrime, MinModulus, [draws]);
      StoreKeys(generated);
    }

    /** `keys = genKeys()`: keys that came back replace the current ones; none leaves the object as it was. */
    method StoreKeys(generated: Option<Keys>)
      requires Valid() && (generated.Some? ==> KeysValid(generated.value, MaxPrime, MinModulus))
      modifies this
      ensures Valid()
      ensures generated.Some? ==> hasKey && keys == generated.value
      ensures generated.Some? ==> storedCipher == old(storedCipher) && storedMessage == old(storedMessage)
      ensures generated.None? ==> unchanged(this)
    {
      if generated.Some? {
        keys := generated.value;
        hasKey := true;
      }
    }

    /** `encrypt`: no blocks without keys, otherwise the blocks under the public exponent. */
    method Encrypt(message: seq<CChar>) returns (cipher: seq<int>)
      requires Valid()
      ensures !hasKey ==> cipher == []
      ensures hasKey ==> keys.modulus != 0 && cipher == EncryptedBlocks(message, keys.pubExp, keys.modulus)
    {
      if !hasKey {
        return [];
      }
      cipher := EncryptString(message, keys.pubExp, keys.modulus);
    }

    /** `decrypt`: no text without keys, otherwise the text under the private exponent. */
    method Decrypt(ciphertext: seq<int>) returns (text: seq<CChar>)
      requires Valid()
      ensures !hasKey ==> text == []
      ensures hasKey ==> keys.modulus != 0 && text == DecryptedText(ciphertext, keys.privExp, keys.modulus)
    {
      if !hasKey {
        return [];
      }
      text := DecryptString(ciphertext, keys.privExp, keys.modulus);
    }

    /** `encryptStored`: with keys, remember the message and its blocks; without keys, change nothing. */
    method EncryptStored(message: seq<CChar>)
      requires Valid()
      modifies this
      ensures Valid() && keys == old(keys) && hasKey == old(hasKey)
      ensures !hasKey ==> unchanged(this)
      ensures hasKey ==> storedMessage == message && storedCipher == EncryptedBlocks(message, keys.pubExp, keys.modulus)
    {
      if !hasKey {
        return;
      }
      storedMessage := message;
      storedCipher := Encrypt(message);
    }

    /** `decryptStored`: the text of the stored blocks, or `None` without keys or without stored blocks. */
    method DecryptStored() returns (text: Option<seq<CChar>>)
      requires Valid()
      ensures text.Some? <==> hasKey && storedCipher != []
      ensures text.Some? ==> text.value == DecryptedText(storedCipher, keys.privExp, keys.modulus)
    {
      if !hasKey {
        return None;
      }
      if storedCipher == [] {
        return None;
      }
      var decrypted := Decrypt(storedCipher);
      text := Some(decrypted);
    }
  }
}
