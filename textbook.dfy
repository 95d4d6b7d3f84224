/** The textbook RSA program: a message becomes the two-digit codes of its
    letters and spaces (other characters are dropped), each code is encrypted
    as one block, and decrypted blocks are written out in decimal, padded to
    an even number of digits and cut into two-digit chunks that are looked up
    in the table. */
module Textbook {
  import opened CppInt
  import opened CharTable
  import opened ModExp
  import opened NumberTheory
  import RsaRoundTrip

  /** `encode`: the codes of the upper-cased characters that are in the table, in order. */
  function Encoded(message: seq<CChar>): (blocks: seq<int>)
    ensures |blocks| <= |message|
    ensures forall i :: 0 <= i < |blocks| ==> IsCode(blocks[i])
    decreases |message|
  {
    if message == [] then []
    else
      var u := ToUpper(message[|message| - 1]);
      CharToNumShape(u);
      Encoded(message[..|message| - 1]) + (if u in CharToNum then [CharToNum[u]] else [])
  }

  /** The characters `encode` keeps: the upper-cased letters and spaces, in order. */
  function Kept(message: seq<CChar>): (kept: seq<CChar>)
    ensures forall i :: 0 <= i < |kept| ==> InAlphabet(kept[i])
    decreases |message|
  {
    if message == [] then []
    else
      var u := ToUpper(message[|message| - 1]);
      Kept(message[..|message| - 1]) + (if InAlphabet(u) then [u] else [])
  }

  /** Decoding the codes gives back exactly the kept characters, in order. */
  lemma {:induction false} DecodeEncoded(message: seq<CChar>)
    ensures DecodeString(Encoded(message)) == Kept(message)
    decreases |message|
  {
    if message != [] {
      var init := message[..|message| - 1];
      var u := ToUpper(message[|message| - 1]);
      DecodeEncoded(init);
      CharToNumShape(u);
      var tail := if u in CharToNum then [CharToNum[u]] else [];
      if u in CharToNum {
        assert EncodeChar(u) == CharToNum[u];
        DecodeEncode(u);
      }
      assert Encoded(message) == Encoded(init) + tail;
      assert DecodeString(Encoded(init) + tail) == DecodeString(Encoded(init)) + DecodeString(tail);
    }
  }

  /** `encode` as the loop over the message. */
  method Encode(message: seq<CChar>) returns (blocks: seq<int>)
    ensures blocks == Encoded(message)
  {
    blocks := [];
    var i := 0;
    while i < |message|
      invariant 0 <= i <= |message|
      invariant blocks == Encoded(message[..i])
    {
      var c := ToUpper(message[i]);
      if c in CharToNum {
        var num := CharToNum[c];
        blocks := blocks + [num];
      }
      assert message[..i + 1][..i] == message[..i];
      i := i + 1;
    }
    assert message[..i] == message;
  }

  /** The blocks `encrypt` produces: block^pub modulo mod, one per block. */
  function EncryptedBlocks(blocks: seq<int>, mod: int, pub: int): (enc: seq<int>)
    requires mod != 0
    ensures |enc| == |blocks|
    ensures forall i :: 0 <= i < |blocks| ==> enc[i] == ModPow(blocks[i], pub, mod)
  {
    seq(|blocks|, i requires 0 <= i < |blocks| => ModPow(blocks[i], pub, mod))
  }

  /** The blocks `decrypt` produces: block^priv modulo mod, cut to `int`. */
  function DecryptedBlocks(encBlocks: seq<int>, mod: int, priv: int): (dec: seq<int>)
    requires mod != 0
    ensures |dec| == |encBlocks|
    ensures forall i :: 0 <= i < |encBlocks| ==> dec[i] == ToInt32(ModPow(encBlocks[i], priv, mod))
  {
    seq(|encBlocks|, i requires 0 <= i < |encBlocks| => ToInt32(ModPow(encBlocks[i], priv, mod)))
  }

  /** `encrypt`. */
  method Encrypt(blocks: seq<int>, mod: int, pub: int) returns (encrypted: seq<int>)
    requires mod != 0
    ensures encrypted == EncryptedBlocks(blocks, mod, pub)
  {
    encrypted := [];
    var i := 0;
    while i < |blocks|
      invariant 0 <= i <= |blocks|
      invariant encrypted == EncryptedBlocks(blocks[..i], mod, pub)
    {
      var encBlock;
      ghost var peak;
      encBlock, peak := ModExp.ModExp(blocks[i], pub, mod);
      encrypted := encrypted + [encBlock];
      i := i + 1;
    }
    assert blocks[..i] == blocks;
  }

  /** `decrypt`. */
  method Decrypt(encBlocks: seq<int>, mod: int, priv: int) returns (decrypted: seq<int>)
    requires mod != 0
    ensures decrypted == DecryptedBlocks(encBlocks, mod, priv)
  {
    decrypted := [];
    var i := 0;
    while i < |encBlocks|
      invariant 0 <= i <= |encBlocks|
      invariant decrypted == DecryptedBlocks(encBlocks[..i], mod, priv)
    {
      var decBlock;
      ghost var peak;
      decBlock, peak := ModExp.ModExp(encBlocks[i], priv, mod);
      decrypted := decrypted + [ToInt32(decBlock)];
      i := i + 1;
    }
    assert encBlocks[..i] == encBlocks;
  }

  /** For a key pair (p, q, pub, priv), `decrypt` undoes `encrypt` on blocks below n = p*q
      that fit an `int`. */
  lemma DecryptEncrypted(blocks: seq<int>, p: int, q: int, pub: int, priv: int)
    requires RsaRoundTrip.KeyPair(p, q, pub, priv)
    requires forall i :: 0 <= i < |blocks| ==> 0 <= blocks[i] < p * q && blocks[i] <= Int32Max
    ensures p * q > 0
    ensures DecryptedBlocks(EncryptedBlocks(blocks, p * q, pub), p * q, priv) == blocks
  {
    MulLeMono(p, 1, q);
    forall i | 0 <= i < |blocks|
      ensures DecryptedBlocks(EncryptedBlocks(blocks, p * q, pub), p * q, priv)[i] == blocks[i]
    {
      RsaRoundTrip.KeyPairRoundTrip(p, q, pub, priv, blocks[i]);
    }
  }

  /** The key constants of `main`. */
  const MainP: int := 787
  const MainQ: int := 1567
  const MainModulus: int := 10541
  const MainPub: int := 5
  const MainPriv: int := 317105

  /** The constants of `main` are not one key pair: the modulus is not p*q, and the private
      exponent is the inverse modulo (p-1)*(q-1) of 65537, not of the public exponent 5. */
  lemma MainKeysMismatch()
    ensures MainModulus != MainP * MainQ
    ensures !RsaRoundTrip.KeyPair(MainP, MainQ, MainPub, MainPriv)
    ensures (65537 * MainPriv) % ((MainP - 1) * (MainQ - 1)) == 1
  {
    assert (MainPub * MainPriv) % ((MainP - 1) * (MainQ - 1)) == 354649;
  }

  // ---------------------------------------------------------------------------
  // Splitting decrypted blocks into two-digit chunks

  predicate IsDigit(c: char) {
    '0' <= c <= '9'
  }

  function DigitChar(d: int): (c: char)
    requires 0 <= d < 10
    ensures IsDigit(c) && c as int - '0' as int == d
  {
    ('0' as int + d) as char
  }

  /** The decimal digits of a natural number, most significant first, without leading zeros. */
  function Digits(n: nat): (s: seq<char>)
    ensures |s| >= 1 && forall k :: 0 <= k < |s| ==> IsDigit(s[k])
    ensures n >= 10 ==> s[0] != '0'
  {
    if n < 10 then [DigitChar(n)] else Digits(n / 10) + [DigitChar(n % 10)]
  }

  /** `to_string` of an `int`: a minus sign before the digits of a negative value. */
  function ToString(x: int): (s: seq<char>)
    ensures |s| >= 1
  {
    if x >= 0 then Digits(x) else ['-'] + Digits(-x)
  }

  /** A string of odd length gets a leading "0". */
  function Padded(s: seq<char>): (p: seq<char>)
    ensures |p| % 2 == 0 && (|s| % 2 == 0 ==> p == s) && (|s| % 2 != 0 ==> p == ['0'] + s)
  {
    if |s| % 2 != 0 then ['0'] + s else s
  }

  /** The two-character chunks a padded number can start with: two digits, a minus sign and a digit, or "0-". */
  predicate ChunkOk(a: char, b: char) {
    (IsDigit(a) && IsDigit(b)) || (a == '-' && IsDigit(b)) || (a == '0' && b == '-')
  }

  /** `stoi` of a two-character chunk: it reads an optional sign and then digits up to the first non-digit. */
  function Stoi2(a: char, b: char): int
    requires ChunkOk(a, b)
  {
    if a == '-' then -(b as int - '0' as int)
    else if b == '-' then a as int - '0' as int
    else 10 * (a as int - '0' as int) + (b as int - '0' as int)
  }

  /** Even length, a valid first chunk, and digits from the third character on. */
  predicate Shaped(s: seq<char>) {
    |s| % 2 == 0 && (|s| >= 2 ==> ChunkOk(s[0], s[1])) && forall k :: 2 <= k < |s| ==> IsDigit(s[k])
  }

  lemma PaddedShaped(x: int)
    ensures Shaped(Padded(ToString(x)))
  {
  }

  /** The character a chunk value stands for, if it is in the table. */
  function Lookup(v: int): seq<char> {
    if v in NumToChar then [NumToChar[v]] else []
  }

  /** The characters of the chunks of a shaped string, in order. */
  function ChunksText(s: seq<char>): seq<char>
    requires Shaped(s)
    decreases |s|
  {
    if |s| == 0 then []
    else ChunksText(s[..|s| - 2]) + Lookup(Stoi2(s[|s| - 2], s[|s| - 1]))
  }

  /** The characters one decrypted block contributes. */
  function SplitBlock(block: int): seq<char> {
    PaddedShaped(block);
    ChunksText(Padded(ToString(block)))
  }

  /** The characters all decrypted blocks contribute, block by block. */
  function SplitText(blocks: seq<int>): seq<char>
    decreases |blocks|
  {
    if blocks == [] then [] else SplitText(blocks[..|blocks| - 1]) + SplitBlock(blocks[|blocks| - 1])
  }

  /** The splitter of the decrypt branch: every block to decimal, padded, cut in chunks, chunks looked up. */
  method SplitBlocks(decryptedBlocks: seq<int>) returns (decryptedMessage: seq<char>)
    ensures decryptedMessage == SplitText(decryptedBlocks)
  {
    decryptedMessage := [];
    var j := 0;
    while j < |decryptedBlocks|
      invariant 0 <= j <= |decryptedBlocks|
      invariant decryptedMessage == SplitText(decryptedBlocks[..j])
    {
      var chars := SplitOne(decryptedBlocks[j]);
      decryptedMessage := decryptedMessage + chars;
      assert decryptedBlocks[..j + 1][..j] == decryptedBlocks[..j];
      j := j + 1;
    }
    assert decryptedBlocks[..j] == decryptedBlocks;
  }

  /** The body of the splitter's loop for one block: decimal form, padding, then the chunk loop. */
  method SplitOne(block: int) returns (chars: seq<char>)
    ensures chars == SplitBlock(block)
  {
    var blockString := ToString(block);
    if |blockString| % 2 != 0 {
      blockString := ['0'] + blockString;
    }
    PaddedShaped(block);
    assert blockString == Padded(ToString(block));
    chars := ChunkLoop(blockString);
  }

  /** The inner `for` loop of the splitter: two characters at a time, `stoi`, then the table. */
  method ChunkLoop(blockString: seq<char>) returns (chars: seq<char>)
    requires Shaped(blockString)
    ensures chars == ChunksText(blockString)
  {
    chars := [];
    ChunkPrefix(blockString, 0);
    var i := 0;
    while i < |blockString|
      invariant 0 <= i <= |blockString| && i % 2 == 0
      invariant Shaped(blockString[..i])
      invariant chars == ChunksText(blockString[..i])
    {
      ChunkPrefix(blockString, i);
      var twoDig := Stoi2(blockString[i], blockString[i + 1]);
      if twoDig in NumToChar {
        chars := chars + [NumToChar[twoDig]];
      }
      i := i + 2;
    }
    assert blockString[..i] == blockString;
  }

  /** An even prefix of a shaped string is shaped, and one more chunk extends its characters. */
  lemma ChunkPrefix(s: seq<char>, i: int)
    requires Shaped(s) && 0 <= i <= |s| && i % 2 == 0
    ensures Shaped(s[..i])
    ensures i + 2 <= |s| ==>
      (ChunkOk(s[i], s[i + 1]) && Shaped(s[..i + 2])
       && ChunksText(s[..i + 2]) == ChunksText(s[..i]) + Lookup(Stoi2(s[i], s[i + 1])))
  {
    if i + 2 <= |s| {
      var t := s[..i + 2];
      assert t[..i] == s[..i];
      assert t[i] == s[i] && t[i + 1] == s[i + 1];
    }
  }

  /** A two-digit code on its own splits back into its character. */
  lemma SplitCode(c: int)
    requires IsCode(c)
    ensures SplitBlock(c) == [NumToChar[c]]
  {
    NumToCharShape(c);
    DivModUnique(c, 10, c / 10, c % 10);
    assert 1 <= c / 10 < 10;
    var s := Digits(c);
    assert s == Digits(c / 10) + [DigitChar(c % 10)];
    assert s == [DigitChar(c / 10), DigitChar(c % 10)];
    assert Stoi2(s[0], s[1]) == c;
    assert s[..0] == [];
  }

  /** Appending two digits to a number of at least 10 appends them to its decimal form. */
  lemma DigitsAppend(x: nat, y: int)
    requires x >= 1 && 0 <= y < 100
    ensures Digits(100 * x + y) == Digits(x) + [DigitChar(y / 10), DigitChar(y % 10)]
  {
    var n := 100 * x + y;
    DivModUnique(n, 10, 10 * x + y / 10, y % 10);
    DivModUnique(10 * x + y / 10, 10, x, y / 10);
  }

  /** Two codes packed as 100*a + b split back into both characters, e.g. 3217 into "WH". */
  lemma SplitPair(a: int, b: int)
    requires IsCode(a) && IsCode(b)
    ensures SplitBlock(100 * a + b) == [NumToChar[a], NumToChar[b]]
  {
    NumToCharShape(a);
    NumToCharShape(b);
    DigitsAppend(a, b);
    var s := Digits(100 * a + b);
    var da := Digits(a);
    assert da == [DigitChar(a / 10), DigitChar(a % 10)];
    assert |s| == 4;
    assert s[..2] == da;
    assert s[..2][..0] == [];
    assert Stoi2(s[0], s[1]) == a;
    assert Stoi2(s[2], s[3]) == b;
    assert Padded(ToString(100 * a + b)) == s;
    assert ChunksText(s[..2]) == ChunksText(s[..2][..0]) + Lookup(a);
    assert ChunksText(s) == ChunksText(s[..2]) + Lookup(b);
  }

  /** The example of the source's comment: 3217 splits into "WH". */
  lemma SplitExample()
    ensures SplitBlock(3217) == "WH"
  {
    SplitPair(32, 17);
  }

  /** Splitting the codes of `encode` gives back exactly the kept characters. */
  lemma {:induction false} SplitEncoded(message: seq<CChar>)
    ensures SplitText(Encoded(message)) == Kept(message)
    decreases |message|
  {
    if message != [] {
      var init := message[..|message| - 1];
      var u := ToUpper(message[|message| - 1]);
      SplitEncoded(init);
      CharToNumShape(u);
      if u in CharToNum {
        var c := CharToNum[u];
        var s := Encoded(init) + [c];
        assert Encoded(message) == s;
        assert s[..|s| - 1] == Encoded(init);
        TablesInverse();
        SplitCode(c);
      } else {
        assert Encoded(message) == Encoded(init);
      }
    }
  }

  /** The whole program for a key pair with n = p*q above every code: encode, encrypt,
      decrypt and split give back the upper-cased letters and spaces of the message, in order. */
  lemma EndToEnd(message: seq<CChar>, p: int, q: int, pub: int, priv: int)
    requires RsaRoundTrip.KeyPair(p, q, pub, priv) && p * q > 99
    ensures SplitText(DecryptedBlocks(EncryptedBlocks(Encoded(message), p * q, pub), p * q, priv))
            == Kept(message)
  {
    DecryptEncrypted(Encoded(message), p, q, pub, priv);
    SplitEncoded(message);
  }
}
