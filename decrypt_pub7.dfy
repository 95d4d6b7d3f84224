/** The stand-alone verifier that decrypts blocks with a public key: every block
    is raised to e modulo n, and the result, cut to `int`, is kept as a
    character only when it is one of the two-digit codes. */
module DecryptPub7 {
  import opened CppInt
  import opened CharTable
  import opened ModExp
  import opened NumberTheory

  /** The ciphertext of the message the program decrypts. */
  const EncryptedMsg: seq<int> := [638, 4431, 7686, 7686, 9250, 3985, 4431, 5720, 4431, 4489, 11639, 11311, 5886, 6598, 7211, 4431, 6607, 5720, 9250, 4489, 5720, 193, 7686, 5720, 7211, 11910, 193, 7686]
  /** The ciphertext of the signature the program decrypts. */
  const EncryptedSig: seq<int> := [6835, 193, 4489, 11639, 4431]
  /** The public key the program decrypts with. */
  const PubKey: int := 7
  /** The modulus of that key. */
  const Mod: int := 13321

  /** The character a decrypted block stands for, if its `int` value is a code. */
  function Lookup(plain: int): seq<CChar> {
    var key := ToInt32(plain);
    if key in NumToChar then [NumToChar[key]] else []
  }

  /** The message `decrypt` builds: the characters of the blocks whose plain value is a code, in order. */
  function Recovered(blocks: seq<int>, e: int, n: int): (message: seq<CChar>)
    requires n != 0
    ensures |message| <= |blocks|
    ensures forall i :: 0 <= i < |message| ==> InAlphabet(message[i])
    decreases |blocks|
  {
    if blocks == [] then []
    else
      var plain := ModPow(blocks[|blocks| - 1], e, n);
      NumToCharShape(ToInt32(plain));
      Recovered(blocks[..|blocks| - 1], e, n) + Lookup(plain)
  }

  /** `decrypt`. */
  method Decrypt(blocks: seq<int>, e: int, n: int) returns (message: seq<CChar>)
    requires n != 0
    ensures message == Recovered(blocks, e, n)
  {
    message := [];
    var i := 0;
    while i < |blocks|
      invariant 0 <= i <= |blocks|
      invariant message == Recovered(blocks[..i], e, n)
    {
      var plain;
      ghost var peak;
      plain, peak := ModExp.ModExp(blocks[i], e, n);
      var key := ToInt32(plain);
      if key in NumToChar {
        message := message + [NumToChar[key]];
      }
      assert blocks[..i + 1][..i] == blocks[..i];
      i := i + 1;
    }
    assert blocks[..i] == blocks;
  }

  /** The plain values of the blocks. */
  function Plains(blocks: seq<int>, e: int, n: int): (plains: seq<int>)
    requires n != 0
    ensures |plains| == |blocks| && forall i :: 0 <= i < |blocks| ==> plains[i] == ModPow(blocks[i], e, n)
  {
    seq(|blocks|, i requires 0 <= i < |blocks| => ModPow(blocks[i], e, n))
  }

  /** When every block decrypts to a code, nothing is dropped: the message is the
      table decoding of the plain values, one character per block. */
  lemma {:induction false} AllCodesKept(blocks: seq<int>, e: int, n: int)
    requires n != 0
    requires forall i :: 0 <= i < |blocks| ==> IsCode(ToInt32(ModPow(blocks[i], e, n)))
    ensures Recovered(blocks, e, n) == DecodeString(Plains(blocks, e, n))
    decreases |blocks|
  {
    if blocks != [] {
      var init := blocks[..|blocks| - 1];
      var plain := ModPow(blocks[|blocks| - 1], e, n);
      AllCodesKept(init, e, n);
      NumToCharShape(ToInt32(plain));
      assert Lookup(plain) == [DecodeNum(plain)];
      assert Plains(blocks, e, n) == Plains(init, e, n) + [plain];
      assert DecodeString(Plains(init, e, n) + [plain]) == DecodeString(Plains(init, e, n)) + [DecodeNum(plain)];
    }
  }

  /** When no block decrypts to a code, the message is empty. */
  lemma {:induction false} NoCodesNothingKept(blocks: seq<int>, e: int, n: int)
    requires n != 0
    requires forall i :: 0 <= i < |blocks| ==> !IsCode(ToInt32(ModPow(blocks[i], e, n)))
    ensures Recovered(blocks, e, n) == []
    decreases |blocks|
  {
    if blocks != [] {
      NoCodesNothingKept(blocks[..|blocks| - 1], e, n);
      NumToCharShape(ToInt32(ModPow(blocks[|blocks| - 1], e, n)));
    }
  }

  /** The signature blocks of the program, decrypted with e = 7 and n = 13321, give
      the values 3965, 7081, 11034, 320 and 4382: none is a code, so the message is empty. */
  lemma SignatureRecoversNothing()
    ensures Plains(EncryptedSig, PubKey, Mod) == [3965, 7081, 11034, 320, 4382]
    ensures Recovered(EncryptedSig, PubKey, Mod) == []
  {
    assert ModPow(6835, 7, 13321) == 3965 by {
      assert Pow(6835, 7) == 696898664604830607283046875;
    }
    assert ModPow(193, 7, 13321) == 7081 by {
      assert Pow(193, 7) == 9974730326005057;
    }
    assert ModPow(4489, 7, 13321) == 11034 by {
      assert Pow(4489, 7) == 36732225162896895721934329;
    }
    assert ModPow(11639, 7, 13321) == 320 by {
      assert Pow(11639, 7) == 28934079960585242605550639879;
    }
    assert ModPow(4431, 7, 13321) == 4382 by {
      assert Pow(4431, 7) == 33536076389754496496548911;
    }
    NoCodesNothingKept(EncryptedSig, 7, 13321);
  }

  /** Decrypting a concatenation decrypts the two parts one after the other. */
  lemma {:induction false} RecoveredAppend(a: seq<int>, b: seq<int>, e: int, n: int)
    requires n != 0
    ensures Recovered(a + b, e, n) == Recovered(a, e, n) + Recovered(b, e, n)
    decreases |b|
  {
    if b != [] {
      var init := b[..|b| - 1];
      RecoveredAppend(a, init, e, n);
      assert (a + b)[..|a + b| - 1] == a + init;
    } else {
      assert a + b == a;
    }
  }

  /** The message blocks of the program, decrypted with e = 7 and n = 13321: no
      plain value is a code, so the message is empty as well. */
  lemma MessageRecoversNothing()
    ensures Recovered(EncryptedMsg, PubKey, Mod) == []
  {
    MessagePlainsA();
    MessagePlainsB();
    MessagePlainsC();
    forall i | 0 <= i < |EncryptedMsg|
      ensures !IsCode(ToInt32(ModPow(EncryptedMsg[i], 7, 13321)))
    {
      assert EncryptedMsg[i] in EncryptedMsg;
    }
    NoCodesNothingKept(EncryptedMsg, 7, 13321);
  }

  /** Plain values of distinct message blocks (638, 4431, 7686, 9250, 3985); none is a code. */
  lemma MessagePlainsA()
    ensures !IsCode(ToInt32(ModPow(638, 7, 13321)))
    ensures !IsCode(ToInt32(ModPow(4431, 7, 13321)))
    ensures !IsCode(ToInt32(ModPow(7686, 7, 13321)))
    ensures !IsCode(ToInt32(ModPow(9250, 7, 13321)))
    ensures !IsCode(ToInt32(ModPow(3985, 7, 13321)))
  {
    assert ModPow(638, 7, 13321) == 4873 by {
      assert Pow(638, 7) == 43027365038378475392;
    }
    assert ModPow(4431, 7, 13321) == 4382 by {
      assert Pow(4431, 7) == 33536076389754496496548911;
    }
    assert ModPow(7686, 7, 13321) == 8120 by {
      assert Pow(7686, 7) == 1584538007675841132932416896;
    }
    assert ModPow(9250, 7, 13321) == 8018 by {
      assert Pow(9250, 7) == 5794181953918457031250000000;
    }
    assert ModPow(3985, 7, 13321) == 9018 by {
      assert Pow(3985, 7) == 15958728273145168766640625;
    }
  }

  /** Plain values of distinct message blocks (5720, 4489, 11639, 11311, 5886); none is a code. */
  lemma MessagePlainsB()
    ensures !IsCode(ToInt32(ModPow(5720, 7, 13321)))
    ensures !IsCode(ToInt32(ModPow(4489, 7, 13321)))
    ensures !IsCode(ToInt32(ModPow(11639, 7, 13321)))
    ensures !IsCode(ToInt32(ModPow(11311, 7, 13321)))
    ensures !IsCode(ToInt32(ModPow(5886, 7, 13321)))
  {
    assert ModPow(5720, 7, 13321) == 4257 by {
      assert Pow(5720, 7) == 200342090674242682880000000;
    }
    assert ModPow(4489, 7, 13321) == 11034 by {
      assert Pow(4489, 7) == 36732225162896895721934329;
    }
    assert ModPow(11639, 7, 13321) == 320 by {
      assert Pow(11639, 7) == 28934079960585242605550639879;
    }
    assert ModPow(11311, 7, 13321) == 1791 by {
      assert Pow(11311, 7) == 23686834012507607269490952271;
    }
    assert ModPow(5886, 7, 13321) == 7734 by {
      assert Pow(5886, 7) == 244760766369845340382183296;
    }
  }

  /** Plain values of distinct message blocks (6598, 7211, 6607, 193, 11910); none is a code. */
  lemma MessagePlainsC()
    ensures !IsCode(ToInt32(ModPow(6598, 7, 13321)))
    ensures !IsCode(ToInt32(ModPow(7211, 7, 13321)))
    ensures !IsCode(ToInt32(ModPow(6607, 7, 13321)))
    ensures !IsCode(ToInt32(ModPow(193, 7, 13321)))
    ensures !IsCode(ToInt32(ModPow(11910, 7, 13321)))
  {
    assert ModPow(6598, 7, 13321) == 5625 by {
      assert Pow(6598, 7) == 544359966233608200490636672;
    }
    assert ModPow(7211, 7, 13321) == 5552 by {
      assert Pow(7211, 7) == 1013837775420936050746801571;
    }
    assert ModPow(6607, 7, 13321) == 237 by {
      assert Pow(6607, 7) == 549579022961936714167527343;
    }
    assert ModPow(193, 7, 13321) == 7081 by {
      assert Pow(193, 7) == 9974730326005057;
    }
    assert ModPow(11910, 7, 13321) == 4259 by {
      assert Pow(11910, 7) == 33992439274440975614310000000;
    }
  }
}
