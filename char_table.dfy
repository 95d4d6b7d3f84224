/** The two-digit character code of the RSA programs: 'A'..'Z' are 10..35 and
    the space is 99. Letters are upper-cased before lookup; a character outside
    the table is sent as its signed `char` value, and a number outside the table
    comes back as the `char` with its low byte. */
module CharTable {
  import opened CppInt

  /** `charToNumMap`: the upper-case letters 'A'..'Z' to 10..35 and the space to 99. */
  const CharToNum: map<char, int> :=
    map c: char | 'A' <= c <= 'Z' || c == ' ' :: if c == ' ' then 99 else c as int - 'A' as int + 10

  /** `numToCharMap`: the reverse table, 10..35 to 'A'..'Z' and 99 to the space. */
  const NumToChar: map<int, char> :=
    map n: int | 10 <= n <= 99 && (n <= 35 || n == 99) :: if n == 99 then ' ' else (n - 10 + 'A' as int) as char

  /** The characters of the table: the upper-case letters and the space. */
  predicate InAlphabet(c: char) {
    'A' <= c <= 'Z' || c == ' '
  }

  /** The codes of the table: 10..35 and 99. */
  predicate IsCode(n: int) {
    10 <= n <= 35 || n == 99
  }

  /** The forward table holds exactly the alphabet, letter k of the alphabet at 10 + k. */
  lemma CharToNumShape(c: char)
    ensures c in CharToNum <==> InAlphabet(c)
    ensures 'A' <= c <= 'Z' ==> CharToNum[c] == c as int - 'A' as int + 10
    ensures c == ' ' ==> CharToNum[c] == 99
  {
  }

  /** The reverse table holds exactly the codes, code 10 + k at letter k. */
  lemma NumToCharShape(n: int)
    ensures n in NumToChar <==> IsCode(n)
    ensures 10 <= n <= 35 ==> NumToChar[n] as int == n - 10 + 'A' as int
    ensures n == 99 ==> NumToChar[n] == ' '
  {
  }

  /** The two tables are inverse to each other. */
  lemma TablesInverse()
    ensures forall c :: c in CharToNum ==> CharToNum[c] in NumToChar && NumToChar[CharToNum[c]] == c
    ensures forall n :: n in NumToChar ==> NumToChar[n] in CharToNum && CharToNum[NumToChar[n]] == n
  {
    forall c | c in CharToNum
      ensures CharToNum[c] in NumToChar && NumToChar[CharToNum[c]] == c
    {
      CharToNumShape(c);
      NumToCharShape(CharToNum[c]);
    }
    forall n | n in NumToChar
      ensures NumToChar[n] in CharToNum && CharToNum[NumToChar[n]] == n
    {
      NumToCharShape(n);
      CharToNumShape(NumToChar[n]);
    }
  }

  /** `encodeChar` / `charToNum`: the table code of the upper-cased character, else the character's own value. */
  function EncodeChar(c: CChar): (r: int)
    ensures InAlphabet(ToUpper(c)) ==> IsCode(r)
    ensures 'A' <= ToUpper(c) <= 'Z' ==> r == ToUpper(c) as int - 'A' as int + 10
    ensures ToUpper(c) == ' ' ==> r == 99
    ensures !InAlphabet(ToUpper(c)) ==> r == Code(c) && -128 <= r < 128
  {
    var upper := ToUpper(c);
    CharToNumShape(upper);
    if upper in CharToNum then CharToNum[upper] else Code(c)
  }

  /** `decodeNum`: the table character of the number cut to `int`, else the number's low byte. */
  function DecodeNum(num: int): (c: CChar)
    ensures IsCode(ToInt32(num)) ==> InAlphabet(c)
    ensures 10 <= ToInt32(num) <= 35 ==> c as int == ToInt32(num) - 10 + 'A' as int
    ensures ToInt32(num) == 99 ==> c == ' '
    ensures !IsCode(ToInt32(num)) ==> c == ToCChar(num)
  {
    var key := ToInt32(num);
    NumToCharShape(key);
    if key in NumToChar then NumToChar[key] else ToCChar(num)
  }

  /** Decoding an encoded letter or space gives its upper-case form. */
  lemma DecodeEncode(c: CChar)
    requires InAlphabet(ToUpper(c))
    ensures DecodeNum(EncodeChar(c)) == ToUpper(c)
  {
  }

  /** A character outside the table whose value is not itself a code survives the round trip. */
  lemma DecodeEncodeFallback(c: CChar)
    requires !InAlphabet(ToUpper(c)) && !IsCode(Code(c))
    ensures DecodeNum(EncodeChar(c)) == c
  {
    CodeRoundTrip(c);
  }

  /** A character outside the table whose value is a code comes back as a letter: '#' (35) decodes as 'Z'. */
  lemma HashDecodesAsZ()
    ensures EncodeChar('#') == 35 && DecodeNum(EncodeChar('#')) == 'Z'
  {
  }

  /** Every character of a string, upper-cased. */
  function UpperString(s: seq<CChar>): (u: seq<CChar>)
    ensures |u| == |s| && forall i :: 0 <= i < |s| ==> u[i] == ToUpper(s[i])
  {
    seq(|s|, i requires 0 <= i < |s| => ToUpper(s[i]))
  }

  /** The codes of a string, character by character. */
  function EncodeString(s: seq<CChar>): (nums: seq<int>)
    ensures |nums| == |s| && forall i :: 0 <= i < |s| ==> nums[i] == EncodeChar(s[i])
  {
    seq(|s|, i requires 0 <= i < |s| => EncodeChar(s[i]))
  }

  /** The characters of a list of numbers, number by number. */
  function DecodeString(nums: seq<int>): (s: seq<CChar>)
    ensures |s| == |nums| && forall i :: 0 <= i < |nums| ==> s[i] == DecodeNum(nums[i])
  {
    seq(|nums|, i requires 0 <= i < |nums| => DecodeNum(nums[i]))
  }

  /** Over letters and spaces, decoding the encoded string gives the upper-cased string. */
  lemma DecodeEncodeString(s: seq<CChar>)
    requires forall i :: 0 <= i < |s| ==> InAlphabet(ToUpper(s[i]))
    ensures DecodeString(EncodeString(s)) == UpperString(s)
  {
    forall i | 0 <= i < |s|
      ensures DecodeString(EncodeString(s))[i] == UpperString(s)[i]
    {
      DecodeEncode(s[i]);
    }
  }

  /** `stringToNum`: one code per character, in order. */
  method StringToNum(message: seq<CChar>) returns (nums: seq<int>)
    ensures nums == EncodeString(message)
  {
    nums := [];
    var i := 0;
    while i < |message|
      invariant 0 <= i <= |message|
      invariant nums == EncodeString(message[..i])
    {
      nums := nums + [EncodeChar(message[i])];
      i := i + 1;
    }
    assert message[..i] == message;
  }

  /** `numToString`: one character per number, in order. */
  method NumToString(nums: seq<int>) returns (result: seq<CChar>)
    ensures result == DecodeString(nums)
  {
    result := [];
    var i := 0;
    while i < |nums|
      invariant 0 <= i <= |nums|
      invariant result == DecodeString(nums[..i])
    {
      result := result + [DecodeNum(nums[i])];
      i := i + 1;
    }
    assert nums[..i] == nums;
  }
}
