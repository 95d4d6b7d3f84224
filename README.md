# Toy RSA in Dafny

This project models the number-theory routines of a small C++ RSA repository and the RSA programs built on them, and proves properties of the model:

- the arithmetic leaves:
  - the division algorithm by repeated subtraction
  - Euclid's algorithm and its extended trace table
  - binary modular exponentiation
  - the odd-only Sieve of Eratosthenes
  - trial division
  - two variants of Fermat factorization
- the big-integer prime pipeline: random odd candidates, the small-prime filter and the Solovay–Strassen rounds
- key generation: two distinct primes from the sieve, the public-exponent rule "65537, else the least odd e ≥ 3 coprime to φ", and the private exponent as the inverse of e modulo φ
- three block encodings:
  - the two-digit character code (A–Z as 10–35, space as 99) with its encrypt/decrypt loops
  - the ASCII code of the second RSA program
  - the textbook program's blocks with its two-digit splitter
- the stand-alone public-key decryption program

C++ semantics are explicit in module `CppInt`:

- truncating `%`
- the `(int)` cast to 32 bits
- `char` as a signed byte: `(long long)c` for a character above 127 is negative, and `(char)x` keeps the low byte
- `toupper`

The GMP calls of the prime pipeline are mathematical functions over `int`. The Jacobi symbol is defined by quadratic reciprocity. Every random draw is an input: a candidate offset, a witness or an index. Loops that retry without bound run over a finite sequence of attempts, and the result is `None` when the attempts run out.

The state of the two RSA programs (keys, whether keys exist, the stored message and ciphertext) is a class whose methods update it in place. Each loop of the source is a method with a loop, proved against a function that states its result.

The RSA class of the second program appears twice: in `RSA1/rsa.h` and in `RSA1/main.cpp`. The two copies are the same, so module `Rsa1` models them once. The table functions `charToNum`, `stringToNum` and `numToString` of `RSA-Personal/main.cpp` are the same as `encodeChar`/`decodeNum` of `RSA-Personal/rsa.h`, so module `CharTable` models them once. `modularInv` is declared at `RSA-Personal/euclidean/euclidean.h:10`; its definition is outside the modelled sources, and `Euclidean.ModularInv` gives it as the least non-negative inverse, computed by the extended algorithm.

On top of the programs, module `RsaRoundTrip` proves RSA correct for the keys the generator produces: Euclid's lemma, the binomial theorem, Fermat's little theorem and the Chinese remainder step for two distinct primes give m^(e·d) ≡ m (mod p·q) whenever e·d ≡ 1 (mod (p−1)(q−1)). Each program then gets its own round trip, including the limits its encoding imposes.

## Model

| member | source | states |
|---|---|---|
| QuotRem.DivisionAlgorithm | quotrem/quotrem.cpp:6-15 | a == q*b + r with r < b and q ≥ 0. For a < b nothing is subtracted: (0, a). Otherwise 0 ≤ r. For a ≥ 0, b > 0 the result is the quotient and remainder of a by b. It requires b > 0 or a < b, the cases in which the loop ends. |
| Euclidean.Euclid | euclidean/euclidean.cpp:8-16 | The result is non-zero, its magnitude is gcd(\|a\|,\|b\|), it divides a and b, and every common divisor divides it. It is exactly gcd(a, b) for a ≥ 0, b > 0, and it is b when b divides a. It requires b ≠ 0 (b == 0 divides by zero). |
| Euclidean.LastRemainderIsGcd | euclidean/euclidean.cpp:10-15 | When B divides A, B is up to sign the gcd of the original pair, and every common divisor of a and b divides it. |
| Euclidean.BezoutStep | euclidean/euclidean.cpp:41-45 | The recurrence x = x'' − q·x', y = y'' − q·y' keeps remainder == a·x + b·y. |
| Euclidean.ExtendedEuclidean | euclidean/euclidean.cpp:18-54 | The first rows are {a,0,1,0} and {b,0,0,1}. Every row but the final one satisfies remainder == a·x + b·y. Each later row satisfies quotient·B + remainder == A with a strictly smaller remainder. For b ≠ 0 the final row has remainder 0 and no coefficients, and the row before it holds the gcd. |
| Euclidean.InverseMod | RSA-Exper/bigInt/bigint.cpp:49-51 | An inverse exists exactly when gcd(\|a\|,\|m\|) == 1. It is then in [0, \|m\|) and m divides a·r − 1. |
| Euclidean.ModularInv | RSA-Personal/rsa.h:83 | For gcd(e, φ) == 1 the private exponent d is in [0, φ) with e·d ≡ 1 (mod φ). |
| ModExp.ModPow | mod_exponentiation/modexp.cpp:5-20 | For exp > 0 the value is below \|mod\| in magnitude and equals base^exp mod mod for base ≥ 0. For exp ≤ 0 it is 1, unreduced. |
| ModExp.ModExp | mod_exponentiation/modexp.cpp:5-20 | The loop computes ModPow(base, exp, mod). Every product it forms is at most (\|mod\|−1)² in magnitude. |
| ModExp.StepPreserves | mod_exponentiation/modexp.cpp:12-18 | One loop step keeps result·base^exp ≡ original base^exp (C++ remainder). |
| ModExp.PowCppRem | mod_exponentiation/modexp.cpp:9 | Reducing the base first does not change the power's remainder. |
| ModExp.ReducedProductBound | mod_exponentiation/modexp.cpp:14-16 | Two reduced residues multiply to at most (\|mod\|−1)². |
| ModExp.NoOverflow | mod_exponentiation/modexp.cpp:14-16 | For 0 < \|mod\| ≤ 3037000500, (\|mod\|−1)² fits in a `long long`. |
| Sieve.Sieve | sieve/sieve.cpp:8-35 | The output is strictly increasing and holds exactly the primes x with 3 ≤ x ≤ n, so it is OddPrimesTo(n). 1 and 2 never appear, and sieve(0..2) is empty. |
| Sieve.OddPrimesTo | sieve/sieve.cpp:8-35 | The list the sieve must produce, built one candidate at a time: strictly increasing, and holding exactly the primes in [3, n]. |
| Sieve.IncreasingUnique | sieve/sieve.cpp:30-34 | Two strictly increasing lists with the same members are equal, so the sieve's output is determined by its members. |
| Sieve.ClearMultiples | sieve/sieve.cpp:17-26 | Clearing p², p²+2p, … ≤ n moves the flags from "sieved below p" to "sieved below p+2". |
| Sieve.SkipStep | sieve/sieve.cpp:20-21 | An already cleared p changes no flag. |
| Sieve.Collect | sieve/sieve.cpp:30-32 | The output is strictly increasing and holds exactly the odd x ≥ 3 whose flag 2j+1 is still set. |
| Sieve.CrossedIffComposite | sieve/sieve.cpp:15-28 | Below p², an odd number is cleared exactly when it is composite. |
| Sieve.SievedArePrimes | sieve/sieve.cpp:30-34 | Once p² > n, the set flags are exactly the odd primes up to n. |
| TrialDivision.IsPrimeTrial | uft/uft.cpp:19-30 | The result holds iff n is prime. |
| TrialDivision.FactorBelowSquare | uft/uft.cpp:24-27 | A divisor f ≥ 2 with f² ≤ n shows that n is not prime. |
| TrialDivision.SmallestFactor | uft/uft.cpp:32-42 | −1 for n ≤ 1 and 2 for every even n. For odd n ≥ 3 it is −1 iff n is prime. Otherwise it is the least divisor ≥ 2, which is prime. |
| TrialDivision.Uft | uft/uft.cpp:6-17 | None iff n < 2 or n is prime. Otherwise it is the first f ≥ 2 with f² ≤ n dividing n; f is prime and no smaller d ≥ 2 divides n. |
| Fermat.FloorSqrt | fermatFactorization/fermat.cpp:22 | r² ≤ m < (r+1)²: `sqrt` truncated, computed exactly. |
| Fermat.CeilSqrt | fermatFactorization/fermat.cpp:13 | (x−1)² < n ≤ x² for n ≥ 1: `ceil(sqrt(n))`, computed exactly. |
| Fermat.RowAt | fermatFactorization/fermat.cpp:28-29 | The row for x is (x, ⌊√(x²−n)⌋). |
| Fermat.FermatOriginal | fermatFactorization/fermat.cpp:8-40 | The rows are OriginalTrace(n). The trace is empty for a perfect square. Otherwise the first row is pushed untested, followed by the tested search from x+1. |
| Fermat.FermatCorrected | RSA-Class/fermatFactorization/fermat.cpp:10-52 | The rows are CorrectedTrace(n). The first row is tested too. |
| Fermat.SearchLoop | RSA-Class/fermatFactorization/fermat.cpp:36-48 | The `while (x <= (n+1)/2)` loop yields SearchFrom(n, start). |
| Fermat.CorrectedStart | RSA-Class/fermatFactorization/fermat.cpp:24-32 | A hit on the first row gives a one-row trace. Otherwise the trace continues with the search from x+1. |
| Fermat.SearchFromShape | RSA-Class/fermatFactorization/fermat.cpp:36-48 | The search records consecutive x. All rows but the last are misses. The last row is a hit or x = (n+1)/2. The search is empty only past (n+1)/2. |
| Fermat.HitFactors | RSA-Class/fermatFactorization/fermat.cpp:42-44 | On a hit, (x+y)·(x−y) == n. |
| Fermat.MiddleIsHit | RSA-Class/fermatFactorization/fermat.cpp:36 | For odd n, x = (n+1)/2 is always a hit with y = (n−1)/2. |
| Fermat.CeilSqrtBelowMiddle | RSA-Class/fermatFactorization/fermat.cpp:15 | For odd n the first x is at most (n+1)/2. |
| Fermat.SearchEndsOnHit | RSA-Class/fermatFactorization/fermat.cpp:36-48 | For odd n, a search starting at or before the middle ends on a hit. |
| Fermat.CorrectedEndsOnHit | RSA-Class/fermatFactorization/fermat.cpp:36-49 | For odd n that is not a perfect square, the corrected trace ends on a hit whose row factors n. So "is prime" is printed only for even n. |
| Fermat.CorrectedTraceEndsOnHit | RSA-Class/fermatFactorization/fermat.cpp:24-48 | For odd n that is not a perfect square, the corrected trace ends on a hit. |
| Fermat.FirstMissEndsOnHit | RSA-Class/fermatFactorization/fermat.cpp:34-48 | When the first row misses, the first row followed by the search from x+1 ends on a hit. |
| Fermat.LastRowFactors | RSA-Class/fermatFactorization/fermat.cpp:42-44 | A trace ending on a hit has a last row (x, y) with (x+y)·(x−y) == n. |
| Fermat.VariantsAgreeWithoutFirstHit | fermatFactorization/fermat.cpp:21-27 | When the first row is not a hit, both variants record the same rows. |
| Fermat.OriginalMissesFirstSplit | fermatFactorization/fermat.cpp:21-32 | With n fixed to 15: ⌈√15⌉ = 4, the untested first row (4, 1) is the split 5·3, yet the trace runs on to (8, 7), the split 15·1. |
| Fermat.LaterRows15 | fermatFactorization/fermat.cpp:25-36 | For n = 15 the tested search from x = 5 records (5, 3), (6, 4), (7, 5) and stops at the hit (8, 7). |
| Fermat.CorrectedFindsFirstSplit | RSA-Class/fermatFactorization/fermat.cpp:24-32 | For n = 15 the corrected trace is [(4, 1)]. |
| BigInt.IsOdd | RSA-Exper/bigInt/bigint.cpp:92-94 | True iff x is not twice any integer. |
| BigInt.IsDivisibleBy | RSA-Exper/bigInt/bigint.cpp:96-98 | True iff x == q·d for some integer q. |
| BigInt.Compare | RSA-Exper/bigInt/bigint.cpp:57-59 | The result has the sign of a − b, in all three directions. |
| BigInt.DigitRange | RSA-Exper/bigInt/bigint.cpp:76-80 | The range handed to the draw is 9·10^(d−1) > 0. |
| BigInt.OddCandidate | RSA-Exper/bigInt/bigint.cpp:76-85 | The candidate is odd, lies in [10^(d−1), 10^d − 1], and is min + draw, or min + draw + 1 when that is even. |
| BigInt.RandOddDigits | RSA-Exper/bigInt/bigint.cpp:70-90 | The step-by-step computation yields OddCandidate(digits, draw). |
| Primality.Jacobi | RSA-Exper/primality/prim.cpp:6-10 | The value is in {−1, 0, 1}. It is 0 exactly when gcd(a, n) ≠ 1, and 1 for n = 1. |
| Primality.JacobiResidue | RSA-Exper/primality/prim.cpp:57-62 | −1 is mapped to n − 1. The residue is in [0, n) and is 0 exactly when gcd(a, n) ≠ 1. |
| Primality.Solovay | RSA-Exper/primality/prim.cpp:12-89 | The loop returns Verdict: true for n = 2, or odd n ≥ 3 with every round passing (gcd 1 and the Jacobi residue equal to a^((n−1)/2) mod n), with witness draw + 2. |
| Primality.Rounds | RSA-Exper/primality/prim.cpp:32-87 | The round loop returns true iff every one of the `iterations` rounds passes; it stops at the first failing round. |
| Primality.Round | RSA-Exper/primality/prim.cpp:33-77 | One round with witness draw + 2 passes exactly when gcd(a, n) == 1 and the Jacobi residue equals a^((n−1)/2) mod n. |
| Primality.VerdictEarlyCases | RSA-Exper/primality/prim.cpp:15-19 | False below 2 and for even n > 2, true for n = 2, and true for odd n ≥ 3 with no rounds. |
| Primality.WitnessRange | RSA-Exper/primality/prim.cpp:33-38 | Every witness lies in [2, n−2], one short of the [2, n−1] of the comment, and rounds need n ≥ 5. |
| Primality.GcdRejectionProvesComposite | RSA-Exper/primality/prim.cpp:42-52 | A rejection in the gcd step is right: n is composite. |
| Primality.PrimePassesGcdStep | RSA-Exper/primality/prim.cpp:42-56 | A prime n never fails the gcd step, and its Jacobi value is never 0. |
| PrimeGen.SmallPrimeFilter | RSA-Exper/primeGen/primeGen.cpp:26-35 | The candidate is discarded iff some small prime p ≤ 47 divides it and is not the candidate itself. |
| PrimeGen.RejectedIsComposite | RSA-Exper/primeGen/primeGen.cpp:26-35 | The filter never discards a prime. |
| PrimeGen.CompositeRejected | RSA-Exper/primeGen/primeGen.cpp:26-35 | Every composite below 53² is discarded. |
| PrimeGen.FilterExactBelow | RSA-Exper/primeGen/primeGen.cpp:26-35 | Below 53² the filter discards exactly the composites. |
| PrimeGen.GenRanOdd | RSA-Exper/primeGen/primeGen.cpp:8-14 | The result is OddCandidate(digits, draw); the parity fix never changes it. |
| PrimeGen.GenPrime | RSA-Exper/primeGen/primeGen.cpp:16-51 | The attempt count rises by one per candidate. A result is the candidate of the first accepted attempt: it passed the filter and the test, and no earlier attempt was accepted. None means the draws ran out with no attempt accepted. |
| PrimeGen.AcceptedCandidate | RSA-Exper/primeGen/primeGen.cpp:22-42 | A generated value has the requested digits, is odd and ≥ 3, and has no small prime factor but itself. Below 53² it is prime. |
| CharTable.CharToNumShape | RSA-Personal/main.cpp:11-18 | The forward table holds exactly A–Z and space, A–Z at 10–35 and space at 99. |
| CharTable.NumToCharShape | RSA-Personal/main.cpp:20-27 | The reverse table holds exactly 10–35 and 99. |
| CharTable.TablesInverse | RSA-Personal/main.cpp:11-27 | The two tables are inverse to each other in both directions. |
| CharTable.EncodeChar | RSA-Personal/rsa.h:128-149 | After `toupper`, letters map to c − 'A' + 10 and space to 99. Every other character falls back to its signed char value. |
| CharTable.DecodeNum | RSA-Personal/rsa.h:151-170 | A code (after the `int` cast) gives its letter or space. Any other number gives its low byte as a char. |
| CharTable.DecodeEncode | RSA-Personal/rsa.h:128-170 | decodeNum(encodeChar(c)) == toupper(c) for letters and space. |
| CharTable.DecodeEncodeFallback | RSA-Personal/rsa.h:145-148 | A character outside the table whose value is not a code comes back unchanged. |
| CharTable.HashDecodesAsZ | RSA-Personal/rsa.h:145-148 | '#' encodes as 35 and decodes as 'Z'. The fallback and the table overlap. |
| CharTable.EncodeString | RSA-Personal/main.cpp:141-149 | One code per character, in order. |
| CharTable.DecodeString | RSA-Personal/main.cpp:151-166 | One character per number, in order. |
| CharTable.DecodeEncodeString | RSA-Personal/main.cpp:141-166 | numToString(stringToNum(s)) == uppercase(s) for s over letters and space. |
| CharTable.StringToNum | RSA-Personal/main.cpp:141-149 | The loop yields EncodeString(message). |
| CharTable.NumToString | RSA-Personal/main.cpp:151-166 | The loop yields DecodeString(nums). |
| KeyGen.ChoosePubExp | RSA-Personal/rsa.h:73-80 | e ≥ 3 and gcd(e, φ) == 1. e is 65537 when 65537 < φ and coprime to φ, otherwise the least odd e ≥ 3 coprime to φ; that is, e == PubExp(φ). |
| KeyGen.LeastOddCoprimeFrom | RSA-Personal/rsa.h:77-79 | Scanning odd numbers from e, with no odd coprime below e, reaches the least odd number ≥ 3 coprime to φ. |
| KeyGen.PubExp | RSA-Personal/rsa.h:73-80 | The exponent the rule picks for φ: at least 3, coprime to φ, and following the rule. |
| KeyGen.PubExpUnique | RSA-Personal/rsa.h:73-80 | The rule leaves no choice: two exponents that both follow it for the same φ are equal. |
| KeyGen.NoOddCoprimeStep | RSA-Personal/rsa.h:78-79 | Passing an odd e that shares a factor with φ keeps "no odd coprime below e". |
| KeyGen.ScanBound | RSA-Personal/rsa.h:78-79 | 1 + 2φ is coprime to φ, so the scan ends. |
| KeyGen.PickDistinct | RSA-Personal/rsa.h:48-56 | The redraw loop returns Picked(count, draws). |
| KeyGen.Picked | RSA-Personal/rsa.h:48-56 | The two indexes are in range and differ. index1 is the first draw; index2 is the first later draw that differs, and every draw between repeated index1. None iff fewer than two draws, or no later draw differs. |
| KeyGen.Chosen | RSA-Personal/rsa.h:48-69 | A chosen attempt has a pick whose primes multiply to more than the minimum, and every earlier attempt picked primes whose product was at most the minimum. None means every attempt reached was too small, or one had no differing draw and stopped the scan. |
| KeyGen.ChosenPrimes | RSA-Personal/rsa.h:43-69 | The primes of the chosen attempt are the sieve's entries at the pick's indexes: distinct primes in [3, maxPrime] with a product above the minimum. None exactly when no attempt is chosen. |
| KeyGen.KeysFor | RSA-Personal/rsa.h:63-85 | The keys for p and q: n = p·q, e by the rule and coprime to φ, and d in [0, φ) with e·d ≡ 1 (mod φ). |
| KeyGen.GeneratedKeys | RSA-Personal/rsa.h:38-86 | Generated keys satisfy KeysValid. |
| KeyGen.GeneratedFromChosen | RSA-Personal/rsa.h:38-86 | There are keys exactly when an attempt is chosen, and their primes are the chosen primes. |
| KeyGen.KeysForValid | RSA-Personal/rsa.h:58-85 | Distinct primes in range whose product clears the minimum give valid keys. |
| KeyGen.DistinctEntries | RSA-Personal/rsa.h:58-59 | Different positions of the strictly increasing prime list hold different primes, so p ≠ q. |
| KeyGen.KeysFromPrimes | RSA-Personal/rsa.h:60-85 | From distinct odd primes it builds valid keys, exactly KeysFor(p, q): n = p·q, φ = (p−1)(q−1), e by the rule and d the inverse of e modulo φ. |
| KeyGen.GenKeys | RSA-Personal/rsa.h:38-86 | The result is GeneratedKeys(maxPrime, minModulus, attempts): the keys of the first attempt whose primes clear the minimum. They satisfy KeysValid: distinct primes in [3, maxPrime], n = p·q above the minimum, e by the rule and coprime to φ, and e·d ≡ 1 (mod φ) with 0 ≤ d < φ. |
| KeyGen.KeysFitLongLong | RSA-Personal/rsa.h:40 | For primes up to 10000, n ≤ 10^8 and every product of modExp fits a `long long`. |
| RsaPersonal.EncryptedBlocks | RSA-Personal/rsa.h:172-187 | One block per character, modExp(encodeChar(c), ex, modu), even for codes ≥ modu. |
| RsaPersonal.DecryptedText | RSA-Personal/rsa.h:189-203 | "" if any block is ≥ n, dropping what was already decoded. Otherwise one decoded character per block. |
| RsaPersonal.EncryptString | RSA-Personal/rsa.h:172-187 | The loop yields EncryptedBlocks. |
| RsaPersonal.DecryptString | RSA-Personal/rsa.h:189-203 | The loop yields DecryptedText, leaving at the first block out of range. |
| RsaPersonal.Rsa.constructor | RSA-Personal/rsa.h:224 | A new object has no keys and nothing stored. |
| RsaPersonal.Rsa.Generate | RSA-Personal/rsa.h:226-251 | Keys stay valid. Answering 'n' with keys present changes nothing. Otherwise the keys become GeneratedKeys over the attempts when it yields keys, and nothing changes when it yields none. Keys never disappear, and the stored message and ciphertext are untouched. |
| RsaPersonal.Rsa.StoreKeys | RSA-Personal/rsa.h:243 | Keys that came back replace the current ones and keep the object valid; no keys leaves the object as it was. |
| RsaPersonal.DecryptEncryptedText | RSA-Personal/rsa.h:172-203 | Under generated keys, decrypting the encryption of a message over letters and space gives the message in upper case. |
| RsaPersonal.Rsa.Encrypt | RSA-Personal/rsa.h:206-212 | No blocks without keys. Otherwise the blocks under the public exponent. |
| RsaPersonal.Rsa.Decrypt | RSA-Personal/rsa.h:214-220 | No text without keys. Otherwise the text under the private exponent. |
| RsaPersonal.Rsa.EncryptStored | RSA-Personal/rsa.h:255-270 | With keys it stores the message and its blocks. Without keys it changes nothing. |
| RsaPersonal.Rsa.DecryptStored | RSA-Personal/rsa.h:272-301 | A text exactly when keys and stored blocks exist: the decryption of the stored blocks. |
| Rsa1.EncryptedBlocks | RSA1/rsa.h:104-115 | One block per character, modExp(signed char value, ex, modu). |
| Rsa1.DecryptedText | RSA1/rsa.h:118-127 | One character per block, the low byte of modExp(block, d, n), with no range check. |
| Rsa1.EncryptString | RSA1/rsa.h:104-115 | The loop yields EncryptedBlocks. |
| Rsa1.DecryptString | RSA1/rsa.h:118-127 | The loop yields DecryptedText. |
| Rsa1.CharToNum | RSA1/main.cpp:403-405 | The value is a signed char whose low byte is the character. |
| Rsa1.StringToNum | RSA1/main.cpp:407-416 | Same length; element i is charToNum(message[i]). |
| Rsa1.NumToString | RSA1/main.cpp:418-427 | Same length; character i is the low byte of nums[i]. |
| Rsa1.NumToStringOfStringToNum | RSA1/main.cpp:403-427 | numToString(stringToNum(s)) == s for every string. |
| Rsa1.Rsa.constructor | RSA1/rsa.h:148 | A new object has no keys and nothing stored. |
| Rsa1.Rsa.Generate | RSA1/rsa.h:150-169 | Keys stay valid. Answering 'n' with keys present changes nothing. Otherwise the keys become GeneratedKeys over the one attempt when it yields keys, and nothing changes when it yields none. Keys never disappear, and the stored fields are untouched. |
| Rsa1.Rsa.StoreKeys | RSA1/rsa.h:161 | Keys that came back replace the current ones and keep the object valid; no keys leaves the object as it was. |
| Rsa1.DecryptEncryptedText | RSA1/rsa.h:104-127 | Under generated keys, a message whose character values all lie in [0, n) decrypts back to itself. |
| Rsa1.SmallModulusLosesLetter | RSA1/rsa.h:37-80 | With no minimum modulus, p = 3 and q = 5 give valid keys (n = 15, e = d = 3), and 'A' (65 ≥ n) encrypts to 5 and decrypts to the character 5. |
| Rsa1.Rsa.Encrypt | RSA1/rsa.h:130-136 | No blocks without keys. Otherwise the blocks under the public exponent. |
| Rsa1.Rsa.Decrypt | RSA1/rsa.h:138-144 | No text without keys. Otherwise the text under the private exponent. |
| Rsa1.Rsa.EncryptStored | RSA1/rsa.h:173-188 | With keys it stores the message and its blocks. Without keys it changes nothing. |
| Rsa1.Rsa.DecryptStored | RSA1/rsa.h:190-207 | A text exactly when keys and stored blocks exist: the decryption of the stored blocks. |
| Textbook.Encoded | main.cpp:156-170 | At most one block per character, every block a code in 10..35 or 99. |
| Textbook.Kept | main.cpp:161-168 | The kept characters are upper-case letters and spaces. |
| Textbook.DecodeEncoded | main.cpp:28-45 | Decoding the blocks of encode gives exactly the kept characters in their order. So encode drops characters but never reorders or alters the ones it keeps. |
| Textbook.Encode | main.cpp:156-170 | The loop yields Encoded(message). |
| Textbook.EncryptedBlocks | main.cpp:173-184 | One block per input block, modExp(block, pub, mod). |
| Textbook.DecryptedBlocks | main.cpp:186-198 | One value per block, modExp(block, priv, mod) cast to `int`. |
| Textbook.Encrypt | main.cpp:173-184 | The loop yields EncryptedBlocks. |
| Textbook.Decrypt | main.cpp:186-198 | The loop yields DecryptedBlocks. |
| Textbook.Digits | main.cpp:126 | The decimal digits of a natural number, with no leading zero. |
| Textbook.SplitBlocks | main.cpp:124-138 | The splitter yields SplitText: for each block, its decimal string (left-padded with "0" to even length) cut into two-character chunks, with the chunks found in the table looked up. |
| Textbook.SplitOne | main.cpp:126-137 | One block yields SplitBlock(block): its decimal string, padded with "0" to even length, cut into looked-up chunks. |
| Textbook.ChunkLoop | main.cpp:132-137 | The chunk loop over an even-length digit string yields ChunksText: for each two-digit chunk in order, its table character if it has one, else nothing. |
| Textbook.SplitCode | main.cpp:124-138 | A block holding one code splits back into that code's character. |
| Textbook.DigitsAppend | main.cpp:126 | Appending two decimal digits to a number appends them to its decimal string. |
| Textbook.SplitPair | main.cpp:124-138 | A block 100·a + b packing two codes splits back into both characters, in order. |
| Textbook.SplitExample | main.cpp:125 | 3217 splits into "WH". |
| Textbook.DecryptEncrypted | main.cpp:173-198 | For a key pair on distinct primes p and q, decrypting the encryption of blocks in [0, p·q) that fit an `int` gives the blocks back. |
| Textbook.SplitEncoded | main.cpp:124-170 | Splitting the blocks of encode gives exactly the kept characters. |
| Textbook.EndToEnd | main.cpp:124-198 | For a key pair with p·q > 99, encode, encrypt, decrypt and split give back exactly the kept characters of the message. |
| Textbook.MainKeysMismatch | main.cpp:55-63 | The hard-coded modulus is not p·q, and (5, 317105) is not a key pair for p = 787, q = 1567; 317105 is the inverse of 65537 modulo φ. |
| RsaRoundTrip.KeyPairRoundTrip | mod_exponentiation/modexp.cpp:5-20 | For distinct primes p, q and e·d ≡ 1 (mod (p−1)(q−1)), decrypting with d what e encrypted gives back every v in [0, p·q). |
| RsaRoundTrip.ValidKeysArePair | RSA-Personal/rsa.h:58-85 | Generated keys are a key pair on their two primes, with modulus p·q. |
| RsaRoundTrip.RoundTrip | RSA-Personal/rsa.h:172-203 | Under generated keys, modExp(modExp(v, e, n), d, n) == v for every v in [0, n). |
| RsaRoundTrip.ClassicExample | main.cpp:173-198 | With p = 61, q = 53, e = 17 and d = 2753, the block 65 encrypts to 2790 and decrypts back to 65. |
| RsaRoundTrip.FermatLittle | mod_exponentiation/modexp.cpp:5-20 | For a prime p, p divides a^p − a, the fact the round trip rests on. |
| RsaRoundTrip.TwoPrimesDivide | RSA-Personal/rsa.h:58-64 | A number divisible by two distinct primes is divisible by their product n = p·q. |
| DecryptPub7.Recovered | RSA-Personal/decrypt_pub7.cpp:18-33 | At most one character per block, in block order, every character a letter or space. |
| DecryptPub7.Decrypt | RSA-Personal/decrypt_pub7.cpp:18-33 | The loop yields Recovered(blocks, e, n). |
| DecryptPub7.AllCodesKept | RSA-Personal/decrypt_pub7.cpp:22-28 | When every block decrypts to a code, nothing is dropped: one decoded character per block. |
| DecryptPub7.NoCodesNothingKept | RSA-Personal/decrypt_pub7.cpp:26-28 | Plain values outside the table are silently dropped. |
| DecryptPub7.RecoveredAppend | RSA-Personal/decrypt_pub7.cpp:22-29 | Decrypting a concatenation decrypts its parts one after the other. |
| DecryptPub7.SignatureRecoversNothing | RSA-Personal/decrypt_pub7.cpp:38-52 | With e = 7 and n = 13321 the signature blocks decrypt to 3965, 7081, 11034, 320 and 4382. None is a code, so the printed signature is empty. |
| DecryptPub7.MessageRecoversNothing | RSA-Personal/decrypt_pub7.cpp:36-49 | With the same key no message block decrypts to a code, so the printed message is empty too. |

## Left out

- Menus, console output, screen clearing and the `cout` tracing inside the algorithms: these are I/O.
- The key files (`jsonLoadKeys`, `saveKeysToFile`, `importKeys`, `exportKeys`, `listKeys`, `deleteKeys`): file I/O through a JSON library.
- `importCiphertext` (`RSA-Personal/rsa.h:369-395`): console input, parsed as space-separated numbers with a `stringstream`. In `DecryptStored`, "no stored blocks" stands for the branch that offers this import.
- Random sources (`random_device`, `mt19937`, the GMP random state): every draw is an input value. A `uniform_int_distribution(0, size − 1)` draw is an arbitrary natural number reduced modulo the size.
- The unbounded retries (the recursive `genKeys`, `while (!found)`, the redraw of `index2`) run over the finite sequence of draws supplied, and give `None` when it runs out. An endless run of unlucky draws is not modelled.
- 64-bit overflow in `modExp` and in p·q: integers are unbounded. ModExp.ModExp reports the largest product it forms, and KeyGen.KeysFitLongLong shows that the keys of both programs stay within a `long long`.
- Floating point: `sqrt`, `pow` and `ceil` in the Fermat and trial-division loops are exact integer square roots and f·f ≤ n comparisons, with no `double` rounding.
- Primality.Solovay: it is not proved that a prime passes every round. The Jacobi symbol is defined here by quadratic reciprocity, and connecting it to a^((n−1)/2) mod n needs Euler's criterion and the multiplicativity of the symbol, which are not developed in this model. Only the gcd step is proved harmless for primes (Primality.PrimePassesGcdStep).
- Primality.Solovay: with rounds to run, n = 3 leaves no draw in the empty range [0, n − 4]. That call has no valid draws, so the model cannot express it; odd n ≥ 5 and every n without rounds are covered.
- PrimeGen.AcceptedCandidate: primality of a generated value is proved only below 53², where the filter alone decides it; above that it rests on the probabilistic test.
- `RSA-Exper/main.cpp`: resource handling for GMP values, and it is incomplete. Its key arithmetic is the same as `genKeys`.
- `unique_factorization/uft.cpp` prints what `uft/uft.cpp` computes. `verify_submission.py` is a script over fixed data.
- The hard-coded keys of `main.cpp` (lines 55-63) are data, not logic; the textbook encrypt and decrypt take any key. Textbook.MainKeysMismatch records that those constants are not one key pair, so the round-trip theorem does not cover them; Textbook.EndToEnd covers every key pair instead.
- Euclidean.ModularInv: `modularInv` is declared at `RSA-Personal/euclidean/euclidean.h:10` but defined outside the modelled sources. The model assumes it returns the least non-negative inverse, in [0, φ). A negative result would skip the loop at `mod_exponentiation/modexp.cpp:12`, so every decryption would return 1.
- A message block that does not fit an `int` in the textbook program: blocks there are `int`, and the model takes them as mathematical integers.

## Findings

| source | as written | input that shows it | evidently intended | confidence | as-written member | corrected member |
|---|---|---|---|---|---|---|
| fermatFactorization/fermat.cpp:21-27 | The first row (x = ⌈√n⌉) is pushed without testing whether x² − n is a square, so a factorization at the first x is skipped. | n = 15: x = 4 gives 16 − 15 = 1² (15 = 5·3). The trace runs on to x = 8 and reports 15 = 15·1. | Test the first row like the others, as `RSA-Class/fermatFactorization/fermat.cpp:24-32` does. | high (proved; not executed) | Fermat.OriginalMissesFirstSplit | Fermat.CorrectedFindsFirstSplit |
