# Verified models of Boa's benchmark programs and binding scopes

Boa keeps several complete programs as benchmarks: big-number arithmetic with RSA, a theorem
prover, a chart parser, a self-adjusting tree and an operating-system scheduler. Its own syntax
library keeps track of the bindings of each scope. This project models the algorithms of these
programs in Dafny and proves what they are for. `dafny verify dfyconfig.toml` checks it.

Objects with mutable fields are classes, loops are loops, and nodes are linked by mutable
references. Each method is tied to a function or a mathematical relation, and lemmas say
what that means.

| Files | Component |
|---|---|
| Arith, Digits, Bits | congruences, powers, words of 28 bits, bits |
| BigInteger, Shifts, Accumulate | arithmetic on signed numbers in words |
| Division, DivRem | long division |
| Gcd, Radix | binary gcd; printing and reading |
| Montgomery, Barrett, Reducers, ModPow | modular reduction and exponentiation |
| BoyerTerms, BoyerUnify, BoyerRewrite, BoyerTautology, Boyer | the theorem prover |
| EarleyGrammar, Earley | the chart parser |
| Lists | the list test of the Scheme runtime |
| SplayShape, Splay, SplayRounds | the splay tree and its benchmark |
| Richards, RichardsRun | the scheduler and its benchmark |
| ScopeTree, Scope | scopes, bindings, escape marks |

## The main results

- **Big numbers.** A number is `Sum words[i] * B^i + s * B^t`. Subtraction and shifts are exact when the
  result overwrites an operand. Squaring needs one carry of 1 in each row. Montgomery and Barrett
  reduction are both proved from the words up, and `exp` is proved once for every reducer, `modPow`
  for the three modular ones. The gcd is the greatest common divisor for all signs. Printing and reading
  are inverse.
- **The prover.** If the test accepts, the conjecture is not false in any interpretation in which the
  lemmas hold. Rewriting is exactly the big-step relation in which the first lemma that matches fires, with
  its count and its failures. Matching and the tautology checker are also complete, the latter for
  truth tables on if-normal terms, which is what rewriting produces, and for the meaning of terms on
  those in which no atom occurs inside another.
- **The parser.** Everything the chart records is derived, nothing that follows from it is missing, and no
  origin is entered twice. The parser accepts exactly the words of the language, for all grammars, with
  empty and cyclic rules.
- **The splay tree.** Splaying keeps the sequence of nodes in order; the operations act on that sequence
  like a sorted map. A round of the benchmark exchanges the predecessor of the new key for it, so that over
  all rounds the i-th least key never gets smaller.
- **The scheduler.** No block runs while one of higher priority is ready. Packets are neither lost nor
  duplicated. The loop ends, by a measure on counters, packets on their way and suspended blocks. The idle task
  releases the devices in the order of its shift register, both of them again and again.
- **Scopes.** After any sequence of operations a binding escapes exactly if there is a reason in that
  sequence.

## Where the code does less than it says

- `compareTo` (crypto.js:593-604) orders two negative numbers of different lengths the wrong way
  round: `BigIntegers.BigInteger.CompareTo` says exactly when, `BigIntegers.LengthsMislead` gives two.
- `am1` (crypto.js:355-372) promises to work for a carry below three times the base. It rounds when the
  sum is odd and above 2^53: `Accumulate.Am1` gives the exact condition, `Accumulate.CarryTooLarge` an input.
- `am2` (crypto.js:374-376) says its values stay below 2^31. Its cross products exceed that for some words
  exactly if the halves of x add up to more than 65538, its low part for every x but 0 and 2^30:
  `Accumulate.CrossWithinBound`, `Accumulate.LowPartWithinBound`. Both stay below 2^32, so that the
  result is still right, because the shifts are unsigned.
- `exp` (crypto.js:975-989), and `pow` with it, returns 1 for exponents outside 1 .. 2^32 - 1: `ModPow.Power`.
- `modPow` (crypto.js:1565-1641) returns 1 for exponent 0 and modulus 1: `ModPow.ModPow`.
- `dlShiftTo` (crypto.js:640-648) leaves a zero that is not clamped when it shifts zero, and only then:
  `BigIntegers.BigInteger.DLShiftTo`.
- `tautologyp` (earley-boyer.js:4130-4160) refuses some terms that are true under every valuation but not
  if-normal, and some if-normal ones that no interpretation makes false but that have atoms inside
  others: `BoyerTautology.NotCompleteOffNormalForm`, `BoyerTautology.NotCompleteForMeaning`.
- Scope ids (scope.rs:548-555) are unique for up to 2^32 scopes. Beyond, they repeat in builds that
  wrap around: `ScopeTrees.UniqueIds`; with overflow checks the program panics instead.

## Model

| member | source | states |
|---|---|---|
| BigIntegers.BigInteger.Am3 | benches/scripts/v8-benches/crypto.js:394-408 | the words changed, plus the carry out times B^n, equal the old words plus x times the words of this plus the carry in; nothing else changes; with x < 2B and a carry below 3B the carry stays below 3B, and below B when x and the first carry are; in place as well |
| BigIntegers.BigInteger.DMultiply | benches/scripts/v8-benches/crypto.js:1432-1437 | multiplies by a single word in place |
| BigIntegers.SplitProduct | benches/scripts/v8-benches/crypto.js:392-408 | the two halves of a 28-bit word: every intermediate value is below 2^31, and together they give x * d + w + c exactly |
| Accumulate.Am2 | benches/scripts/v8-benches/crypto.js:374-390 | the same equation and carry bound for words of 30 bits; in place as well |
| Accumulate.Halves30 | benches/scripts/v8-benches/crypto.js:374-390 | the two values am2 applies bit operations to are below 2^32, which its unsigned shifts need, and give x * d + w + c exactly |
| Accumulate.CrossWithinBound | benches/scripts/v8-benches/crypto.js:374-384 | the comment's bound of 2^31 holds for the cross products of x with every word if and only if the halves of x add up to at most 65538, in particular for a single word |
| Accumulate.LowPartWithinBound | benches/scripts/v8-benches/crypto.js:374-386 | for the low part that bound holds if and only if x is 0 or 2^30 |
| Accumulate.Am4 | benches/scripts/v8-benches/crypto.js:410-426 | the same equation and carry bound for words of 26 bits; in place as well |
| Accumulate.Halves26 | benches/scripts/v8-benches/crypto.js:410-426 | all values am4 computes with stay below 2^29 |
| Accumulate.Am1 | benches/scripts/v8-benches/crypto.js:355-372 | with sums as doubles, the equation holds if and only if the first sum is at most 2^53 or even; the words stay below the base and the carry below 3B |
| Accumulate.Product26 | benches/scripts/v8-benches/crypto.js:360-369 | a carry of at most 2B always keeps the sum exact, so does the product without the carry |
| Accumulate.CarryTooLarge | benches/scripts/v8-benches/crypto.js:355-369 | the documented bound c < 3 * dvalue admits an input for which am1 is off |
| BigIntegers.BigInteger.Clamp | benches/scripts/v8-benches/crypto.js:538-542 | dropping words equal to the sign keeps the value, leaves no such word at the top, and drops no other word |
| BigIntegers.BigInteger.DLShiftTo | benches/scripts/v8-benches/crypto.js:640-648 | multiplies the value by B^n, also in place; not clamped exactly if zero is shifted by at least one word |
| BigIntegers.BigInteger.DRShiftTo | benches/scripts/v8-benches/crypto.js:651-657 | divides the value by B^n rounding down, also in place |
| BigIntegers.BigInteger.SubTo | benches/scripts/v8-benches/crypto.js:702-734 | the result is exactly this - a for all signs and lengths, also when it overwrites this, a or both |
| BigIntegers.BigInteger.CompareTo | benches/scripts/v8-benches/crypto.js:593-604 | the sign of this - a, except for two negative numbers of different lengths, where the sign is the opposite one; zero exactly for equal values |
| BigIntegers.LengthsMislead | benches/scripts/v8-benches/crypto.js:593-604 | -1 and -B - 1 are two such numbers |
| BigIntegers.BigInteger.MultiplyTo | benches/scripts/v8-benches/crypto.js:738-751 | exactly the product, for all signs |
| BigIntegers.BigInteger.SquareTo | benches/scripts/v8-benches/crypto.js:754-771 | exactly the square, hence the same as multiplyTo(x, x) |
| BigIntegers.SquareBound | benches/scripts/v8-benches/crypto.js:761-768 | after each row the word that receives the carry is below 2B, so one carry of 1 is enough; the last word fits |
| BigIntegers.BigInteger.CarryOnce | benches/scripts/v8-benches/crypto.js:763-766 | that single carry keeps the value |
| Shifts.LShiftTo | benches/scripts/v8-benches/crypto.js:660-676 | multiplies the value by 2^n for every n and sign, also in place |
| Shifts.RShiftTo | benches/scripts/v8-benches/crypto.js:679-699 | divides the value by 2^n rounding down for every n and sign, also in place |
| Shifts.LeftValue | benches/scripts/v8-benches/crypto.js:667-673 | words joined from neighbouring parts denote the shifted number |
| Shifts.RightValue | benches/scripts/v8-benches/crypto.js:691-697 | words joined from neighbouring parts denote the quotient, sign bits coming in at the top |
| BinaryGcd.LBit | benches/scripts/v8-benches/crypto.js:1275-1296 | the position of the lowest one bit, or -1 for zero |
| BinaryGcd.GetLowestSetBit | benches/scripts/v8-benches/crypto.js:1299-1305 | x is an odd number times 2 to the result, for negative x as well; -1 exactly for zero |
| BinaryGcd.OddGcd | benches/scripts/v8-benches/crypto.js:1659-1669 | the loop ends, and y times the common power of two is the gcd |
| BinaryGcd.Gcd | benches/scripts/v8-benches/crypto.js:1644-1672 | the result divides |this| and |a| and every common divisor divides it, zeros included; the operands are kept |
| BinaryGcd.GcdUnique | benches/scripts/v8-benches/crypto.js:1643-1672 | there is only one such number |
| BinaryGcd.LeadsSubtract | benches/scripts/v8-benches/crypto.js:1662-1668 | half the difference of two odd numbers keeps the gcd |
| Radix.ToString | benches/scripts/v8-benches/crypto.js:545-578 | the string is the canonical numeral of the value in radix 2, 4, 8, 16 or 32, with a minus sign for negative numbers |
| Radix.FromString | benches/scripts/v8-benches/crypto.js:496-535 | the value is the one the digits denote, negated if a minus sign precedes the first digit; other characters are skipped |
| Radix.RoundTrip | benches/scripts/v8-benches/crypto.js:496-578 | reading what is shown gives back every signed number |
| Radix.DigitAcross | benches/scripts/v8-benches/crypto.js:562-565 | a digit that lies across two words is put together from both |
| Radix.SplitWord | benches/scripts/v8-benches/crypto.js:521-523 | a digit read across two words adds exactly its value |
| Radix.NumeralDigits | benches/scripts/v8-benches/crypto.js:555-577 | what is shown consists of digits of the radix and has no leading zero |
| Montgomery.InvDigit | benches/scripts/v8-benches/crypto.js:884-898 | 0 for an empty or even number; otherwise the result times the lowest word is -1 modulo 2^28 |
| Montgomery.Newton | benches/scripts/v8-benches/crypto.js:874-895 | one Newton step squares the modulus for which y is an inverse |
| Montgomery.LowProduct | benches/scripts/v8-benches/crypto.js:933-935 | the split product is x[i] * mp modulo 2^28 |
| Montgomery.PropagateCarry | benches/scripts/v8-benches/crypto.js:939-943 | the carry loop stays inside the padded words and keeps the number |
| Montgomery.ReduceRow | benches/scripts/v8-benches/crypto.js:932-944 | a row clears word i and adds a multiple of m at that place |
| Montgomery.Reduce | benches/scripts/v8-benches/crypto.js:928-948 | for odd m and 0 <= x < m * B^t: 0 <= x' < m and x' * B^t is congruent to x |
| Barrett.MultiplyLowerTo | benches/scripts/v8-benches/crypto.js:1479-1490 | exactly the product modulo B^n |
| Barrett.MultiplyUpperTo | benches/scripts/v8-benches/crypto.js:1494-1505 | the rows without the lower words, shifted down: how much is missing is bounded by UpperSumBound |
| Barrett.DAddOffset | benches/scripts/v8-benches/crypto.js:1440-1449 | adds n * B^w, carries included |
| Barrett.EstimatedRemainder | benches/scripts/v8-benches/crypto.js:1533-1543 | the estimated quotient is never too large, and too small by so little that the difference fits the words kept |
| Barrett.Reduce | benches/scripts/v8-benches/crypto.js:1533-1544 | 0 <= x' < m and x' congruent to x for all 0 <= x < B^(2t); both loops end |
| Reducers.Convert | benches/scripts/v8-benches/crypto.js:845-848 | the result represents x modulo m for the reducer in use (classic 845-848, Montgomery 911-917, Barrett 1517-1526), negative x included |
| Reducers.Revert | benches/scripts/v8-benches/crypto.js:920-925 | back from the representation to the remainder in 0 .. m, or the number itself for the null reducer (850-852, 920-925, 1455-1457, 1528-1530) |
| Reducers.MulTo | benches/scripts/v8-benches/crypto.js:957-960 | the product of two representatives represents the product (858-861, 957-960, 1459-1461, 1553-1556) |
| Reducers.SqrTo | benches/scripts/v8-benches/crypto.js:951-954 | the square of a representative represents the square (863-866, 951-954, 1463-1465, 1547-1550) |
| DivRem.Mod | benches/scripts/v8-benches/crypto.js:833-838 | the remainder in 0 .. a for negative dividends as well |
| DivRem.DivRemTo | benches/scripts/v8-benches/crypto.js:775-830 | the remainder with the sign of the dividend and the quotient rounded toward zero, for all signs; nothing happens for the divisor 0 |
| Arith.QuotientRemainder | benches/scripts/v8-benches/crypto.js:775-830 | the two make up the dividend |
| DivRem.Divide | benches/scripts/v8-benches/crypto.js:1411-1415 | the quotient rounded toward zero |
| Division.LongDivision | benches/scripts/v8-benches/crypto.js:802-821 | digit by digit, exactly the quotient and the remainder |
| Division.CorrectDigit | benches/scripts/v8-benches/crypto.js:814-820 | trying a digit and taking it back gives the quotient digit and the remainder if and only if the digit tried is not too small |
| Division.EstimateClose | benches/scripts/v8-benches/crypto.js:797-815 | without rounding, the digit estimated from the leading words is the quotient digit or one more |
| Division.NotTooSmall | benches/scripts/v8-benches/crypto.js:797-815 | an estimate as a real number that falls short of the exact one by at most 15 * 2^24 / yt is never too small |
| Reducers.NewBarrett | benches/scripts/v8-benches/crypto.js:1508-1515 | the reciprocal is B^(2t) / m, rounded down |
| Bits.NBits | benches/scripts/v8-benches/crypto.js:607-630 | the length of a number below 2^32; 1 for zero |
| ModPow.Exp | benches/scripts/v8-benches/crypto.js:975-989 | 1 outside 1 .. 2^32 - 1; otherwise this^e mod m for the modular reducers, and exactly this^e for the null reducer |
| ModPow.Power | benches/scripts/v8-benches/crypto.js:1473-1475 | exactly this^e for e in 1 .. 2^32 - 1, otherwise 1 |
| ModPow.ReadWindow | benches/scripts/v8-benches/crypto.js:1597-1611 | a window that begins at a one bit: odd, at most k bits, exactly those bits of the exponent, also across two words |
| ModPow.OddPowers | benches/scripts/v8-benches/crypto.js:1581-1592 | entry n of the table represents this^n for every odd n below 2^k |
| ModPow.ReadExponent | benches/scripts/v8-benches/crypto.js:1594-1640 | the loop over the windows returns this^e mod m |
| ModPow.PowByWindows | benches/scripts/v8-benches/crypto.js:1581-1640 | for every window size from 1 to 6 and every ready reducer, this^e mod m |
| ModPow.ChooseReducer | benches/scripts/v8-benches/crypto.js:1574-1579 | which reducer is chosen when, and that it is set up for m |
| ModPow.ModPow | benches/scripts/v8-benches/crypto.js:1565-1641 | congruent to this^e for every e >= 0 and m > 0; in 0 .. m if and only if not e = 0 and m = 1 |
| BoyerTerms.IsTermEqual | benches/scripts/v8-benches/earley-boyer.js:4231-4258 | true exactly for equal terms |
| BoyerTerms.IsTermMember | benches/scripts/v8-benches/earley-boyer.js:4259-4270 | true exactly for members of the list |
| BoyerTerms.ApplyIsInstance | benches/scripts/v8-benches/earley-boyer.js:4121-4129 | substituting an association list is the instance under the substitution it denotes |
| BoyerTerms.SubstitutionLemma | benches/scripts/v8-benches/earley-boyer.js:4121-4129 | the meaning of an instance is the meaning of the term with its symbols bound to the meanings substituted |
| BoyerUnify.UnifyExact | benches/scripts/v8-benches/earley-boyer.js:4192-4224 | a substitution that agrees with the bindings so far makes the pattern equal to the term if and only if unification succeeds and it agrees with the bindings recorded |
| BoyerUnify.UnifyDecides | benches/scripts/v8-benches/earley-boyer.js:4192-4224 | from no bindings: success if and only if some substitution matches, and the one recorded does |
| BoyerUnify.UnifyIsMatching | benches/scripts/v8-benches/earley-boyer.js:4192-4224 | the substitution recorded matches, and it is the only one that does and leaves other symbols alone |
| BoyerRewrite.RewriteSound | benches/scripts/v8-benches/earley-boyer.js:4163-4190 | rewriting keeps the meaning in every interpretation in which the lemmas hold |
| BoyerRewrite.RewriteNormalizes | benches/scripts/v8-benches/earley-boyer.js:4163-4190 | a result contains no instance of a left side |
| BoyerRewrite.RewriteFixpoint | benches/scripts/v8-benches/earley-boyer.js:4163-4190 | a term without such an instance is returned as it is, after as many rewrites as it has nodes |
| BoyerRewrite.FuelIrrelevant | benches/scripts/v8-benches/earley-boyer.js:4163-4190 | a larger bound on the depth does not change a finished result or the count of rewrites |
| BoyerRewrite.RewriteExactly | benches/scripts/v8-benches/earley-boyer.js:4163-4190 | within any bound on the depth, a term is rewritten to t' with the count n if and only if the big-step relation derives that: arguments first, then the instance of the right side of the first lemma of the record whose left side matches, if there is one, with one call counted for every term visited |
| BoyerRewrite.CrashExactly | benches/scripts/v8-benches/earley-boyer.js:4163-4190 | an exception is raised if and only if the first lemma that matches somewhere has no right side |
| BoyerRewrite.RewriteEnds | benches/scripts/v8-benches/earley-boyer.js:4163-4190 | hence some bound lets a run end in a result or an exception if and only if the relations derive it |
| BoyerTautology.Tautologyp | benches/scripts/v8-benches/earley-boyer.js:4130-4160 | the loop agrees with its recursive form, failures on short argument lists included |
| BoyerTautology.TautologySound | benches/scripts/v8-benches/earley-boyer.js:4130-4160 | an accepted term is not false in any interpretation that meets the two lists |
| BoyerTautology.TautologyDecides | benches/scripts/v8-benches/earley-boyer.js:4130-4160 | on if-normal terms: accepted if and only if true under every valuation of the atoms; it never fails |
| BoyerTautology.AcceptedIsValid | benches/scripts/v8-benches/earley-boyer.js:4130-4160 | acceptance is right for the truth tables of all terms whose ifs have three arguments |
| BoyerTautology.Countermodel | benches/scripts/v8-benches/earley-boyer.js:4130-4160 | a refused if-normal term has a valuation consistent with the lists that makes it false |
| BoyerTautology.NotCompleteOffNormalForm | benches/scripts/v8-benches/earley-boyer.js:4130-4160 | a term that is true under every valuation, but not if-normal, is refused |
| BoyerTautology.TautologyDecidesMeaning | benches/scripts/v8-benches/earley-boyer.js:4130-4160 | on if-normal terms in which no atom occurs inside another: accepted if and only if no interpretation makes the term false |
| BoyerTautology.NotCompleteForMeaning | benches/scripts/v8-benches/earley-boyer.js:4130-4160 | with atoms inside others an if-normal term is refused that no interpretation over any domain makes false |
| BoyerTautology.ShortIf | benches/scripts/v8-benches/earley-boyer.js:4130-4160 | an `if` that lacks an argument fails exactly when the checker comes to read it |
| Boyer.Prover.Setup | benches/scripts/v8-benches/earley-boyer.js:4271-4302 | for every symbol the record holds, in reverse order, exactly the lemmas accepted that have it at the head of their left side; the answer says whether all were accepted |
| Boyer.InstallHolds | benches/scripts/v8-benches/earley-boyer.js:4286-4299 | records made from valid lemmas hold only valid lemmas |
| Boyer.InstallRecords | benches/scripts/v8-benches/earley-boyer.js:4286-4299 | on top of any records, accepted or not: the lemmas before the first one refused that have the symbol at the head of their left side, in reverse order, in front of what the record held |
| Boyer.InstalledLemmas | benches/scripts/v8-benches/earley-boyer.js:4286-4299 | from empty records: exactly those lemmas |
| Boyer.InstallAccepts | benches/scripts/v8-benches/earley-boyer.js:4286-4299 | a list is accepted if and only if every member is an equation |
| Boyer.Prover.OneWayUnify1 | benches/scripts/v8-benches/earley-boyer.js:4192-4224 | the global list of bindings and the answer are those of the unification function |
| Boyer.Prover.RewriteTerm | benches/scripts/v8-benches/earley-boyer.js:4163-4186 | the globals change as the rewriting function says, which RewriteExactly and CrashExactly characterise; the counter goes up by the number of rewrites |
| Boyer.Prover.TestBoyer | benches/scripts/v8-benches/earley-boyer.js:4303-4335 | substitute, rewrite, check: the answer and the number of rewrites |
| Boyer.TestIsRewriting | benches/scripts/v8-benches/earley-boyer.js:4303-4335 | an answer with its count if and only if the padded instance rewrites, with that count, to a term with that answer; an exception if and only if rewriting raises one |
| Boyer.PaddedLayers | benches/scripts/v8-benches/earley-boyer.js:4312-4319 | n layers of (or .. (f)), counted from either end |
| Boyer.TestSound | benches/scripts/v8-benches/earley-boyer.js:4303-4335 | if the conjecture is accepted, its instance is not false in any standard interpretation in which all lemmas hold |
| Boyer.PaddingKeepsTruth | benches/scripts/v8-benches/earley-boyer.js:4312-4319 | the n layers of (or .. (f)) do not change whether a term is false |
| Boyer.TestSoundForConjecture | benches/scripts/v8-benches/earley-boyer.js:4303-4335 | hence the same for the conjecture without its padding |
| Boyer.IrreducibleIsIfNormal | benches/scripts/v8-benches/earley-boyer.js:4163-4186 | with the lemma that distributes if over if, normal forms are if-normal |
| Boyer.TestDecides | benches/scripts/v8-benches/earley-boyer.js:4303-4335 | then the test accepts if and only if the rewritten term is true under every valuation; if no atom of it occurs inside another, if and only if no interpretation makes it false |
| EarleyGrammar.MakeTables | benches/scripts/v8-benches/earley-boyer.js:4387-4494 | the tables of starters, enders, predictors and steps are complete and correct for the grammar |
| EarleyGrammar.AddRule | benches/scripts/v8-benches/earley-boyer.js:4468-4488 | one rule adds one configuration for each place of the dot and enters it in the right lists |
| Earley.AdjoinedOk | benches/scripts/v8-benches/earley-boyer.js:4594-4597 | adding an origin to a configuration set appends it to the list threaded through the vector |
| Earley.MergedOk | benches/scripts/v8-benches/earley-boyer.js:4591-4593 | merging makes the new origins old, without changing the others |
| Earley.State.Get | benches/scripts/v8-benches/earley-boyer.js:4586-4590 | an empty set is created only where there was none |
| Earley.State.Adjoin | benches/scripts/v8-benches/earley-boyer.js:4594-4597 | the origin becomes new and its configuration is on the worklist, once |
| Earley.State.Pop | benches/scripts/v8-benches/earley-boyer.js:4667-4673 | the first configuration of the worklist leaves it, its new origins merged |
| Earley.State.Record | benches/scripts/v8-benches/earley-boyer.js:4610-4614 | an origin that is already recorded is not entered again |
| Earley.State.Union | benches/scripts/v8-benches/earley-boyer.js:4627-4640 | all origins of the other set are recorded |
| Earley.CompleteOne | benches/scripts/v8-benches/earley-boyer.js:4713-4728 | every configuration waiting at one of the origins for this nonterminal moves on |
| Earley.Forward | benches/scripts/v8-benches/earley-boyer.js:4674-4699 | predicted configurations are recorded, and those completed without a token move on |
| Earley.Forw | benches/scripts/v8-benches/earley-boyer.js:4641-4738 | ends with an empty worklist; every recorded origin i of a configuration means that the symbols before its dot derive tokens i .. j; nothing that follows from the recorded ones is missing |
| Earley.Scan | benches/scripts/v8-benches/earley-boyer.js:4965-4972 | the configurations of the next token start its state |
| Earley.Parse | benches/scripts/v8-benches/earley-boyer.js:4957-4972 | all states are sound and closed |
| EarleyGrammar.SpansNext | benches/scripts/v8-benches/earley-boyer.js:4688-4699 | a completed nonterminal carries the dot of a configuration on |
| Earley.Recorded | benches/scripts/v8-benches/earley-boyer.js:4641-4738 | completeness: derived prefixes of a rule are recorded |
| Earley.IsParsed | benches/scripts/v8-benches/earley-boyer.js:4739-4763 | true exactly if an end of the nonterminal is recorded, and then there is a derivation |
| Earley.Accepts | benches/scripts/v8-benches/earley-boyer.js:4957-4972 | the goal is found from 0 to the end if and only if it derives the input |
| Lists.IsList | benches/scripts/v8-benches/earley-boyer.js:1151-1169 | on every finite heap, cyclic ones included, the two pointers stop; true if and only if the chain of links ends in null |
| Lists.Bound | benches/scripts/v8-benches/earley-boyer.js:1157-1168 | a chain that does not end within the heap has a point where the fast pointer meets the slow one |
| Lists.NeverEnds | benches/scripts/v8-benches/earley-boyer.js:1163-1165 | a chain in which a pair comes back never ends |
| Splay.TopDown | benches/scripts/v8-benches/splay.js:579-637 | from one dummy node for both sides, the loop ends with the key, its predecessor or its successor |
| Splay.SplayTree.SplayKey | benches/scripts/v8-benches/splay.js:579-638 | the sequence of nodes in order is kept; the root holds the key, or a neighbour of where it would be |
| SplayShape.RotateLeftKeeps | benches/scripts/v8-benches/splay.js:614-623 | a left rotation keeps the tree split in three |
| SplayShape.RotateRightKeeps | benches/scripts/v8-benches/splay.js:596-605 | a right rotation keeps the tree split in three |
| SplayShape.LinkLeftKeeps | benches/scripts/v8-benches/splay.js:624-627 | linking left keeps the tree split in three |
| SplayShape.LinkRightKeeps | benches/scripts/v8-benches/splay.js:606-609 | linking right keeps the tree split in three |
| SplayShape.AssembleKeeps | benches/scripts/v8-benches/splay.js:632-637 | the three parts become one tree with the same order |
| Splay.SplayTree.Insert | benches/scripts/v8-benches/splay.js:444-466 | an existing key changes nothing; a new one is entered at its place, all other nodes in order |
| Splay.SplayTree.Remove | benches/scripts/v8-benches/splay.js:477-498 | exactly the node with the key is taken out; without it nothing changes and removal fails |
| Splay.SplayTree.Find | benches/scripts/v8-benches/splay.js:508-514 | the node with the key, null exactly if there is none |
| Splay.SplayTree.FindMax | benches/scripts/v8-benches/splay.js:520-529 | the last node of the tree, or of the subtree given |
| Splay.SplayTree.FindGreatestLessThan | benches/scripts/v8-benches/splay.js:536-552 | the strict predecessor, null exactly if every key is at least as large |
| Splay.SplayTree.Traverse | benches/scripts/v8-benches/splay.js:672-680 | visits the keys of the subtree in order |
| Splay.SplayTree.ExportKeys | benches/scripts/v8-benches/splay.js:558-566 | the keys of all nodes in order |
| Splay.InsertNewNode | benches/scripts/v8-benches/splay.js:356-365 | the first draw that is no key yet gets a new node with its payload, entered at its place; every earlier draw was a key; when the draws run out nothing has changed |
| Splay.Replace | benches/scripts/v8-benches/splay.js:396-404 | with i old keys below the new one: for i = 0 the nodes are the old ones, otherwise a new node with the new key and its payload has taken the place of node i - 1; the key to remove is never missing |
| Splay.Benchmark | benches/scripts/v8-benches/splay.js:368-404 | for every sequence of random keys, set-up, rounds and tear-down never throw; they finish, with the keys of the play, if and only if the draws last |
| SplayRounds.FilledExactly | benches/scripts/v8-benches/splay.js:356-371 | set-up succeeds if and only if there are enough different draws; the keys are then the draws used, each once, in order |
| SplayRounds.RoundExchanges | benches/scripts/v8-benches/splay.js:396-404 | a round takes out the greatest key below the new one and puts in the new one, or changes nothing if there is none below; no key moves down in its place |
| SplayRounds.RoundsGrow | benches/scripts/v8-benches/splay.js:396-404 | over any number of rounds the size stays, all keys are draws used, and the i-th least key never gets smaller |
| SplayRounds.DifferentDraws | benches/scripts/v8-benches/splay.js:356-404 | if no draw comes twice, set-up of a given size and n rounds go through if and only if there are size + n draws, and use as many |
| Richards.Packet.AddTo | benches/scripts/v8-benches/richards.js:813-821 | appends the packet at the end of a linked list and changes no other link |
| Richards.ChainDistinct | benches/scripts/v8-benches/richards.js:813-821 | a linked list contains no packet twice, so it has no cycle |
| Richards.TaskControlBlock.CheckPriorityAdd | benches/scripts/v8-benches/richards.js:631-640 | the packet joins the end of the queue, RUNNABLE is set; the result is this block exactly if it was without packets and has priority |
| Richards.TaskControlBlock.Dequeue | benches/scripts/v8-benches/richards.js:612-619 | the first packet leaves the queue; the state says whether more are left |
| Richards.TaskControlBlock.Run | benches/scripts/v8-benches/richards.js:610-624 | keeps all invariants, priorities and packets |
| Richards.IdleTask.Run | benches/scripts/v8-benches/richards.js:660-670 | releases the device that the shift register chooses and goes on with the higher priority, or holds itself when the count ends; v1 becomes the next value of the register except in the run that ends the count, so that after any number of runs it is that value of the sequence from the seed |
| Richards.RegisterSteps | benches/scripts/v8-benches/richards.js:663-669 | an even v1 is twice the next one and stands for device A; an odd one is twice the next one, its bits 0xD008 inverted, plus 1 and stands for device B; v1 never becomes 0 |
| Richards.BothDevices | benches/scripts/v8-benches/richards.js:663-669 | from any v1 but 0 device A is released within 17 runs and device B within 16 |
| Richards.WorkerTask.Run | benches/scripts/v8-benches/richards.js:716-734 | fills the packet with the next letters and sends it to the handlers in turn; v2 is the last letter; control goes to the handler exactly if it had no packets and has priority; suspends without a packet, nothing else changing |
| Richards.LettersAreLetters | benches/scripts/v8-benches/richards.js:727-731 | the data of a packet are consecutive letters from 1 to 26 |
| Richards.HandlerTask.Run | benches/scripts/v8-benches/richards.js:751-777 | a packet joins the list of its kind; then the first spare packet goes off with the next piece of data, or the first work packet goes back, or the handler suspends |
| Richards.HandlerTask.Serve | benches/scripts/v8-benches/richards.js:760-776 | what is sent goes to the end of the queue of whom it names and names its sender from then on; control goes there exactly if that queue was empty and its block has priority |
| Richards.DeviceTask.Run | benches/scripts/v8-benches/richards.js:687-697 | a pending packet is sent on, to the end of the queue of whom it names, a new one is kept and the device held; a pending packet is never overwritten |
| Richards.Scheduler.HoldCurrent | benches/scripts/v8-benches/richards.js:506-510 | the current block is held and control goes to the next one; nothing ahead is ready |
| Richards.Scheduler.SuspendCurrent | benches/scripts/v8-benches/richards.js:516-519 | the current block is suspended and stays current |
| Richards.Scheduler.Release | benches/scripts/v8-benches/richards.js:490-499 | the block is no longer held; the result has the higher priority of the two; null exactly for an id without a block |
| Richards.Scheduler.Queue | benches/scripts/v8-benches/richards.js:527-534 | the packet goes to the end of the queue of whom it names, and from then on names its sender |
| Richards.Scheduler.StrictPriority | benches/scripts/v8-benches/richards.js:474-484 | a ready block has a lower priority than the current one or is the current one |
| Richards.Scheduler.Conserved | benches/scripts/v8-benches/richards.js:527-534 | every packet is in exactly one list, once, and the linked lists are those lists |
| Richards.Scheduler.Step | benches/scripts/v8-benches/richards.js:476-483 | a round of the loop keeps all invariants and makes progress |
| Richards.Scheduler.Schedule | benches/scripts/v8-benches/richards.js:474-484 | the loop ends, and then every task is held or suspended |
| Richards.Scheduler.AddTask | benches/scripts/v8-benches/richards.js:465-469 | a task of higher priority is put in front, with its packets; all invariants but its own state are kept |
| Richards.Scheduler.SetRunning | benches/scripts/v8-benches/richards.js:583-585 | the state that addRunningTask sets meets the invariants |
| RichardsRun.Setup | benches/scripts/v8-benches/richards.js:333-353 | the six tasks and the packets of the benchmark meet the invariants: 2, 3 and 3 packets, the idle task with 1000 turns and the register at 1, the worker with handler A and letter 0 |
| RichardsRun.RunRichards | benches/scripts/v8-benches/richards.js:333-355 | the whole benchmark ends with every task waiting, the same 8 packets in the lists, each in one, and the register at the value its seed 1 leads to in the runs made |
| Scopes.ScopeContext.NextUniqueId | core/ast/src/scope.rs:548-555 | counts up, wrapping at 2^32 |
| Scopes.Scope.Global | core/ast/src/scope.rs:124-137 | a global scope is a tree of one frame |
| Scopes.Scope.constructor | core/ast/src/scope.rs:141-154 | a new scope adds one frame below its parent |
| Scopes.FindInSync | core/ast/src/scope.rs:105-113 | the map from names to positions agrees with a linear search |
| Scopes.Scope.HasBinding | core/ast/src/scope.rs:192-194 | true exactly if the scope itself has the name |
| Scopes.Scope.HasLexBinding | core/ast/src/scope.rs:182-188 | true exactly if the scope itself has the name, lexically |
| Scopes.Scope.GetIdentifierReference | core/ast/src/scope.rs:199-219 | the reference to the innermost binding, or to the global object |
| Scopes.Scope.IsBindingMutable | core/ast/src/scope.rs:283-292 | whether the innermost binding is mutable; nothing if and only if the name is not bound |
| Scopes.Scope.SetMutableBinding | core/ast/src/scope.rs:427-464 | MutateImmutable if and only if the innermost binding is immutable and strict, Silent if and only if it is immutable and not strict; otherwise the reference: name, scope index + 1, binding index, scope id, lexical, escapes |
| Scopes.Scope.SetMutableBindingVar | core/ast/src/scope.rs:471-521 | the same with the bindings of scopes that are not functions left out |
| Scopes.Scope.AccessBinding | core/ast/src/scope.rs:329-352 | marks the binding that the name resolves to, and no other, as accessed, and as escaping when it was reached across a function or from eval or with |
| Scopes.Scope.CreateMutableBinding | core/ast/src/scope.rs:363-398 | appends a binding if the name is new; the locator names it; the map stays in step |
| Scopes.Scope.CreateImmutableBinding | core/ast/src/scope.rs:402-421 | appends a binding if the name is new; the map stays in step |
| Scopes.Scope.EscapeAllBindings | core/ast/src/scope.rs:168-172 | all bindings of the scope escape, no others change |
| Scopes.Scope.ReorderBindingIndices | core/ast/src/scope.rs:241-252 | escaping bindings are renumbered, no others change |
| Scopes.Scope.NumBindingsNonLocal | core/ast/src/scope.rs:231-238 | the number of escaping bindings |
| Scopes.Scope.EscapeThisBinding | core/ast/src/scope.rs:355-358 | `this` escapes from the function scope it belongs to |
| Scopes.Scope.SetScopeIndex | core/ast/src/scope.rs:261-263 | only the index of the scope changes |
| ScopeTrees.ResolveInnermost | core/ast/src/scope.rs:199-219 | resolution finds the first scope outward that has the name, and knows whether a function lies between |
| ScopeTrees.NamesOne | core/ast/src/scope.rs:199-219 | the reference described by Names is the only one |
| ScopeTrees.StepAt | core/ast/src/scope.rs:329-352 | what one operation does to each field of one binding |
| ScopeTrees.StepAdds | core/ast/src/scope.rs:363-421 | an operation adds a scope, or a binding to one scope, or neither, and what a new scope or binding holds |
| ScopeTrees.EscapesExactly | core/ast/src/scope.rs:329-352 | over whole runs: a binding escapes if and only if its scope is global or some operation had a reason to mark it; likewise for accesses |
| ScopeTrees.NoCauseBefore | core/ast/src/scope.rs:329-352 | no operation before a binding exists counts as such a reason |
| ScopeTrees.RunWellFormed | core/ast/src/scope.rs:121-154 | names are unique and positions stable after every run |
| ScopeTrees.UniqueIds | core/ast/src/scope.rs:548-555 | ids are unique if and only if there are at most 2^32 scopes |
| ScopeTrees.RenumberOrder | core/ast/src/scope.rs:241-252 | escaping bindings are numbered in order below their count, the others get 0 |
| ScopeTrees.RenumberCovers | core/ast/src/scope.rs:241-252 | every number below the count is given to an escaping binding |
| ScopeTrees.RenumberIdempotent | core/ast/src/scope.rs:241-252 | renumbering twice changes nothing more |
| ScopeTrees.LocatorsIdentify | core/ast/src/scope.rs:602-690 | after renumbering, the locators of two escaping bindings with the same scope id and index belong to the same binding |

## Left out

Stated weaker than the source, or for fewer inputs:

- DivRem.DivRemTo: between the shifts the division is one of numbers, with the quotient kept apart from the words of the remainder, and estimates are not rounded; the rounding of doubles (crypto.js:800-815) is covered only as far as Division.NotTooSmall and Division.CorrectDigit say.
- DivRem.Divide: the quotient is written into its words at the end.
- Radix.FromString: strings with a digit that the radix does not have get overlapping bits in the source; nothing is said of them. Byte arrays (radix 256) and the radices that are not powers of two are not modelled.
- Radix.ToString: radices that are not powers of two (`toRadix`) are not modelled.
- Barrett.MultiplyUpperTo: for a.t <= n <= this.t, as Barrett reduction calls it.
- Barrett.MultiplyLowerTo: for operands of at most n words, as Barrett reduction calls it.
- Barrett.Reduce: for moduli of fewer than 2^28 - 3 words; the two scratch numbers are allocated in each call instead of once for each reducer.
- Reducers.NewBarrett: the same bound.
- ModPow.ModPow: the same bound on the modulus where Barrett reduction is chosen, that is for even moduli and exponents from 128 on; exponents are not negative. Entries of the table with an even index hold some number where the source leaves them unset; they are never read.
- ModPow.ChooseReducer: the same bound.
- BigIntegers.BigInteger.Am3: when both operands share their words, only at the same position, as dMultiply calls it.
- Accumulate.Am2: base 2^30 is proved for the multiply-accumulate step only; the benchmark sets up 28-bit words with `am3` (crypto.js:2167), and all other number code is modelled for these. Shared arrays as for am3.
- Accumulate.Am1: base 2^26, likewise.
- Accumulate.Am4: base 2^26, likewise.
- BoyerRewrite.RewriteSound: rewriting need not terminate, so the results are about runs that end; the bound on the depth that the function carries has no influence on them.
- Boyer.Prover.RewriteTerm: symbol records are modelled by the names they belong to, so translating a term is the identity.
- Boyer.Prover.TestBoyer: printing the count is left out.
- Earley.Accepts: grammar symbols and token classes are numbers, lexing is left out, and the sets of a state are values inside it, so that aliasing between vectors is not captured.
- Splay.InsertNewNode: random keys come from a sequence of draws that may run out; keys are integers. The payload of a node is any function of its key.
- Splay.SplayTree.SplayKey: the dummy node holds some key and value instead of null; they are never read.
- Splay.Benchmark: the same.
- Richards.Scheduler.AddTask: priorities ascend strictly and ids are not used twice, as in the benchmark; the idle task is added without packets, the packets of the others are new ones.
- Richards.Scheduler.Schedule: ends for packets that are on their way between a worker, handlers and devices, as the benchmark sets them up; other routes can go on for ever.
- Richards.Scheduler.Queue: the branch for an id without a block is left out; the invariants say that every packet names a block.
- RichardsRun.RunRichards: the totals 2322 and 928 that the benchmark compares with (richards.js:357-363) are not computed. The three bits of a state are a record, and array elements of a packet that are not set yet are 0.
- Scopes.Scope.constructor: reference counting and run-time borrow checks are not modelled; a scope knows its place in the list of all scopes.
- Scopes.Scope.CreateMutableBinding: numbers of bindings stay below 2^32.
- Scopes.ScopeContext.NextUniqueId: the panic of builds with overflow checks is not modelled.
- BoyerTautology.TautologyDecidesMeaning: with atoms inside others acceptance is sufficient, not necessary; what is necessary there depends on equalities between terms that the program does not look at.

Not modelled:

- RSA, padding, random numbers, key generation, primality and modular inverse (crypto.js:1686-2180): they rest on random input or on number theory of their own.
- Bitwise operations, addition and conversion to bytes in crypto.js: the same word loops as subtraction and shifting. `bitCount` (1318-1322) and `fromInt` (479-486) refer to names that are not defined.
- The trees of a parse (earley-boyer.js:4764-4950 and what follows the main loop): they are read off the chart.
- The rest of the Scheme runtime in earley-boyer.js: strings, ports, reader, printer.
- The benchmark harness, and deltablue, navier-stokes, raytrace and regexp.
- The scope analyzer that calls core/ast/src/scope.rs, and FunctionScopes (718-840), which calls the same operations on up to five scopes.
- The interpreter, the command line and `core/engine/src/bigint.rs`, which forwards to a library.
- Positions, patterns, properties and visitors of core/ast: short comparisons and traversals that would only add easy members.
