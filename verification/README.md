# Verified models of SharedCppLib2's algorithms

The project models the self-contained algorithms of the library in Dafny 4.11 and proves what they
are for. Code that works in place is modelled in place: arrays, cursors, tables and maps are fields
of classes, loops are loops, and each such method is proved against a function over values. The
lemmas about those functions are the properties a user of the library relies on.

`dafny verify dfyconfig.toml` checks everything; each file holds one module of the same name.

| part | modules | source |
|---|---|---|
| Reed-Solomon parity over GF(2^8), section 7.5.2 of ISO/IEC 18004:2015 | `GF256`, `Polynomial`, `ReedSolomon`, `CycleStructure`, `ErrorCorrection` | `include/xmath-reedsolomon.hpp` |
| boolean conditions: rewriting simplifier, minimizer, text form, binary form | `Logical`, `Condition`, `Simplifier`, `SimplifierLaws`, `Cubes`, `QuineMcCluskey`, `PrimeCover`, `GreedyCover`, `Minimizer`, `ConditionText`, `ConditionParser`, `ConditionGrammar`, `ConditionCodec` | `include/logical.hpp`, `src/condition.cpp`, `src/condition_parser.cpp` |
| AES in ECB and CBC mode, sections 4.2 and 5.1 to 5.3 and appendices A and B of FIPS 197, section 6.3 of RFC 5652 | `AesTables`, `AesRounds`, `AesField`, `AesBlock`, `AesCipher`, `AesModes`, `AesExamples` | `src/aes.cpp` |
| Bresenham's line | `Drawer` | `include/drawer.hpp` |
| CRC-32, section 8 of RFC 1952 | `Crc32` | `src/crc32.cpp` |
| JSON writer and reader | `JsonString`, `JsonAscii`, `JsonValue`, `JsonText`, `JsonLayout`, `JsonGrammar`, `JsonReader`, `JsonWriter` | `src/json.cpp` |
| HTTP requests and responses, and the server that reassembles requests | `Http`, `HttpRoundTrip`, `HttpStream`, `HttpResponse`, `HttpServer` | `include/http.hpp`, `src/http.cpp`, `src/httpserver.cpp` |
| the multi-index container | `Multindex` | `include/multindex.hpp` |
| quick, merge and radix sort | `Sorting` | `include/atxsort.hpp` |
| bit shifts and rotations of byte arrays | `BitShift` | `src/bytearray.cpp` |
| one-bit images and BMP files | `PackedBitmap`, `Bmp`, `BmpFormat` | `src/bitmap.cpp` |
| byte arrays with a cursor, file packs | `ByteArray`, `FilePack` | `include/bytearray.hpp`, `src/filepack.cpp` |

`Arithmetic`, `Characters`, `Options` and `StringOrder` hold what several of them share.

## Where the code does something else than it says

The models follow the code. In each of these places a lemma shows the deviation, and where a
condition separates the inputs on which the promise holds from the others, an equivalence states it.

- Reed-Solomon: the header promises that e/2 errors are survived, and the encoder takes any numbers
  k of data and e of parity bytes. The promise is kept exactly for k + e <= 255, for e <= 1, for no
  data, and for one byte of data if e + 1 is 255 times a power of two
  (`ErrorCorrection.CorrectableExactly`). `ReedSolomon.SeparatedExactly` is about all words with e zero
  syndromes; they are those that the encoder produces exactly for e <= 255
  (`ReedSolomon.ParityUniqueExactly`).
- Rewriting simplifier: the constant rules for `l <- r` are those of the other direction
  (`Simplifier.ImplyRightExactly`, `Simplifier.ConstantPremiseChangesMeaning`). Meaning is kept
  throughout a tree exactly if no left-pointing implication in it has a premise that alone
  simplifies to a constant below a left side that can be false (`Simplifier.KeepsExactly`), so that
  every tree without such implications keeps its meaning (`Simplifier.OperatorsDecide`). The function is
  const, but moves nodes out of its tree through references to the children; `Simplify` models those moves,
  and `Simplifier.MovesExactly` says for which trees the source survives and for which an emptied
  node enters the result.
- Condition text: printer and parser name the arrows oppositely, so that reading a printed tree
  exchanges the two implications (`ConditionText.RoundTripExchanges`).
- JSON: strings and keys are escaped twice on writing and once undone on reading
  (`JsonText.RoundTrip`). The escaping of non-ASCII characters drops the character that follows a
  decoded sequence (`JsonString.AsciiEscapeForgets`) and replaces what it cannot decode;
  `JsonAscii.AsciiRoundTrip` says exactly which byte strings come back.
- HTTP requests: exactly the well-formed ones are read back as they were written
  (`HttpRoundTrip.RoundTripExactly`), and exactly those that announce their length right are answered
  by the server once and alike however they are cut (`HttpServer.RequestAnswered`).
- HTTP server: bytes behind a complete message in the same read are dropped with the buffer
  (`HttpServer.PipelinedLost`), so that each of several messages is answered for itself exactly if
  every message ends where a read ends (`HttpServer.GroupedExactly`, `HttpServer.GroupedAmongOthers`).
- Multi-index: `erase_value_by_index` erases the oldest equal value, not necessarily its own
  (`Multindex.Multindex.EraseValueByIndex`, `Multindex.OlderErased`).
- Radix sort: signed numbers come out in order exactly when all have the same sign
  (`Sorting.SignedOrder`); the order is descending.
- Byte arrays: `bitRotateLeft` puts the spilled bits on the wrong side and is right on all arrays
  of n bytes exactly for n <= 2 or whole bytes (`BitShift.RotateLeftExactly`).

## Model

| member | source | states |
|---|---|---|
| GF256.TimesExp | include/xmath-reedsolomon.hpp:99-107 | adding exponents is multiplication: alpha^i times alpha^j, by shift-and-xor, is alpha^(i+j) for all i and j |
| GF256.Powers | include/xmath-reedsolomon.hpp:75-81 | alpha^255 is 1 and none of alpha^15, alpha^51, alpha^85 is, so 255 is the order of alpha |
| GF256.ExpInjective | include/xmath-reedsolomon.hpp:91-95 | the 255 powers of alpha are distinct, so no entry of the logarithm table is overwritten |
| GF256.ExpPeriodic | include/xmath-reedsolomon.hpp:104-106 | exponents count modulo 255, which justifies the subtraction after the two logarithms are added |
| GF256.EveryPower | include/xmath-reedsolomon.hpp:9-14 | every non-zero byte is a power of alpha |
| GF256.TimesDistributes | include/xmath-reedsolomon.hpp:9-16 | multiplication modulo 0x11D distributes over XOR |
| GF256.TimesCommutes | include/xmath-reedsolomon.hpp:9-16 | multiplication is commutative |
| GF256.TimesAssociates | include/xmath-reedsolomon.hpp:9-16 | multiplication is associative |
| GF256.TimesInverse | include/xmath-reedsolomon.hpp:9-16 | every non-zero element has an inverse |
| GF256.NoZeroDivisors | include/xmath-reedsolomon.hpp:99-101 | a product is zero exactly if a factor is |
| Polynomial.LightSolutionIsZero | include/xmath-reedsolomon.hpp:19-25 | a Vandermonde system of e equations at distinct locators has no non-zero solution of weight e or less |
| ReedSolomon.GeneratorIsRootProduct | include/xmath-reedsolomon.hpp:118-141 | the coefficients built degree by degree are those of the product (x + alpha^0)...(x + alpha^(d-1)), for every degree |
| Polynomial.EvalProduct | include/xmath-reedsolomon.hpp:19-25 | the value of the product of two polynomials is the product of their values, at every point |
| ReedSolomon.GeneratorRoots | include/xmath-reedsolomon.hpp:22-23 | the generator of degree d vanishes at alpha^0..alpha^(d-1) and nowhere else |
| ReedSolomon.DivisionIdentity | include/xmath-reedsolomon.hpp:145-160 | data times x^e plus the remainder of the shift register is quotient times generator, coefficient by coefficient, for any data and generator |
| ReedSolomon.CodewordVanishes | include/xmath-reedsolomon.hpp:19-25 | every codeword has e zero syndromes, for every data and every e |
| ReedSolomon.MinimumDistance | include/xmath-reedsolomon.hpp:24-25 | distinct words of the code of at most 255 bytes differ in more than e places |
| ReedSolomon.SeparatedExactly | include/xmath-reedsolomon.hpp:24-25 | among all words of length n with e zero syndromes the distance holds if and only if n <= 255 or e <= 1; up to 255 parity bytes these are the words the encoder produces |
| ReedSolomon.WrapWordInCode | include/xmath-reedsolomon.hpp:145-170 | beyond 255 bytes x^255 + 1 is a word of the code next to the zero word, whatever e is |
| ReedSolomon.ParityUnique | include/xmath-reedsolomon.hpp:162-170 | of at most 255 parity bytes exactly the computed ones complete the data to a word of the code, for data of any length |
| ReedSolomon.ParityUniqueExactly | include/xmath-reedsolomon.hpp:162-170 | the completion is unique for all data if and only if e <= 255; from 256 on x^255 + 1 is a second completion of the empty data |
| ReedSolomon.ErrorsCorrectable | include/xmath-reedsolomon.hpp:24-25 | with up to e/2 wrong bytes in at most 255 no other message of that length has a codeword as close: the data is determined |
| ErrorCorrection.CorrectableExactly | include/xmath-reedsolomon.hpp:24-25 | the promise itself, for all numbers k of data and e of parity bytes: up to e/2 wrong bytes leave every message determined if and only if k = 0, e <= 1, k + e <= 255, or k = 1 and e + 1 is 255 times a power of two |
| ErrorCorrection.LightBreaks | include/xmath-reedsolomon.hpp:24-25 | a message that is not all zeros with a codeword of weight e/2 + e/2 or less breaks the promise: half-way to the zero codeword nothing tells them apart |
| ErrorCorrection.LongBreaks | include/xmath-reedsolomon.hpp:145-170 | from 256 bytes in all on x^255 + 1 is such a codeword, for 2 to 255 parity bytes and any data |
| CycleStructure.FullCycle | include/xmath-reedsolomon.hpp:118-141 | the generator of degree 255 is x^255 + 1 |
| CycleStructure.GeneratorWoven | include/xmath-reedsolomon.hpp:118-141 | the generator of degree 255 q + r is the one of degree r, repeated every 255 places by row q of Pascal's triangle modulo 2 |
| CycleStructure.AllOddExactly | include/xmath-reedsolomon.hpp:118-141 | row q has odd entries only if and only if q + 1 is a power of two |
| CycleStructure.GeneratorSparse | include/xmath-reedsolomon.hpp:118-141 | beyond 255 roots the generator is too light to correct e/2 errors, unless e + 1 is 255 times a power of two |
| CycleStructure.GeneratorDense | include/xmath-reedsolomon.hpp:118-141 | in that case it has no zero coefficient |
| ReedSolomon.Encoder.BuildExpTable | include/xmath-reedsolomon.hpp:69-85 | the doubling loop fills the table with the powers of alpha, index 255 wrapping to 0 |
| ReedSolomon.Encoder.BuildLogTable | include/xmath-reedsolomon.hpp:87-97 | the loop inverts the table on all non-zero bytes |
| ReedSolomon.Encoder.Mul | include/xmath-reedsolomon.hpp:99-107 | the table product is the shift-and-xor product for all bytes, zero included |
| ReedSolomon.Encoder.PowAlpha | include/xmath-reedsolomon.hpp:109-114 | non-negative exponents give alpha^k, negative ones its inverse, under the truncating remainder |
| ReedSolomon.Encoder.GeneratorOf | include/xmath-reedsolomon.hpp:126-142 | after any history the memo holds generators only, keeps its entries and grows just to the requested degree |
| ReedSolomon.Encoder.ShiftLeft | include/xmath-reedsolomon.hpp:152-153 | the register moves one place up and a zero comes in |
| ReedSolomon.Encoder.AddMultiple | include/xmath-reedsolomon.hpp:154-157 | the multiple of the generator is added coefficient by coefficient; skipping the factor 0 changes nothing |
| ReedSolomon.Encoder.ComputeRemainder | include/xmath-reedsolomon.hpp:145-160 | the in-place loop computes the remainder of the division |
| ReedSolomon.Encoder.Encode | include/xmath-reedsolomon.hpp:162-170 | the parity bytes complete the data to a word of the code, and earlier memo entries stay |
| Logical.AddNot | include/logical.hpp:57-59 | adding the not bit to a code that is no implication gives a code that has it and keeps the operator below it |
| ConditionCodec.NotBit | include/logical.hpp:57-63 | setting the not bit of a plain code is adding the not; for the implications it gives a code outside the enumeration |
| Condition.SameTreeSound | src/condition.cpp:504-540 | trees that compare as the same, up to the order of operands, mean the same under every environment |
| Condition.NegationSound | src/condition.cpp:542-553 | a recognized negation has the opposite value under every environment |
| Condition.SameTreeReflexive | src/condition.cpp:504-540 | every tree compares as the same as itself |
| Condition.SameTreeEquivalence | src/condition.cpp:504-540 | the comparison is symmetric and transitive although it tries both orders of the operands |
| Condition.SameExactly | src/condition.cpp:504-540 | two trees compare as the same if and only if exchanging operands of commutative operators somewhere turns one into the other |
| Condition.NegationForms | src/condition.cpp:542-553 | a negation is recognized by the negated tree on either side, and the left side decides |
| Simplifier.NotSound | src/condition.cpp:293-361 | pushing a negation inwards negates the value, double negation and De Morgan included |
| Simplifier.CombineTermsSound | src/condition.cpp:419-444 | combining two conjunctions with a common operand keeps the value of their disjunction |
| Simplifier.AbsorbSound | src/condition.cpp:446-464 | absorption keeps the value of the disjunction, in both directions |
| Simplifier.AndSound | src/condition.cpp:387-402 | every rule for conjunctions keeps the value |
| Simplifier.OrSound | src/condition.cpp:404-465 | every rule for disjunctions keeps the value |
| Simplifier.XorSound | src/condition.cpp:467-475 | every rule for exclusive disjunctions keeps the value |
| Simplifier.ImplyLeftSound | src/condition.cpp:477-484 | the rules for the implication to the right keep the value |
| Simplifier.ImplyRightExactly | src/condition.cpp:486-493 | the rules for the implication to the left keep the value exactly when the right operand is no constant or the left one is true |
| Simplifier.CombineExactly | src/condition.cpp:251-262 | constant folding and identities compute the operator of two operands exactly outside that one case |
| Simplifier.MovesExactly | src/condition.cpp:222-248 | a node that was moved from enters the result exactly for trees with a disturbed left operand in a De Morgan shape, and the const source tree comes out unchanged exactly if it has no such shape |
| Simplifier.PoisonousDisturbs | src/condition.cpp:222-248 | trees of the first kind are among those of the second |
| Simplifier.SimplifyPreserves | src/condition.cpp:179-262 | the simplified tree means the same under every environment, for every tree whose left-pointing implications have no premise that alone simplifies to a constant below a left side that can be false |
| Simplifier.KeepsExactly | src/condition.cpp:179-262 | the tree and every subtree whose simplified form enters the result keep their meaning under all environments if and only if no such premise is among them |
| Simplifier.OperatorsDecide | src/condition.cpp:179-262 | read off the input: a tree without left-pointing implications keeps its meaning, and one without negated conjunctions and disjunctions leaves the source tree unchanged |
| Simplifier.SimplifyShrinks | src/condition.cpp:179-262 | the result has no more nodes and no new function id |
| SimplifierLaws.NoConstantLeft | src/condition.cpp:251-262 | of every tree over not, and, or and xor a constant remains or a tree without constants |
| SimplifierLaws.ConstantsFold | src/condition.cpp:251-262 | operands that simplify to constants are folded under every operator |
| SimplifierLaws.AndLaws | src/condition.cpp:387-402 | of t & u with simplified operands l and r: false beside false, r beside true, false if one negates the other, l if they are the same, and l & r in every other case |
| SimplifierLaws.OrLaws | src/condition.cpp:404-416 | the duals for t or u, in the same order |
| SimplifierLaws.CommonOperand | src/condition.cpp:418-444 | (a & b) or (a & !b) simplifies to a, with the operands of the second conjunction in either order |
| SimplifierLaws.AbsorbRight | src/condition.cpp:446-458 | a or (!a & b) simplifies to a or b, and a or (a & b) to a, for a function a in front of a conjunction |
| SimplifierLaws.AbsorbLeft | src/condition.cpp:459-464 | behind the conjunction only the second of these rules is there |
| SimplifierLaws.OrStays | src/condition.cpp:404-465 | without a conjunction to work on the disjunction stays |
| SimplifierLaws.XorLaws | src/condition.cpp:467-475 | false is dropped beside an exclusive or, true negates the other operand, and two operands without constants stay, even if they are the same |
| SimplifierLaws.ImplyLeftLaws | src/condition.cpp:477-484 | a -> a and false -> r are true, true -> r is r, and everything else stays |
| SimplifierLaws.ImplyRightLaws | src/condition.cpp:486-493 | a <- a is true, a constant on the right alone is taken as if it were on the other side, and everything else stays |
| SimplifierLaws.NegatedStays | src/condition.cpp:222-262 | under the negated operators only constants are folded, unless both operands are negations |
| SimplifierLaws.DeMorgan | src/condition.cpp:237-248 | !x !& !y becomes x or y and !x !or !y becomes x & y, the operands taken as they are |
| SimplifierLaws.NotLaws | src/condition.cpp:293-361 | a negation goes into constants, negations and operators, De Morgan's laws included, and stays in front of implications, functions and empty trees |
| SimplifierLaws.SameNotNegation | src/condition.cpp:504-553 | no tree is the same as its own negation, so that the order of these two checks does not matter |
| Simplifier.NestedDeMorganIsPoisonous | src/condition.cpp:237-248 | a concrete tree whose inner conversion empties the operands that the outer one takes |
| Simplifier.ConstantPremiseChangesMeaning | src/condition.cpp:490-492 | a <- true, which means a, becomes true |
| Cubes.FreeImplicant | src/condition.cpp:905-930 | a cube with one bit set free is an implicant exactly if it and its neighbour across that bit are |
| Cubes.HalfImplicant | src/condition.cpp:905-930 | every implicant with a free bit is the merge of two implicants that fix it |
| Cubes.PrimeByNeighbours | src/condition.cpp:932-938 | an implicant is prime exactly if no neighbour across a fixed bit is an implicant |
| Cubes.PrimeAbove | src/condition.cpp:932-938 | every implicant lies in a prime one |
| QuineMcCluskey.MergeGeneration | src/condition.cpp:904-930 | the nested loops produce exactly the merges of adjacent terms and mark exactly the terms that took part |
| QuineMcCluskey.NextLevel | src/condition.cpp:901-943 | from the implicants that fix n bits, a generation gives exactly those that fix n - 1 |
| QuineMcCluskey.UnusedArePrime | src/condition.cpp:932-938 | the unmarked terms of a generation are exactly its prime implicants |
| QuineMcCluskey.PrimeImplicants | src/condition.cpp:895-943 | the generations end and have collected exactly the prime implicants of the on-set, each once |
| PrimeCover.BuildChart | src/condition.cpp:943-951 | the chart lists for every covered minterm the implicants over it |
| PrimeCover.SelectCover | src/condition.cpp:953-997 | a cover is found exactly if every minterm has an implicant over it; it covers all minterms, has no more implicants than there are minterms, and is a greedy choice: essential implicants first, then always one that covers the most of what is left and something of it |
| PrimeCover.ChooseEssential | src/condition.cpp:955-968 | exactly what the essential implicants leave uncovered remains, and each of them covers something new |
| PrimeCover.BestGain | src/condition.cpp:970-983 | the first implicant that covers the most of what remains; gain 0 means that none covers any of it |
| PrimeCover.SomeGain | src/condition.cpp:984-986 | while a coverable minterm remains some implicant gains, so the greedy loop always shrinks the rest |
| PrimeCover.EraseCovered | src/condition.cpp:961-967 | what remains is what the chosen implicants leave uncovered |
| GreedyCover.ChoiceIsGreedy | src/condition.cpp:953-997 | the chosen primes can be listed so that the essential ones come first, each the only prime over some minterm, and every later one covers a minterm that no earlier one covers and as many of those left as any prime |
| Minimizer.GetFunctions | src/condition.cpp:592-620 | the ids come out sorted and without duplicates, and are those of the tree |
| StringOrder.LessExactly | src/condition.cpp:592-620 | strings are in the order of the standard library: a proper beginning first, otherwise the smaller character where they first differ |
| Minimizer.Advance | src/condition.cpp:1037-1041 | flipping bits up to the first that becomes true is adding one |
| Minimizer.GenerateTable | src/condition.cpp:1002-1045 | more than eight functions and trees that cannot be evaluated are refused; otherwise the minterms are exactly the true assignments |
| Minimizer.MakePlain | src/condition.cpp:1047-1054 | the groups in sequence list exactly the implicants that fix all eight bits |
| Minimizer.ProductMeans | src/condition.cpp:1062-1090 | the product of a cube is true exactly on the assignments the cube covers |
| Minimizer.SumMeans | src/condition.cpp:1056-1098 | the sum of products is true exactly where one of the cubes covers the assignment |
| Minimizer.ProductOccurrences | src/condition.cpp:1062-1090 | a product names every variable once that its cube fixes, and no other |
| Minimizer.SumOccurrences | src/condition.cpp:1056-1098 | the sum has as many literals as its cubes fix variables |
| Minimizer.ReconstructTree | src/condition.cpp:1056-1098 | the loops build the sum of the chosen products, in order |
| Minimizer.BuildProduct | src/condition.cpp:1062-1090 | the loops build the product of one cube |
| Minimizer.CoverMeans | src/condition.cpp:955-997 | chosen prime implicants that cover the on-set are true together exactly on the on-set |
| Minimizer.PrimesCover | src/condition.cpp:984-986 | every minterm has a prime implicant over it, so the exception for a missing one is never thrown |
| Minimizer.Simplify | src/condition.cpp:877-1000 | the minimized tree means the same under every environment and is the sum of a greedy choice of prime implicants: essential ones first, each the only prime over some minterm, then primes that cover the most of what is left; only more than eight functions or a tree that cannot be evaluated are refused |
| ConditionText.LexPrinted | src/condition_parser.cpp:8-80 | the tokens of a printed tree are the expected ones, whatever delimiter follows |
| ConditionText.InnerOf | src/condition_parser.cpp:133-244 | the operands of an operator are read back around it whatever its precedence |
| ConditionText.RoundTripExchanges | src/condition.cpp:787-827 | reading a printed tree gives the tree with its implications exchanged, exactly for the printable trees |
| ConditionText.RoundTrip | src/condition.cpp:787-827 | the text form is faithful exactly for printable trees without implications |
| ConditionText.ParsePrintable | src/condition_parser.cpp:133-244 | everything the parser accepts can be printed and read again |
| ConditionParser.Tokenizer.NextToken | src/condition_parser.cpp:8-80 | the tokenizer returns the next token of the text and stops behind it |
| ConditionParser.Parser.ParsePrimary | src/condition_parser.cpp:146-180 | the method accepts what the grammar of primaries accepts, with the same tree and the same rest |
| ConditionParser.Parser.ParseAnd | src/condition_parser.cpp:182-193 | the loop over conjunctions follows the grammar |
| ConditionParser.Parser.ParseOrXor | src/condition_parser.cpp:195-206 | the loop over disjunctions follows the grammar |
| ConditionParser.Parser.ParseImply | src/condition_parser.cpp:208-220 | the loop over implications follows the grammar |
| ConditionParser.ParseText | src/condition_parser.cpp:133-144 | parsing a text gives what the grammar says and ignores what follows the expression |
| ConditionGrammar.LanguageExactly | src/condition_parser.cpp:146-220 | the parser accepts exactly the token sequences that the syntax trees generate, each operator at its level and those of a level grouped to the left, and gives the tree of the syntax tree |
| ConditionGrammar.TextExactly | src/condition_parser.cpp:133-144 | a text is read as that tree exactly if its tokens begin with those of a syntax tree and what follows does not continue it |
| ConditionGrammar.LevelsDecide | src/condition_parser.cpp:182-220 | and binds before or and xor, and these before the arrows, on either side: x o y n z is x o (y n z), and x n y o z is (x n y) o z, for any operators of different levels and any primaries as operands, parenthesized expressions among them |
| ConditionGrammar.GroupsLeft | src/condition_parser.cpp:182-220 | x o y p z is (x o y) p z for any two operators of one level |
| ConditionGrammar.WrittenReads | src/condition_parser.cpp:146-220 | every printable tree, written with the parentheses only that the levels call for, is read as it is |
| ConditionGrammar.TokenExactly | src/condition_parser.cpp:8-80 | a text without leading space starts with exactly those tokens that spell its beginning and end there |
| ConditionGrammar.LexSpelled | src/condition_parser.cpp:122-125 | spaces before a token do not matter, and the tokens behind it are those of the rest |
| ConditionGrammar.EndExactly | src/condition_parser.cpp:8-14 | the end token stands exactly at the end of the text |
| ConditionGrammar.NameExactly | src/condition_parser.cpp:127-130 | the characters of names are the digits, the letters and the underscore of ASCII |
| ConditionGrammar.EmptyUnreadable | src/condition.cpp:787-790 | an empty tree is printed as a text that is no token, whatever follows |
| ByteArray.LittleEndianValue | include/bytearray.hpp:109-120 | reading back an integer that fits its field gives the integer |
| ByteArray.ValueBytes | include/bytearray.hpp:171-179 | and writing the value that was read gives the bytes |
| ByteArray.ReadStringAt | include/bytearray.hpp:198-207 | a string that was written is read back and the cursor ends behind it |
| ByteArray.Buffer.AppendInt | include/bytearray.hpp:109-111 | an integer is appended lowest byte first |
| ByteArray.Buffer.AppendString | include/bytearray.hpp:113-120 | a string is appended behind its length in four bytes |
| ByteArray.Buffer.TakeInt | include/bytearray.hpp:171-179 | a read that does not fit fails and leaves the cursor alone; any other moves it behind the integer |
| ByteArray.Buffer.TakeBytes | include/bytearray.hpp:238-243 | the same for a run of bytes |
| ByteArray.Buffer.TakeString | include/bytearray.hpp:198-207 | the same for a string; after a failure the cursor is behind the length exactly if the length was there |
| ConditionCodec.LoadDump | src/condition.cpp:669-722 | wherever a tree was written, whatever its operator codes are, loading rebuilds it and ends exactly behind it |
| ConditionCodec.TreeDumped | src/condition.cpp:669-773 | a whole condition tree comes back through its bytes |
| ConditionCodec.StoredFaithfully | include/logical.hpp:28-43 | condition trees are stored one to one, as exactly those stored trees whose codes are in the enumeration |
| ConditionCodec.PrefixFree | src/condition.cpp:724-773 | no encoding is a prefix of another one |
| ConditionCodec.DumpExample | src/condition.cpp:681-735 | the bytes of a & {true}, node by node |
| ConditionCodec.OperatorCodes | include/logical.hpp:19-36 | 0x80 is the not bit, and the operators below it are numbered 1 to 5 |
| ConditionCodec.LoadDumpable | src/condition.cpp:669-722 | loading only builds trees that can be written again |
| ConditionCodec.AppendNode | src/condition.cpp:724-773 | the recursion appends the encoding of the tree |
| ConditionCodec.LoadNode | src/condition.cpp:669-722 | the recursion over the cursor gives the tree and the position, or the failure, that the format says; unknown operator codes are taken as binary |
| AesTables.TablesInverse | src/aes.cpp:12-50 | the two S-boxes undo each other on all bytes |
| AesField.SboxIsInverse | src/aes.cpp:12-29 | the substitution is the inverse in the field modulo 0x11B followed by the affine map of section 5.1.1 of FIPS 197, for every byte, and 0 goes where the map sends 0 |
| AesField.InverseUnique | src/aes.cpp:55-60 | a byte has at most one inverse in that field |
| AesField.ProductCommutes | src/aes.cpp:55-60 | the multiplication by shifts is commutative |
| AesField.RoundConstants | src/aes.cpp:50 | the round constants are the powers of x in the field, starting with 1 |
| AesRounds.MixInverse | src/aes.cpp:117-137 | the two column mixings undo each other, by linearity of the multiplications |
| AesBlock.ShiftRowsByColumn | src/aes.cpp:97-105 | row r moves r columns to the left (section 5.1.2 of FIPS 197) |
| AesBlock.ShiftRowsInverse | src/aes.cpp:97-115 | the row shifts undo each other |
| AesBlock.SubBytesInverse | src/aes.cpp:90-95 | the substitutions undo each other |
| AesBlock.MixColumnsInverse | src/aes.cpp:117-137 | inverse mixing undoes mixing on whole states |
| AesBlock.InvMixColumnsInverse | src/aes.cpp:117-137 | and mixing undoes inverse mixing |
| AesBlock.DecryptionRetraces | src/aes.cpp:163-180 | at round r the decryption of an encrypted block has the state that round r had shifted, for any number of rounds |
| AesBlock.EncryptionRetraces | src/aes.cpp:144-161 | conversely the encryption of a decrypted block passes through the states of the decryption |
| AesBlock.BlockInverse | src/aes.cpp:144-180 | encryption and decryption of a block undo each other both ways under any round keys |
| AesBlock.ScheduleRecurrence | src/aes.cpp:63-87 | the key comes first, and every later word is the one a key length before it plus what the word before it turns into (section 5.2 of FIPS 197) |
| AesBlock.ScheduleReversible | src/aes.cpp:63-87 | the schedule can be run backwards: any words in sequence as long as the key determine the key |
| AesBlock.ExpandKeyInjective | src/aes.cpp:63-87 | different keys have different round keys, already in the last two rounds |
| AesExamples.KeyCounts | src/aes.cpp:63-66 | 11, 13 and 15 round keys for keys of 16, 24 and 32 bytes |
| AesExamples.KeyWords | src/aes.cpp:66 | the first words are those of the key |
| AesExamples.A1Words4 | src/aes.cpp:63-87 | words 4 to 7 of the expansion in appendix A.1 of FIPS 197 |
| AesExamples.A1Words8 | src/aes.cpp:63-87 | words 8 to 11 of the expansion in appendix A.1 of FIPS 197 |
| AesExamples.A1Words12 | src/aes.cpp:63-87 | words 12 to 15 of the expansion in appendix A.1 of FIPS 197 |
| AesExamples.A1Words16 | src/aes.cpp:63-87 | words 16 to 19 of the expansion in appendix A.1 of FIPS 197 |
| AesExamples.A1Words20 | src/aes.cpp:63-87 | words 20 to 23 of the expansion in appendix A.1 of FIPS 197 |
| AesExamples.A1Words24 | src/aes.cpp:63-87 | words 24 to 27 of the expansion in appendix A.1 of FIPS 197 |
| AesExamples.A1Words28 | src/aes.cpp:63-87 | words 28 to 31 of the expansion in appendix A.1 of FIPS 197 |
| AesExamples.A1Words32 | src/aes.cpp:63-87 | words 32 to 35 of the expansion in appendix A.1 of FIPS 197 |
| AesExamples.A1Words36 | src/aes.cpp:63-87 | words 36 to 39 of the expansion in appendix A.1 of FIPS 197 |
| AesExamples.A1Words40 | src/aes.cpp:63-87 | words 40 to 43 of the expansion in appendix A.1 of FIPS 197 |
| AesExamples.A2Words6 | src/aes.cpp:63-87 | the words of a 192-bit key behind its first round constant, as in appendix A.2 |
| AesExamples.A2Words10 | src/aes.cpp:63-87 | and the next ones, with the second round constant |
| AesExamples.A3Words8 | src/aes.cpp:63-87 | the words of a 256-bit key behind its first round constant, as in appendix A.3 |
| AesExamples.A3Words12 | src/aes.cpp:78-82 | and those behind the substitution in the middle, without rotation and constant |
| AesExamples.A3Words16 | src/aes.cpp:63-87 | and those with the second round constant |
| AesExamples.BlockExample | src/aes.cpp:144-161 | the block of appendix B of FIPS 197 is encrypted as the standard says, through all ten rounds |
| AesCipher.SubBytesInPlace | src/aes.cpp:90-92 | the loop substitutes every byte of the state |
| AesCipher.InvSubBytesInPlace | src/aes.cpp:93-95 | the loop substitutes every byte of the state back |
| AesCipher.ShiftRowsInPlace | src/aes.cpp:97-105 | the assignments through one temporary shift all rows |
| AesCipher.InvShiftRowsInPlace | src/aes.cpp:107-115 | the assignments through one temporary shift all rows back |
| AesCipher.MixColumnsInPlace | src/aes.cpp:117-126 | the loop mixes every column |
| AesCipher.InvMixColumnsInPlace | src/aes.cpp:128-137 | the loop mixes every column back |
| AesCipher.ExpandKeyInPlace | src/aes.cpp:63-87 | the buffer is filled with the key schedule of section 5.2 of FIPS 197 |
| AesCipher.EncryptBlk | src/aes.cpp:144-161 | the in-place rounds compute the block cipher |
| AesCipher.DecryptBlk | src/aes.cpp:163-180 | the in-place rounds, counted down, compute its inverse |
| AesModes.PaddingInverse | src/aes.cpp:183-201 | unpadding accepts exactly the padded messages and gives the message back |
| AesModes.EcbInverse | src/aes.cpp:218-236 | block by block encryption and decryption undo each other both ways |
| AesModes.CbcInverse | src/aes.cpp:252-285 | chained encryption and decryption undo each other both ways, for every chaining value |
| AesModes.EncryptDecryptInverse | src/aes.cpp:207-287 | a cipher text is accepted with a message as its decryption exactly if it is the encryption of that message |
| AesModes.RoundTrip | src/aes.cpp:207-287 | under a key of the right length every message can be encrypted, grows by its padding and comes back |
| AesModes.FilledUpPads | src/aes.cpp:183-189 | the padding is 1 to 16 bytes up to a whole block, each of which tells how many they are, and that only |
| AesModes.EcbBlocks | src/aes.cpp:218-219 | every block of the cipher text is the encryption of the block in its place |
| AesModes.CbcBlocks | src/aes.cpp:252-260 | every block of the cipher text is the encryption of the block in its place XORed with the cipher text before it, the first one with the start of the chain |
| AesModes.EcbMessage | src/aes.cpp:207-222 | the same from message to cipher text: padded, under a key that is used whole |
| AesModes.CbcMessage | src/aes.cpp:241-262 | and for the chaining: the key proper comes first and the start of the chain behind it |
| AesModes.PadMessage | src/aes.cpp:183-189 | the loop appends the padding |
| AesModes.UnpadMessage | src/aes.cpp:191-201 | the checks accept and cut off exactly the padding |
| AesModes.EncryptBlocks | src/aes.cpp:218-219 | the loop encrypts block by block |
| AesModes.DecryptBlocks | src/aes.cpp:234-236 | the loop decrypts block by block |
| AesModes.EncryptChain | src/aes.cpp:252-260 | the loop chains every block to the cipher text before it |
| AesModes.DecryptChain | src/aes.cpp:274-285 | the loop takes the chaining off again |
| AesModes.EncryptOneShot | src/aes.cpp:207-262 | both modes and three key lengths, keys of a wrong length refused |
| AesModes.DecryptOneShot | src/aes.cpp:224-287 | both modes and three key lengths, wrong keys, lengths and paddings refused |
| Drawer.RoundedNearest | include/drawer.hpp:172-188 | the point at step k is the one nearest integer to the ideal line, halves taken downward |
| Drawer.FlatStep | include/drawer.hpp:183-186 | on flat lines the two conditions on the error step in x always and in y exactly when the nearest row changes |
| Drawer.SteepStep | include/drawer.hpp:183-186 | on steep lines the roles of x and y are exchanged |
| Drawer.LineShape | include/drawer.hpp:172-188 | in all octants the line has max(dx, dy) + 1 points from its start to its end, each a neighbour of the one before, all within half a pixel of the ideal line |
| Drawer.AtPoint | include/drawer.hpp:180-182 | the loop is about to plot point k, and the end point is reached at the last step only |
| Drawer.AtStep | include/drawer.hpp:183-186 | one turn of the loop leads from step k to step k + 1, and every intermediate value stays in 32 bits |
| Drawer.AtBetween | include/drawer.hpp:183-186 | the loop never leaves the rectangle between the end points |
| Drawer.Canvas.Plot | include/drawer.hpp:104-112 | a point outside the target is clipped, any other takes the colour of the pen, and no other pixel changes |
| Drawer.RepresentableInRange | include/drawer.hpp:172-188 | on all diagonals, on straight lines up to half of the range and on all others within two linear bounds on the extents, no intermediate value leaves 32 bits |
| Drawer.Canvas.DrawLine | include/drawer.hpp:172-188 | on every line without overflow of 32-bit integers the loop ends having coloured exactly the points of the line on the target |
| Crc32.StepXor | src/crc32.cpp:20-25 | one shift of the register is linear over XOR |
| Crc32.StepsEight | src/crc32.cpp:45-46 | eight shifts move the upper bytes down and add what the lowest byte turns into |
| Crc32.AbsorbShifts | src/crc32.cpp:43-47 | one byte through the table is its eight bits through the register, lowest first |
| Crc32.AbsorbAllShifts | src/crc32.cpp:41-48 | the table-driven loop is the bit-serial register, for every message and state |
| Crc32.AbsorbAllConcat | src/crc32.cpp:41-48 | feeding two chunks is feeding their concatenation |
| Crc32.BurstDetected | src/crc32.cpp:41-48 | two bit streams that differ, and only within 32 consecutive bits, leave different registers |
| Crc32.ByteBurstDetected | src/crc32.cpp:33-37 | messages that differ in a run of at most four bytes have different digests |
| Crc32.PolynomialUndetected | src/crc32.cpp:11-27 | 32 is the limit: a burst of 33 bits goes unnoticed |
| Crc32.DigestInjective | src/crc32.cpp:50-59 | the digest determines the register |
| Crc32.Residue | src/crc32.cpp:33-59 | every message followed by its digest in reverse order has one and the same digest |
| Crc32.DigestOfAbc | doc/crc32.md:68-73 | the published digest of abc |
| Crc32.BuildTable | src/crc32.cpp:12-27 | entry i is i shifted eight times |
| Crc32.Stream.Update | src/crc32.cpp:41-48 | the loop feeds the chunk into the register |
| Crc32.Stream.End | src/crc32.cpp:50-59 | the register is inverted and written highest byte first |
| Crc32.HashOneShot | src/crc32.cpp:33-37 | the one-shot digest |
| Crc32.HashStream | include/hash_api.hpp:73-86 | an input read in blocks of any size has the digest of the whole |
| JsonString.EscapeLengthens | src/json.cpp:1012-1094 | escaping leaves exactly the plain strings as they are and lengthens all others |
| JsonString.AsciiEscapeForgets | src/json.cpp:1046-1086 | with non-ASCII escaping the character after a decoded sequence is lost: replacing it changes nothing |
| JsonAscii.AsciiRoundTrip | src/json.cpp:1046-1086 | a byte string comes back from its non-ASCII escaping if and only if every character from 0x80 on belongs to a shortest sequence of two or three bytes that ends the string or is followed by C2 and a continuation byte |
| JsonAscii.ReadAscii | src/json.cpp:602-682 | what the reader makes of any string written that way: lost characters, lone bytes as code points, surrogates as two sequences |
| JsonAscii.DroppedReturns | src/json.cpp:1046-1086 | the dropped character is made up for by what follows in exactly one case |
| JsonString.ReadEscaped | src/json.cpp:602-682 | reading what was escaped once gives the string back, for every string |
| JsonString.ReadQuoted | src/json.cpp:1207-1210 | a key or string is escaped twice on writing, and reading takes off one layer |
| JsonValue.PutSorted | src/json.cpp:740 | insertion keeps the fields in order of their keys, each key once |
| JsonValue.FindPut | src/json.cpp:740 | a key that is there keeps its value, a new one gets the value, and all other keys keep theirs |
| JsonText.ParseDecimal | src/json.cpp:820-892 | every 64-bit integer is read back from its decimal text, whatever follows that does not continue a number |
| JsonText.ReadValue | src/json.cpp:684-702 | the text of a value in any layout and at any level is read as the value with every string and key escaped once, and nothing behind it is consumed |
| JsonText.RewrittenSame | src/json.cpp:1096-1169 | escaping all strings and keys once gives the value itself exactly if none needs it |
| JsonText.RoundTrip | src/json.cpp:976-1010 | reading what was written gives the escaped value, and the value itself exactly if no string or key needs escaping and none is one that an extension converts, in every layout |
| JsonText.ParseOrdered | src/json.cpp:724-759 | every accepted text gives objects in order of their keys, each key once |
| JsonReader.Parser.SkipWhitespace | src/json.cpp:561-591 | the cursor moves over the spaces and no further |
| JsonReader.Parser.ParseJsonString | src/json.cpp:602-682 | the loop reads a literal with its escapes, or fails, as the grammar says |
| JsonReader.Parser.ParseNumber | src/json.cpp:820-892 | sign, integer part, fraction and exponent are read as the grammar says, an integer beyond 64 bits as a floating value; a literal that the conversion refuses is a failure |
| JsonReader.Parser.ParseArray | src/json.cpp:761-797 | the loop reads an array as the grammar says |
| JsonReader.Parser.GetNextObject | src/json.cpp:894-916 | a name, a colon and a value are read as the grammar says |
| JsonReader.Parser.ParseObject | src/json.cpp:724-759 | the loop reads an object as the grammar says, the first of several equal keys winning |
| JsonReader.Parser.ParseJsonValue | src/json.cpp:684-702 | the first character decides the kind of value |
| JsonReader.FromString | src/json.cpp:498-503 | a document is the value at its very start, in order of its keys; what follows is not looked at |
| JsonGrammar.LanguageExactly | src/json.cpp:684-916 | the reader accepts exactly the texts that the syntax of JSON generates, with any spaces between the tokens, and gives the value that the syntax tree means |
| JsonGrammar.StringExactly | src/json.cpp:602-682 | a literal behind its quote is read exactly as it is spelled: plain characters, the two-character escapes and the codes of four digits, and codes of two digits as an extension |
| JsonGrammar.NumberExactly | src/json.cpp:820-892 | a number is read exactly as it is spelled, as far as it goes, as an integer if it has neither fraction nor exponent and fits 64 bits |
| JsonGrammar.CodeNumber | src/json.cpp:637-645 | four hexadecimal digits of either case are the number that they spell |
| JsonGrammar.HexDigits | src/json.cpp:637-645 | the sixteen digits in both cases, and the one that is written |
| JsonWriter.Exporter.EscapeJsonString | src/json.cpp:1012-1094 | the loop escapes the string, in both modes |
| JsonWriter.Exporter.ExportArray | src/json.cpp:1143-1163 | the loop appends the text of the array |
| JsonWriter.Exporter.ExportObject | src/json.cpp:1117-1141 | the loop appends the text of the object |
| JsonWriter.Exporter.ExportValue | src/json.cpp:991-1010 | the text of the value is appended to the result |
| JsonWriter.Exporter.ExportToString | src/json.cpp:976-981 | the result is the text of the value from level 0 |
| JsonWriter.Exporter.ExportToCompactString | src/json.cpp:983-989 | the text is the one in the compact layout, which the exporter keeps from then on |
| JsonLayout.ValueLaid | src/json.cpp:991-1175 | the text of a value at any level in any layout is its compact text, laid out: a line ends behind an opening bracket and a comma and before a closing bracket, and a space follows a colon, empty brackets and the insides of strings apart |
| JsonLayout.DocumentLaid | src/json.cpp:976-981 | a document in any layout is the compact one, laid out from the first level |
| JsonWriter.WriteAndRead | src/json.cpp:516-527 | the text that the writer produces reads back as the value exactly if nothing in it needs escaping |
| Http.HeaderEndPrefix | src/http.cpp:165-168 | all texts with a common beginning agree on where the headers end |
| Http.HeadDecides | src/http.cpp:94-163 | once the headers are complete, what follows can change the body only |
| Http.SerializeDeserialize | src/http.cpp:67-163 | reading a well-formed request that was written gives it back, with its length where that was missing |
| HttpRoundTrip.RoundTripExactly | src/http.cpp:67-163 | a written request is read back if and only if its method has a name, path and version are words, the headers are in order, on one line each with a value that starts with no blank, and the body has no null character |
| HttpRoundTrip.DeserializedForm | src/http.cpp:94-163 | what any request that was read is like |
| Http.WrittenRead | src/http.cpp:67-163 | what the receiver sees of a request whose headers are on one line each, blanks and null characters included; a method without a name arrives as GET |
| Http.WrittenLength | src/http.cpp:80-83 | a written request announces the length of its body exactly if a given length was right and a missing one fits 64 bits |
| Http.MethodExactly | src/http.cpp:9-57 | the names of the nine methods, and no other word is one |
| Http.SerializeExample | src/http.cpp:67-92 | a written request, character by character |
| Http.NumberRead | src/http.cpp:170-181 | the length is read from spaces, a sign and digits: negative ones wrap around at 64 bits, and what is out of range is none |
| Http.NoNumber | src/http.cpp:170-181 | without a digit there is no length |
| Http.FirstLineRead | src/http.cpp:116-125 | method, path and version are the first three words; a missing version is HTTP/1.1, a missing path or an unknown method an error |
| Http.HeaderLineRead | src/http.cpp:137-154 | a line with a colon sets a header, blanks in front of the value taken off unless there is nothing else; any other is ignored |
| Http.LookupOther | src/http.cpp:154 | the last of several headers with one name counts, and others keep their values |
| HttpStream.InputStream.GetLine | src/http.cpp:102-113 | a line is taken off the stream together with its end |
| HttpStream.ReadHeaderLines | src/http.cpp:127-155 | the loop collects the headers up to the empty line |
| HttpStream.DeserializeRequest | src/http.cpp:94-163 | the stream of lines gives the request, or fails, as the format says |
| HttpStream.SerializeRequest | src/http.cpp:67-92 | the request is written line by line |
| HttpStream.WriteHeaders | src/http.cpp:74-83 | the loop writes the headers, and the length of a body that has none |
| HttpResponse.StatusLines | src/http.cpp:191 | the first lines for the codes 200, 400, 404 and 500 |
| HttpResponse.ResponseRead | src/http.cpp:212-273 | what the receiver sees of a response whose headers are on one line each |
| HttpResponse.ResponseRoundTrip | src/http.cpp:185-273 | a written response is read back, with its length where that was missing, if and only if it is well formed |
| HttpResponse.TextSeen | src/http.cpp:280-287 | the receiver of a text response reads its code, its text up to a null character, and the length of the text |
| HttpResponse.WriteResponse | src/http.cpp:185-210 | the response is written line by line |
| HttpResponse.ReadResponse | src/http.cpp:212-273 | the stream of lines gives the response as the format says |
| HttpServer.ReadyExactly | src/httpserver.cpp:88-113 | a buffer is answered exactly when it reaches the length of the first message in the text |
| HttpServer.RunComplete | src/httpserver.cpp:68-144 | one complete message in any pieces gets one response, to the last piece, and leaves the buffer empty |
| HttpServer.AnsweredOnceExactly | src/httpserver.cpp:68-144 | a text is answered once and alike however it is cut if and only if it is one complete message |
| HttpServer.MessagesAnswered | src/httpserver.cpp:68-144 | messages one after the other, each in pieces of its own, are answered one by one |
| HttpServer.PipelinedLost | src/httpserver.cpp:141-142 | whatever follows the end of a message in the same piece is handled with that message and dropped: one response, to that piece, and an empty buffer, in any pieces before it |
| HttpServer.TakenAnswered | src/httpserver.cpp:68-144 | for any buffer and pieces the responses are the answers to the texts taken off the buffer, and every byte is in one of them or left in the buffer |
| HttpServer.GroupedExactly | src/httpserver.cpp:68-144 | however complete messages are cut into pieces, each of them is answered for itself if and only if every message ends where a piece ends |
| HttpServer.RequestAnswered | src/httpserver.cpp:68-144 | a well-formed request that is written is answered once however it is cut if and only if its length is announced right, and the handler sees it with its length |
| HttpServer.ClientsApart | src/httpserver.cpp:83-86 | whatever other clients send in between, each client is served as if it were alone |
| HttpServer.ServedAmongOthers | src/httpserver.cpp:68-144 | among any traffic of others, the pieces that complete a message in a buffer get one response, to the last of them, and the buffer ends empty |
| HttpServer.ConversationServed | src/httpserver.cpp:68-144 | and a client that sends message after message gets the answer to each of them |
| HttpServer.GroupedAmongOthers | src/httpserver.cpp:68-144 | among any traffic of others each message of a client is answered for itself under exactly that condition, and then nothing is left in its buffer |
| HttpServer.ServeUnready | src/httpserver.cpp:83-144 | no run leaves a complete message in a buffer |
| HttpServer.NewestDecides | src/httpserver.cpp:40-43 | after any sequence of bindings a request reaches the newest handler of its method and path |
| HttpServer.NoneDecides | src/httpserver.cpp:115-133 | a request that no binding matches is not found |
| HttpServer.AnswerTells | src/httpserver.cpp:88-136 | a text has exactly one fate: its request cannot be read, no binding matches it, or the newest binding that does has a handler that returns or throws; code and text of the answer are those of the fate |
| HttpServer.ClientSees | src/httpserver.cpp:88-139 | a client that reads the bytes of the answer gets 200 and the text of the handler exactly if a binding matches and the handler returns, 500 exactly if it throws, 404 exactly if no binding matches and 400 exactly if the request cannot be read, each with the length of the text |
| HttpServer.Server.HandleClient | src/httpserver.cpp:68-144 | the buffers and the bytes written are those of one step for this client, and a client that reads the bytes gets the code and the text that the bindings and the handler call for |
| HttpServer.Server.Tick | src/httpserver.cpp:45-56 | a round over the clients performs the steps in order |
| Multindex.ViewIsPartition | include/multindex.hpp:418-432 | what the three maps say together is a partition of the indices, labelled with values |
| Multindex.PartitionKept | include/multindex.hpp:82-116 | exchanging one part of a partition keeps it a partition |
| Multindex.BindErase | include/multindex.hpp:100-117 | erasing a bound index undoes the binding |
| Multindex.AssignSeen | include/multindex.hpp:403-416 | a value assigned through one index is seen through exactly the indices that share it |
| Multindex.BoundSeen | include/multindex.hpp:100-117 | after a binding the new index has the value of the known one, and every other index what it had |
| Multindex.ErasedSeen | include/multindex.hpp:185-205 | after an erasure every other index has the value that it had |
| Multindex.UniquefiedSeen | include/multindex.hpp:270-289 | of the indices of the value this one is left, and every index of another value has what it had |
| Multindex.Multindex.Insert | include/multindex.hpp:82-96 | an unknown index gets a cell of its own; a known one changes nothing |
| Multindex.Multindex.Bind | include/multindex.hpp:100-117 | a new index joins the cell of a known one; anything else changes nothing |
| Multindex.Multindex.Find | include/multindex.hpp:120-145 | exactly the known indices are found, with their values |
| Multindex.Multindex.Erase | include/multindex.hpp:185-205 | an index leaves its cell, which goes with its last index |
| Multindex.Multindex.FindValue | include/multindex.hpp:209-221 | the lowest uid with the value is found, if there is one |
| Multindex.Multindex.EraseValue | include/multindex.hpp:208-236 | the oldest of the equal values goes with all its indices, or nothing changes |
| Multindex.Multindex.EraseValueByIndex | include/multindex.hpp:239-251 | the oldest value equal to that of the index goes with all its indices; the index itself goes exactly if its own value is that one |
| Multindex.OlderErased | include/multindex.hpp:239-251 | of two equal values the erasure by the index of the newer one takes the older one, and the index stays |
| Multindex.Multindex.Uniquefy | include/multindex.hpp:270-289 | all other indices of the value go |
| Multindex.Multindex.Assign | include/multindex.hpp:403-416 | assignment through the subscript changes the value of the whole cell, or adds an index |
| Multindex.Multindex.Clear | include/multindex.hpp:306-311 | nothing is left |
| Multindex.Multindex.Unfold | include/multindex.hpp:360-369 | the unfolded map gives every index its value |
| Sorting.Partition | include/atxsort.hpp:35-44 | the moving hole leaves the pivot between what goes before it and what does not, a permutation of the range |
| Sorting.QuickSort | include/atxsort.hpp:33-47 | a permutation for every comparison, in order for every strict one, nothing changed outside the range |
| Sorting.MergeSortStable | include/atxsort.hpp:51-80 | the result is ordered, a permutation, and keeps elements that are alike in their order, for every strict weak order |
| Sorting.StableUnique | include/atxsort.hpp:51-80 | there is only one such arrangement |
| Sorting.MergeSort | include/atxsort.hpp:51-80 | the range is sorted through a buffer, nothing changed outside of it |
| Sorting.MergeInto | include/atxsort.hpp:59-78 | the three loops merge the two halves |
| Sorting.PassDescending | include/atxsort.hpp:92-103 | one pass puts ones before zeros and keeps the order of the lower bits |
| Sorting.PassesSort | include/atxsort.hpp:85-104 | a permutation in non-increasing order of the unsigned bit patterns |
| Sorting.SignedOrder | include/atxsort.hpp:85-104 | numbers of a signed type come out in non-increasing order exactly if all have the same sign |
| Sorting.RadixSort | include/atxsort.hpp:85-104 | the loops perform the passes from the lowest bit up on the range, and nothing outside of it changes |
| BitShift.BitShiftLeft | src/bytearray.cpp:168-194 | every bit moves k places to the left and zeros come in, for every k |
| BitShift.BitShiftRight | src/bytearray.cpp:196-222 | every bit moves k places to the right and zeros come in, for every k |
| BitShift.ShiftLeftNumber | src/bytearray.cpp:168-194 | the array as a big-endian number is multiplied by 2^k modulo 256^n |
| BitShift.ShiftRightNumber | src/bytearray.cpp:196-222 | the number is divided by 2^k |
| BitShift.BitRotateRight | src/bytearray.cpp:243-260 | bit p goes to place (p + k) mod 8n |
| BitShift.RotationsAdd | src/bytearray.cpp:243-260 | rotating by j and then by k is rotating by j + k |
| BitShift.BitRotateLeft | src/bytearray.cpp:224-241 | the loop as it is, low bits going to the byte after |
| BitShift.RotateLeftExactly | src/bytearray.cpp:224-241 | the rotation to the left undoes the one to the right on all arrays of n bytes if and only if n <= 2 or k is a multiple of 8 |
| FilePack.LoadDump | src/filepack.cpp:96-108 | wherever a pack was written, loading gives the files and ends exactly behind it |
| FilePack.LoadedWasDumped | src/filepack.cpp:96-108 | loading accepts only what dumping writes: the bytes it consumes are those of the files it gives |
| FilePack.DumpExample | src/filepack.cpp:110-129 | the bytes of a pack, field by field |
| FilePack.PrefixFree | src/filepack.cpp:110-129 | no pack is the beginning of another one |
| FilePack.FoundAfterAdding | src/filepack.cpp:53-72 | an added file is found by its name unless an older one has that name, and every other file is found as before |
| FilePack.Pack.GetFile | src/filepack.cpp:63-72 | the first file of that name is found, and failure means there is none |
| FilePack.Pack.DumpTo | src/filepack.cpp:110-129 | the loops write the table of contents and then the contents |
| FilePack.Pack.LoadFrom | src/filepack.cpp:96-108 | the loops read the pack, or fail, as the format says |
| PackedBitmap.SetBitBits | include/bits.hpp:23-33 | setting one bit of a byte changes no other bit |
| PackedBitmap.PlacesDiffer | src/bitmap.cpp:274-279 | different pixels lie in different bytes or at different bits |
| PackedBitmap.RowBytesLeast | src/bitmap.cpp:274-279 | no row is longer than it needs to be for its pixels and its alignment |
| PackedBitmap.OnePixel | src/bitmap.cpp:8-26 | reading any pixel after setting any one gives the new value at the same place and the old value elsewhere |
| PackedBitmap.Bitmap.SetPixel | src/bitmap.cpp:8-18 | the old value is returned and exactly this pixel changes; outside of the image nothing does |
| PackedBitmap.Bitmap.Overlap | src/bitmap.cpp:281-291 | exactly the pixels under the other image are combined with it; an image over itself is read as it changes |
| Bmp.EncodeDecode | src/bitmap.cpp:130-252 | a file that was written gives the image back: size, pixels, bottom-up padded rows and palette |
| Bmp.EncodeAccepted | src/bitmap.cpp:179-239 | no check refuses a written file, and its palette says that a set bit is dark |
| BmpFormat.HeaderFields | src/bitmap.cpp:148-163 | every field of the two headers and the palette of a written file |
| BmpFormat.AreaBits | src/bitmap.cpp:165-175 | bit j, from the highest one, of byte c of row r of the pixel data is the pixel 8 c + j of the row counted from the bottom, and 0 beyond the width |
| BmpFormat.RowLength | src/bitmap.cpp:132-133 | a row takes the least multiple of four bytes that holds it |
| BmpFormat.AcceptedExactly | src/bitmap.cpp:181-224 | the files that are read: signature, header size, extents, one plane of one bit, no compression, and all rows there |
| BmpFormat.DarkExactly | src/bitmap.cpp:226-239 | a set bit is a dark pixel unless there are two palette entries of which the first is not brighter |
| BmpFormat.TopDown | src/bitmap.cpp:215-244 | a file with the negative height has the image of the one with the positive height upside down |
| Bmp.PackedBit | src/bitmap.cpp:165-175 | the loop sets bit x mod 8, from the highest one, of byte x / 8 exactly for dark pixels |
| Bmp.ToBmp | src/bitmap.cpp:130-177 | header, palette and rows are written as the format says, for every row alignment in memory |
| Bmp.FromBmp | src/bitmap.cpp:179-252 | a refused file gives the first reason; any other one whose image the bitmap can hold gives a bitmap with its pixels, rows from the top or the bottom |
| Bmp.SmallEnough | src/bitmap.cpp:200-225 | the image of every accepted file below 4 GiB can be held |

## Left out

- Simplifier.Simplify: asks for a tree without moved-from nodes; the C++ standard leaves the contents of a moved-from string open, so the model has hollow nodes and says nothing of their ids.
- Logical.AddNot: codes with the not bit on an implication, which the enumeration does not have; `ConditionCodec.NotBit` shows it.
- Simplifier.SimplifyPreserves: a tree as a whole can keep its meaning although a subtree of it does not, when an operator above ignores the subtree; the equivalence is stated for the tree with its subtrees, `Simplifier.KeepsExactly`.
- Minimizer.Simplify: that the cover is a smallest one, which a greedy choice does not promise; proved is the greedy choice itself. Among primes that cover equally many of the remaining minterms the first in the list is taken (`PrimeCover.BestGain`), and the order of that list is not stated for the result.
- ConditionCodec.LoadDump: ids of 2^32 bytes and more do not fit their prefix.
- AesModes.EncryptOneShot: the stream types for AES are not modelled; they restart the chain at every update.
- Drawer.Canvas.DrawLine: lines on which an intermediate value leaves 32 bits, where the behaviour of the code is undefined; circles, fills and anti-aliased lines.
- JsonText.RoundTrip: floating values are kept as the literal they were read from; the conversions of the C library and the values of converted data URIs and base64 strings are not modelled, nor are comments.
- JsonReader.FromString: the wording of error messages; for which literals the conversion to a floating number throws is a parameter, as it is up to the C library.
- HttpServer.Server.HandleClient: sockets and their errors; the handler is any function from requests to a text or an exception.
- Multindex.Multindex.Insert: uids do not wrap around; the construction from nested lists and the iteration accessors.
- PackedBitmap.Bitmap.constructor: asks for sizes that the header fields hold; the resizing that keeps contents is not modelled.
- Bmp.FromBmp: images of 2^32 bytes and more, whose size the header field truncates, so that the pixels leave the buffer.
- ByteArray.Buffer.TakeBytes: the check of the source adds the cursor and the length in 64 bits; a length of at least 2^64 minus the cursor passes it, and the pointer arithmetic behind it is undefined. The model fails there.
- PackedBitmap.Bitmap.Overlap: offsets at which a column or row number leaves 64 bits and starts again from the left or the top.
- FilePack.Pack.DumpTo: sorting of the entries, which goes through the standard library.
- Sorting.MergeSort: the buffer is a sequence; iterators that are not indices into an array.
- std::sort, std::set and std::map are modelled as sorted sequences or as maps and sets.
- The tokenizer for the second notation of conditions, unbound functions in `evaluate`, and coloured truth tables.
- Base64, hexadecimal and the other text conversions of byte arrays.
- Symbolic mathematics, the key database, encodings, logging, processes and files.
