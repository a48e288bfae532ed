# Verified models of the intl library

The game's translations rest on a bundled copy of GNU gettext's `intl` library. This project models the
algorithmic parts of that library in Dafny and proves what they are for. `dafny verify dfyconfig.toml` checks
everything.

* **Bignum arithmetic for printf** (`Limbs`, `Division`, `Shifting`, `Bignum`, `Decimal`, `ScaleMath`, `Scale10`):
  numbers of 32-bit limbs in arrays, multiplied and divided in place with 64-bit intermediates, up to the decimal
  digits of m·2^e·10^n rounded half to even. The model is of the configuration in which this code is compiled, with
  the long-double and double directives enabled outside libintl.
* **The red/black tree of tsearch** (`RedBlack`, `TreeHeap`, `TreeOps`, `TreeSplit`, `TreeInsert`, `TreeShort`,
  `TreeUnchain`, `TreeDelete`): nodes in the heap, changed through slots (addresses of child pointers). `Shape` is the
  tree that is stored, `Rep` says that the heap stores it, and every method says which tree it makes of which. The
  colour of the root means nothing, so the invariant leaves it free.
* **Plural expressions** (`PluralTables` to `PluralLookup`): the lexer, the bison tables with their driver loop, the
  grammar they encode, evaluation on machine words, extraction from a catalogue header, and the choice of a variant.
  `PluralSpelling`, `PluralLaws` and `PluralHeader` say what texts and operators mean without the functions that the
  code is compared with.
  The tables are written as functions from an index; `Phrase` is the grammar, `PluralAutomaton` the machine on whose
  runs soundness (`PluralParsing`) and completeness (`PluralReading`) are proved, and `PluralParser` the driver with
  arrays that follows it.
* **The catalogue index** (`HashPjw`, `Probing`, `Catalogue`, `SysdepStrings`, `SysdepMeaning`): the hash function,
  double hashing, binary search, the hash table rebuilt with system-dependent strings, and the two passes that size and
  build these strings.
* **Locks** (`Counting`, `PosixRwlock`, `WaitQueue`, `Win32Rwlock`, `Win32Once`): two read/write locks and one-time
  initialisation, as systems of any number of threads. The steps of the read/write locks are the stretches of code
  between acquiring and releasing the inner mutex, those of the initialisation single accesses to shared memory.
* **Locale files and format strings** (`LocaleMasks`, `LocaleFiles`, `LocaleNames`, `LocaleSuccessors`, `LocaleList`,
  `PrintfArguments`, `PrintfSyntax`, `PrintfGrammar`, `PrintfStandard`, `PrintfOrder`, `PrintfFormat`, `PrintfParse`):
  the memoised graph of locale files, the names that are built for them and how they are read; the grammar of format
  strings, how it differs from that of ISO C99, which arguments the directives take, the parser, and what a parsed
  format guarantees to the code that executes it.

Where code and comment differ, the model follows the code. The comment in `plural_lookup` says that an index out of
range never happens; the code handles it, and so does the model. The hash is computed in 64 bits and cut to 32
where it is used, as the code does; that this agrees with hosts of 32 bits is proved.

## Model

| member | source | states |
|---|---|---|
| Bignum.Divide | liquidwar6/intl/vasnprintf.c:352-746 | The quotient is normalised and is a/b rounded to the nearest integer, ties to even, for all bignums a and b > 0, over the paths with fewer limbs in a, one limb in b, and the multi-limb loop, and through the final increment with its carry-out. |
| Bignum.RoundHalfEvenIsNearest | liquidwar6/intl/vasnprintf.c:345-351 | Rounding half to even is the one integer nearest to a/b that is even when two are equally near; the reference the division is proved against is unique. |
| Bignum.DivideNormalised | liquidwar6/intl/vasnprintf.c:442-709 | All three paths leave quotient and remainder of a by b in the shared room, the remainder below the divisor they are compared with (scaled by the same power of two). |
| Bignum.DivideTrivial | liquidwar6/intl/vasnprintf.c:442-450 | With fewer limbs in a than in b the quotient is 0 and a itself the remainder. |
| Bignum.DivideSingle | liquidwar6/intl/vasnprintf.c:451-483 | Division by one limb gives exact quotient and remainder, without a zero top limb. |
| Bignum.DivideLong | liquidwar6/intl/vasnprintf.c:484-709 | Shift, multi-limb loop and trimming give the quotient of a by b and the remainder scaled by 2^s, stored side by side without destroying each other. |
| DivisionLoops.EstimateDigit | liquidwar6/intl/vasnprintf.c:583-629 | The digit estimate from the top three limbs of the window and the top two of the divisor is the largest q* whose product with those two limbs does not exceed the three; no 64-bit intermediate overflows. |
| DivisionMath.EstimateIsExactOrOneTooBig | liquidwar6/intl/vasnprintf.c:372-396 | Such an estimate is the true quotient digit or one more, whatever the lower limbs are, as long as the top bit of the divisor is set. |
| DivisionLoops.DivideWindow | liquidwar6/intl/vasnprintf.c:582-680 | One window: after subtracting q*·b and at most one add-back, the window holds the remainder and the digit stored above it is the quotient of window by b. |
| DivisionLoops.SubtractProduct | liquidwar6/intl/vasnprintf.c:633-652 | The in-place subtraction of q*·b from the window is exact up to the borrow it reports, with limb products and borrows inside 64 bits. |
| DivisionLoops.AddBack | liquidwar6/intl/vasnprintf.c:655-677 | Adding b back is exact up to the carry it drops. |
| DivisionLoops.DivisionPass | liquidwar6/intl/vasnprintf.c:581-684 | Each pass takes r < b·beta^(j+1) to r < b·beta^j while digits and remainder together still denote a: a = digits·b·beta^j + rest. |
| DivisionLoops.DivideLoop | liquidwar6/intl/vasnprintf.c:573-685 | The whole loop leaves a mod b in r[..n] and a div b in r[n..m+1], in place, and touches nothing above. |
| LimbLoops.LeadingZeros | liquidwar6/intl/vasnprintf.c:491-519 | The halving search finds the one shift that brings the top set bit of a limb to bit 31. |
| LimbLoops.CompareTwice | liquidwar6/intl/vasnprintf.c:710-729 | The loop that compares 2r with b limb by limb, reading 2r on the fly, reports below, equal or above exactly as the numbers compare. |
| LimbLoops.Increment | liquidwar6/intl/vasnprintf.c:730-739 | Rounding up adds one to the number, whether the carry stops inside or runs out and makes a new top limb. |
| Bignum.ShiftKeepsLength | liquidwar6/intl/vasnprintf.c:520-546 | Shifting the divisor by s loses no bit, so the abort() behind it cannot be reached, and its top bit is set. |
| Bignum.QuotientTop | liquidwar6/intl/vasnprintf.c:687-689 | At most the one topmost quotient limb the code tests for can be zero. |
| Bignum.Multiply | liquidwar6/intl/vasnprintf.c:280-343 | The product of two bignums, normalised, for operands in either order and also when one is zero. |
| Bignum.MultiplyRow | liquidwar6/intl/vasnprintf.c:324-334 | One row adds digit·p2 at position i in place, with 64-bit intermediates. |
| Decimal.ConvertToDecimal | liquidwar6/intl/vasnprintf.c:748-800 | For every bignum the loop over blocks of nine digits ends and gives the digits, low to high, of a·10^extra_zeroes, without a leading zero unless the number is 0. |
| Decimal.DecimalUnique | liquidwar6/intl/vasnprintf.c:748-753 | A number has only one digit string of that form, so the contract above pins the result down. |
| Scale10.ScaleRoundDecimal | liquidwar6/intl/vasnprintf.c:972-1190 | For every bignum m and integers e, n the digits are those of m·2^e·10^n rounded half to even: all four sign cases, the factoring out of zeroes and the power of five in blocks of 13. |
| Scale10.PowerOfFive | liquidwar6/intl/vasnprintf.c:1022-1049 | The blocks of 5^13 and the last smaller power multiply up to 5^abs(n). |
| Scale10.FivesFit | liquidwar6/intl/vasnprintf.c:1010-1016 | The limbs reserved for 5^abs(n) always suffice. |
| Scale10.RoundScaledMantissa | liquidwar6/intl/vasnprintf.c:1052-1179 | Each sign case gives m·2^s·5^n rounded half to even. |
| Scale10.ScaleOpposite | liquidwar6/intl/vasnprintf.c:1100-1179 | With powers of two and five on opposite sides of the fraction, numerator and denominator are built and divided so that the rounded value is that of m·2^s·5^n. |
| Scale10.ShiftLimbs | liquidwar6/intl/vasnprintf.c:1072-1086 | Shifting up by whole limbs in place, from the top down, multiplies by a power of the limb base. |
| ScaleMath.ScalingIsExact | liquidwar6/intl/vasnprintf.c:995-1009 | Taking powers of ten out of the number and appending that many zeroes afterwards does not change the rounded result. |
| ScaleMath.Factoring | liquidwar6/intl/vasnprintf.c:998-1009 | The factoring the code uses is exact whenever the power of two taken out is present. |
| ScaleMath.FractionsAgree | liquidwar6/intl/vasnprintf.c:995-998 | m·2^e·10^n is m·2^(e+n)·5^n as a fraction, in all sign combinations. |
| RedBlack.CheckTreeIsInvariant | liquidwar6/intl/tsearch.c:137-165 | The tree the debugging check accepts is exactly one with equal black counts on all paths and no two adjacent reds, the colour of the root left free. |
| TreeInsert.MaybeSplitForInsert | liquidwar6/intl/tsearch.c:174-258 | Recolouring and the single or double rotation, done through slots of root, parent and grandparent, turn the tree in the heap into the tree SplitTree describes, and write nothing else. |
| TreeSplit.SplitContents | liquidwar6/intl/tsearch.c:193-257 | That tree has the same keys and nodes, in search order. |
| TreeSplit.SplitBalances | liquidwar6/intl/tsearch.c:193-257 | It has equal black counts and no adjacent reds again wherever a red node below a red parent was split. |
| TreeInsert.Step | liquidwar6/intl/tsearch.c:284-303 | One step of the descent keeps tree and invariant and moves one level down; slots that a rotation made stale are not used before they are current again. |
| TreeInsert.SplitOtherSide | liquidwar6/intl/tsearch.c:211-235 | After a double rotation the parent and grandparent slots the loop carries on with may be stale; the step that follows provably does not split, and the one after that has fresh slots. |
| TreeInsert.SplitSameSide | liquidwar6/intl/tsearch.c:236-255 | After a single rotation the descent continues below the rotated part with slots that are right for it. |
| TreeInsert.Descent | liquidwar6/intl/tsearch.c:281-304 | The loop ends at the key, or at the one empty slot where it belongs, with all invariants intact. |
| TreeInsert.Tsearch | liquidwar6/intl/tsearch.c:263-321 | Insertion keeps search order, equal black counts and no adjacent reds, also when the key is found or malloc fails; on success the keys are the old ones plus the key, the returned node holds it and is new exactly if the key was, and every other node keeps its key. |
| TreeInsert.Tfind | liquidwar6/intl/tsearch.c:328-355 | The search finds the node of a key, or nothing exactly when the key is absent, and changes nothing. |
| TreeDelete.Tdelete | liquidwar6/intl/tsearch.c:364-607 | Deletion returns NULL with the tree unchanged if the key is absent; else the tree stays ordered, balanced and without adjacent reds, its keys are the old ones minus the given one, and the parent of the key's node is returned, or the root for the root. Exactly one node is freed and no other leaves the tree; the returned node is still in the tree unless the key's node was the root with at most one child, in which case it is the freed one. |
| TreeDelete.FindNode | liquidwar6/intl/tsearch.c:386-398 | The way down records the slots of all ancestors, and calls abort() only in trees of 2^49 nodes or more. |
| TreeDelete.FindSuccessor | liquidwar6/intl/tsearch.c:414-430 | The further way to the in-order successor keeps the record of slots complete. |
| TreeDelete.RepairStep | liquidwar6/intl/tsearch.c:459-602 | One turn of the repair loop makes the short subtree whole, or makes it shorter one level up, with the stack still naming the right slots. |
| TreeDelete.RedBrotherStep | liquidwar6/intl/tsearch.c:469-488 | A red brother is rotated away; the extra slot pushed is the right one for the case that follows. |
| TreeDelete.RepairLoop | liquidwar6/intl/tsearch.c:459-602 | The loop ends with a tree that is balanced again. |
| TreeShort.InnerNephew | liquidwar6/intl/tsearch.c:510-530 | The rotation for a red inner nephew restores the missing black edge and keeps order and colours legal. |
| TreeShort.OuterNephew | liquidwar6/intl/tsearch.c:531-546 | So does the one for a red outer nephew. |
| TreeShort.BlackBrother | liquidwar6/intl/tsearch.c:491-504 | Colouring the brother red moves the missing edge one level up. |
| TreeUnchain.UnchainBalance | liquidwar6/intl/tsearch.c:432-450 | Unchaining a red node keeps the tree balanced; unchaining a black one leaves exactly one subtree one black edge short. |
| TreeUnchain.SuccessorRemoves | liquidwar6/intl/tsearch.c:405-449 | Overwriting the node with its successor and unchaining that one removes exactly the given key and keeps search order. |
| TreeUnchain.UnchainFrees | liquidwar6/intl/tsearch.c:405-450 | Unchaining a node with at most one child takes just that node out and leaves every other with its key. |
| TreeUnchain.SuccessorFrees | liquidwar6/intl/tsearch.c:405-450 | With two children it is the successor's node that goes, while the node of the key stays and holds the successor's key. |
| TreeUnchain.PathIsLogarithmic | liquidwar6/intl/tsearch.c:32-39 | No path in a tree of n nodes is longer than 2·log2(n+1). |
| TreeUnchain.PathFitsStack | liquidwar6/intl/tsearch.c:369-376 | With fewer than 2^k nodes a path has at most 2k nodes, so 100 entries, one of them for the push of the rebalancing, suffice below 2^49 nodes. |
| PluralTables.TablesAct | liquidwar6/intl/plural.c:577-646 | For every state and token the packed tables shift operators exactly by binding strength, shift brackets and colons where they close, and reduce otherwise. |
| PluralTables.ErrorNeverShifts | liquidwar6/intl/plural.c:1692-1720 | No state has a transition on the error token, so error recovery can only give up. |
| PluralAutomaton.ReduceStep | liquidwar6/intl/plural.c:1452-1597 | Whenever the tables order a reduction, the right-hand side of the rule is on the stack with values of the right kind, and the stack stays one the grammar allows. |
| PluralParsing.RunIsSound | liquidwar6/intl/plural.c:1378-1597 | A run never gets stuck, and what it accepts is grammatical and spells exactly the tokens read. |
| PluralReading.ReadsPhrase | liquidwar6/intl/plural.c:1378-1597 | From any state in which an expression may begin, a run takes in any phrase the grammar allows there and ends with it on the stack, unless the phrase does not fit the stack. |
| PluralReading.ParserDecidesGrammar | liquidwar6/intl/plural.c:577-646 | The parser accepts a token list with a phrase if and only if the stratified grammar derives the list by that phrase and the phrase fits the stack of 10000 entries. |
| PluralReading.ParseIsComplete | liquidwar6/intl/plural.c:911-925 | A token list that spells a phrase is accepted with it if the phrase fits the stack and exhausts the stack if it does not: of phrases, only the too deep ones do. This holds for every limit above 3. |
| PluralReading.Unambiguous | liquidwar6/intl/plural.c:577-646 | No token list has two readings, however deeply nested; the size of the stack plays no part. |
| PluralParser.Yyparse | liquidwar6/intl/plural.c:1196-1597 | The driver with its state and value stacks, lazily fetched lookahead and growing arrays reports what the automaton decides on the tokens of the text, and returns the tree of the phrase. |
| PluralParser.ActionBuilds | liquidwar6/intl/plural.c:1475-1572 | The semantic actions find expressions and operators where they read them and build the tree of the reduced phrase. |
| PluralParser.Grow | liquidwar6/intl/plural.c:1335-1358 | Growing the stacks keeps their contents and never passes YYMAXDEPTH. |
| PluralLexer.Yylex | liquidwar6/intl/plural.c:1812-1953 | The lexer returns the code and value of the lexeme at the pointer and moves behind it; at the end of the expression it stays where it is.  The rows of PluralSpelling say what the lexemes are. |
| PluralSpelling.EndOfExpression | liquidwar6/intl/plural.c:1819-1940 | An expression ends exactly at the end of the text, a NUL, a semicolon or the end of the line, behind any blanks and tabs, and the lexer stays there. |
| PluralSpelling.LongOperators | liquidwar6/intl/plural.c:1851-1899 | The operators of two characters, and which operation each stands for, whatever follows them. |
| PluralSpelling.ShortOperators | liquidwar6/intl/plural.c:1862-1924 | Those of one character, where they are not the start of a longer one. |
| PluralSpelling.Operands | liquidwar6/intl/plural.c:1836-1932 | The variable, brackets, question mark and colon, and numbers as far as there are digits, with their value modulo the word size. |
| PluralSpelling.Errors | liquidwar6/intl/plural.c:1858-1947 | Everything else is an error token, also a single equals sign, ampersand or bar. |
| PluralLexer.LexNumber | liquidwar6/intl/plural.c:1836-1849 | A run of digits yields the decimal number modulo the word size. |
| PluralText.RoundTrip | liquidwar6/intl/plural.c:577-646 | Printing any well-formed tree with the parentheses the grammar needs, and lexing and parsing the text, gives the same tree back. |
| PluralText.TokensReadBack | liquidwar6/intl/plural.c:1812-1953 | Every list of tokens of expressions, written out in front of anything the lexer takes for the end, is read back. |
| PluralGrammar.WriteIsGrammatical | liquidwar6/intl/plural.c:1475-1572 | The needed parentheses make any tree grammatical without changing it. |
| PluralLaws.PrecedenceIsThatOfC | liquidwar6/intl/plural.y:139-146 | For any two binary operators, which of them may be an operand of the other without parentheses, on the left and on the right, as the precedences of C say; likewise negation and the conditional. |
| PluralEval.EvalMeans | liquidwar6/intl/eval-plural.h:23-108 | plural_eval gives the tree of a phrase the meaning read off its syntax; the rows of PluralLaws say what that is. |
| PluralLaws.ArithmeticLaws | liquidwar6/intl/eval-plural.h:62-79 | Products, sums and differences are words that differ from the exact result by a multiple of the word size. |
| PluralLaws.DivisionLaws | liquidwar6/intl/eval-plural.h:64-75 | Quotient and remainder satisfy left = q·right + r with 0 <= r < right; a division by zero is reported. |
| PluralLaws.ComparisonLaws | liquidwar6/intl/eval-plural.h:80-91 | Each comparison yields 1 exactly if the numbers compare so, else 0. |
| PluralLaws.LogicLaws | liquidwar6/intl/eval-plural.h:52-55 | And and or yield 0 or 1, and look at the right side only if the left one leaves the answer open. |
| PluralLaws.TroubleLaws | liquidwar6/intl/eval-plural.h:49-95 | Trouble on the left is met first; trouble on the right stops every other operator. |
| PluralLaws.ConditionalLaws | liquidwar6/intl/eval-plural.h:99-104 | The conditional evaluates the test and only the branch it selects. |
| PluralLaws.SimpleLaws | liquidwar6/intl/eval-plural.h:31-48 | The variable is n, a number itself, negation yields 1 for 0 and else 0, parentheses mean nothing. |
| PluralEval.WellFormedEvaluates | liquidwar6/intl/eval-plural.h:23-108 | No tree with the right number of arguments reaches the fall-through at the end of plural_eval. |
| PluralEval.GermanicPlural | liquidwar6/intl/plural-exp.c:36-61 | The default is 0 for n = 1 and 1 for every other n. |
| PluralEval.ExtractPluralExpression | liquidwar6/intl/plural-exp.c:97-155 | For every header the result is well formed; it is what the header announces, or the default with two variants if anything is missing or malformed.  What a header announces is said by the rows of PluralHeader. |
| PluralHeader.HeaderAnnounces | liquidwar6/intl/plural-exp.c:103-142 | A header announces a phrase and a number if and only if the text behind the first plural= reads as the phrase, which fits the stack, and behind the first nplurals= and white space stands the number, kept as strtoul does. |
| PluralHeader.OccursIs | liquidwar6/intl/plural-exp.c:108-109 | A pattern occurs where the text consists of what is before it, the pattern, and what is behind it. |
| PluralHeader.NothingAnnounced | liquidwar6/intl/plural-exp.c:108-112 | Without either of the two there is no announcement. |
| PluralHeader.HeaderRoundTrip | liquidwar6/intl/plural-exp.c:103-142 | Any well-formed expression within the stack limit, printed behind plural= and ended by a semicolon, a newline, a NUL or the end of the text, and any number behind nplurals=, are announced exactly. |
| PluralLookup.PluralLookup | liquidwar6/intl/dcigettext.c:1379-1413 | The pointer returned is the start of the variant the expression selects, of the first if the index is not below nplurals or there are fewer variants: what is in front of it are just the variants before; only a division by zero prevents an answer. |
| PluralLookup.VariantsJoin | liquidwar6/intl/dcigettext.c:1379-1413 | A message is its variants one behind the other, each ended by a NUL. |
| Probing.ProbeVisitsEverySlot | liquidwar6/intl/dcigettext.c:913-914 | In a table of prime size the probe visits every slot exactly once within size steps. |
| Probing.ProbeLooksAt | liquidwar6/intl/dcigettext.c:913-951 | In step k the probe for a hash value looks in slot (hash + k·(1 + hash mod (size - 2))) mod size, although the code never leaves the range of slots. |
| Probing.SlotsDiffer | liquidwar6/intl/dcigettext.c:945-948 | No slot repeats before that. |
| Probing.PrimeSplitsNoProduct | liquidwar6/intl/dcigettext.c:913-949 | A prime divides no product of two smaller numbers, which is why no two steps coincide. |
| HashPjw.HashOnNarrowHost | liquidwar6/intl/hash-string.h:21-22 | What is kept of the hash in 32 bits is what hashpjw computes where unsigned long has no more than 32, so one table serves hosts of both kinds; only the low halves of the wide intermediate values matter. |
| HashPjw.ShiftAdds | liquidwar6/intl/hash-string.c:41-42 | Each character becomes the last digit of a number to base 16. |
| HashPjw.FoldMoves | liquidwar6/intl/hash-string.c:43-48 | Bits 28 to 31 are cleared and go, by exclusive or, to bits 4 to 7. |
| HashPjw.FoldKeeps | liquidwar6/intl/hash-string.c:43-48 | All other bits stay. |
| HashPjw.LowIs | liquidwar6/intl/hash-string.h:21-22 | What is kept of the hash are its last 32 bits. |
| HashPjw.ShortHash | liquidwar6/intl/hash-string.c:38-50 | A string of up to six ASCII characters is hashed to the number with its characters as digits to base 16. |
| Catalogue.FindByHash | liquidwar6/intl/dcigettext.c:908-951 | The probe loop ends if an empty slot or the message comes up in the first round, and finds an entry with the wanted string that is reachable, or there is none. |
| Catalogue.EmptySlotStops | liquidwar6/intl/dcigettext.c:917-922 | One empty slot anywhere makes the loop end for every message. |
| Catalogue.ProbeThatNeverStops | liquidwar6/intl/dcigettext.c:916-951 | Conversely, a loop that has not ended after one round never ends. |
| Catalogue.HitIsKey | liquidwar6/intl/dcigettext.c:927-943 | The length tests, >= for file strings and > for system-dependent ones, never reject a matching string. |
| Catalogue.FindBySearch | liquidwar6/intl/dcigettext.c:952-977 | Binary search over the sorted messages finds the message, or there is none. |
| Catalogue.FindMsg | liquidwar6/intl/dcigettext.c:905-977 | With a sound hash table, or without one by binary search, the answer is the entry with the string, or NULL exactly when there is none. |
| Catalogue.TableMakesNoDifference | liquidwar6/intl/dcigettext.c:905-977 | So on a sorted catalogue hash lookup and binary search return the same index or both NULL. |
| Catalogue.StrcmpTransitive | liquidwar6/intl/dcigettext.c:966-968 | The order of strcmp is transitive, which binary search relies on. |
| Catalogue.StrcmpDecides | liquidwar6/intl/dcigettext.c:966-968 | The first character that differs decides, and a string comes before those it is a proper start of. |
| Catalogue.Insert | liquidwar6/intl/loadmsgcat.c:1216-1229 | The insertion loop ends and puts the entry into an empty slot on its own probe path, reachable for a lookup. |
| Catalogue.FillingKeepsReachable | liquidwar6/intl/loadmsgcat.c:1216-1229 | Filling an empty slot cuts no entry off. |
| Catalogue.AugmentHashTable | liquidwar6/intl/loadmsgcat.c:1204-1237 | Every entry of the file's table keeps its place and stays reachable, every system-dependent string becomes reachable by the lookup's own probe, and the result is a sound table, if one empty slot is to spare. |
| SysdepStrings.FirstPass | liquidwar6/intl/loadmsgcat.c:1005-1068 | The sizing pass refuses a file exactly if it meets a reference outside the segment table; else it counts the defined pairs and the bytes they need. |
| SysdepStrings.SecondPass | liquidwar6/intl/loadmsgcat.c:1070-1202 | The filling pass finds exactly the counted number of pairs, so its abort() is unreachable; it describes the right string for each in order and uses exactly the memory asked for. |
| SysdepStrings.Concatenate | liquidwar6/intl/loadmsgcat.c:1166-1194 | The memory gets the static pieces and the values in between, and nothing before it is overwritten. |
| SysdepStrings.ExpandNeeds | liquidwar6/intl/loadmsgcat.c:1028-1055 | The size computed for a string is the length of the string that is built. |
| SysdepStrings.IsDefined | liquidwar6/intl/loadmsgcat.c:1091-1129 | The second check agrees with the first pass, and its unchecked references stay inside the table. |
| SysdepMeaning.ScanFinds | liquidwar6/intl/loadmsgcat.c:1023-1055 | A pass over a string finds it defined exactly if every segment refers to a value this system has, and then needs the sizes of all pieces and values; it finds a bad reference exactly if the first segment without a value refers outside the table. |
| SysdepMeaning.ExpandConsists | liquidwar6/intl/loadmsgcat.c:1166-1194 | The string that is built consists of the pieces of the file in their order, each with its value behind it, every one at its place. |
| SysdepMeaning.ExpandLength | liquidwar6/intl/loadmsgcat.c:1166-1194 | And of nothing else. |
| SysdepMeaning.StringsAre | liquidwar6/intl/loadmsgcat.c:1074-1202 | The pairs of strings that are built are those of the pairs with all values, original and translation, in the order of the file. |
| PosixRwlock.StepKeeps | liquidwar6/intl/lock.c:154-235 | Every step of every thread, spurious wakeups included, keeps: runcount is the number of readers or -1 with one writer; the writers' count is right; with a free lock, blocked writers imply a notified one, and no waiting writers imply no blocked reader. |
| PosixRwlock.WriterExcludesOthers | liquidwar6/intl/lock.c:177-195 | In every state of every run a thread that holds the write lock is the only holder. |
| PosixRwlock.WaitersAreServed | liquidwar6/intl/lock.c:216-232 | In every run, when threads wait and nobody holds the lock, some notified thread takes it when it runs next: no wakeup is lost. |
| PosixRwlock.WritersGoFirst | liquidwar6/intl/lock.c:161-165 | In every run, no thread gets the lock for reading in a step from a state where some thread waits to write. |
| PosixRwlock.ReadersShare | liquidwar6/intl/lock.c:159-165 | In every run, where others read, nobody waits to write and fewer than INT_MAX threads read, an idle thread's rdlock gets the lock at once. |
| PosixRwlock.UnlockWakes | liquidwar6/intl/lock.c:216-232 | In every run, unlock wakes nobody while others still read; else a blocked writer, and no reader as long as a writer waits; else all blocked readers; and leaves all others alone. |
| PosixRwlock.ReleaseCounts | liquidwar6/intl/lock.c:202-215 | A holder's unlock never calls abort(). |
| PosixRwlock.AbortsIfFree | liquidwar6/intl/lock.c:202-215 | unlock calls abort() exactly if nobody holds the lock. |
| PosixRwlock.Lock.RdLock | liquidwar6/intl/lock.c:154-175 | The section of rdlock up to the lock or the wait is the reader step of the system; it gets the lock exactly if nobody writes or waits to write and an int can count one more reader. |
| PosixRwlock.Lock.WrLock | liquidwar6/intl/lock.c:177-195 | The same for wrlock, at its start and after a wait; it gets the lock exactly if nobody reads or writes. |
| PosixRwlock.Lock.Unlock | liquidwar6/intl/lock.c:197-235 | unlock is the release step, with the signal or broadcast. |
| WaitQueue.Queue.Add | liquidwar6/intl/lock.c:574-621 | An event is added behind the others, whether or not the ring wraps around or has to grow; a failure leaves the queue as it was. |
| WaitQueue.Queue.Grow | liquidwar6/intl/lock.c:582-610 | Growing a full ring and rotating it keeps the queue. |
| WaitQueue.Rotate | liquidwar6/intl/lock.c:592-607 | The two copy loops lay out a wrapped ring in order from index 0. |
| WaitQueue.Queue.NotifyFirst | liquidwar6/intl/lock.c:623-632 | The first event that was added is notified and taken out. |
| WaitQueue.Queue.NotifyAll | liquidwar6/intl/lock.c:634-649 | All events are notified in order and the queue is empty. |
| Win32Rwlock.StepKeeps | liquidwar6/intl/lock.c:661-804 | Every step of every thread keeps: runcount counts the holders including those handed the lock that have not run again, the queues hold exactly the waiting threads, and a free lock has empty queues. |
| Win32Rwlock.NobodyAborts | liquidwar6/intl/lock.c:692-695 | In every run, neither check after a wait nor those of unlock ever call abort(). |
| Win32Rwlock.AbortsIfFree | liquidwar6/intl/lock.c:771-785 | unlock calls abort() exactly if nobody holds the lock or was handed it. |
| Win32Rwlock.WriterExcludesOthers | liquidwar6/intl/lock.c:714-764 | In every run, a writer, also one only handed the lock, is the only holder. |
| Win32Rwlock.FreeLockHasNoQueue | liquidwar6/intl/lock.c:786-802 | In every run, when no thread holds or was handed the lock, runcount is 0 and nobody is queued. |
| Win32Rwlock.ReaderTakes | liquidwar6/intl/lock.c:673-700 | Readers share: rdlock, and each of its polls, gets the lock unless someone writes or an int can count no more readers. |
| Win32Rwlock.UnlockHands | liquidwar6/intl/lock.c:786-802 | The last holder's unlock hands the lock to the first queued writer, or, when none is queued, to all queued readers; an unlock before that hands it to nobody. |
| Win32Rwlock.WritersGoFirst | liquidwar6/intl/lock.c:786-802 | In every run, no reader is handed the lock in a step from a state where a writer is queued. |
| Win32Rwlock.NoOvertaking | liquidwar6/intl/lock.c:574-632 | In every run, no writer is handed the lock before one that was queued when it was not queued yet. |
| Win32Rwlock.HandToReadersKeeps | liquidwar6/intl/lock.c:786-802 | Handing over to all queued readers adds exactly their number, which fits an int, and empties the queue. |
| Win32Rwlock.Lock.RdLock | liquidwar6/intl/lock.c:661-712 | The section of rdlock up to the lock, the queue or the poll is the reader step; it gets the lock exactly if nobody writes or was handed the lock for writing and an int can count one more reader. |
| Win32Rwlock.Lock.WrLock | liquidwar6/intl/lock.c:714-764 | The same for wrlock, which gets the lock exactly if nobody holds it or was handed it. |
| Win32Rwlock.Lock.Unlock | liquidwar6/intl/lock.c:766-804 | unlock is the release step with the hand-over: for every other thread it says whether it is handed the lock, by the statuses alone. |
| Win32Once.StepKeeps | liquidwar6/intl/lock.c:884-918 | Every access of any thread keeps: started counts the increments still to be undone besides that of the first thread, one thread at most is about the initialisation and one is as long as it is not finished, and the critical section has the holder the places say. |
| Win32Once.CalledOnce | liquidwar6/intl/lock.c:884-918 | In every run, the function is called at most once, has returned when glthread_once returns to any thread, the final abort() is never reached, and nobody enters the critical section before it is initialised. |
| Win32Once.AbortTest | liquidwar6/intl/lock.c:911-913 | The last test fails exactly as long as the function has not been called and returned. |
| Win32Once.ReturnsAtOnce | liquidwar6/intl/lock.c:887 | In every run, once the call has returned to some thread, a thread that calls it later returns at once. |
| Win32Once.NoDeadlock | liquidwar6/intl/lock.c:903-916 | In every run, a thread that spins or waits for the critical section waits for another one that can go on. |
| LocaleMasks.SubmaskCount | liquidwar6/intl/l10nflist.c:254-258 | A mask dominates two to the number of its bits masks. |
| LocaleMasks.PopCounts | liquidwar6/intl/l10nflist.c:160-171 | pop counts the bits of every 16-bit number. |
| LocaleFiles.SuccessorsFit | liquidwar6/intl/l10nflist.c:273-285 | The number of slots computed from pop leaves room for every successor and the null pointer behind them. |
| LocaleFiles.CountSlots | liquidwar6/intl/l10nflist.c:273-285 | The number of slots the code computes with pop and the count of directories is the number of slots for the request. |
| LocaleFiles.NameFits | liquidwar6/intl/l10nflist.c:195-245 | The file name and its NUL fill the allocated buffer exactly. |
| LocaleNames.BuildName | liquidwar6/intl/l10nflist.c:195-245 | The steps of memcpy, argz_stringify and stpcpy write the name and its NUL into a buffer of just the size asked for. |
| LocaleNames.ArgzStringify | liquidwar6/intl/l10nflist.c:116-129 | In the stored list of directories every NUL but the last becomes a colon, in place. |
| LocaleNames.NameIsRead | liquidwar6/intl/l10nflist.c:190-245 | Reading a name at its marks gives back the directories, unless the language is an absolute path, the language, exactly the parts whose bits are set, each with its own mark, and the file name, for any parts without these marks. |
| LocaleSuccessors.SuccessorsAre | liquidwar6/intl/l10nflist.c:302-336 | The successors are those for just the masks whose bits are all in the file's mask, without both forms of the codeset, and with one directory not the mask itself; greater masks come first, so the modifier is dropped first and the normalized codeset last. |
| LocaleFiles.TailShortens | liquidwar6/intl/l10nflist.c:282-292 | Dropping parts of the locale name makes the file name strictly shorter. |
| LocaleList.FindFile | liquidwar6/intl/l10nflist.c:247-265 | The walk finds the file with the name, or the one place where it belongs in the order. |
| LocaleList.Make | liquidwar6/intl/l10nflist.c:174-345 | The function terminates; it returns the file with the requested name, makes it if it is new and that is asked for, else changes nothing, keeps the list strictly decreasing and leaves the files that were there alone. A file it makes has as successors the files for the masks and directories that the requested ones dominate, in order; every finished file has those of a request with its name.  LocaleNames says what the names are, LocaleSuccessors which files these are. |
| LocaleList.AddMask | liquidwar6/intl/l10nflist.c:303-323 | The successors for one mask: one for each directory of several, else one, none for masks with both forms of the codeset. |
| LocaleList.DecidedIs | liquidwar6/intl/l10nflist.c:289-295 | A file is not looked up itself exactly if it stands for several directories or has both forms of the codeset. |
| LocaleList.WaysShorten | liquidwar6/intl/l10nflist.c:285-324 | Along successors names get strictly shorter, so the graph has no cycle. |
| LocaleList.NamesAreUnique | liquidwar6/intl/l10nflist.c:237-256 | Two files of the list with the same name are the same file. |
| PrintfArguments.Arguments.Register | liquidwar6/intl/printf-parse.c:102-132 | Registering enters the type, fails if the table has another one, and reports lack of memory only for an index whose table would not fit the address space. |
| PrintfArguments.FetchArgs | liquidwar6/intl/printf-args.c:36-188 | Fetching succeeds if and only if no argument below the count was left without a type. |
| PrintfArguments.Xsum | liquidwar6/intl/xsize.h:52-61 | The wrap-around test yields the exact sum, or the largest size if the sum does not fit below it. |
| PrintfArguments.Xtimes | liquidwar6/intl/xsize.h:93-100 | The same for products by any element size. |
| PrintfSyntax.RegisterAllHas | liquidwar6/intl/printf-parse.c:102-132 | After a list of uses has been registered each finds its type, and what was recorded before is unchanged. |
| PrintfSyntax.TypesFit | liquidwar6/intl/printf-parse.c:400-519 | The type chosen for a conversion is one the code that executes this conversion is prepared for. |
| PrintfSyntax.DirectiveIsUsable | liquidwar6/intl/printf-parse.c:138-536 | The width and precision arguments of a directive have type int in every table its uses were entered into, and its own argument has a type that fits its conversion. |
| PrintfSyntax.FormatIsUsable | liquidwar6/intl/vasnprintf.c:1536-1575 | All that still holds of every directive in the final table, so the guards that call abort() during execution are unreachable. |
| PrintfSyntax.FormatIsTiled | liquidwar6/intl/printf-parse.c:134-566 | Directives and text without a percent sign tile the format. |
| PrintfOrder.DirectiveTakes | liquidwar6/intl/printf-parse.c:138-533 | A directive with the parts of the grammar is recorded with just these flags, lengths, places and conversion, and its uses answer its requests in the order width, precision, conversion: a number names its argument, counting from 1, and a part without one takes the next argument. |
| PrintfFormat.FormatDecides | liquidwar6/intl/printf-parse.c:134-566 | Every format is parsed into the directives it consists of, whose uses in the order of the text answer their requests, with the table of these uses; or it is rejected, since it does not consist of directives or they want an argument with two types. |
| PrintfFormat.NotBoth | liquidwar6/intl/printf-parse.c:134-566 | No format is both parsed and rejected. |
| PrintfFormat.TakenInOrder | liquidwar6/intl/printf-parse.c:246-252 | In a format without numbers the uses have the indices 0, 1, 2 and so on, without gap or repetition, and the table has just that many entries. |
| PrintfFormat.SpelledOnce | liquidwar6/intl/printf-parse.c:134-566 | A format consists of directives in one way only. |
| PrintfGrammar.ReadingDecidesGrammar | liquidwar6/intl/printf-parse.c:138-536 | A text is read as a directive if and only if the parser's grammar has it, that of section 7.19.6.1 of ISO C99 with numbered arguments, but with any run of size letters; and the parts found are the only way to cut it. |
| PrintfStandard.StandardIsRead | liquidwar6/intl/printf-parse.c:138-536 | Every directive of section 7.19.6.1 of ISO C99, numbered or not, is read where it stands and registers its argument with the type the standard's table has for its modifier and conversion. |
| PrintfStandard.BeyondStandard | liquidwar6/intl/printf-parse.c:138-536 | What is read is a directive of the standard if and only if it has no flag ', no conversion C or S, a modifier the standard has for the conversion, and nothing between the signs of a double percent sign. |
| PrintfStandard.ReadLikeStandard | liquidwar6/intl/printf-parse.c:325-519 | A text with the parts of a directive is read exactly if its conversion is a known one; any run of size letters then acts like one modifier of the standard, found by counting its letters, whatever their order. |
| PrintfStandard.Alphabet | liquidwar6/intl/printf-parse.c:177-515 | Which characters are flags, size letters and conversions. |
| PrintfStandard.ReadBeyondStandard | liquidwar6/intl/printf-parse.c:325-519 | hhf, which the standard does not have, is read. |
| PrintfParse.ReadPosition | liquidwar6/intl/printf-parse.c:153-175 | A positional number is the decimal value minus one; 0 and numbers that do not fit a size are errors. |
| PrintfParse.ParseDirective | liquidwar6/intl/printf-parse.c:138-536 | One directive is read, recorded as its text stands and with the arguments its text asks for, and its uses are entered into the table; it is refused only if it is not understood or contradicts the table. |
| PrintfParse.Parse | liquidwar6/intl/printf-parse.c:82-584 | The parser reports the directives of the format as they stand, with the arguments they ask for, and the table of just these uses, with bounds of widths and precisions; a bad format exactly if the text does not consist of directives or they contradict each other; and lack of memory only for immodest argument numbers. |
| PrintfParse.ParseAndFetch | liquidwar6/intl/vasnprintf.c:4029-4041 | Parsing followed by fetching succeeds if and only if no argument was skipped, and then every directive finds what executing it relies on. |

## Left out

- Tdelete: when exactly 100 slots are in use after the descent, the code goes on without a test before a possible further push, while the model stops as if it had called abort(); this needs a tree of at least 2^49 nodes.
- Tsearch: keys are integers compared by subtraction; a caller's comparison function is any function that orders keys in this way.
- Tdelete: the node returned when the deleted node is the root is the root itself, as in the code, whose comment calls this bogus. free() itself is the ghost result that names the freed node.
- Decimal.ConvertToDecimal: the buffer whose size the code estimates in floating point is a sequence that grows, so nothing is said about that size.
- Scale10.PowerOfFive: the size of the array for the power of five is computed in the code with a floating-point factor, in the model with the same factor as a fraction.
- Scale10.ScaleRoundDecimal: e + n is computed in unbounded integers.
- PluralParser.Yyparse: bison's error recovery is modelled by its result, rejection, since no state shifts the error token; memory for stacks and trees never runs out; freeing trees is left out.
- PluralEval.ExtractPluralExpression: strstr, isspace and strtoul are modelled by what the C standard says of them, strtoul saturating at the largest word.
- HashPjw.HashOnNarrowHost: characters are bytes; nothing is claimed about how well the hash spreads.
- Win32Once.StepKeeps: initialising and entering the critical section is one step of the first thread, which nobody can see the middle of; counters do not overflow.
- Catalogue.FindMsg: that the file's table has prime size, an empty slot and reachable entries, and that its messages are sorted, is what the tool that writes catalogues provides; byte swapping is the identity here.
- SysdepStrings.SecondPass: sizes are unbounded; pointers into the file are copies of its text; the file's own offsets are taken to be in range.
- PosixRwlock.StepKeeps: mutex and condition variables are atomic steps; a signal wakes one waiting writer, and any waiting thread may wake up spuriously.
- Win32Rwlock.StepKeeps: critical section and events are atomic steps; the guard for first-time initialisation is left out, and there are no more threads than an int can count.
- LocaleNames.NameIsRead: parts that hold a mark themselves make a name ambiguous, in the code as in the model; path separators are those of Unix.
- HashPjw.ShortHash: stated for characters below 128; longer strings are described step by step.
- WaitQueue.Queue.Add: the doubling of the capacity is computed in unbounded integers.
- LocaleList.Make: the successor array is a sequence whose length is proved to stay below the number of slots allocated; memory never runs out; the argz helper functions are modelled by the list of strings they walk.
- PrintfParse.Parse: sizes of the types are those of a 64-bit system with long long, wint_t and wchar_t; the growth of the table of directives is left out, and formats are shorter than the address space.
- LocaleMasks.PopCounts: the masks of the bit operations are written for 16 bits, the width the code's comment names.
- PrintfStandard.StandardIsRead: intmax_t, size_t and ptrdiff_t are as wide as long; flags, widths and precisions that have no defined effect with a conversion are not excluded.
- twalk, tdestroy, the guards for first-time initialisation of locks, recursive locks, glthread_once on other systems: easy members, or bound to the system.
- Floating-point decoding in vasnprintf.c, the output of directives through the system's snprintf, file loading, character set conversion, environment variables, and the thin gettext wrappers.
