# bitcoinlib in Dafny

A model of the cores of bitcoinlib and proofs of what they promise. Hash functions and elliptic-curve
operations are parameters; what a theorem needs of them (a group law, a signature that verifies
under its own key only, no collision between two given strings) is a hypothesis of that theorem.
`dafny verify dfyconfig.toml` checks the whole project.

| file | component |
|---|---|
| `Wrappers.dfy`, `Sequences.dfy`, `Digits.dfy` | missing values and errors, slices and searches, numbers and their digits in a base |
| `ScriptNum.dfy` | the numbers of the Script language |
| `ScriptFlow.dfy` | nested conditionals against the machine that splices one flat command list |
| `ScriptMachine.dfy`, `ScriptOpcodes.dfy` | the stack with its arithmetic and multisig operations, `Script.evaluate`, and what single opcodes do |
| `ScriptCodec.dfy` | scripts as bytes: push forms, serialiser and parser loop |
| `Multisig.dfy` | which signatures satisfy a list of keys, and two greedy verifiers |
| `Cosign.dfy`, `CosignedTransaction.dfy` | signing by many over whole runs |
| `KnownSignatures.dfy`, `Labels.dfy` | merging signatures without keys, and the keys that verifying writes |
| `CoinSelection.dfy`, `Change.dfy`, `Spents.dfy` | choosing inputs, splitting change, tracking spent outputs and the balance |
| `CompactSize.dfy`, `Wire.dfy`, `RawTransaction.dfy`, `SegwitMessage.dfy` | byte streams, the block parser, `Transaction.raw`, signature messages |
| `ByteLayout.dfy`, `RawLayout.dfy`, `SegwitLayout.dfy` | the same transactions and messages byte by byte |
| `Base58.dfy`, `Der.dfy`, `Regroup.dfy`, `Polymod.dfy`, `HexText.dfy`, `Bech32.dfy`, `AddressLayout.dfy` | address and signature encodings |
| `Field.dfy`, `PointCompression.dfy`, `Bip32.dfy`, `Bip32Equations.dfy` | modular square roots, compressed points, key derivation |

Code that works by changing things in place is a class or a loop here as well (the command list and the
stack, the slots of a signing round, the byte stream, the running totals) and is proved against a
specification function; the theorems are about those functions.

## What the proofs found

Where code and documentation disagree the model follows the code.

- Several ELSE blocks of one conditional all go to the false branch (bitcoinlib/scripts.py:849-850);
  `ScriptFlow.OneElseAsDocumented` and `ScriptFlow.SecondElseIff` say when that makes a difference.
- CHECKMULTISIG with no signatures required raises as soon as there are keys (bitcoinlib/scripts.py:1199).
- A negative zero is true at the end of a script and false in a conditional
  (`ScriptMachine.TwoNotionsOfTruth`).
- The query for smaller outputs appends its order to an existing one, so confirmations come first and the
  exhaustive search does not always take the front of the list (`CoinSelection.OlderCoinsFirst`); it still
  takes as many outputs as the greedy rule (`CoinSelection.SearchIsGreedyIff`).
- A shortfall is folded into the fee before the code looks at it, so the error about outputs exceeding inputs is
  never raised (bitcoinlib/wallets.py:4201-4205). A wallet with a single key that asks for several change
  outputs, with a positive minimum and an average change not below it, ends in the error about totals
  (`Change.Transaction.AddChange`).
- `sign` ends at the first key that has signed already and at the first input it does not sign
  (bitcoinlib/transactions.py:1769-1778); `Cosign.SignsAllIff` and `Cosign.SignsEveryInputIff` say when that
  leaves something unsigned.
- `sign` places known signatures by their keys up to the first one without a key, and then inserts all of them
  again (bitcoinlib/transactions.py:1780-1792). Of signatures with and without keys, the first one with, some
  come twice or are lost (`KnownSignatures.KnownAreKeptIff`, `KnownSignatures.SecondSignerLosesOne`); without
  keys they can end in another order than the keys, and the input does not verify although enough have signed
  (`KnownSignatures.KeylessOrderIff`, `KnownSignatures.KeylessVerifiesIff`).
- `verify` stores the key it tries in the signature. That gives parsed signatures their keys back
  (`Labels.KeysBackIff`), but one that verifies under no key ends with the last key, whose owner can then no longer
  sign (`Labels.MislabelsIff`, `Labels.WrongKeyBlocksSigner`).
- A key listed twice lets `Input.verify` count one signature twice; `Multisig.MeansAssignmentIff` gives the
  exact limit.
- The address encoder reads bytes that happen to be hexadecimal text as such (bitcoinlib/encoding.py:768 and
  876-882), takes the header form of programs of 18, 30 and 38 bytes for a bare program, and accepts headers
  0x30 to 0x4f as negative versions; `Bech32.BareRoundTripIff`, `Bech32.HeaderRoundTripIff` and
  `Bech32.AddressRoundTripIff` say what comes back.
- Base58 strings may contain I and O, read as i and o (bitcoinlib/encoding.py:253-257).
- CompactSize is one form too wide at 0xffff and 0xffffffff, and the string of one zero byte is written as
  an empty one (`CompactSize.ShortestIff`, `CompactSize.VarstrReadsBackIff`); an unlocking script of that kind is
  the one string that `raw` writes in full (bitcoinlib/transactions.py:1618-1620).
- The block parser rebuilds any flag as 1, and steps back into the version when a stream ends there
  (bitcoinlib/blocks.py:339-345); such a stream never yields a transaction.
- Any script of 64 bytes is taken for one data item. `Script.parse` states half the length of a byte string
  and twice the length of hexadecimal text (bitcoinlib/scripts.py:285-291 and 330-336), which misreads other
  scripts, all of 32 bytes in hexadecimal among them (`ScriptCodec.StatedLengths`).
- The path "M" without steps returns the private key itself (bitcoinlib/keys.py:2182-2208;
  `Bip32.MasterPublicPath`).
- Public derivation along a path does not refuse hardened steps, and the limit on the index lets 0x80000000
  pass (bitcoinlib/keys.py:2198-2206 and 2357-2358).
- For SIGHASH_NONE the segwit message covers one output, for SIGHASH_SINGLE none
  (bitcoinlib/transactions.py:1559-1566; `SegwitMessage.SegwitIsBip143Iff`).

## Model

| member | source | states |
|---|---|---|
| ScriptNum.DecodeEncode | bitcoinlib/scripts.py:1295-1354 | decoding an encoded number gives it back, for every integer |
| ScriptNum.EncodeIsMinimal | bitcoinlib/scripts.py:1295-1327 | the last byte of an encoding carries more than the sign, unless its predecessor needed the top bit for itself |
| ScriptNum.EncodeIsShortest | bitcoinlib/scripts.py:1295-1354 | no string that denotes the number is shorter than its encoding, and no other one is minimal |
| ScriptNum.EncodeDecodeIffMinimal | bitcoinlib/scripts.py:1295-1354 | re-encoding a decoded string gives the string back exactly when it is minimal |
| ScriptNum.EncodedLength | bitcoinlib/scripts.py:1295-1327 | k bytes suffice exactly for the numbers of fewer than 8k bits, sign included |
| ScriptNum.FourByteNumbers | bitcoinlib/scripts.py:1295-1327 | four bytes suffice exactly for the numbers below 2^31 in magnitude |
| ScriptNum.DecodedRange | bitcoinlib/scripts.py:822-833 | operands that pass the four-byte test are below 2^31 in magnitude, minimal or not |
| ScriptNum.FalseIffZeroString | bitcoinlib/scripts.py:837-867 | a conditional takes a string for false exactly when it is zero or negative zero |
| ScriptOpcodes.DecodedBytes | bitcoinlib/scripts.py:1329-1354 | the bytes of any string are those of the magnitude it denotes, from the low end, without the top bit of the last one, which is the sign |
| ScriptFlow.FlatIsNested | bitcoinlib/scripts.py:711-766 | running the flattened form of a nested program with in-place splicing, under any continuation, is running the nested program and then the continuation, failures and exceptions included |
| ScriptFlow.FlatIsNestedElses | bitcoinlib/scripts.py:837-867 | the same for the bodies of the ELSE blocks of one conditional |
| ScriptFlow.ScanProg | bitcoinlib/scripts.py:837-867 | the scan for the matching ENDIF copies a well-nested stretch whole to the branch it is filling, at any depth |
| ScriptFlow.ScanConditional | bitcoinlib/scripts.py:837-867 | the scan at the conditional itself puts the IF body into the true branch, all ELSE bodies into the false branch, and stops behind the matching ENDIF |
| ScriptFlow.EveryScriptIsNested | bitcoinlib/scripts.py:711-766 | every command list whatever is a nested program followed by a stretch where the nested reading stops, and the machine runs the program and then does there what `AtStuck` says |
| ScriptFlow.OneElseAsDocumented | bitcoinlib/scripts.py:849-850 | with at most one ELSE to a conditional the code gives it its documented meaning |
| ScriptFlow.SecondElseIff | bitcoinlib/scripts.py:849-850 | with two ELSE blocks, whatever the three blocks are, it does exactly when the last block changes nothing behind the first block that runs |
| ScriptFlow.TwoElses | bitcoinlib/scripts.py:837-867 | the code runs both ELSE blocks when the condition fails, the documented meaning runs the second one when it holds |
| ScriptFlow.SecondElseDiffers | bitcoinlib/scripts.py:849-850 | an instance: three blocks that push data |
| ScriptOpcodes.BranchTaken | bitcoinlib/scripts.py:837-876 | by opcode numbers: for every stack, condition, branches and rest, 99 goes on with what stands in front of 103 and for a zero string with what stands behind it, 100 the other way round |
| ScriptOpcodes.BranchSkipped | bitcoinlib/scripts.py:837-876 | without 103, a condition that does not hold skips to behind 104 |
| ScriptOpcodes.NoCondition | bitcoinlib/scripts.py:837-876 | a conditional on an empty stack raises, one that no 104 closes makes the script false; for 99 the second comes first |
| ScriptOpcodes.ConstantIsPushed | bitcoinlib/scripts.py:726-732 | opcode 0 pushes the empty string, 79 the byte 0x81, 81 to 96 the bytes 1 to 16, data push themselves |
| ScriptOpcodes.OperationRuns | bitcoinlib/scripts.py:736-766 | every other opcode does what its method does, and the rest runs if that succeeds |
| ScriptOpcodes.OneIfTwo | bitcoinlib/scripts.py:837-867 | the script OP_1 OP_IF OP_2 OP_ELSE OP_0 OP_ENDIF leaves 2 |
| ScriptMachine.Stack.OpIf | bitcoinlib/scripts.py:837-867 | the list and the stack after IF: a zero string splices what stands behind ELSE in front of what follows ENDIF, any other string what stands in front of ELSE, and is popped; False and an unchanged stack without ENDIF; an exception on an empty stack |
| ScriptMachine.Stack.OpNotif | bitcoinlib/scripts.py:869-876 | the same for NOTIF, with the branches exchanged |
| ScriptMachine.Script.Evaluate | bitcoinlib/scripts.py:677-768 | the loop that pops from and splices into the shared list computes what running the flat list does, for any stack operations: valid exactly when that ends with a string on top that is not empty, an exception exactly when it raises |
| ScriptMachine.CommandsInOrder | bitcoinlib/scripts.py:711-716 | the list that is run holds the elements one after the other |
| ScriptMachine.CommandsOfOne | bitcoinlib/scripts.py:711-716 | a command as it is, a redeem script as its commands |
| ScriptMachine.EvaluateNested | bitcoinlib/scripts.py:677-768 | the verdict on the flat form of a nested program is the verdict on the program |
| ScriptMachine.Stack.Op1Add | bitcoinlib/scripts.py:986-990 | the exact successor of the operand, as the shortest string of at most five bytes; False when an operand is longer than four bytes, an exception when one is missing |
| ScriptMachine.Stack.Op1Sub | bitcoinlib/scripts.py:992-996 | the same for the predecessor |
| ScriptMachine.Stack.OpNegate | bitcoinlib/scripts.py:998-1002 | the same for the negative |
| ScriptMachine.Stack.OpAbs | bitcoinlib/scripts.py:1004-1008 | the same for the absolute value |
| ScriptMachine.Stack.OpAdd | bitcoinlib/scripts.py:1022-1028 | the same for the sum |
| ScriptMachine.Stack.OpMin | bitcoinlib/scripts.py:1122-1128 | the same for the smaller operand |
| ScriptMachine.Stack.OpMax | bitcoinlib/scripts.py:1130-1136 | the same for the larger operand |
| ScriptMachine.EncodeRepresents | bitcoinlib/scripts.py:1295-1327 | results of two four-byte operands take at most five bytes |
| ScriptMachine.Stack.OpCheckMultisig | bitcoinlib/scripts.py:1185-1209 | the stack after CHECKMULTISIG, or an exception, as the specification says |
| ScriptMachine.CheckMultisigMeaning | bitcoinlib/scripts.py:1185-1209 | on the documented stack layout with at least one signature, all of which parse, the opcode leaves true exactly when the signatures can be assigned to keys in order |
| ScriptMachine.CheckMultisigNoSignatures | bitcoinlib/scripts.py:1199-1201 | with no signatures required the assignment always exists, but the code raises unless there are no keys either |
| ScriptMachine.MultisigStepMeaning | bitcoinlib/scripts.py:744-748 | in `evaluate` the opcode goes on with the redeem script on top exactly when the signatures can be assigned to keys, and makes the script false otherwise |
| ScriptOpcodes.MultisigAnswer | bitcoinlib/scripts.py:1185-1209 | on any stack that holds as many keys and signatures as it announces: it raises exactly when a key is left for a signature that does not parse or is not there, and otherwise takes one more item away and pushes the byte 1 exactly when an assignment exists, else the empty string |
| ScriptOpcodes.MultisigNeedsItems | bitcoinlib/scripts.py:1185-1191 | a stack that holds fewer makes it raise |
| ScriptOpcodes.MultisigStepAnswer | bitcoinlib/scripts.py:744-748 | and what `evaluate` makes of each of these cases, with and without a redeem script |
| ScriptMachine.TwoNotionsOfTruth | bitcoinlib/scripts.py:768-780 | the final test of a script and the test of the conditionals disagree exactly about zero strings that are not empty |
| Multisig.GreedyIffSatisfies | bitcoinlib/scripts.py:1198-1204 | one greedy pass matches every signature exactly when an order-preserving assignment to keys exists, for any verify relation |
| Multisig.CheckKeysMeaning | bitcoinlib/scripts.py:1195-1204 | the key loop with its errors: it raises exactly when, with a key left over, all signatures in front of one that does not parse can be assigned, and otherwise answers whether all can |
| Multisig.GreedyComplete | bitcoinlib/scripts.py:1198-1204 | no assignment gets further than the greedy pass |
| Multisig.ReverseSatisfies | bitcoinlib/scripts.py:1185-1204 | scanning signatures and keys from the other end decides the same |
| Multisig.InputVerifiesIff | bitcoinlib/transactions.py:512-536 | the forward scan that also retries the previous signature accepts exactly when the first required signatures can be assigned, if no signature verifies at two key positions |
| Multisig.MeansAssignmentIff | bitcoinlib/transactions.py:512-536 | for a list of keys, this holds of all lists of signatures exactly when no signature verifies at two key positions |
| Multisig.DoubleCounted | bitcoinlib/transactions.py:530-534 | a signature with two positions counts for two, together with one that no key has a place for |
| Multisig.VerifiersAgree | bitcoinlib/transactions.py:493-536 | the forward scan of the input and the top-of-stack scan of the opcode accept the same signatures |
| Cosign.Input.Verify | bitcoinlib/transactions.py:493-536 | the loop over keys and signatures decides `InputVerifies` and leaves every signature it tries with the key it was last tried under; `valid` is set on success and never taken back; coinbase inputs are always valid |
| Cosign.Input.Sign | bitcoinlib/transactions.py:1738-1795 | one round of signing: slots by key position, known signatures merged, the first key that has signed already ends the loop, exceptions leave the signatures as they were; coinbase inputs and inputs without a message raise |
| Cosign.Transaction.Sign | bitcoinlib/transactions.py:1702-1795 | the loop over the inputs, which ends at the first input for which nothing was signed |
| Cosign.SignStep | bitcoinlib/transactions.py:1748-1795 | on an input whose signatures are those of a set of signers in key order, a call adds the signers of the specification and leaves the list in key order |
| Cosign.SigningKeysAre | bitcoinlib/transactions.py:1738-1742 | a call signs with the keys given, in their order, and then with exactly the private keys of the input whose public key is not given, in the order of the input and each public key once |
| Cosign.AddedIs | bitcoinlib/transactions.py:1762-1775 | a call raises exactly when it comes to a key that is not of the input, unless such keys are passed over, or to one that is not private; otherwise it adds exactly the signers it comes to, up to the first that has signed already |
| Cosign.SignsWithOwnKeys | bitcoinlib/transactions.py:1736-1795 | on an unsigned input a call without keys signs with exactly the private keys of the input, in key order, or signs nothing when there are none |
| Cosign.SignRangeStops | bitcoinlib/transactions.py:1736-1795 | over the inputs: each one up to the first that is not signed is left as its own round leaves it, those behind it untouched, and the call raises exactly when that round does |
| Cosign.CollectAdds | bitcoinlib/transactions.py:1762-1775 | the loop over the keys fills exactly the slots of the signers it adds |
| Cosign.MergeAdds | bitcoinlib/transactions.py:1777-1794 | merging keeps every signature that was there, one for each signer, in key order |
| KnownSignatures.KnownAreKeptIff | bitcoinlib/transactions.py:1736-1794 | a call that signs raises exactly when a known signature in front of the first one without a key has a key that is not of the input; otherwise it keeps all the signatures, each once, exactly when there are slots for all and the first of them has no key, or else all have keys, different ones |
| KnownSignatures.SecondSignerLosesOne | bitcoinlib/transactions.py:1780-1794 | three keys, a signature of the last one without its key: when the other two sign, one signature comes twice and that one is lost |
| KnownSignatures.KeylessCall | bitcoinlib/transactions.py:1786-1794 | in a list that begins without a key, the new signature stands behind as many of the known ones as there are slots in front of its own |
| KnownSignatures.KeylessOrderIff | bitcoinlib/transactions.py:1786-1794 | one more signer leaves signatures read from a script in key order exactly when all keys in front of its own have signed or none behind it has |
| KnownSignatures.KeylessVerifiesIff | bitcoinlib/transactions.py:1786-1794 | for any number required: the input then verifies exactly when that number is one more at most, and otherwise, if the new one does not stand right, when those in front of it suffice |
| KnownSignatures.SignsAgain | bitcoinlib/transactions.py:1769-1794 | a signer among them signs once more; the list stays as it is only when all have signed and the key is the last one |
| Labels.LabelsAre | bitcoinlib/transactions.py:512-536 | for any signatures and keys: `verify` tries the fewest keys in front that suffice, or all; a signature matched on the way gets the first key behind the others that matches it, the next one the last key tried, the others keep what they had |
| Labels.VerifyRestoresKeys | bitcoinlib/transactions.py:512-536 | signatures in key order, whatever keys they carry: `verify` gives the required ones their own keys |
| Labels.VerifyingInBetween | bitcoinlib/transactions.py:512-536 | in every run of `sign` calls, calls of `verify` in between make no difference to the signatures |
| Labels.KeysBackIff | bitcoinlib/transactions.py:512-536 | a list read from a script gets all its keys back from `verify` exactly when it has no more signatures than are required |
| Labels.VerifyFirst | bitcoinlib/transactions.py:512-536 | and cosigners then go on as if the keys had always been there |
| Labels.MislabelsIff | bitcoinlib/keys.py:2940-2943 | `verify` leaves a signature with a key it does not verify under exactly when one of those required has no place behind the ones in front of it, and these leave the last key over |
| Labels.ValidIsWellLabelled | bitcoinlib/transactions.py:512-536 | a successful `verify` labels nothing wrongly |
| Labels.WrongKeyBlocksSigner | bitcoinlib/transactions.py:1769-1771 | a signature that verifies under no key ends with the last one, and a call with that key then signs nothing |
| Cosign.RunKeepsOrder | bitcoinlib/transactions.py:1736-1795 | over every run of calls with any keys, the signatures stay in strict key order with one for each signer: the list is a function of the set of signers |
| Cosign.CosigningDependsOnSet | bitcoinlib/transactions.py:1736-1795 | cosigners who sign one at a time in any order, some repeatedly, end with the signatures of the set of those who signed |
| Cosign.CosignedVerifiesIff | bitcoinlib/transactions.py:493-536 | and the input then verifies exactly when at least the required number, and at least one, of them have signed |
| Cosign.VerifiesIffEnough | bitcoinlib/transactions.py:493-536 | for any set of signers the input verifies exactly when it is large enough, if a signature verifies under its own key only |
| Cosign.SignsAllIff | bitcoinlib/transactions.py:1769-1771 | a call with several private keys, given or of the input itself, leaves all of them signed exactly when none that has not signed stands only behind one that has |
| Cosign.SignsEveryInputIff | bitcoinlib/transactions.py:1777-1778 | a call for all inputs leaves every input signed exactly when no input that the key has signed stands before one it has not |
| CosignedTransaction.CosigningATransaction | bitcoinlib/transactions.py:1736-1795 | the same when every call signs the message of the transaction as the others left it, and for the verification of the finished transaction |
| CosignedTransaction.SignInTurnIsRun | bitcoinlib/transactions.py:1761-1773 | all those calls sign one and the same message |
| CoinSelection.SelectInputs | bitcoinlib/wallets.py:3931-3969 | the first output between the amount and the amount plus the variance, if there is one, else the first of a higher value; otherwise distinct outputs that reach the amount, the fewest of all sufficient selections, as many as the greedy rule takes, and the front of the list exactly when that many in front suffice; an empty result means that no selection of an allowed size reaches it |
| CoinSelection.SearchCombinations | bitcoinlib/wallets.py:3957-3963 | the exhaustive search finds as its first hit the first combination of the smallest sufficient size |
| CoinSelection.FirstHitLeast | bitcoinlib/wallets.py:3957-3963 | the hit reaches the amount and no smaller combination does; without a hit none does |
| CoinSelection.CombinationComplete | bitcoinlib/wallets.py:3959-3962 | every selection of outputs is met by some combination of values |
| CoinSelection.PickByValue | bitcoinlib/wallets.py:3964-3969 | mapping the winning values back picks distinct outputs with exactly those values |
| CoinSelection.HitIsShortestPrefix | bitcoinlib/wallets.py:3957-3969 | on a descending list the exhaustive search is the greedy rule: its hit is the shortest sufficient prefix |
| CoinSelection.SearchIsGreedyIff | bitcoinlib/wallets.py:3957-3969 | in any order of the outputs the search hits with as many as the greedy rule takes of the sorted values, and its hit is the front of the list exactly when that many in front reach the amount |
| CoinSelection.GreedyIsHeaviest | bitcoinlib/wallets.py:3957-3963 | no combination, in any order, is heavier than the greedy choice of its size |
| CoinSelection.ValuesComplete | bitcoinlib/wallets.py:3959-3962 | whatever values can be taken from a list, some combination takes them |
| CoinSelection.OlderCoinsFirst | bitcoinlib/wallets.py:3953-3956 | outputs in the order the query really sorts them, by confirmations first, for which the hit is not the front |
| CoinSelection.CombineLessers | bitcoinlib/wallets.py:3947-3969 | the part that composes two or more smaller outputs, with the limit on their number |
| CoinSelection.SearchMeaning | bitcoinlib/wallets.py:3957-3963 | what the search over smaller outputs finds decides about all selections of all outputs |
| Change.SplitChange | bitcoinlib/wallets.py:4240-4247 | for all positive weights the amounts sum exactly to the change, each is at least the minimum, and each behind the first is the minimum and its share of the rest, rounded down |
| Change.Transaction.SetFee | bitcoinlib/wallets.py:4176-4203 | in numbers: without a fee argument and with inputs chosen by the wallet the fee is that for the estimated size and the change what is left, if that is above the dust limit and not below the fee for one more output; else there is no change and the fee is all that is left over. The same with a given fee and the dust limit alone; with own inputs there is no change, or the fee asked for is 0 when a total is zero |
| Change.Transaction.AddChange | bitcoinlib/wallets.py:4204-4261 | when no error is raised inputs are outputs plus fee and the outputs added are the change; each error has its condition, and with a positive minimum the final check fires exactly for a single key, several outputs and enough change |
| Change.Transaction.Complete | bitcoinlib/wallets.py:4176-4261 | the whole computation: the same numbers for fee and change, the totals balance, and the error about outputs exceeding inputs is never raised |
| Change.SumOfPart | bitcoinlib/wallets.py:4234-4252 | with one change key only the first amount is added; the totals miss the sum of the others, which are at least the minimum each |
| Spents.UpdateSpents | bitcoinlib/transactions.py:99-135 | an output of the address is marked spent exactly when a listed transaction spends it, and then the last of these and its first such input are recorded; other outputs are not touched |
| Spents.SpendList | bitcoinlib/transactions.py:116-121 | the index of spent outputs names for each the last listed transaction that spends it |
| Spents.GetBalance | bitcoinlib/services/bcoin.py:70-90 | the loops over the addresses compute, for each in its own history, what it received minus what it spent, and raise exactly at an incomplete history |
| Spents.BalancesAreUnspent | bitcoinlib/services/bcoin.py:70-90 | for complete, marked histories without double spending that is everything the addresses have left unspent |
| Spents.BalanceIsUnspent | bitcoinlib/services/bcoin.py:84-90 | on one complete list without double spending, once marked, the balance is the sum of the outputs left unspent |
| Spents.AllSpentMembers | bitcoinlib/transactions.py:116-126 | the inputs the balance subtracts are exactly the outputs the marking calls spent |
| Spents.LeftAfter | bitcoinlib/services/bcoin.py:84-90 | spending distinct coins lowers what is left by their sum |
| Field.Fermat | bitcoinlib/keys.py:3091-3106 | Fermat's little theorem, on which the square root rests |
| PointCompression.SqrtExponent | bitcoinlib/keys.py:3104-3106 | the exponent written out is (p - 3) / 4 for the field of the curve, and p mod 4 is 3 |
| PointCompression.SqrtOfSquare | bitcoinlib/keys.py:3091-3106 | the root of a square is one of its two roots |
| PointCompression.DecompressInvertsCompress | bitcoinlib/keys.py:1320-1330 | rebuilding y from x and the parity of y gives y back, for every point of the curve (section 2.3.4 of SEC 1) |
| PointCompression.DecompressedIsOnCurveIff | bitcoinlib/keys.py:1320-1330 | for any x the rebuilt point is on the curve exactly when some point has that x; the code does not report the other case |
| PointCompression.PublicKey.PublicUncompressed | bitcoinlib/keys.py:1311-1330 | the cached point is the decompressed one, however often it is asked for |
| Bip32.ChildCommutes | bitcoinlib/keys.py:2307-2383 | making an unhardened child public is deriving the child of the public key, in point, chain code, depth, parent fingerprint and index |
| Bip32.ChildPublicOfPrivate | bitcoinlib/keys.py:2355-2383 | a private key derives the same public child as its public version |
| Bip32.DerivePath | bitcoinlib/keys.py:2191-2208 | the loop over the steps of a path computes the specification |
| Bip32Equations.PrivateStep | bitcoinlib/keys.py:2307-2330 | a step from a private key, hardened or not, fails exactly as BIP 32 says and otherwise has, field by field, the child of its equations: for hardened steps the HMAC is of 0x00, the secret and the number with its high bit set, for others of the public key and the number |
| Bip32Equations.PublicStep | bitcoinlib/keys.py:2355-2383 | the same for a step from a public key, up to the limit on the index |
| Bip32Equations.PathIs | bitcoinlib/keys.py:2191-2208 | a whole path from a private key gives exactly the key that the equations of its steps lead to |
| Bip32Equations.AccountPath | bitcoinlib/keys.py:2191-2208 | written out for the path of BIP 44, three hardened steps and two others |
| Bip32.DerivationCommutes | bitcoinlib/keys.py:2191-2208 | over whole unhardened paths on which private derivation succeeds, deriving then making public is making public then deriving (BIP 32, section "Child key derivation (CKD) functions") |
| Bip32.PublicSucceedsIff | bitcoinlib/keys.py:2191-2208 | where private derivation succeeds, public derivation does exactly when no index is above the limit the code tests |
| Bip32.MasterPublicPath | bitcoinlib/keys.py:2182-2208 | a path from the public master is the path of the public version of the key, unless a private key is asked for "M" alone |
| Bip32.PublicIgnoresHardening | bitcoinlib/keys.py:2198-2206 | a public key does not refuse hardened steps along a path: it derives the unhardened child |
| Regroup.ConvertBits | bitcoinlib/encoding.py:809-844 | the loop with its masked accumulator computes what regrouping the unbounded bit string gives, for all widths, errors included |
| Regroup.PadThenBack | bitcoinlib/encoding.py:809-844 | padded regrouping and unpadded regrouping back give the values back exactly when the padding is shorter than one value |
| Regroup.BytesToSymbolsAndBack | bitcoinlib/encoding.py:809-844 | from bytes to five-bit symbols and back, on all byte strings |
| Regroup.UnpadThenBack | bitcoinlib/encoding.py:809-844 | whatever the unpadded direction accepts is given back by padded regrouping of the result |
| Regroup.RegroupedInWidth | bitcoinlib/encoding.py:809-844 | the pieces fit the new width |
| Regroup.RegroupedNumber | bitcoinlib/encoding.py:809-844 | as numbers: the pieces are the digits of the number of the values, shifted up by the padding |
| Polymod.PolymodLoop | bitcoinlib/encoding.py:795-806 | the loop over the generators computes the checksum of the specification |
| Polymod.FeedLinear | bitcoinlib/encoding.py:795-806 | the checksum of an exclusive or is the exclusive or of the checksums, at every length |
| Polymod.FeedbackInjective | bitcoinlib/encoding.py:795-806 | one step without input loses no information on 30-bit states |
| Polymod.SixSymbols | bitcoinlib/encoding.py:795-806 | six symbols fed into the same state lead to different states unless they are the same |
| Polymod.BurstChangesChecksum | bitcoinlib/encoding.py:795-806 | a change confined to six consecutive symbols changes the checksum, at every length |
| Bech32.ChecksumHolds | bitcoinlib/encoding.py:780-792 | the six checksum symbols bring the checksum to the wanted constant |
| Bech32.ChecksumUnique | bitcoinlib/encoding.py:640-653 | they are the only six symbols that do |
| Bech32.DecodeEncode | bitcoinlib/encoding.py:616-668 | decoding an encoded address gives prefix, version and program back, for every lower-case prefix, version 0 to 16 and allowed program size within 90 characters (BIP 173, BIP 350) |
| Bech32.EncodeDecode | bitcoinlib/encoding.py:616-668 | whatever the decoder accepts is, in lower case, the encoding of what it returns |
| HexText.LeftAloneIff | bitcoinlib/encoding.py:865-889 | `to_bytes` leaves a byte string alone exactly when it is not hexadecimal text |
| HexText.TextReadsBack | bitcoinlib/encoding.py:865-889 | hexadecimal text of any bytes, in either case, is read as these bytes |
| HexText.TextBroken | bitcoinlib/encoding.py:876-882 | white space is skipped; any other character that is no digit, or a digit without a second one, means that it is no hexadecimal text |
| Bech32.BareRoundTripIff | bitcoinlib/encoding.py:742-792 | over all byte strings: encoding and decoding without the version gives the bytes back exactly when they are not hexadecimal text, have 20, 32 or 40 bytes in a size their version allows, and the address fits |
| Bech32.HeaderRoundTripIff | bitcoinlib/encoding.py:742-792 | over all byte strings: encoding and decoding with the version gives the bytes back exactly when they carry version and length of a program in front, do not have 20, 32 or 40 bytes, and the address fits |
| Bech32.AddressRoundTripIff | bitcoinlib/encoding.py:616-668 | for every valid address: decoding and encoding again gives the address in lower case, with the version exactly when the program does not have 18, 30 or 38 bytes, without it exactly when the program is not hexadecimal text and has 20, 32 or 40 |
| Bech32.HexTextIsMisread | bitcoinlib/encoding.py:768-776 | twenty characters "0" make the encoder raise, forty characters "a" are encoded as twenty bytes 0xaa |
| Bech32.EncodedAddressLength | bitcoinlib/encoding.py:742-792 | the length of an address is that of prefix and program, whatever the version, negative ones included |
| Bech32.BurstIsRejected | bitcoinlib/encoding.py:640-653 | a valid address in which up to six consecutive data symbols are changed, keeping the constant that is expected, is rejected |
| AddressLayout.ChecksumIs | bitcoinlib/encoding.py:795-806 | the checksum is the register of BIP 173 written out bit by bit, for every list of symbols |
| AddressLayout.AddressIff | bitcoinlib/encoding.py:742-792 | a string is the address of a version and a program exactly when it is the prefix, a 1, the version, the five-bit digits of the number of the program and six symbols that bring the register to 1, or to 0x2bc830a3 from version 1 on |
| AddressLayout.EncoderAnswers | bitcoinlib/encoding.py:768-792 | for bytes that are no hexadecimal text: which are taken for a bare program, which for version, length and program, negative versions among them, and which raise |
| AddressLayout.NegativeAddress | bitcoinlib/encoding.py:768-792 | what a negative version gives: its character counted from the end of the set, the register fed with the number itself |
| AddressLayout.DecoderAnswers | bitcoinlib/encoding.py:634-668 | the decoder accepts a string exactly when it has at most 90 printable characters of one case and is in lower case the address of a version and a program of a size the version allows, with the prefix asked for; it returns these |
| AddressLayout.ShortestAddress | bitcoinlib/encoding.py:742-806 | version 16 and the bytes 0x751e give bc1sw50qgdz25j, as BIP 350 lists |
| Base58.Base58Encode | bitcoinlib/encoding.py:317-336 | the loop over quotient and remainder computes the encoding: a "1" for each leading zero byte and the shortest digits of the number |
| Base58.EncodeIff | bitcoinlib/encoding.py:317-336 | a string is the encoding of a byte string exactly when it is written in the alphabet, stands for the same number and begins with as many characters 1 as the bytes with zeros |
| Base58.EncodedExample | bitcoinlib/encoding.py:317-336 | the bytes 0, 0, 1, 0 give 115R |
| Base58.ChangeBase | bitcoinlib/encoding.py:241-300 | the loops from the last character to the first compute the decoding, with its count of leading ones and its minimal length |
| Base58.RebaseBack | bitcoinlib/encoding.py:243-300 | changing the base of a digit string and back is the identity, leading zeros included |
| Base58.DecodeEncodeIff | bitcoinlib/encoding.py:317-336 | decoding an encoded byte string gives it back with every leading zero byte exactly when it is not empty and not shorter than the minimal length |
| Base58.EncodeDecode | bitcoinlib/encoding.py:243-300 | for every minimal length: encoding what an accepted string decodes to gives the string back with every leading "1", up to I and O, behind a "1" for each byte of padding, of which there are none but those that reach the length |
| Base58.EncodeDecodeIff | bitcoinlib/encoding.py:243-300 | the very string comes back exactly when it is written in the alphabet and has no fewer bytes than the minimal length |
| Base58.AcceptedCharacters | bitcoinlib/encoding.py:253-259 | the characters accepted are those of the alphabet and, by the fallback to lower case, I and O |
| Base58.DigitOfChar | bitcoinlib/encoding.py:253-259 | a character of the alphabet is its own digit; I and O are read as i and o |
| CompactSize.ReadSizeBack | bitcoinlib/encoding.py:384-437 | a CompactSize reads back as the number written and leaves what follows |
| CompactSize.ShortestIff | bitcoinlib/encoding.py:430-437 | the form written is the shortest that reads as the number, except for 0xffff and 0xffffffff |
| ByteLayout.SizeIs | bitcoinlib/encoding.py:414-437 | the bytes of a size by their values: one below 253, else 253, 254 or 255 and 2, 4 or 8 bytes n / 256^i % 256 |
| ByteLayout.SizeRead | bitcoinlib/encoding.py:339-411 | what is read of a size, also when it is cut short |
| ByteLayout.StringIs | bitcoinlib/encoding.py:847-862 | a string stands behind its size, the single zero byte for itself |
| CompactSize.VarstrReadsBackIff | bitcoinlib/encoding.py:847-862 | a string with its length in front reads back exactly when it is not the single zero byte, which reads as an empty string |
| CompactSize.Stream.ReadVarbyteintReturn | bitcoinlib/encoding.py:384-411 | value, original bytes and new position of a CompactSize read from a stream, cut short or not |
| CompactSize.Stream.ReadVarbyteint | bitcoinlib/encoding.py:369-381 | value and new position through `varbyteint_to_int` |
| Der.DecodeEncode | bitcoinlib/encoding.py:478-514 | decoding an encoded pair gives it back exactly with nothing or one sighash byte behind it, both integers are minimal and every length is one short byte (section 8.3 of ITU-T X.690) |
| Der.EncodeDecodeIff | bitcoinlib/encoding.py:478-514 | of all byte strings the decoder accepts, encoding the numbers again gives back exactly the strictly encoded ones |
| Der.DecodeSignature | bitcoinlib/encoding.py:478-514 | the decoder returns the numbers of any two integer contents of up to 33 bytes, and raises for two and more bytes behind |
| Der.EncodeIsSignature | bitcoinlib/encoding.py:534-555 | the encoder writes tag, length and content of both integers |
| Der.IntBytesArePositive | bitcoinlib/encoding.py:548-552 | the content written is the shortest with a clear top bit |
| Wire.Block.ParseTransactionDict | bitcoinlib/blocks.py:326-415 | the reads and seeks on the stream compute the parse of the specification: a dictionary, False at the end of the data, or an exception |
| Wire.Block.ParseTransactionsDict | bitcoinlib/blocks.py:291-311 | the loop over a block returns the transactions up to the end of the data and puts the stream back |
| Wire.RebuiltIs | bitcoinlib/blocks.py:326-415 | the rebuilt transaction is the bytes consumed, except that the flag behind a marker becomes 1 |
| Wire.LosslessIff | bitcoinlib/blocks.py:326-415 | the rebuilt transaction is exactly the bytes consumed, however its sizes are written and even when the stream is cut short, if and only if no marker is followed by another flag than 1 |
| Wire.BlockIsPartitioned | bitcoinlib/blocks.py:291-311 | the rebuilt transactions one after the other are the whole data of the block, if and only if all flags are 1 |
| Wire.ParsedIsSound | bitcoinlib/blocks.py:345-411 | whatever is accepted, cut short or not, has an output, the sum of its outputs for total and whole previous transaction ids, is a coinbase by its last input alone and has segwit inputs only behind the flag, with empty scripts; its id is taken of bytes that begin with the version, and without a segwit flag those are the bytes read behind the marker and no input has witnesses |
| Wire.ReadListBack | bitcoinlib/blocks.py:345-385 | a list reads back when its elements do |
| RawTransaction.Serialize | bitcoinlib/transactions.py:1585-1650 | the buffers filled input by input and output by output hold the serialisation, or an error for a number that does not fit |
| RawTransaction.RoundTripIff | bitcoinlib/transactions.py:1601-1647 | parsing the output of `raw` gives back version, inputs, outputs, witnesses and lock time, the bytes themselves, and leaves what follows, exactly when there is an output, there is an input or a marker, and no string is the single zero byte, save unlocking scripts of type nonstandard_0001 (BIP 144, section "Serialization") |
| RawTransaction.DictParts | bitcoinlib/blocks.py:403-411 | version, lock time, the bytes themselves and the bytes the id is taken of, in what a readable transaction is parsed to |
| RawLayout.TransactionLayout | bitcoinlib/transactions.py:1601-1650 | the bytes of a transaction written out, numbers byte by byte, and exactly when they exist (BIP 144, section "Serialization") |
| RawLayout.LegacyLayout | bitcoinlib/transactions.py:1611-1650 | the same for the legacy message: the script of the spent output for the input to sign, no other script, and the hash type |
| RawTransaction.ReadsAsDict | bitcoinlib/transactions.py:1601-1647 | what is found with other such strings as well: they are empty, and the transaction id is taken of the serialisation without witnesses |
| RawTransaction.PreimageIff | bitcoinlib/transactions.py:1601-1647 | two legacy signature messages are the same exactly when they commit to the same version, previous outputs, sequences, signed script, outputs, lock time and hash type, where a script of a single zero byte counts as empty |
| RawTransaction.PreimageIsBlank | bitcoinlib/transactions.py:1619-1633 | the legacy message is the serialisation of the transaction with all other scripts empty, followed by the hash type |
| RawTransaction.CommittedDecides | bitcoinlib/transactions.py:1611-1643 | unlocking scripts and witnesses play no part in it |
| SegwitMessage.MessageIgnoresSignatures | bitcoinlib/transactions.py:1506-1583 | transactions that differ in unlocking scripts and witnesses only have the same signature messages, or the same failure, for every input, hash type and kind of input |
| SegwitLayout.MessageLayout | bitcoinlib/transactions.py:1540-1583 | the segwit message cut at the offsets of BIP 143: version, hash of the previous outputs, hash of the sequences, previous output, script behind its size, amount, sequence, hash of the outputs, lock time and hash type, numbers byte by byte, and which of the three hashes are zeros for each hash type |
| SegwitLayout.LegacyMessage | bitcoinlib/transactions.py:1521-1526 | the message of a legacy input is that transaction, with its own script and the hash type |
| SegwitLayout.MessageExistsIff | bitcoinlib/transactions.py:1540-1583 | exactly when there is such a message |
| SegwitMessage.SegwitIff | bitcoinlib/transactions.py:1529-1583 | where the hash does not collide, two segwit messages for all inputs and outputs are the same exactly when they commit to the same things (BIP 143, section "Specification") |
| SegwitMessage.WrittenDecides | bitcoinlib/transactions.py:1549-1566 | elements written one after the other without a count are determined by their bytes |
| SegwitMessage.CoversBip143Iff | bitcoinlib/transactions.py:1559-1566 | the outputs covered are those of BIP 143 exactly when the hash type covers all outputs or there is none of the number of the input |
| SegwitMessage.SegwitIsBip143Iff | bitcoinlib/transactions.py:1529-1583 | and under the same condition the message is the one of BIP 143, unless that output hashes to zero |
| SegwitMessage.NoneAndSingleSwapped | bitcoinlib/transactions.py:1559-1566 | a transaction with one input and one output that can be signed, for which SIGHASH_NONE covers the output and SIGHASH_SINGLE none, so that neither message is the one of BIP 143 |
| ScriptCodec.Serialize | bitcoinlib/scripts.py:599-616 | the loop computes the bytes of the commands, or an error for an opcode above 255 or data of more than 65535 bytes |
| ScriptCodec.WrittenCommand | bitcoinlib/scripts.py:104-118 | the bytes of a command by their values: an opcode is one byte, data stand behind their length, behind 76 and one byte, or behind 77 and two bytes, the low one first |
| ScriptCodec.WrittenScript | bitcoinlib/scripts.py:599-616 | the bytes of a script are those of its commands one after the other |
| ScriptCodec.ReadCommand | bitcoinlib/scripts.py:387-411 | what each first byte asks for: 0 and 78 to 255 are opcodes, 1 to 75 push as many bytes, 76 as many as the next byte says, 77 as the next two say |
| ScriptCodec.BareWhen | bitcoinlib/scripts.py:327-338 | the first bytes and stated lengths for which the whole is taken for one item |
| ScriptCodec.ParseBytesio | bitcoinlib/scripts.py:327-411 | the loop over the stream computes the parse of the specification, with its bare items, its three push forms and its truncated pushes |
| ScriptCodec.ParseSerializeIff | bitcoinlib/scripts.py:340-411 | parsing undoes serialising exactly for the lists of accepted non-empty data and opcodes that push nothing, with at most a push opcode at the very end |
| ScriptCodec.ParseAtLengthIff | bitcoinlib/scripts.py:327-338 | the same under any stated length: exactly for the canonical lists that do not look like a bare item of that length, and without strictness for pushes of 64 bytes 0x40 read as items of 64 |
| ScriptCodec.StatedLengths | bitcoinlib/scripts.py:285-291 | with the length stated, with half of it (`Script.parse` of bytes) and with twice of it (`Script.parse` of hexadecimal text): exactly for the canonical lists that do not look like a bare item of that length |
| ScriptCodec.TakenForItems | bitcoinlib/scripts.py:285-338 | every script of 32 bytes parsed from hexadecimal text is one item, and every one of 128 or 129 bytes parsed from bytes starts with an item of 64 |
| ScriptCodec.ReadLate | bitcoinlib/scripts.py:340-411 | reading a script one byte too late gives its commands only for pushes of 64 bytes 0x40, the last of which is cut short |
| ScriptCodec.TruncatedPush | bitcoinlib/scripts.py:398-405 | a script whose last push is cut short raises, or without strictness gives the commands in front of it |
| ScriptCodec.PackAnnounces | bitcoinlib/scripts.py:104-118 | the three forms of `data_pack` announce exactly the data that follow |
| ScriptCodec.PackIsShortest | bitcoinlib/scripts.py:104-118 | no push announces its data in fewer bytes than `data_pack` does |

## Left out

- Service clients, HTTP, the database, sessions, files and logging. The answers of queries are sequences
  with the filters as preconditions.
- SHA-256, HMAC, ECDSA and curve addition are parameters. That the field size of the curve is prime is a
  hypothesis where it is needed; the proofs hold for every prime that is 3 modulo 4.
- Python's floats: fee rates, `Value`, difficulty, the rounding in `getbalance` and the length guard in
  `change_base`. Change is split over exact reals.
- ScriptFlow.FlatIsNested: the other stack operations are one abstract table of functions on the stack.
- ScriptMachine.Script.Evaluate: the table is any; `ScriptMachine.MultisigStepMeaning` is about its entry for
  CHECKMULTISIG with the redeem script, the entries of other opcodes are left out.
- Stack operations other than the conditionals, the arithmetic listed above and CHECKMULTISIG.
- ScriptCodec.ParseBytesio: the checks on script types after the loop are left out, building key and
  signature objects is a predicate on the data, and nested parsing at level 0 is not modelled.
- Bech32.BareRoundTripIff: for versions from 0 on, and for the default checksum constant and separator. Of
  the addresses of negative versions it is not claimed whether the decoder accepts any.
- Cosign.Input.Sign: equality of keys is equality of public keys; `replace_signatures` and the scripts that
  are rebuilt after signing are left out, and so is a `sigs_required` read from the redeem script.
- Cosign.Input.Verify: signatures are values. In a list that holds one signature object twice, as after a lossy
  merge, the code relabels both at once. The message that `Signature.verify` stores plays no part here.
- KnownSignatures.KnownAreKeptIff: for lists whose first signature stands in them once.
- KnownSignatures.KeylessOrderIff: for one more signer; what the next ones find is a list for
  `KnownSignatures.KnownAreKeptIff`.
- Labels.MislabelsIff: for signatures that verify at one key position at most.
- Cosign.CosigningDependsOnSet: for inputs without private keys of their own, one key to a call;
  `Cosign.SignsWithOwnKeys` and `Cosign.RunKeepsOrder` cover the others.
- RawTransaction.RoundTripIff: for fixed field widths, and with the type nonstandard_0001 only where the parser
  sets it, on the single zero byte (bitcoinlib/transactions.py:381-382).
- RawTransaction.PreimageIff: for fixed field widths, at least one input and one output.
- SegwitMessage.SegwitIff: for SIGHASH_ALL, the only hash type `sign` accepts; other types are covered by
  `SegwitMessage.MessageIgnoresSignatures`.
- SegwitMessage.MessageIgnoresSignatures: that `signature_segwit` stores the locking script as redeem script
  where there is none is not modelled as a change of the input.
- Wire.Block.ParseTransactionDict: the fields height, index and size of the dictionary, and the hash that
  makes an id of the bytes it is taken of.
- Change.SplitChange: over exact reals, where the code computes with floats.
- Change.Transaction.SetFee: sizes, fee rates and the limits per kilobyte enter as numbers; the number of
  change outputs, where the code draws it, is any number.
- Change.Transaction.AddChange: for a wallet with a single key the final check does fire; then only the
  error is claimed.
- CoinSelection.SelectInputs: the order in which each query returns its rows is arbitrary.
- Spents.GetBalance: over integers; the code adds them as floats and rounds the sum.
- Bip32.ChildCommutes: uncompressed parent keys, path strings and key types are left out.
- Base58.ChangeBase: other bases, and the conversions that are delegated to Python's `int` and `bytes`.
- Taproot, BIP 38, mnemonics, script-type guessing, wallet creation, `bumpfee` and time-lock opcodes.
