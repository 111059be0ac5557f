# Gnosis Safe for iOS: a verified model of its core

Dafny models of the parts of the wallet that have to be right and are easy to get wrong, with proofs about all
inputs and all runs:

- **Call data.** The ABI codec of the contract proxies (`Bytes`, `Hex`, `AbiCodec`) and the calls laid out with
  it: `setup` (`SetupCall`), `multiSend` (`MultiSend`), `transfer` (`TokenTransfer`), owner management
  (`OwnerManager`). `AbiReference` states the encoding of the Solidity Contract ABI Specification, section
  "Formal Specification of the Encoding", on its own, and the layout of each of these calls is proved equal to it (for
  `setup` up to the filler word after empty data). For every decoder the round trip is proved both ways, re-encoding with
  its exact condition.
- **Token amounts.** Printing and parsing through digit strings (`DecimalText`, `Grouping`, `TokenFormatter`,
  `TokenReading`, `TokenParser`, `TypedAmounts`): the short format is the amount rounded down, order and sign are kept,
  print then parse is the identity exactly where stated, and so is what any typed text parses to.
- **Authentication.** `Sessions`, `Gatekeepers` and `Identity` model the objects; `IdentityReference` tells the same story
  without them, from the policy, the times of the failures and the password, and every run is proved to agree with it;
  `IdentityRuns` proves how many password checks can fail in a given time.
- **Database.** `QueryExecution` (cursor, reset and BUSY handling) and `Migrations` (ordered, at most once, atomic).
- **Transactions.** The status machine and its restoration from the database (`Transactions`), and the protocol
  for incoming send-transaction messages (`SendTransaction`).
- **Small protocols.** `FileSystemGuard`, `WaitingScheduler`, `RepeatBlock`, `MergeStrings`.

`Outcomes` holds the shared result types: a Swift trap (out-of-range access, failed precondition, integer conversion
that does not fit) is `Traps`; only the methods of a transaction object demand a status that permits them, with the
trap stated in `Transactions.Applied`. Code that works by changing things is a class or a method with loops, proved
against a function of its inputs or old state; the theorems are about that function. `StringOrder` is the order of
plain strings, `Sequences` what it means to be without repeats. Check everything with `dafny verify dfyconfig.toml`.

Where the code and its documentation disagree, the model follows the code and states the exact condition:

- A session can be restarted after it expired, although its comment asks for a session not started before; after a
  renewal that inverts its range and the next query traps (`Sessions.KeepsRange`, `Sessions.RestartInvertsRange`).
- The scheduler is documented to hold one operation only; two callers racing through the check queue two
  (`WaitingScheduler.RaceQueuesTwo`), and exactly such overlaps break it (`WaitingScheduler.OneOperationIff`,
  `WaitingScheduler.OverlapQueuesTwo`).
- The parser adds the fraction without the sign, takes the last group of a comma-grouped whole number for a fraction,
  and reads nothing at all when the groups are set apart by another character (`TokenParser.PrintThenParse`,
  `TokenParser.GroupedPrintThenParse`, `TokenParser.ForeignPrintThenParse`).
- A statement that merely mentions a commit is retried as one (`QueryExecution.CommitTextFacts`).
- Address decoding keeps the leading 20 bytes of a longer number (`AbiCodec.EncodeDecodedAddress`).
- A stored transaction is not always restored: an empty `data` is read as missing, and an address that a message may
  carry without its prefix traps (`Transactions.RestoredExactlyIff`), which stops a repeated message
  (`SendTransaction.RepeatsReturnSameId`).
- A migration recorded but no longer registered makes older ones pending again (`Migrations.PendingAgainIff`,
  `Migrations.UnregisteredLatestRunsAgain`).

## Model

| member | source | states |
|---|---|---|
| Bytes.LeftPadded | Common/Common/Data+Padding.swift:15-18 | Padding on the left reaches the asked length and keeps the big-endian value; longer data is untouched. |
| Bytes.RightPadded | Common/Common/Data+Padding.swift:20-23 | Padding on the right reaches the asked length and keeps the data as a prefix. |
| Bytes.EndTruncated | Common/Common/Data+Padding.swift:25-28 | The result is a prefix no longer than asked, and the whole data when it fits. |
| Bytes.SuffixIsRemainder | MultisigWallet/MultisigWalletDomainModel/EthereumContractProxy.swift:34-36 | The last bytes of a byte string carry its value modulo a power of 256: why a value too big for a word wraps. |
| Hex.DataFromEthHex | MultisigWallet/MultisigWalletDomainModel/Ethereum/Data+InitWithHex.swift:15-22 | The prefix-stripping loop and the half-byte padding compute `EthHex`, the recursive reading of the text. |
| Hex.EthHexOfPrefixed | MultisigWallet/MultisigWalletDomainModel/Ethereum/Data+InitWithHex.swift:15-22 | With or without `0x`, an even number of digits becomes the bytes of its pairs. |
| Hex.EthHexOfToHex | MultisigWallet/MultisigWalletDomainModel/Ethereum/Data+InitWithHex.swift:15-22 | Printing bytes as prefixed hexadecimal and reading them back is the identity. |
| Hex.PrefixesDropped | MultisigWallet/MultisigWalletDomainModel/Ethereum/Data+InitWithHex.swift:17 | Any number of prefixes in front, of either case, changes nothing. |
| Hex.EthHexOfDigits | MultisigWallet/MultisigWalletDomainModel/Ethereum/Data+InitWithHex.swift:18-21 | Digits of any number, odd or even, become the shortest whole bytes with the value they spell. |
| Hex.EthHexOfOther | MultisigWallet/MultisigWalletDomainModel/Ethereum/Data+InitWithHex.swift:18-21 | Text that is not hexadecimal gives no bytes, unless the padding digit completes a prefix. |
| Hex.ToHexOfPairs | MultisigWallet/MultisigWalletDomainModel/EthereumContractProxy.swift:133-136 | Reading digits and printing them again only lowers their case. |
| Hex.MinimalValue | MultisigWallet/MultisigWalletDomainModel/EthereumContractProxy.swift:35 | The shortest whole-byte text form of a number spells that number. |
| Hex.MinimalLength | MultisigWallet/MultisigWalletDomainModel/EthereumContractProxy.swift:35 | A number below 256^k takes at most k bytes. |
| AbiCodec.EncodeUIntValue | MultisigWallet/MultisigWalletDomainModel/EthereumContractProxy.swift:34-36 | An encoded number is its value modulo 2^256. |
| AbiCodec.DecodeEncodedUInt | MultisigWallet/MultisigWalletDomainModel/EthereumContractProxy.swift:34-41 | Decoding an encoded number, whatever follows it in the buffer, gives it modulo 2^256. |
| AbiCodec.EncodeDecodedUInt | MultisigWallet/MultisigWalletDomainModel/EthereumContractProxy.swift:34-41 | Every 32-byte word is the encoding of what it decodes to. |
| AbiCodec.DecodeEncodedAddress | MultisigWallet/MultisigWalletDomainModel/EthereumContractProxy.swift:44-51 | Decoding an encoded address gives its normalised form (20 bytes, lower case; no bytes become zero). |
| AbiCodec.NormalisedCanonical | MultisigWallet/MultisigWalletDomainModel/EthereumContractProxy.swift:133-136 | For `0x` and 40 digits, normalising only lowers the case. |
| AbiCodec.EncodeDecodedAddress | MultisigWallet/MultisigWalletDomainModel/EthereumContractProxy.swift:133-136 | Re-encoding a decoded address word gives the word back if and only if it is below 2^160. |
| AbiCodec.WideAddressValue | MultisigWallet/MultisigWalletDomainModel/EthereumContractProxy.swift:133-136 | A number of 20 + k bytes is read as its quotient by 256^k: the leading 20 bytes. |
| AbiCodec.NormalisedShape | MultisigWallet/MultisigWalletDomainModel/EthereumContractProxy.swift:133-136 | The normalised text has 42 characters, the prefix, no capitals, and the value of the original. |
| AbiCodec.WideAddressChanges | MultisigWallet/MultisigWalletDomainModel/EthereumContractProxy.swift:133-136 | The word 2^160 is not reproduced: it is read as the address 2^152. |
| AbiCodec.DecodeEncodedTuple | MultisigWallet/MultisigWalletDomainModel/EthereumContractProxy.swift:76-86 | The tuple decoder inverts the encoder on every list of words. |
| AbiCodec.EncodeDecodedTuple | MultisigWallet/MultisigWalletDomainModel/EthereumContractProxy.swift:76-86 | Decoded words are re-encoded to the same bytes if and only if the bytes were exactly `count` words, or none. |
| AbiCodec.DecodeEncodedArray | MultisigWallet/MultisigWalletDomainModel/EthereumContractProxy.swift:53-66 | The array decoder inverts the encoder on every list of words. |
| AbiCodec.EncodeDecodedArray | MultisigWallet/MultisigWalletDomainModel/EthereumContractProxy.swift:53-66 | A decoded list is re-encoded to the same bytes if and only if the offset is 32 and the bytes end with the last of `count` items. |
| AbiCodec.ShiftedListMoves | MultisigWallet/MultisigWalletDomainModel/EthereumContractProxy.swift:53-66 | A list behind an unused word is accepted and re-encoded without it. |
| AbiCodec.ArrayDecoderAccepts | MultisigWallet/MultisigWalletDomainModel/EthereumContractProxy.swift:53-62 | The two length guards give a non-empty list if and only if the offset lies inside the data and is followed by exactly 32 * (1 + count) bytes, count positive. |
| AbiCodec.ArrayDecoderOutcome | MultisigWallet/MultisigWalletDomainModel/EthereumContractProxy.swift:53-62 | The exact inputs that stop the process; every other one that is not of the exact length gives the empty list. |
| AbiCodec.DecodeEncodedAddressArray | MultisigWallet/MultisigWalletDomainModel/EthereumContractProxy.swift:68-74 | Encoded address lists decode to the same list, normalised. |
| AbiCodec.EncodeDecodedAddressArray | MultisigWallet/MultisigWalletDomainModel/EthereumContractProxy.swift:68-74 | The same for address lists, if and only if in addition every item is below 2^160. |
| AbiCodec.DecodeEncodedBytes | MultisigWallet/MultisigWalletDomainModel/EthereumContractProxy.swift:104-116 | Encoded bytes decode to themselves, whatever their length and whatever follows. |
| AbiCodec.EncodeDecodedBytes | MultisigWallet/MultisigWalletDomainModel/EthereumContractProxy.swift:104-116 | Decoded bytes are re-encoded to the same ones if and only if the data is followed by zeroes to whole words and nothing else. |
| AbiCodec.DecodeBytesMeaning | MultisigWallet/MultisigWalletDomainModel/EthereumContractProxy.swift:111-116 | Of any bytes: what follows the first word, as far as it goes and that word asks; a trap only when the word is no machine integer. |
| AbiCodec.TrailingByteIsDropped | MultisigWallet/MultisigWalletDomainModel/EthereumContractProxy.swift:76-116 | A byte after the last word, or after the padding, is lost. |
| AbiReference.EncodeUIntConforms | MultisigWallet/MultisigWalletDomainModel/EthereumContractProxy.swift:34-36 | The word is the big-endian form of the Solidity ABI formal specification. |
| AbiReference.EncodeBytesConforms | MultisigWallet/MultisigWalletDomainModel/EthereumContractProxy.swift:104-109 | Bytes are encoded as the specification says: length word, data, zeroes to whole words. |
| AbiReference.EncodeTupleConforms | MultisigWallet/MultisigWalletDomainModel/EthereumContractProxy.swift:84-86 | All heads before all (empty) tails is the item-by-item encoding of the specification. |
| AbiReference.EncodeArrayConforms | MultisigWallet/MultisigWalletDomainModel/EthereumContractProxy.swift:64-66 | The encoded list is the specification's one-argument tuple holding a dynamic array, offset word included. |
| AbiReference.MethodConforms | MultisigWallet/MultisigWalletDomainModel/EthereumContractProxy.swift:22-24 | The method identifier is the selector of section "Function Selector", the first four bytes of the hash. |
| AbiReference.CallStartsWithSelector | MultisigWallet/MultisigWalletDomainModel/EthereumContractProxy.swift:126-128 | With a 32-byte hash a call is exactly those four bytes and the arguments one after the other. |
| SetupCall.TakeOwners | MultisigWallet/MultisigWalletDomainModel/GnosisSafeContractProxy.swift:81-85 | The consuming loop reads exactly the first `count` words as addresses, or traps when there are fewer. |
| SetupCall.DecodeOwners | MultisigWallet/MultisigWalletDomainModel/GnosisSafeContractProxy.swift:79-85 | Following the offset and consuming the list is reading it by position; each trap is accounted for. |
| SetupCall.DecodeData | MultisigWallet/MultisigWalletDomainModel/GnosisSafeContractProxy.swift:87-89 | Following the offset, dropping the length and taking the prefix is decoding bytes at that offset. |
| SetupCall.DecodeSetupCall | MultisigWallet/MultisigWalletDomainModel/GnosisSafeContractProxy.swift:40-92 | The decoder that consumes three copies of the call equals reading the arguments by position and offset. |
| SetupCall.DecodeEncodedSetup | MultisigWallet/MultisigWalletDomainModel/GnosisSafeContractProxy.swift:14-92 | Decoding an encoded `setup` gives all seven arguments back, addresses normalised and the payment modulo 2^256, for every owner list and data, empty data and its extra word included. |
| SetupCall.DecodeWithRest | MultisigWallet/MultisigWalletDomainModel/GnosisSafeContractProxy.swift:40-92 | Anything after the encoded data, the filler word or none, leaves the result unchanged. |
| SetupCall.DecodeByOffsets | MultisigWallet/MultisigWalletDomainModel/GnosisSafeContractProxy.swift:67-91 | The list and the bytes are read from wherever the two offsets lead, whatever lies around them. |
| SetupCall.DecodeSetupOutcome | MultisigWallet/MultisigWalletDomainModel/GnosisSafeContractProxy.swift:47-90 | Nothing exactly for another selector; a trap exactly for a call too short for its words, its list or the length of its data, or a threshold or length that is no machine integer. |
| SetupCall.EncodeDecodedSetup | MultisigWallet/MultisigWalletDomainModel/GnosisSafeContractProxy.swift:14-92 | An accepted call with n owners is re-encoded to the same bytes if and only if its offsets are 224 and 256 + 32n, words 2, 4, 6 and every owner word are below 2^160, and the data is followed by zeroes to whole words, the filler word exactly when it is empty, and nothing else. |
| SetupCall.StandardEmptyDataGrows | MultisigWallet/MultisigWalletDomainModel/GnosisSafeContractProxy.swift:34-36 | The standard encoding of a call with empty data is accepted, and re-encoded with one more zero word. |
| SetupCall.PlainCallGrows | MultisigWallet/MultisigWalletDomainModel/GnosisSafeContractProxy.swift:34-36 | The call without owners, data and payment is one such input. |
| SetupCall.SetupConforms | MultisigWallet/MultisigWalletDomainModel/GnosisSafeContractProxy.swift:14-38 | The hand-computed offsets produce, after the selector of the signature written out, the standard ABI encoding of the seven arguments, and one zero word more exactly when the data is empty. |
| MultiSend.BuildMultiSend | MultisigWallet/MultisigWalletDomainModel/MultiSendContractProxy.swift:18-29 | Appending five pieces per transaction to one buffer builds the call with the recursively packed batch. |
| MultiSend.UnpackPacked | MultisigWallet/MultisigWalletDomainModel/MultiSendContractProxy.swift:18-29 | An independent reader of the layout recovers every item of a packed batch, in order. |
| MultiSend.PackedWholeWords | MultisigWallet/MultisigWalletDomainModel/MultiSendContractProxy.swift:20-26 | A packed batch is whole 32-byte words. |
| MultiSend.MultiSendBytes | MultisigWallet/MultisigWalletDomainModel/MultiSendContractProxy.swift:27-28 | So the outer byte string adds no padding: selector, offset, length and the batch, nothing else. |
| MultiSend.UniquelyDecodable | MultisigWallet/MultisigWalletDomainModel/MultiSendContractProxy.swift:18-29 | Equal calls come from batches of equal length that agree item by item on operation, normalised recipient, magnitude modulo 2^256 and data. |
| MultiSend.PackedConforms | MultisigWallet/MultisigWalletDomainModel/MultiSendContractProxy.swift:21-25 | A packed transaction is the standard ABI encoding of 0 or 1 for the operation, the recipient, the magnitude of the value and the data. |
| MultiSend.MultiSendConforms | MultisigWallet/MultisigWalletDomainModel/MultiSendContractProxy.swift:27-28 | The call is the standard ABI encoding of one byte-string argument. |
| TokenTransfer.DecodeTransfer | MultisigWallet/MultisigWalletDomainModel/ERC20TokenContractProxy.swift:21-31 | The consuming decoder: nothing for another selector or extra bytes, a trap for missing ones, otherwise both words. |
| TokenTransfer.DecodeEncodedTransfer | MultisigWallet/MultisigWalletDomainModel/ERC20TokenContractProxy.swift:17-31 | Decoding an encoded transfer gives the normalised recipient and the amount (modulo 2^256, so exactly below it). |
| TokenTransfer.EncodeDecodedTransfer | MultisigWallet/MultisigWalletDomainModel/ERC20TokenContractProxy.swift:17-31 | An accepted call is re-encoded to the same bytes if and only if its address word is below 2^160. |
| TokenTransfer.TransferOutcome | MultisigWallet/MultisigWalletDomainModel/ERC20TokenContractProxy.swift:21-31 | Exactly when a call is a transfer, is none, or stops the process. |
| TokenTransfer.TransferConforms | MultisigWallet/MultisigWalletDomainModel/ERC20TokenContractProxy.swift:17-19 | The call is the standard ABI encoding of an address and a number. |
| OwnerManager.DecodeAddOwnerArguments | MultisigWallet/MultisigWalletDomainModel/SafeOwnerManagerContractProxy.swift:44-55 | The consuming decoder equals reading by position; the threshold traps when it is no machine integer. |
| OwnerManager.DecodeEncodedAddOwner | MultisigWallet/MultisigWalletDomainModel/SafeOwnerManagerContractProxy.swift:38-55 | Encoding then decoding gives the normalised owner and the threshold. |
| OwnerManager.DecodeOutcome | MultisigWallet/MultisigWalletDomainModel/SafeOwnerManagerContractProxy.swift:44-81 | Exactly which calls both decoders recognise, and the one trap. |
| OwnerManager.EncodeDecodedAddOwner | MultisigWallet/MultisigWalletDomainModel/SafeOwnerManagerContractProxy.swift:38-55 | Accepted bytes are reproduced if and only if the address word is below 2^160. |
| OwnerManager.AddOwnerConforms | MultisigWallet/MultisigWalletDomainModel/SafeOwnerManagerContractProxy.swift:38-42 | The call is the standard ABI encoding of an address and a number. |
| OwnerManager.DecodeSwapOwnerArguments | MultisigWallet/MultisigWalletDomainModel/SafeOwnerManagerContractProxy.swift:68-81 | The consuming decoder equals reading the three words by position. |
| OwnerManager.DecodeEncodedSwapOwner | MultisigWallet/MultisigWalletDomainModel/SafeOwnerManagerContractProxy.swift:61-81 | Encoding then decoding gives the three normalised addresses. |
| OwnerManager.EncodeDecodedSwapOwner | MultisigWallet/MultisigWalletDomainModel/SafeOwnerManagerContractProxy.swift:61-81 | Accepted bytes are reproduced if and only if all three address words are below 2^160. |
| OwnerManager.SwapOwnerConforms | MultisigWallet/MultisigWalletDomainModel/SafeOwnerManagerContractProxy.swift:61-66 | The call is the standard ABI encoding of three addresses. |
| OwnerManager.SentinelIsOne | MultisigWallet/MultisigWalletDomainModel/SafeOwnerManagerContractProxy.swift:11 | The sentinel is the normalised address of value 1. |
| OwnerManager.PreviousOwnerIsPredecessor | MultisigWallet/MultisigWalletDomainModel/SafeOwnerManagerContractProxy.swift:18-24 | For a reply encoding distinct owners, the previous owner is the predecessor in the list headed by the sentinel, whatever the case of the owner's text; a stranger has none. |
| DecimalText.RemovingTrailingZeroes | SafeUIKit/SafeUIKit/String+Extensions.swift:9-15 | The removing loop computes the longest prefix not ending in zero. |
| DecimalText.TrimThenPad | SafeUIKit/SafeUIKit/String+Extensions.swift:9-15 | Only zeroes were removed: putting as many back restores the string. |
| Grouping.GroupsPartition | SafeUIKit/SafeUIKit/TokenFormatter.swift:220-234 | The groups concatenate to the string, all but the first are of full size, and the first is not empty unless the string is. |
| Grouping.GroupsStep | SafeUIKit/SafeUIKit/TokenFormatter.swift:220-234 | Taking one full group off the end leaves the groups of the rest. |
| Grouping.GroupsAreChunks | SafeUIKit/SafeUIKit/TokenFormatter.swift:220-234 | The boundary-and-range computation equals chunking by recursion from the end. |
| Grouping.AddIntegerGrouping | SafeUIKit/SafeUIKit/TokenNumberFormatter.swift:84-95 | The in-place insertion loop of the older formatter gives the joined groups of the newer one. |
| TokenFormatter.DigitsMeaning | SafeUIKit/SafeUIKit/TokenFormatter.swift:159-164 | The padded digits split into the numeral of the quotient and digits spelling the remainder by 10^precision. |
| TokenFormatter.Shorten | SafeUIKit/SafeUIKit/TokenFormatter.swift:175-199 | The switch on the digit count computes the short parts. |
| TokenFormatter.StringFrom | SafeUIKit/SafeUIKit/TokenFormatter.swift:141-205 | The step-by-step formatter equals splitting, shortening and rendering, for every value, precision and style. |
| TokenFormatter.ShortFormBand | SafeUIKit/SafeUIKit/TokenFormatter.swift:175-199 | The switch on the digit count follows the bands documented by magnitude in lines 117-127, and gives up exactly from 1000 trillions. |
| TokenFormatter.ShortFormIsFloor | SafeUIKit/SafeUIKit/TokenFormatter.swift:175-199 | Below 1000 trillions the shown digits spell the amount rounded down to the last digit of its band. |
| TokenFormatter.ShortFormBounds | SafeUIKit/SafeUIKit/TokenFormatter.swift:175-199 | So the shown number never exceeds the magnitude and falls short by less than one unit of its last digit. |
| TokenReading.ShortFormKeepsOrder | SafeUIKit/SafeUIKit/TokenFormatter.swift:141-205 | Of two amounts of one precision, the larger is never shown as a smaller number, across all bands. |
| TokenReading.ZeroText | SafeUIKit/SafeUIKit/TokenFormatter.swift:202-203 | The magnitude text is `0` if and only if the rounded amount is zero. |
| TokenReading.ShortTextParts | SafeUIKit/SafeUIKit/TokenFormatter.swift:201-204 | The text is sign, magnitude and literal, the sign determined by the value's sign and whether the rounded amount is zero. |
| TokenReading.ShortTextSpellsFloor | SafeUIKit/SafeUIKit/TokenFormatter.swift:141-205 | Reading the printed text back as a number gives the rounded amount, and it starts with a minus if and only if the value is negative and that number is not zero. |
| TokenReading.HugeText | SafeUIKit/SafeUIKit/TokenFormatter.swift:190-193 | From 1000 trillions on the text is the bound 999 in trillions, with its sign. |
| TokenParser.FullTextParts | SafeUIKit/SafeUIKit/TokenFormatter.swift:159-204 | The full text is the sign, the numeral of the whole part grouped by three, and the fraction without trailing zeroes behind the decimal separator. |
| TokenParser.NumberFrom | SafeUIKit/SafeUIKit/TokenFormatter.swift:35-50 | The parser with its rebuilt list of parts equals parsing by the last separator; what that means for any typed text is stated by the `TypedAmounts` rows. |
| TokenParser.ParseFullText | SafeUIKit/SafeUIKit/TokenFormatter.swift:35-50 | What parsing makes of any fully printed amount: the signed whole part plus the unsigned fraction. |
| TokenParser.PrintThenParse | SafeUIKit/SafeUIKit/TokenFormatter.swift:35-50 | With no grouping or spaces, print then parse is the identity if and only if the value is not negative or has no fraction. |
| TokenParser.NegativeFractionChangesSign | SafeUIKit/SafeUIKit/TokenFormatter.swift:47-48 | Minus one half parses back as plus one half. |
| TokenParser.GroupedPrintThenParse | SafeUIKit/SafeUIKit/TokenFormatter.swift:35-50 | Grouped by a decimal separator such as the comma, print then parse is the identity if and only if there is a fraction or the whole part is below 1000, and the fraction is not lost to the sign. |
| TokenParser.ThousandReadsAsOne | SafeUIKit/SafeUIKit/TokenFormatter.swift:42-49 | One thousand prints as `1,000`, which parses as one. |
| TokenParser.ForeignPrintThenParse | SafeUIKit/SafeUIKit/TokenFormatter.swift:35-50 | Grouped by one character that is no digit, sign, space or decimal separator, such as an apostrophe or a narrow space, print then parse is the identity if and only if the whole part is below 1000 and the fraction is not lost to the sign; from 1000 on nothing is read. |
| TokenParser.ApostropheIsNotRead | SafeUIKit/SafeUIKit/TokenFormatter.swift:46 | One thousand grouped by an apostrophe parses to nothing. |
| TokenParser.CombinedMisread | SafeUIKit/SafeUIKit/TokenFormatter.swift:43-49 | Without a fraction, a grouped whole part from 1000 on is always misread: its last group is taken for the fraction. |
| TypedAmounts.TypedNumber | SafeUIKit/SafeUIKit/TokenFormatter.swift:35-50 | Any whitespace around, any spaces and further separators inside: the value is the signed whole part plus the unsigned fraction, trailing zeroes of the fraction not counting against the precision; a fraction still too long is dropped. |
| TypedAmounts.TypedWhole | SafeUIKit/SafeUIKit/TokenFormatter.swift:35-50 | Without a separator the value is the signed whole part; nothing typed is zero. |
| TypedAmounts.TenthTypedLong | SafeUIKit/SafeUIKit/TokenFormatter.swift:45 | `0,1000` at precision 3 is 100. |
| TypedAmounts.CleanedText | SafeUIKit/SafeUIKit/TokenFormatter.swift:38 | Whitespace around and plain spaces inside do not matter. |
| TypedAmounts.SurroundingsGo | SafeUIKit/SafeUIKit/TokenFormatter.swift:38 | Newlines, tabs and a narrow space around a number are no obstacle. |
| TypedAmounts.AlienIsRejected | SafeUIKit/SafeUIKit/TokenFormatter.swift:46 | Text with any character but digits, signs, separators and spaces is no number. |
| TypedAmounts.SeparatorsAre | SafeUIKit/SafeUIKit/TokenFormatter.swift:16 | The default separators are the point, the comma and the Arabic decimal separator. |
| Sessions.Session.Create | IdentityAccess/IdentityAccessDomainModel/Gatekeeper/Session.swift:39-43 | A session is created exactly for positive durations. |
| Sessions.Session.CheckActive | IdentityAccess/IdentityAccessDomainModel/Gatekeeper/Session.swift:60-71 | Active from start to one duration after the last renewal; a trap when that range is inverted. |
| Sessions.Session.Start | IdentityAccess/IdentityAccessDomainModel/Gatekeeper/Session.swift:77-81 | The new state and reply, including the errors for finished and active sessions. |
| Sessions.Session.Finish | IdentityAccess/IdentityAccessDomainModel/Gatekeeper/Session.swift:87-90 | Ends an active session, and throws otherwise. |
| Sessions.Session.Renew | IdentityAccess/IdentityAccessDomainModel/Gatekeeper/Session.swift:96-99 | Renews an active session, and throws otherwise. |
| Sessions.KeepsRange | IdentityAccess/IdentityAccessDomainModel/Gatekeeper/Session.swift:60-99 | A call keeps the start-to-end range in order if and only if it is not a restart past the end of a renewed session. |
| Sessions.RangeInOrder | IdentityAccess/IdentityAccessDomainModel/Gatekeeper/Session.swift:60-99 | Started once and then only renewed or finished, a session never has an inverted range. |
| Sessions.RestartInvertsRange | IdentityAccess/IdentityAccessDomainModel/Gatekeeper/Session.swift:73-81 | Start, renew, expire, start again: the next query traps, although the comment asks for a fresh session only. |
| Sessions.StartedRuns | IdentityAccess/IdentityAccessDomainModel/Gatekeeper/Session.swift:60-81 | A new session is inactive; once started it is active for exactly one duration and cannot be started again meanwhile. |
| Sessions.RenewalMovesEnd | IdentityAccess/IdentityAccessDomainModel/Gatekeeper/Session.swift:96-99 | A renewal, possible exactly while active, moves the end to one duration after it. |
| Sessions.FinishedIsFinal | IdentityAccess/IdentityAccessDomainModel/Gatekeeper/Session.swift:77-99 | After a finish every call throws its error and changes nothing, and the session is never active again. |
| Gatekeepers.MakePolicy | IdentityAccess/IdentityAccessDomainModel/Gatekeeper/AuthenticationPolicy.swift:35-42 | A policy with the given values exactly when all three bounds hold, and otherwise the error of the first one violated. |
| Gatekeepers.ChangeFacts | IdentityAccess/IdentityAccessDomainModel/Gatekeeper/AuthenticationPolicy.swift:49-75 | Each copy differs in the one value asked for, and fails exactly when that value is out of bounds. |
| Gatekeepers.Gatekeeper.AccessPossible | IdentityAccess/IdentityAccessDomainModel/Gatekeeper/Gatekeeper.swift:89-95 | Access is possible without a denial, below the maximum, or once the block expired. |
| Gatekeepers.Gatekeeper.AllowAccess | IdentityAccess/IdentityAccessDomainModel/Gatekeeper/Gatekeeper.swift:104-112 | Throws when blocked; otherwise a fresh session just started and no failures on record. |
| Gatekeepers.Gatekeeper.DenyAccess | IdentityAccess/IdentityAccessDomainModel/Gatekeeper/Gatekeeper.swift:121-125 | One more failure, its time, and no session. |
| Gatekeepers.Gatekeeper.CheckAccess | IdentityAccess/IdentityAccessDomainModel/Gatekeeper/Gatekeeper.swift:133-136 | Only the held session, by its identifier, gives access. |
| Gatekeepers.AccessAfterAllow | IdentityAccess/IdentityAccessDomainModel/Gatekeeper/Gatekeeper.swift:104-136 | After access was allowed, exactly the identifier of that session has access, and for one duration. |
| Gatekeepers.StrangersHaveNoAccess | IdentityAccess/IdentityAccessDomainModel/Gatekeeper/Gatekeeper.swift:133-136 | Without a session, or with another identifier, there is no access. |
| Gatekeepers.Gatekeeper.Use | IdentityAccess/IdentityAccessDomainModel/Gatekeeper/Gatekeeper.swift:142-145 | Renews the held session unless blocked; nothing else changes. |
| Gatekeepers.Gatekeeper.Reset | IdentityAccess/IdentityAccessDomainModel/Gatekeeper/Gatekeeper.swift:148-152 | Clears session, failures and denial, keeps the policy. |
| Gatekeepers.Gatekeeper.ChangePolicy | IdentityAccess/IdentityAccessDomainModel/Gatekeeper/Gatekeeper.swift:41-82 | An invalid value changes nothing; a valid one replaces the policy and resets. |
| Identity.IdentityService.CheckAuthenticated | IdentityAccess/IdentityAccessDomainModel/IdentityService/IdentityService.swift:63-67 | The query needs a gatekeeper, a user and the user's session. |
| Identity.IdentityService.Authenticate | IdentityAccess/IdentityAccessDomainModel/IdentityService/IdentityService.swift:143-160 | The whole new state and the answer of an attempt by password or biometry, blocked and failed ones included. |
| Identity.IdentityService.CreateGatekeeperWith | IdentityAccess/IdentityAccessDomainModel/IdentityService/IdentityService.swift:78-87 | A valid policy replaces the gatekeeper, an invalid one changes nothing. |
| Identity.IdentityService.RegisterUser | IdentityAccess/IdentityAccessDomainModel/IdentityService/IdentityService.swift:96-105 | At most one user, with an acceptable password and no session. |
| Identity.IdentityService.UpdatePrimaryUserPassword | IdentityAccess/IdentityAccessDomainModel/IdentityService/IdentityService.swift:111-117 | The user is replaced by one with the new password and no session. |
| Identity.IdentityService.ConfigurePolicy | IdentityAccess/IdentityAccessApplication/AuthenticationApplicationService.swift:153-177 | A policy change reaches the gatekeeper if there is one. |
| Identity.IdentityService.ResetAll | IdentityAccess/IdentityAccessApplication/AuthenticationApplicationService.swift:197-205 | The user goes and the gatekeeper is cleared. |
| IdentityRuns.RunConsistent | IdentityAccess/IdentityAccessDomainModel/IdentityService/IdentityService.swift:63-160 | Over every run the state agrees with the latest deciding event: a session belongs to the user exactly when that was a successful check. |
| IdentityRuns.AuthenticatedIff | IdentityAccess/IdentityAccessDomainModel/IdentityService/IdentityService.swift:63-67 | In every reachable state the user is authenticated at t if and only if the latest of checks, resets, policy changes, gatekeeper creations and password updates was a successful check and t lies between its time and one session duration after the last renewal. |
| IdentityRuns.HeldSessionIsClean | IdentityAccess/IdentityAccessDomainModel/Gatekeeper/Gatekeeper.swift:104-152 | In every reachable state a held session means no failures, no denial time and a range in order. |
| IdentityRuns.FailuresAreSpaced | IdentityAccess/IdentityAccessDomainModel/IdentityService/IdentityService.swift:143-160 | In every run of failures, refused policies included, from any counter, each check past the maximum waits for the block. |
| IdentityRuns.BlockedBetweenChecks | IdentityAccess/IdentityAccessDomainModel/IdentityService/IdentityService.swift:143-160 | From a cleared counter, each failed check from the maximum on is followed by the next no sooner than one block duration later. |
| IdentityRuns.ChecksFitInTime | IdentityAccess/IdentityAccessDomainModel/IdentityService/IdentityService.swift:143-160 | The n-th failed check comes at least (n - max) block durations after the max-th. |
| IdentityRuns.FailedChecksBounded | IdentityAccess/IdentityAccessDomainModel/IdentityService/IdentityService.swift:143-160 | By time T at most max + floor((T - t_max) / blockDuration) checks have failed. |
| IdentityRuns.CheckedBelowMaximum | IdentityAccess/IdentityAccessDomainModel/Gatekeeper/Gatekeeper.swift:89-95 | Up to the maximum every attempt is checked: blocking never comes early. |
| IdentityReference.RunAgrees | IdentityAccess/IdentityAccessDomainModel/IdentityService/IdentityService.swift:63-160 | Over every run the service agrees with a reference that knows only the policy, the times of the failed checks since the last clean slate, the password and the running session. |
| IdentityReference.AuthenticatedIffRunning | IdentityAccess/IdentityAccessDomainModel/IdentityService/IdentityService.swift:63-67 | Over every run the user is authenticated exactly while holding a running session of the reference. |
| IdentityReference.AttemptOutcome | IdentityAccess/IdentityAccessDomainModel/IdentityService/IdentityService.swift:134-160 | After every run: blocked attempts change nothing; otherwise the password last registered or set (or accepted biometry) authenticates at that moment and clears the failures, and anything else ends every session and counts. Blocked means the maximum is reached and the block since the last failure is not over. |
| IdentityReference.UseOutcome | IdentityAccess/IdentityAccessDomainModel/Gatekeeper/Gatekeeper.swift:142-145 | After every run: using access answers blocked, not active or used as the reference says, and never meets an inverted range. |
| IdentityReference.FailuresCounted | IdentityAccess/IdentityAccessDomainModel/Gatekeeper/Gatekeeper.swift:89-125 | After any run and then failures only: the checks counted are exactly those a rule on the attempt times and the policy numbers gives: fewer than the maximum before, or one block duration since the last checked one. |
| IdentityReference.BlockEnds | IdentityAccess/IdentityAccessDomainModel/Gatekeeper/Gatekeeper.swift:89-95 | With a maximum of 2 and a block of 15 seconds after a failure at 100, the right password is refused at 110 and authenticates at 120. |
| QueryExecution.SQLiteStatement.Execute | Common/Database/SQLite/SQLiteStatement.swift:45-74 | The recursive retry, every thrown error and the trap on an unforeseen status code, with a commit recognised by its text. |
| QueryExecution.SQLiteStatement.InitResultSet | Common/Database/SQLite/SQLiteResultSet.swift:26-37 | Resets until not busy, and traps on any other failure. |
| QueryExecution.SQLiteStatement.AdvanceToNextRow | Common/Database/SQLite/SQLiteResultSet.swift:143-162 | Steps with retries outside a transaction, throws on BUSY inside one, and traps on any other code. |
| QueryExecution.SQLiteStatement.RunQuery | Common/Database/Database.swift:346-359 | The collecting loop equals execution followed by collection of the mapped rows. |
| QueryExecution.QueryFacts | Common/Database/Database.swift:346-359 | Whatever the library answers: a returned list is the map of every row once and in order, a map error is the first one, and inside a transaction a statement whose text does not contain "commit" is told to roll back if and only if a step answered BUSY. |
| QueryExecution.CommitTextFacts | Common/Database/SQLite/SQLiteStatement.swift:56-65 | Inside a transaction a statement whose text contains "commit" is told to roll back if and only if it yields rows and a step after execution answered BUSY. |
| QueryExecution.MentionedCommitIsRetried | Common/Database/SQLite/SQLiteStatement.swift:58-64 | Meeting BUSY once in a transaction, `UPDATE commits …` is retried and succeeds where `UPDATE users …` throws. |
| QueryExecution.CommitInside | Common/Database/SQLite/SQLiteStatement.swift:58 | A commit is recognised anywhere in the text and in any case. |
| QueryExecution.DelaysDoNotMatter | Common/Database/Database.swift:346-359 | Outside a transaction any finite number of BUSY answers, to steps and resets alike, changes nothing. |
| QueryExecution.MapAllByRow | Common/Database/Database.swift:354-358 | The returned list has one result per row, in row order, and exists if and only if no row fails to map. |
| QueryExecution.CommitIsRetried | Common/Database/SQLite/SQLiteStatement.swift:56-62 | A statement recognised as a commit, yielding no rows, is retried through any number of BUSY answers, even inside its transaction. |
| QueryExecution.RunsOnce | Common/Database/SQLite/SQLiteStatement.swift:46-47 | A statement that was executed throws on a second execution and does not move. |
| QueryExecution.ExecutionOutcome | Common/Database/SQLite/SQLiteStatement.swift:45-74 | Outside a transaction or for a commit the first answer that is not BUSY decides: result, database error, invalid state, or a trap; behind a first row the reset is decided likewise. |
| QueryExecution.AdvanceOutcome | Common/Database/SQLite/SQLiteResultSet.swift:143-162 | Outside a transaction moving on waits BUSY out, answers whether there is a row, and traps on anything else. |
| QueryExecution.FinalizedThrows | Common/Database/SQLite/SQLiteStatement.swift:46 | A finalized statement throws and does not move. |
| Migrations.Database.FindLatest | Common/CommonImplementations/DBMigrationService.swift:38-46 | The greatest recorded identifier, if any. |
| Migrations.MigrationService.SetUpEach | Common/CommonImplementations/DBMigrationService.swift:108-113 | Sets up and records the migrations in turn, or stops at the first that throws; nothing is committed. |
| Migrations.MigrationService.Migrate | Common/CommonImplementations/DBMigrationService.swift:70-114 | All pending migrations are set up and recorded together, or the committed store is unchanged. |
| Migrations.MigrationService.SkipMigrationsBeforeAndIncluding | Common/CommonImplementations/DBMigrationService.swift:116-120 | Records one identifier and touches no schema; a failed commit changes nothing. |
| Migrations.SortedFacts | Common/CommonImplementations/DBMigrationService.swift:59 | Sorting distinct identifiers keeps exactly them, in strictly ascending order. |
| Migrations.PendingFacts | Common/CommonImplementations/DBMigrationService.swift:58-68 | Pending migrations are ascending, and exactly the registered ones beyond the latest recorded one when that is registered. |
| Migrations.PendingIsNewIff | Common/CommonImplementations/DBMigrationService.swift:58-68 | All pending ones come after all recorded ones if and only if nothing is recorded, the latest recorded one is registered, or every registered one is beyond it. |
| Migrations.PendingAgainIff | Common/CommonImplementations/DBMigrationService.swift:58-68 | Some recorded migration is pending again if and only if the latest recorded one is not registered and some registered one is recorded. |
| Migrations.MigrationsRunInOrder | Common/CommonImplementations/DBMigrationService.swift:58-120 | Over every history with unique identifiers in which each migrate meets that condition, the committed migrations have strictly increasing identifiers and are recorded. |
| Migrations.RunAtMostOnce | Common/CommonImplementations/DBMigrationService.swift:105-114 | So over every such history no migration is committed twice. |
| Migrations.StoreIsFaithful | Common/CommonImplementations/DBMigrationService.swift:70-120 | Over every history, throwing set-ups and failing commits included, the committed schema is what the committed set-ups give one after the other, and the recorded identifiers are those run or skipped. |
| Migrations.SecondMigrateIsIdle | Common/CommonImplementations/DBMigrationService.swift:105-107 | After a migrate that went through, nothing is pending. |
| Migrations.MigrateGoesThrough | Common/CommonImplementations/DBMigrationService.swift:105-114 | A migrate goes through exactly when nothing is pending, or no set-up throws and the commit succeeds; it then records exactly what was pending, and otherwise changes nothing. |
| StringOrder.LessIffDiffers | Common/CommonImplementations/DBMigrationService.swift:59 | The order of identifiers is decided at the first position where they differ, a proper beginning coming first. |
| Migrations.UnregisteredLatestRunsAgain | Common/CommonImplementations/DBMigrationService.swift:58-120 | Register, migrate, skip to an unregistered identifier, migrate: the first migration is set up twice. |
| Transactions.Transaction.ChangeParameter | MultisigWallet/MultisigWalletDomainModel/Transaction/Transaction.swift:147-221 | A setter of the draft: the one field and the update date change. |
| Transactions.Transaction.SetTransactionHash | MultisigWallet/MultisigWalletDomainModel/Transaction/Transaction.swift:227-232 | Sets the hash and the update date in draft and signing. |
| Transactions.Transaction.Sign | MultisigWallet/MultisigWalletDomainModel/Transaction/Transaction.swift:237-243 | Adds a signature that is not there yet. |
| Transactions.Transaction.Unsign | MultisigWallet/MultisigWalletDomainModel/Transaction/Transaction.swift:246-252 | Removes the first occurrence of a signature. |
| Transactions.Transaction.Proceed | MultisigWallet/MultisigWalletDomainModel/Transaction/TransactionStatus.swift:86-108 | Draft to signing, signing to pending, with their dates. |
| Transactions.Transaction.StepBack | MultisigWallet/MultisigWalletDomainModel/Transaction/TransactionStatus.swift:116-139 | Signing to draft, pending to signing, nothing else. |
| Transactions.Transaction.Reject | MultisigWallet/MultisigWalletDomainModel/Transaction/TransactionStatus.swift:110-114 | Signing to rejected, with its dates. |
| Transactions.Transaction.Succeed | MultisigWallet/MultisigWalletDomainModel/Transaction/TransactionStatus.swift:125-129 | Pending to success, with its dates. |
| Transactions.Transaction.Fail | MultisigWallet/MultisigWalletDomainModel/Transaction/TransactionStatus.swift:131-135 | Pending to failed, with its dates. |
| Transactions.Transaction.Discard | MultisigWallet/MultisigWalletDomainModel/Transaction/TransactionStatus.swift:48-51 | Any other status to discarded. |
| Transactions.Transaction.Reset | MultisigWallet/MultisigWalletDomainModel/Transaction/TransactionStatus.swift:147-173 | Rejected or discarded back to a draft without signatures, hash and dates. |
| Transactions.ReachableIsWellFormed | MultisigWallet/MultisigWalletDomainModel/Transaction/TransactionStatus.swift:48-174 | Every reachable transaction: no repeated signature; outside draft and discarded all required fields; submitted, rejected and processed dates and the hash where the status implies them. |
| Transactions.FollowsTable | MultisigWallet/MultisigWalletDomainModel/Transaction/TransactionStatus.swift:48-174 | Every command is allowed, and leads to the status, that a table of statuses says, the required fields written out. |
| Transactions.OnlyWhatIsAsked | MultisigWallet/MultisigWalletDomainModel/Transaction/Transaction.swift:88-252 | Each command changes only its own part: parameters, signatures (added last, removed at the first occurrence), hash. |
| Transactions.DatesTable | MultisigWallet/MultisigWalletDomainModel/Transaction/TransactionStatus.swift:86-173 | Which command sets, keeps or clears each of the five dates. |
| Transactions.FrozenOutsideDraft | MultisigWallet/MultisigWalletDomainModel/Transaction/Transaction.swift:147-221 | Outside the draft no command changes the parameters. |
| Transactions.FrozenThroughRun | MultisigWallet/MultisigWalletDomainModel/Transaction/TransactionStatus.swift:12-29 | So they are the same at both ends of any run that does not pass through the draft. |
| Transactions.RestoreStored | MultisigWallet/MultisigWalletImplementations/Repositories/DBTransactionRepository.swift:201-333 | Replaying setters and transitions on a new draft traps if and only if some stored address, of a party, a token or a signer, does not pass the initialiser of `Address` (the prefix `0x`, and 20 bytes or none); otherwise it gives the stored transaction back, an empty `data` or `hash` read as missing and the moment of restoring in place of a missing creation or update date. |
| Transactions.RestoredExactlyIff | MultisigWallet/MultisigWalletImplementations/Repositories/DBTransactionRepository.swift:201-333 | A reachable transaction is restored exactly if and only if all its addresses pass the initialiser, neither `data` nor `hash` is an empty byte string, and it has both a creation and an update date. |
| Transactions.ReadableIff | MultisigWallet/MultisigWalletDomainModel/Ethereum/ExternallyOwnedAccount.swift:65-69 | Readable means: every address of the parties, the tokens and the signers has the prefix and 20 bytes or none. |
| Transactions.EmptyBytesAreLost | Common/Database/SQLite/SQLiteResultSet.swift:78-84 | A draft whose data, or whose hash, is the empty byte string comes back without it. |
| Transactions.UnprefixedRecipientTraps | MultisigWallet/MultisigWalletDomainModel/Ethereum/ExternallyOwnedAccount.swift:65-78 | A recipient of forty digits without the prefix is a valid address and makes restoring trap. |
| SendTransaction.UpdateTransaction | MultisigWallet/MultisigWalletApplication/WalletApplicationService.swift:833-872 | The chain of setters gives the parameters computed from the message and stops exactly when one of the computations traps; `ParametersCarried` says what they are. |
| SendTransaction.FillAndSign | MultisigWallet/MultisigWalletApplication/WalletApplicationService.swift:812-828 | The draft is accepted exactly when its hash is the message's and the sender is the extension owner, and is then signing and signed; building the owner's address once more traps for a text without prefix. |
| SendTransaction.StoreDraft | MultisigWallet/MultisigWalletDomainModel/Wallet/TransactionDomainService.swift:22-31 | A new draft with the wallet as sender is saved. |
| SendTransaction.HandleNewMessage | MultisigWallet/MultisigWalletApplication/WalletApplicationService.swift:809-831 | For a new hash: the draft is saved, restored from its row, filled and checked; it is saved again as signing, or removed. |
| SendTransaction.Handle | MultisigWallet/MultisigWalletApplication/WalletApplicationService.swift:805-831 | The stored rows and the answer for every message; a transaction already stored under the hash is restored before its status is read. |
| SendTransaction.TrapsIff | MultisigWallet/MultisigWalletApplication/WalletApplicationService.swift:805-872 | Handling traps if and only if a transaction with the hash is stored and cannot be restored; or the hash is new, the wallet known, and the wallet's address does not pass the initialiser, the gas sum overflows, the data is a token transfer cut short, or the message passes both checks and the owner's address does not pass. |
| SendTransaction.HandledFacts | MultisigWallet/MultisigWalletApplication/WalletApplicationService.swift:805-831 | A handled message leaves the store unchanged or adds exactly one transaction: signing, in the message's wallet, with its hash, which is the hash of the fields the message carries (written out: nonce text, estimate, fee of gas and data gas at the price, recipient and amount, or those of the transfer in its data), signed by the recovered extension owner, with its dates; hashes stay unique; a returned identifier names a signing transaction with that hash. |
| SendTransaction.ParametersCarried | MultisigWallet/MultisigWalletApplication/WalletApplicationService.swift:833-872 | The parameters computed from a message are, field by field, those it carries: fee (gas + data gas) times the price in the gas token, the four numbers of the estimate, and the recipient and amount by whether the data is a transfer. |
| SendTransaction.TransferCarried | MultisigWallet/MultisigWalletApplication/WalletApplicationService.swift:843-852 | For data that encodes a transfer: its normalised recipient, and its amount of the token called. |
| SendTransaction.IntTextSpells | MultisigWallet/MultisigWalletApplication/WalletApplicationService.swift:841 | The nonce text is the numeral of the nonce, with a minus for a negative one. |
| SendTransaction.AddedIff | MultisigWallet/MultisigWalletApplication/WalletApplicationService.swift:805-831 | A new message adds a transaction if and only if the wallet is known, the fields can be computed and have the message's hash, the owner signed, and the wallet's and owner's addresses can be built. |
| SendTransaction.HandledKnown | MultisigWallet/MultisigWalletApplication/WalletApplicationService.swift:806-808 | For a known hash nothing changes: the identifier is returned exactly for a signing transaction, and a row that cannot be restored traps. |
| SendTransaction.RunKeepsUnique | MultisigWallet/MultisigWalletApplication/WalletApplicationService.swift:805-831 | Over every sequence of messages, from a store of well-formed transactions with unique hashes, no hash is stored twice, all stay well-formed, and nothing stored is lost or changed. |
| SendTransaction.StoreGrows | MultisigWallet/MultisigWalletApplication/WalletApplicationService.swift:805-831 | The store at any point of a run is a prefix of the store at any later point. |
| SendTransaction.RepeatsReturnSameId | MultisigWallet/MultisigWalletApplication/WalletApplicationService.swift:805-831 | A message answered with an identifier gets the same answer at every repetition if and only if its hash was already known the first time or its recipient and gas token pass the initialiser of `Address`; every repetition traps otherwise. |
| SendTransaction.SignedReadable | MultisigWallet/MultisigWalletApplication/WalletApplicationService.swift:825-829 | An accepted transaction can be restored if and only if the recipient and the gas token of its message pass the initialiser. |
| SendTransaction.UnprefixedRepeatTraps | MultisigWallet/MultisigWalletApplication/WalletApplicationService.swift:805-831 | A message to an address without prefix is accepted, and traps when it is repeated. |
| SendTransaction.BareSelectorTraps | MultisigWallet/MultisigWalletApplication/WalletApplicationService.swift:843 | A message whose data is the bare selector of a token transfer traps. |
| FileSystemGuard.Guard.CheckSemaphore | Common/Database/SQLite/FileSystemGuard.swift:27-32 | Signals exactly when there is access. |
| FileSystemGuard.Guard.AddUnlockSemaphore | Common/Database/SQLite/FileSystemGuard.swift:19-25 | Signals at once with access, stores otherwise. |
| FileSystemGuard.Guard.DidUnlock | Common/Database/SQLite/FileSystemGuard.swift:34-41 | The draining loop signals every stored semaphore in order and empties the list. |
| FileSystemGuard.Guard.DidLock | Common/Database/SQLite/FileSystemGuard.swift:43-47 | Only access is lost. |
| FileSystemGuard.RunFacts | Common/Database/SQLite/FileSystemGuard.swift:19-47 | After every sequence of blocks: access means nothing stored; signalled followed by stored is exactly what was added, in order; every signal was sent with access. |
| FileSystemGuard.NoAccessIffLocked | Common/Database/SQLite/FileSystemGuard.swift:19-47 | There is no access if and only if some lock has no unlock after it. |
| FileSystemGuard.LockThenWait | Common/Database/SQLite/FileSystemGuard.swift:19-47 | Locked and then asked to wait, nothing is signalled until the unlock. |
| FileSystemGuard.SignalledAtMostOnce | Common/Database/SQLite/FileSystemGuard.swift:19-41 | Distinct semaphores are signalled at most once and never both signalled and stored. |
| FileSystemGuard.SignalledIff | Common/Database/SQLite/FileSystemGuard.swift:19-47 | A waiter has been signalled, with its own semaphore and in its turn, if and only if nothing was locked when it asked or an unlock came since, in terms of the blocks alone. |
| WaitingScheduler.Scheduler.Operation | Common/Common/OneOperationWaitingScheduler.swift:23-32 | The delay an operation computes is the one the machine waits for: the shortest that puts the block one interval after the recorded end of the previous one. |
| WaitingScheduler.NextInv | Common/Common/OneOperationWaitingScheduler.swift:21-33 | Every atomic action of callers, worker and clock keeps the invariant. |
| WaitingScheduler.BlocksAreSpaced | Common/Common/OneOperationWaitingScheduler.swift:21-33 | In every interleaving, races in the empty-queue check included, each block starts at least one interval after the previous one ended. |
| WaitingScheduler.RoundCompletes | Common/Common/OneOperationWaitingScheduler.swift:21-33 | With nothing queued an operation can be scheduled from any state, and its block starts as soon as the delay allows. |
| WaitingScheduler.TwoBlocksRun | Common/Common/OneOperationWaitingScheduler.swift:21-33 | Two operations in turn: the second block starts exactly one interval after the first ended. |
| WaitingScheduler.AtMostOneOperation | Common/Common/OneOperationWaitingScheduler.swift:8-22 | Without overlapping checks at most one operation is queued, running or about to be queued. |
| WaitingScheduler.OneOperationIff | Common/Common/OneOperationWaitingScheduler.swift:8-22 | In a run there is never more than one operation, queued, running or about to be queued, if and only if no caller checks the queue while another is about to add to it. |
| WaitingScheduler.OverlapQueuesTwo | Common/Common/OneOperationWaitingScheduler.swift:21-23 | From every overlap of checks, in any run, the two callers can go on to have two operations queued. |
| WaitingScheduler.RaceQueuesTwo | Common/Common/OneOperationWaitingScheduler.swift:8-23 | Two callers that both find the queue empty queue two operations. |
| RepeatBlock.ObserveChangesInBalance | MultisigWallet/MultisigWalletApplication/EthereumApplicationService.swift:152-217 | For every stream of answers the observer is called with exactly the readings that differ from the previous one, in order, up to the first stop or the third failure in a row, and the call throws, with that failure, exactly in the latter case. |
| RepeatBlock.WaitFor | MultisigWallet/MultisigWalletApplication/EthereumApplicationService.swift:102-111 | Polling for a value ends at the first one found, which is returned, or throws at the third failure in a row; it never returns without a value. |
| RepeatBlock.GivesUpIffStreak | MultisigWallet/MultisigWalletApplication/EthereumApplicationService.swift:195-217 | The retry counter reaches zero exactly when the last three answers failed. |
| RepeatBlock.ThirdFailureGivesUp | MultisigWallet/MultisigWalletApplication/EthereumApplicationService.swift:195-217 | Giving up means exactly that the last three answers failed. |
| RepeatBlock.ChangesAreChanges | MultisigWallet/MultisigWalletApplication/EthereumApplicationService.swift:152-165 | The reported values start with the first reading, end at the last, and never repeat in a row. |
| RepeatBlock.ReadingsRepeatChanges | MultisigWallet/MultisigWalletApplication/EthereumApplicationService.swift:152-165 | Nothing is left out: the readings are the reported values in order, each repeated at least once. |
| MergeStrings.Merge | scripts/merge_strings.rb:15-49 | For files sorted by key the output has exactly the generated keys and comments, in order, with the existing value where the key exists and the generated one otherwise. |
| MergeStrings.MergeIsDetermined | scripts/merge_strings.rb:23-38 | That description leaves one possible output. |

## Left out

- Hashing, signing and address recovery: parameters of the model, any functions. CryptoSwift's `Data(hex:)` and the big-integer library are given by their mathematical meaning; `BigInt("")` is zero, as the formatter's tests show.
- Case folding is ASCII only, also where a commit is recognised; an address is any text of 20 or 0 bytes, which is what its two initialisers let through.
- Bool encoding, `removeOwner`, `changeThreshold` and the queries for balance, threshold, nonce and ownership: single words, covered by the word codec.
- Negative numbers given to `encodeUInt`, and negative thresholds: they trap in the library before any byte is built; amounts and thresholds are natural numbers here.
- SetupCall.DecodeEncodedSetup: byte counts and the threshold fit Swift's `Int`, as every `Data` and every threshold does; likewise in the other round trips.
- Parsing with decimal separators other than the default set, grouping separators of more than one character, locale lookup, negative precisions, and the formatting of token data with a code.
- `TokenNumberFormatter` apart from integer grouping.
- Persistence errors of the identity repositories, which hold one gatekeeper and one user here; the individual password rules, one predicate here; biometric activation after registration.
- Times are real numbers: the rounding of `Date` arithmetic is not modelled.
- Preparing, binding and finalising statements, column access, opening connections and busy waiting on close. The library's answer to a reset is independent of the last step.
- Unregistering migrations and registering one twice.
- Messages that confirm or reject a transaction.
- Transactions.RestoreStored: works on values; the joining and splitting of texts in the columns (a separator inside a token's name or a signer's text), the rounding of dates and the update in place of the restored object are not modelled.
- Transactions.RestoredExactlyIff: likewise over transactions whose texts hold none of the separators of the columns; tokens carry no names here.
- SendTransaction.Handle: is given the identifier of the draft and takes it to be new, as a random identifier is. A message's hash is never empty (SendTransactionMessage.swift:31), so how the database compares empty blobs does not matter.
- Token name, code and decimals inside a token amount: only the address tells tokens apart.
- The waiting thread of `sqlite3_open` and its polling loop on the main thread; repeating on the main thread; a service released while polling; the truncation of waiting times to whole seconds.
- RepeatBlock.WaitFor: stands for both waiting calls; the mapping of a receipt to its status is left out.
- Parsing and saving `.strings` files.
- User interface, flow coordination, HTTP, relay, node and notification services, and key storage.
