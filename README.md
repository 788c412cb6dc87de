# transaction-decoder: the decode engine in Dafny

This project models the decode engine of transaction-decoder
(`src/utils/decoding.ts`). The engine turns Ethereum calldata into a labelled
tree of `DecodedValue` / `Decoded` nodes. The model covers four parts:

- **Signature lookup** (`loadSignatures`): the calldata's selector, its first
  ten characters, is looked up in a signature registry. The registry is a
  parameter of the model.
- **Entry point** (`decodeData`, `handleSpecialSignatures`): the pseudo
  signatures "Multisend" and "Deprecated Multisend" go to the packed
  decoders. Any other signature goes through the ABI codec.
- **Post-processing** (`processDecoded`, `stubMultisend`,
  `decodeSafeTransaction`): a `multiSend` call becomes a stub that offers the
  two multisend signatures. A Safe `execTransaction` call becomes a ten-field
  "Safe transaction" node. Anything else becomes one leaf per argument.
- **Packed decoders** (`decodeMultisend`, `decodeDeprecatedMultisend`):
  cursor loops over a hex string. Each record becomes a "Transaction n" node.

Modules:

- `Results` (`results.dfy`): `Option` and `Result`.
- `JsPrimitives` (`js_primitives.dfy`): the JavaScript behaviour the engine
  relies on:
  - `slice` clamps its range to the string;
  - `parseInt(_, 16)` reads hex digits;
  - `String(n)` renders a number in decimal;
  - `toLocaleLowerCase` lower-cases (ASCII only).

  It also holds a fixed-width hex printer, used by the encoder.
- `DecodedTree` (`decoded_tree.dfy`):
  - the tree types and the decode errors;
  - `Platform`, the record of external collaborators: the registry query,
    `FunctionFragment.fromString`, `decodeFunctionData`,
    `Interface.getSighash`, and `BigNumber.toHexString`;
  - `loadSignatures`.
- `PackedRecords` (`packed_records.dfy`): the two multisend layouts as
  functions. It holds:
  - the record reader and the loop as a function;
  - a lookup-free parser and an encoder, with round trips between them;
  - the padding discrepancy of the deprecated format (see "## Findings").
- `Multisend` (`multisend.dfy`): the two decoders as imperative methods.
  - Each has a `nat` cursor, a `while` loop and a pushed node sequence.
  - Each is proved to return exactly `PackedRecords.DecodePacked`.
- `Decoding` (`decoding.dfy`): `stubMultisend`, `decodeSafeTransaction`,
  `processDecoded`, `handleSpecialSignatures` and `decodeData`.
  - These are expressions over calls in the source, so they are functions
    here.
  - They use `DecodePacked`, the function the two methods are proved equal
    to.

Behaviour of the code worth noting:

- **Legacy cursor start.** `decodeDeprecatedMultisend` starts its cursor at
  character 2, after "0x" (src/utils/decoding.ts:108), as `decodeMultisend`
  does (src/utils/decoding.ts:79). The word-aligned layout then skips an ABI
  offset word before the length word.
- **Short reads.** Short reads are not errors. `slice` clamps, so a
  truncated address, value or data field is taken as what is left.
  - Only an empty value field fails, because `BigNumber.from("0x")` throws.
  - An empty length field fails as well (see "## Left out").
- **Short selectors.** A selector shorter than ten characters is still
  looked up (src/utils/decoding.ts:28-29). Only empty or falsy data skips the
  lookup.
- **Failed lookups.** A registry failure during a multisend decode fails the
  whole decode, because the `await` inside the loop rejects
  (src/utils/decoding.ts:87 and 116). It is not recovered locally. Only the
  Safe transaction build in `processDecoded` recovers from failures, through
  its `try`/`catch`.

## Model

| member | source | states |
|---|---|---|
| DecodedTree.SelectorKey | src/utils/decoding.ts:29 | the registry key is the first ten characters of the calldata, or all of it when shorter |
| DecodedTree.LoadSignatures | src/utils/decoding.ts:27-33 | falsy data (`undefined`, `false`, 0, "") gives `undefined` without a lookup; other non-strings, `true` included, fail as `slice` on a non-string does; a failed request fails; an empty answer gives `undefined`; otherwise the text signatures come back in registry order, one per result |
| DecodedTree.LoadSignaturesReadsOnlySelector | src/utils/decoding.ts:29-30 | two calldata strings with the same first ten characters get the same answer |
| JsPrimitives.Slice | src/utils/decoding.ts:82-86 | `slice` clamps both ends to the string, so its length is the clamped range's length, or 0 when the range is empty |
| JsPrimitives.ParseHexBound | src/utils/decoding.ts:82 | a field of w hex digits, clamped or not, reads as a number below 16^w |
| JsPrimitives.DecimalRoundTrip | src/utils/decoding.ts:91 | the decimal rendering used in "Transaction n" reads back as n |
| JsPrimitives.Lower | src/utils/decoding.ts:49 | lower-casing keeps the length, turns each upper-case letter into its own lower-case letter, leaves no upper-case letter, and changes nothing else |
| PackedRecords.ReadRecord | src/utils/decoding.ts:82-86 | reading one record fails exactly when the length field starts at or after the end: with InvalidBigNumber when the value field is empty too, else LengthNotANumber; a successful read moves the cursor past the whole header |
| PackedRecords.ReadRecordCursor | src/utils/decoding.ts:85-86 | the cursor moves past the header, the declared data length (twice the byte count) and the padding; the data is the clamped slice of that range, shorter than declared only at the end of the string |
| PackedRecords.ReadRecordOperation | src/utils/decoding.ts:82 | the operation read is below 16^2 in the packed layout and below 16^64 in the word-aligned one |
| PackedRecords.ReadPackedFields | src/utils/decoding.ts:82-86 | a packed record holds 2 operation digits, 40 address digits, 64 value digits and 64 length digits, then the data; the cursor advances 170 plus the data characters |
| PackedRecords.ReadDeprecatedFields | src/utils/decoding.ts:111-118 | a deprecated record holds the operation word, the last 40 digits of the address word, the value word, a skipped word and the length word; the cursor then advances by the data and `64 - dataLength % 64` |
| PackedRecords.DataSignaturesLookup | src/utils/decoding.ts:86-87 | a record's data is looked up (`DataSignatures`) with "0x" in front, so the registry is always asked, even for empty data, with "0x" and the first eight data characters; the answer's failure or emptiness carries over (the word-aligned layout does the same at src/utils/decoding.ts:115-116) |
| PackedRecords.TransactionNodeShape | src/utils/decoding.ts:88-99 | the object pushed for a record (`TransactionNode`) has no value and a "Transaction k" subtree with Operation, To, Value, Data in that order; Data alone is collapsible and carries the lookup's answer; the fields hold the record's operation, "0x"-prefixed address, `toHexString` value and "0x"-prefixed data |
| PackedRecords.TransactionNodesAt | src/utils/decoding.ts:88-99 | the j-th node built from a record list is the j-th record's node, numbered k + j |
| PackedRecords.TransactionNodesNumbered | src/utils/decoding.ts:91 | nodes built from records are numbered 1, 2, ... in encounter order |
| PackedRecords.NumberedCaptionsDistinct | src/utils/decoding.ts:91 | numbered record nodes have pairwise distinct captions |
| PackedRecords.RecordsLoop | src/utils/decoding.ts:81-100 | the `while` loop as a function of the cursor and the nodes pushed so far: a success keeps every node already pushed, in front and unchanged; a failure is always an empty value field, an empty length field or a rejected lookup |
| PackedRecords.RecordsLoopFailsIffParseOrLookupFails | src/utils/decoding.ts:81-100 | the loop fails exactly when the records do not parse or one record's lookup fails |
| PackedRecords.RecordsLoopBuildsNodes | src/utils/decoding.ts:81-100 | when it succeeds, the loop has appended one node per parsed record, numbered on from the nodes already pushed, in order |
| PackedRecords.DecodePacked | src/utils/decoding.ts:78-105 | what either decoder returns, as a function of the layout: a failure is always a read or lookup error, and a success carries "Multisend transactions" or "Deprecated Multisend transactions" (the word-aligned caption is at src/utils/decoding.ts:132-135) |
| PackedRecords.DecodePackedSucceedsIff | src/utils/decoding.ts:78-105 | a multisend decode succeeds exactly when every record can be read and every lookup answers |
| PackedRecords.DecodePackedBuildsNodes | src/utils/decoding.ts:101-104 | a successful decode is the format's caption over one node per record, numbered from 1, in the records' order |
| PackedRecords.ParseEncodingRoundTrip | src/utils/decoding.ts:79-86 | records encoded back to back after "0x", with the layout's own padding, parse back to exactly those records |
| PackedRecords.DecodeEncodingRoundTrip | src/utils/decoding.ts:78-105 | when all lookups answer, decoding N encoded records gives N nodes "Transaction 1" .. "Transaction N" with the same operation, address, value and data |
| PackedRecords.ReadEncodedRecord | src/utils/decoding.ts:82-86 | an encoded record read in the middle of a string gives back that record, with the cursor after its header, its data and the reader's padding |
| PackedRecords.PadCharsCompared | src/utils/decoding.ts:118 | the source's padding is never shorter than padding to the word boundary, and equals it exactly when the data length is not a multiple of 64 characters |
| PackedRecords.SourcePaddingReadsUnalignedRecords | src/utils/decoding.ts:118 | the source's padding still parses word-aligned payloads in which every record but the last has a data length that is not a whole number of words |
| PackedRecords.SourcePaddingMisreadsEmptyData | src/utils/decoding.ts:118 | two records with empty data, padded to word boundaries, parse back under the corrected padding but fail under the source's |
| Multisend.ReadMultisendRecord | src/utils/decoding.ts:82-86 | the loop body's field-by-field read of one packed record is `ReadRecord` |
| Multisend.ReadDeprecatedRecord | src/utils/decoding.ts:111-118 | the loop body's field-by-field read of one deprecated record, padding included, is `ReadRecord` |
| Multisend.DecodeMultisend | src/utils/decoding.ts:78-105 | the cursor loop returns exactly what the packed layout's specification gives |
| Multisend.DecodeDeprecatedMultisend | src/utils/decoding.ts:107-136 | the cursor loop returns exactly what the word-aligned layout's specification gives |
| Decoding.StubMultisend | src/utils/decoding.ts:59-65 | the stub holds the payload as its value, offers exactly "Multisend" and "Deprecated Multisend", is collapsible, and has no label and no subtree |
| Decoding.StubSignaturesDecodeAsMultisend | src/utils/decoding.ts:36-37 | choosing either signature the stub offers makes `decodeData` decode the stub's own payload with the packed decoder of that format |
| Decoding.DecodeSafeTransaction | src/utils/decoding.ts:138-157 | fails exactly when the Data argument's lookup fails; otherwise one node "Safe transaction" with the ten arguments labelled To .. Signatures in order, only Data carrying the lookup's signatures and being collapsible |
| Decoding.Selector | src/utils/decoding.ts:49 | the selector compared is the sighash with every upper-case letter replaced by its lower-case one and every other character kept, so the comparisons ignore case |
| Decoding.ProcessDecoded | src/utils/decoding.ts:48-57 | selector 0x8d80ff0a with one argument gives the stub; 0x6a761202 with ten arguments gives the Safe node when it can be built; in every other case, a failed Safe build included, one unlabelled leaf per argument, in order |
| Decoding.ProcessDecodedKeepsArguments | src/utils/decoding.ts:48-57 | whichever case applies, the decoded arguments read back from the output, in order |
| Decoding.HandleSpecialSignatures | src/utils/decoding.ts:67-76 | "Multisend" runs the packed decoder and "Deprecated Multisend" the word-aligned one; any other label fails with UnknownSignature; a success is captioned with the label plus " transactions" |
| Decoding.WrapperCaptions | src/utils/decoding.ts:101-104 | each format's caption is its pseudo signature followed by " transactions" |
| Decoding.DecodeData | src/utils/decoding.ts:35-46 | pseudo signatures go to `handleSpecialSignatures`; any other signature succeeds exactly when fragment parsing and ABI decoding succeed; a failure of either gives its AbiFailure; a success is the signature over exactly what `processDecoded` builds from the decoded arguments, so every argument is kept; UnknownSignature never comes out |

## Left out

- **Empty length field.** `PackedRecords.ReadRecord` fails with
  LengthNotANumber when a record's length field is empty. The source instead
  gets NaN from `parseInt("", 16)`: it pushes one more node with empty data,
  and the NaN cursor ends the loop. The model makes this an explicit failure
  rather than modelling NaN arithmetic.
- **Non-hex input.** The packed decoders require every character after "0x"
  to be a hex digit. `parseInt`'s stop-at-first-bad-digit behaviour is not
  modelled.
- **Number precision.** The operation is kept as an exact natural number. In
  the deprecated format it is a 32-byte word, and the source's `parseInt`
  result is a floating-point number that loses precision above 2^53.
- **`BigNumber` rendering.** The hex rendering of the value field is the
  abstract `Platform.toHexString` of the field's number.
- **ABI codec and selector hashing.** `FunctionFragment.fromString`,
  `decodeFunctionData` and `Interface.getSighash` are abstract functions of
  `Platform`. Their errors are a reason string.
- **Registry query.** The HTTP query to the signature registry is the
  abstract `Platform.lookup`, keyed by the selector text. The URL, the
  `ordering` parameter and the response's other fields are not modelled.
- **Asynchrony.** Promises and `await` become plain sequential calls. A
  rejected promise becomes a `Failure`.
- **Logging.** `console.error` in `processDecoded` is not modelled. The
  fallback to leaves is.
- **Interpreter values.** ABI-decoded values are an abstract `Value`
  (boolean, number, string or other object). Only the JavaScript falsiness
  that `loadSignatures` tests is modelled: `undefined`, `false`, `0` and
  `""`. `NaN` and `null` are not values of the model.
- **Arrays passed to `loadSignatures`.** `DecodedTree.LoadSignatures` fails
  with NotAString on every non-string object. The source treats arrays
  differently. An empty array gives `undefined` at the length test, before
  any `slice`. A non-empty array has its own `slice`, so it is sliced and
  looked up.
- **Module wiring.** `Decoding.HandleSpecialSignatures` and
  `Decoding.DecodeData` are functions, so they use
  `PackedRecords.DecodePacked` rather than calling the methods
  `Multisend.DecodeMultisend` / `Multisend.DecodeDeprecatedMultisend`. Those
  methods are proved to return exactly `DecodePacked`.
- **UI files.** src/DecodedData.tsx (the signature-selection UI state) and
  src/App.tsx (input handling, theme, rendering) are not part of this model.

## Findings

| source | as written | input that shows it | evidently intended | confidence | as-written member | corrected member |
|---|---|---|---|---|---|---|
| src/utils/decoding.ts:118 | after a record's data the cursor skips `64 - dataLength % 64` characters, a whole extra 32-byte word when the data length is a multiple of 32 bytes (including empty data) | two ABI-encoded records with empty data (two plain transfers), each 320 characters: the reader skips 64 characters into the second record and finds its length field empty | skip only to the next 32-byte boundary, `(64 - dataLength % 64) % 64`, as the ABI padding of `bytes` does | not executed | PackedRecords.SourcePaddingMisreadsEmptyData | PackedRecords.ParseEncodingRoundTrip |
