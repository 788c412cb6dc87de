/** The two imperative multisend decoders, `decodeMultisend` and
    `decodeDeprecatedMultisend` (src/utils/decoding.ts:78-136): a character
    cursor that starts after "0x", reads one field after the other, and pushes
    one "Transaction n" node per record. Each is proved to return exactly what
    `PackedRecords.DecodePacked` specifies for its layout. */
module Multisend {
  import opened Results
  import opened JsPrimitives
  import opened DecodedTree
  import opened PackedRecords

  /** One record of `decodeMultisend`'s loop body, from cursor `start`: 2
      characters of operation, 40 of address, 64 of value, 64 of byte length,
      then twice that many of data; the new cursor comes back with it. */
  method ReadMultisendRecord(multisendData: string, start: nat) returns (r: Result<(RawRecord, nat), Error>)
    requires start < |multisendData|
    ensures r == ReadRecord(Packed, multisendData, start)
  {
    var index := start;
    var operation := ParseHex(multisendData, index, index + 2);
    index := index + 2;
    var to := Slice(multisendData, index, index + 40);
    index := index + 40;
    if index >= |multisendData| {
      // `BigNumber.from("0x")` throws on the empty value field
      return Failure(InvalidBigNumber);
    }
    var value := ParseHex(multisendData, index, index + 64);
    index := index + 64;
    if index >= |multisendData| {
      return Failure(LengthNotANumber);
    }
    var dataLength := ParseHex(multisendData, index, index + 64) * 2;
    index := index + 64;
    var data := Slice(multisendData, index, index + dataLength);
    index := index + dataLength;
    ReadPackedFields(multisendData, start, dataLength);
    r := Success((RawRecord(operation, to, value, data), index));
  }

  /** One record of `decodeDeprecatedMultisend`'s loop body, from cursor
      `start`: a 64-character operation word, a word whose last 40 characters
      are the address, a value word, an offset word that is skipped, a length
      word, the data, and `64 - dataLength % 64` characters of padding. */
  method ReadDeprecatedRecord(multisendData: string, start: nat) returns (r: Result<(RawRecord, nat), Error>)
    requires start < |multisendData|
    ensures r == ReadRecord(DEPRECATED, multisendData, start)
  {
    var index := start;
    var operation := ParseHex(multisendData, index, index + 64);
    index := index + 64;
    var to := Slice(multisendData, index + 24, index + 64);
    index := index + 64;
    if index >= |multisendData| {
      return Failure(InvalidBigNumber);
    }
    var value := ParseHex(multisendData, index, index + 64);
    index := index + 64;
    index := index + 64;
    if index >= |multisendData| {
      return Failure(LengthNotANumber);
    }
    var dataLength := ParseHex(multisendData, index, index + 64) * 2;
    index := index + 64;
    var data := Slice(multisendData, index, index + dataLength);
    index := index + dataLength;
    index := index + (64 - dataLength % 64);
    ReadDeprecatedFields(multisendData, start, dataLength);
    r := Success((RawRecord(operation, to, value, data), index));
  }

  /** `decodeMultisend`: read records until the cursor reaches the end,
      looking up each record's data and pushing its node. */
  method DecodeMultisend(p: Platform, multisendData: string) returns (r: Result<Decoded, Error>)
    requires HexDigitsFrom(multisendData, 2)
    ensures r == DecodePacked(p, Packed, multisendData)
  {
    var index: nat := 2;
    var params: seq<DecodedValue> := [];
    while index < |multisendData|
      invariant RecordsLoop(p, Packed, multisendData, index, params) == RecordsLoop(p, Packed, multisendData, 2, [])
      decreases |multisendData| - index
    {
      var read := ReadMultisendRecord(multisendData, index);
      if read.Failure? {
        return Failure(read.error);
      }
      var (rec, next) := read.value;
      var signatures := DataSignatures(p, rec);
      if signatures.Failure? {
        return Failure(signatures.error);
      }
      params := params + [TransactionNode(p, |params| + 1, rec, signatures.value)];
      index := next;
    }
    r := Success(Decoded("Multisend transactions", params));
  }

  /** `decodeDeprecatedMultisend`: the same loop over the word-aligned layout. */
  method DecodeDeprecatedMultisend(p: Platform, multisendData: string) returns (r: Result<Decoded, Error>)
    requires HexDigitsFrom(multisendData, 2)
    ensures r == DecodePacked(p, DEPRECATED, multisendData)
  {
    var index: nat := 2;
    var params: seq<DecodedValue> := [];
    while index < |multisendData|
      invariant RecordsLoop(p, DEPRECATED, multisendData, index, params) == RecordsLoop(p, DEPRECATED, multisendData, 2, [])
      decreases |multisendData| - index
    {
      var read := ReadDeprecatedRecord(multisendData, index);
      if read.Failure? {
        return Failure(read.error);
      }
      var (rec, next) := read.value;
      var signatures := DataSignatures(p, rec);
      if signatures.Failure? {
        return Failure(signatures.error);
      }
      params := params + [TransactionNode(p, |params| + 1, rec, signatures.value)];
      index := next;
    }
    r := Success(Decoded("Deprecated Multisend transactions", params));
  }
}
