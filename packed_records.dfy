/** The two packed multisend formats read by `decodeMultisend` and
    `decodeDeprecatedMultisend` (src/utils/decoding.ts:78-136), stated as
    functions over the character cursor: how one record is read, how the loop
    over records builds the "Transaction n" nodes, a lookup-free parser, an
    encoder, and the round trips between them.

    Positions count characters of the hex string, two per byte. Both loops
    start at position 2, just after "0x". */
module PackedRecords {
  import opened Results
  import opened JsPrimitives
  import opened DecodedTree

  /** How the word-aligned format skips the padding after a record's data:
      `AsWritten` is the source's `64 - dataLength % 64`, `ToWordBoundary`
      pads only up to the next 32-byte boundary. */
  datatype PaddingRule = AsWritten | ToWordBoundary

  /** `Packed` is the current MultiSend layout (1-byte operation, 20-byte
      address, 32-byte value, 32-byte length, data); `AbiWords` is the
      deprecated one, every field in its own 32-byte word. */
  datatype Layout = Packed | AbiWords(padding: PaddingRule)

  /** The layout the deprecated decoder actually reads. */
  const DEPRECATED: Layout := AbiWords(AsWritten)

  function OperationChars(layout: Layout): nat {
    if layout.Packed? then 2 else 64
  }

  /** Where the 40 characters of the address start, relative to the record. */
  function ToOffset(layout: Layout): nat {
    if layout.Packed? then 2 else 88
  }

  function ValueOffset(layout: Layout): nat {
    if layout.Packed? then 42 else 128
  }

  /** The deprecated layout skips the word at offset 192 (an ABI offset word). */
  function LengthOffset(layout: Layout): nat {
    if layout.Packed? then 106 else 256
  }

  /** Where the data starts: the 64-character length word ends there. */
  function HeaderChars(layout: Layout): nat {
    LengthOffset(layout) + 64
  }

  /** The characters skipped after `dataChars` characters of data. */
  function PadChars(layout: Layout, dataChars: nat): nat {
    match layout
    case Packed => 0
    case AbiWords(AsWritten) => 64 - dataChars % 64
    case AbiWords(ToWordBoundary) => (64 - dataChars % 64) % 64
  }

  /** How far the reader moves past the record `r`: header, data, padding. */
  function RecordChars(layout: Layout, r: RawRecord): nat {
    HeaderChars(layout) + |r.data| + PadChars(layout, |r.data|)
  }

  function WrapperCaption(layout: Layout): string {
    if layout.Packed? then "Multisend transactions" else "Deprecated Multisend transactions"
  }

  /** The fields of one record as read: the operation, the address digits,
      the value, and the data digits (the latter two without "0x"). */
  datatype RawRecord = RawRecord(operation: nat, to: string, value: nat, data: string)

  /** The data length the record at `i` declares, in characters
      (`parseInt(lengthWord, 16) * 2`). */
  function DeclaredDataChars(layout: Layout, s: string, i: nat): nat
  {
    2 * ParseHex(s, i + LengthOffset(layout), i + LengthOffset(layout) + 64)
  }

  /** One record at cursor `i`, with the cursor after it. Reading stops with
      an error when the value field is empty (`BigNumber.from("0x")` throws)
      or the length field is empty (`parseInt` gives NaN); a field's slice is
      empty exactly when it starts at or past the end of `s`. Every other
      short read is silently clamped, as `slice` does. */
  function ReadRecord(layout: Layout, s: string, i: nat): (r: Result<(RawRecord, nat), Error>)
    requires i < |s|
    ensures r.Failure? <==> |s| <= i + LengthOffset(layout)
    ensures r.Failure? ==> r.error == if |s| <= i + ValueOffset(layout) then InvalidBigNumber else LengthNotANumber
    ensures r.Success? ==> r.value.1 >= i + HeaderChars(layout)
  {
    if |s| <= i + ValueOffset(layout) then Failure(InvalidBigNumber)
    else if |s| <= i + LengthOffset(layout) then Failure(LengthNotANumber)
    else
      var dataChars := 2 * ParseHex(s, i + LengthOffset(layout), i + LengthOffset(layout) + 64);
      var start := i + HeaderChars(layout);
      var operation := ParseHex(s, i, i + OperationChars(layout));
      var to := Slice(s, i + ToOffset(layout), i + ToOffset(layout) + 40);
      var value := ParseHex(s, i + ValueOffset(layout), i + ValueOffset(layout) + 64);
      var data := Slice(s, start, start + dataChars);
      Success((RawRecord(operation, to, value, data), start + dataChars + PadChars(layout, dataChars)))
  }

  /** The cursor arithmetic of one record: the cursor moves past the header,
      then by the declared data length (twice the byte count), then by the
      layout's padding; the data is what `slice` returns for that range, so it
      is cut short, without an error, when the string ends early. The address
      has at most 40 digits. */
  lemma ReadRecordCursor(layout: Layout, s: string, i: nat)
    requires i < |s|
    requires ReadRecord(layout, s, i).Success?
    ensures var (rec, next) := ReadRecord(layout, s, i).value;
      var declared := DeclaredDataChars(layout, s, i);
      var start := i + HeaderChars(layout);
      && next == start + declared + PadChars(layout, declared)
      && rec.data == Slice(s, start, start + declared)
      && |rec.data| == (if start + declared <= |s| then declared else if start < |s| then |s| - start else 0)
      && |rec.to| <= 40
  {
  }

  /** A packed record read field by field, the way `decodeMultisend` slices
      it: 2 operation digits, 40 address digits, 64 value digits, 64 length
      digits, then the data. */
  lemma ReadPackedFields(s: string, i: nat, dataLength: nat)
    requires i + LengthOffset(Packed) < |s|
    requires dataLength == ParseHex(s, i + 106, i + 170) * 2
    ensures ReadRecord(Packed, s, i) == Success((RawRecord(
      ParseHex(s, i, i + 2), Slice(s, i + 2, i + 42), ParseHex(s, i + 42, i + 106),
      Slice(s, i + 170, i + 170 + dataLength)), i + 170 + dataLength))
  {
  }

  /** A deprecated record read field by field, the way
      `decodeDeprecatedMultisend` slices it: the operation word, the last 40
      digits of the address word, the value word, a skipped word, the length
      word, the data, then `64 - dataLength % 64` digits of padding. */
  lemma ReadDeprecatedFields(s: string, i: nat, dataLength: nat)
    requires i + LengthOffset(DEPRECATED) < |s|
    requires dataLength == ParseHex(s, i + 256, i + 320) * 2
    ensures ReadRecord(DEPRECATED, s, i) == Success((RawRecord(
      ParseHex(s, i, i + 64), Slice(s, i + 88, i + 128), ParseHex(s, i + 128, i + 192),
      Slice(s, i + 320, i + 320 + dataLength)), i + 320 + dataLength + (64 - dataLength % 64)))
  {
  }

  /** The operation read fits in its field: below 16^2 in the packed format,
      below 16^64 in the deprecated one. */
  lemma ReadRecordOperation(layout: Layout, s: string, i: nat)
    requires i < |s|
    requires ReadRecord(layout, s, i).Success?
    ensures ReadRecord(layout, s, i).value.0.operation < OperationLimit(layout)
  {
    ParseHexBound(s, i, i + OperationChars(layout));
    Limits(layout);
  }

  /** The registry lookup for a record's data, `loadSignatures("0x" + data)`. */
  function DataSignatures(p: Platform, rec: RawRecord): Result<Option<seq<string>>, Error> {
    LoadSignatures(p.lookup, Text("0x" + rec.data))
  }

  /** The "0x" prefix makes the argument truthy, so the registry is always
      asked, with "0x" and the first eight data characters (the inner call's
      selector), or all of them when the data is shorter; the answer's failure
      or emptiness carries over. */
  lemma DataSignaturesLookup(p: Platform, rec: RawRecord)
    ensures var key := if |rec.data| >= 8 then "0x" + rec.data[..8] else "0x" + rec.data;
      var answer := p.lookup(key);
      var r := DataSignatures(p, rec);
      && (r.Failure? <==> answer.Failure?)
      && (answer.Failure? ==> r.error == LookupFailed(answer.error))
      && (answer.Success? ==> (r.value.None? <==> |answer.value| == 0))
  {
    var s := "0x" + rec.data;
    assert |rec.data| >= 8 ==> s[..10] == "0x" + rec.data[..8];
  }

  /** The node pushed for the `k`-th record. */
  function TransactionNode(p: Platform, k: nat, rec: RawRecord, signatures: Option<seq<string>>): DecodedValue {
    DecodedValue(None, Undefined, None, Some(Decoded("Transaction " + Decimal(k), [
      Field("Operation", Number(rec.operation)),
      Field("To", Text("0x" + rec.to)),
      Field("Value", Text(p.toHexString(rec.value))),
      DecodedValue(Some("Data"), Text("0x" + rec.data), signatures, None, Some(true))
    ])), None)
  }

  function Captions(ps: seq<DecodedValue>): (cs: seq<Option<string>>)
    ensures |cs| == |ps| && forall j :: 0 <= j < |ps| ==> cs[j] == ps[j].caption
  {
    seq(|ps|, j requires 0 <= j < |ps| => ps[j].caption)
  }

  const TRANSACTION_FIELDS: seq<Option<string>> := [Some("Operation"), Some("To"), Some("Value"), Some("Data")]

  /** The shape every record node has: no value, a subtree captioned
      "Transaction k" whose fields are Operation, To, Value, Data in that order,
      and only Data collapsible and carrying signatures. */
  predicate IsTransactionNode(n: DecodedValue, k: nat) {
    && n.caption.None? && n.value == Undefined && n.signatures.None? && n.canCollapse.None?
    && n.decoded.Some?
    && n.decoded.value.caption == "Transaction " + Decimal(k)
    && Captions(n.decoded.value.params) == TRANSACTION_FIELDS
    && (forall j :: 0 <= j < 3 ==> n.decoded.value.params[j].signatures.None? && n.decoded.value.params[j].canCollapse.None?)
    && n.decoded.value.params[3].canCollapse == Some(true)
  }

  /** Record nodes numbered 1, 2, ... in order. */
  predicate Numbered(ps: seq<DecodedValue>) {
    forall j :: 0 <= j < |ps| ==> IsTransactionNode(ps[j], j + 1)
  }

  /** Numbered record nodes have pairwise distinct captions. */
  lemma NumberedCaptionsDistinct(ps: seq<DecodedValue>, j: nat, k: nat)
    requires Numbered(ps) && j < |ps| && k < |ps| && j != k
    ensures ps[j].decoded.value.caption != ps[k].decoded.value.caption
  {
    var prefix := "Transaction ";
    var a, b := prefix + Decimal(j + 1), prefix + Decimal(k + 1);
    if a == b {
      assert Decimal(j + 1) == a[|prefix|..] == b[|prefix|..] == Decimal(k + 1);
      DecimalInjective(j + 1, k + 1);
    }
  }

  /** The `while (index < multisendData.length)` loop from cursor `i`, with the
      nodes pushed so far: read a record, look up its data, push its node. The
      nodes already pushed are kept, and the numbering continues. It only
      fails with an empty value or length field or a rejected lookup. */
  function RecordsLoop(p: Platform, layout: Layout, s: string, i: nat, done: seq<DecodedValue>): (r: Result<seq<DecodedValue>, Error>)
    ensures r.Success? ==> |done| <= |r.value| && r.value[..|done|] == done
    ensures r.Failure? ==> IsRecordsError(r.error)
    decreases |s| - i
  {
    if i >= |s| then Success(done)
    else
      match ReadRecord(layout, s, i)
      case Failure(e) => Failure(e)
      case Success((rec, next)) =>
        match DataSignatures(p, rec)
        case Failure(e) => Failure(e)
        case Success(signatures) =>
          var pushed := done + [TransactionNode(p, |done| + 1, rec, signatures)];
          var r := RecordsLoop(p, layout, s, next, pushed);
          assert r.Success? ==> r.value[..|done|] == r.value[..|pushed|][..|done|];
          r
  }

  /** What either decoder returns for `data`: the nodes of all records under
      the format's caption, or the first error met, which is always a read or
      lookup error. */
  function DecodePacked(p: Platform, layout: Layout, data: string): (r: Result<Decoded, Error>)
    requires HexDigitsFrom(data, 2)
    ensures r.Failure? ==> IsRecordsError(r.error)
    ensures r.Success? ==> r.value.caption == WrapperCaption(layout)
  {
    match RecordsLoop(p, layout, data, 2, [])
    case Failure(e) => Failure(e)
    case Success(params) => Success(Decoded(WrapperCaption(layout), params))
  }

  /** A decode succeeds exactly when every record can be read and every
      record's lookup answers. */
  lemma DecodePackedSucceedsIff(p: Platform, layout: Layout, data: string)
    requires HexDigitsFrom(data, 2)
    ensures var parsed := ParseRecords(layout, data, 2);
      DecodePacked(p, layout, data).Success? <==> parsed.Success? && LookupsSucceed(p, parsed.value)
  {
    RecordsLoopFailsIffParseOrLookupFails(p, layout, data, 2, []);
  }

  /** A successful decode holds one node per record, in the records' order,
      numbered from 1, under the format's caption. */
  lemma DecodePackedBuildsNodes(p: Platform, layout: Layout, data: string)
    requires HexDigitsFrom(data, 2)
    requires DecodePacked(p, layout, data).Success?
    ensures ParseRecords(layout, data, 2).Success? && LookupsSucceed(p, ParseRecords(layout, data, 2).value)
    ensures var r := DecodePacked(p, layout, data).value;
      && r == Decoded(WrapperCaption(layout), TransactionNodes(p, ParseRecords(layout, data, 2).value, 1))
      && Numbered(r.params)
  {
    RecordsLoopFailsIffParseOrLookupFails(p, layout, data, 2, []);
    var recs := ParseRecords(layout, data, 2).value;
    RecordsLoopBuildsNodes(p, layout, data, 2, []);
    assert [] + TransactionNodes(p, recs, 1) == TransactionNodes(p, recs, 1);
    TransactionNodesNumbered(p, recs);
  }

  /** The errors a packed decode can end in: an empty value or length field,
      or a rejected registry request. */
  predicate IsRecordsError(e: Error) {
    e == InvalidBigNumber || e == LengthNotANumber || e.LookupFailed?
  }

  /** A record reader over one payload: the record at a cursor, with the
      cursor after it. */
  type Reader = nat -> Result<(RawRecord, nat), Error>

  /** The reader of `layout` over `s`; past the end there is nothing to read. */
  function ReaderOf(layout: Layout, s: string): Reader {
    (c: nat) => if c < |s| then ReadRecord(layout, s, c) else Failure(InvalidBigNumber)
  }

  /** Every successful read moves the cursor forward. */
  ghost predicate Advances(read: Reader) {
    forall c: nat :: read(c).Success? ==> read(c).value.1 > c
  }

  lemma ReaderAdvances(layout: Layout, s: string)
    ensures Advances(ReaderOf(layout, s))
  {
    forall c: nat | ReaderOf(layout, s)(c).Success? ensures ReaderOf(layout, s)(c).value.1 > c {
      ReaderAt(layout, s, c);
    }
  }

  lemma ReaderAt(layout: Layout, s: string, c: nat)
    requires c < |s|
    ensures ReaderOf(layout, s)(c) == ReadRecord(layout, s, c)
  {
  }

  /** The records `read` finds from cursor `i` up to `end`, or its first error. */
  function ParseWith(read: Reader, end: nat, i: nat): Result<seq<RawRecord>, Error>
    requires Advances(read)
    decreases end - i
  {
    if i >= end then Success([])
    else
      match read(i)
      case Failure(e) => Failure(e)
      case Success((rec, next)) =>
        match ParseWith(read, end, next)
        case Failure(e) => Failure(e)
        case Success(rest) => Success([rec] + rest)
  }

  /** The records alone, without registry lookups. */
  function ParseRecords(layout: Layout, s: string, i: nat): Result<seq<RawRecord>, Error> {
    ReaderAdvances(layout, s);
    ParseWith(ReaderOf(layout, s), |s|, i)
  }

  predicate LookupsSucceed(p: Platform, recs: seq<RawRecord>) {
    forall j :: 0 <= j < |recs| ==> DataSignatures(p, recs[j]).Success?
  }

  /** The nodes for `recs`, numbered from `k`, each with its lookup's answer. */
  function TransactionNodes(p: Platform, recs: seq<RawRecord>, k: nat): (r: seq<DecodedValue>)
    requires LookupsSucceed(p, recs)
    ensures |r| == |recs|
    decreases |recs|
  {
    if |recs| == 0 then []
    else [TransactionNode(p, k, recs[0], DataSignatures(p, recs[0]).value)] + TransactionNodes(p, recs[1..], k + 1)
  }

  /** Each record node has the transaction shape and carries the record's
      fields: the operation as a number, the address and data with "0x", the
      value as rendered by `toHexString`, and the lookup's answer on Data. */
  lemma TransactionNodeShape(p: Platform, k: nat, rec: RawRecord, signatures: Option<seq<string>>)
    ensures var n := TransactionNode(p, k, rec, signatures);
      && IsTransactionNode(n, k)
      && n.decoded.value.params[0].value == Number(rec.operation)
      && n.decoded.value.params[1].value == Text("0x" + rec.to)
      && n.decoded.value.params[2].value == Text(p.toHexString(rec.value))
      && n.decoded.value.params[3].value == Text("0x" + rec.data)
      && n.decoded.value.params[3].signatures == signatures
  {
  }

  /** The `j`-th node is the `j`-th record's node, numbered `k + j`. */
  lemma {:induction false} TransactionNodesAt(p: Platform, recs: seq<RawRecord>, k: nat, j: nat)
    requires LookupsSucceed(p, recs) && j < |recs|
    ensures TransactionNodes(p, recs, k)[j] == TransactionNode(p, k + j, recs[j], DataSignatures(p, recs[j]).value)
    decreases j
  {
    if j > 0 {
      assert LookupsSucceed(p, recs[1..]) by {
        forall i | 0 <= i < |recs| - 1 ensures DataSignatures(p, recs[1..][i]).Success? {
          assert recs[1..][i] == recs[i + 1];
        }
      }
      TransactionNodesAt(p, recs[1..], k + 1, j - 1);
    }
  }

  /** The nodes built from parsed records are numbered 1, 2, ... */
  lemma TransactionNodesNumbered(p: Platform, recs: seq<RawRecord>)
    requires LookupsSucceed(p, recs)
    ensures Numbered(TransactionNodes(p, recs, 1))
  {
    var nodes := TransactionNodes(p, recs, 1);
    forall j | 0 <= j < |nodes| ensures IsTransactionNode(nodes[j], j + 1) {
      TransactionNodesAt(p, recs, 1, j);
      TransactionNodeShape(p, 1 + j, recs[j], DataSignatures(p, recs[j]).value);
    }
  }

  lemma LookupsSucceedCons(p: Platform, rec: RawRecord, rest: seq<RawRecord>)
    ensures LookupsSucceed(p, [rec] + rest) <==> DataSignatures(p, rec).Success? && LookupsSucceed(p, rest)
  {
    var recs := [rec] + rest;
    if DataSignatures(p, rec).Success? && LookupsSucceed(p, rest) {
      forall j | 0 <= j < |recs| ensures DataSignatures(p, recs[j]).Success? {
        if j > 0 { assert recs[j] == rest[j - 1]; }
      }
    }
    if LookupsSucceed(p, recs) {
      assert recs[0] == rec;
      forall j | 0 <= j < |rest| ensures DataSignatures(p, rest[j]).Success? {
        assert rest[j] == recs[j + 1];
      }
    }
  }

  lemma TransactionNodesCons(p: Platform, rec: RawRecord, rest: seq<RawRecord>, k: nat)
    requires LookupsSucceed(p, [rec] + rest)
    ensures DataSignatures(p, rec).Success? && LookupsSucceed(p, rest)
    ensures TransactionNodes(p, [rec] + rest, k)
         == [TransactionNode(p, k, rec, DataSignatures(p, rec).value)] + TransactionNodes(p, rest, k + 1)
  {
    LookupsSucceedCons(p, rec, rest);
    assert ([rec] + rest)[1..] == rest;
  }

  /** The decoding loop fails exactly when the records do not parse or one
      of their lookups fails: no error is dropped and none is invented. */
  lemma {:induction false} RecordsLoopFailsIffParseOrLookupFails(p: Platform, layout: Layout, s: string, i: nat, done: seq<DecodedValue>)
    ensures var parsed := ParseRecords(layout, s, i);
      RecordsLoop(p, layout, s, i, done).Failure? <==> parsed.Failure? || !LookupsSucceed(p, parsed.value)
    decreases |s| - i
  {
    if i < |s| && ReadRecord(layout, s, i).Success? {
      var (rec, next) := ReadRecord(layout, s, i).value;
      var rest := ParseRecords(layout, s, next);
      if rest.Success? {
        LookupsSucceedCons(p, rec, rest.value);
      }
      var signatures := DataSignatures(p, rec);
      if signatures.Success? {
        var node := TransactionNode(p, |done| + 1, rec, signatures.value);
        RecordsLoopFailsIffParseOrLookupFails(p, layout, s, next, done + [node]);
      }
    }
  }

  /** One turn of the decoding loop: the record at `i` is read, its lookup
      answers, and its node is pushed numbered after the nodes so far. */
  lemma RecordsLoopStep(p: Platform, layout: Layout, s: string, i: nat, done: seq<DecodedValue>)
    requires i < |s|
    requires ReadRecord(layout, s, i).Success? && DataSignatures(p, ReadRecord(layout, s, i).value.0).Success?
    ensures var (rec, next) := ReadRecord(layout, s, i).value;
      RecordsLoop(p, layout, s, i, done)
      == RecordsLoop(p, layout, s, next, done + [TransactionNode(p, |done| + 1, rec, DataSignatures(p, rec).value)])
  {
  }

  /** The records from `i` are the record at `i` followed by those after it. */
  lemma ParseRecordsStep(layout: Layout, s: string, i: nat)
    requires i < |s|
    requires ParseRecords(layout, s, i).Success?
    ensures ReadRecord(layout, s, i).Success?
    ensures var (rec, next) := ReadRecord(layout, s, i).value;
      && ParseRecords(layout, s, next).Success?
      && ParseRecords(layout, s, i).value == [rec] + ParseRecords(layout, s, next).value
  {
  }

  lemma SeqAssoc<T>(a: seq<T>, b: seq<T>, c: seq<T>)
    ensures a + b + c == a + (b + c)
  {
  }

  /** When the records parse and every lookup succeeds, the loop has pushed
      one node per record, numbered on from the nodes already pushed, in the
      records' order. */
  lemma {:induction false} RecordsLoopBuildsNodes(p: Platform, layout: Layout, s: string, i: nat, done: seq<DecodedValue>)
    requires ParseRecords(layout, s, i).Success? && LookupsSucceed(p, ParseRecords(layout, s, i).value)
    ensures RecordsLoop(p, layout, s, i, done)
         == Success(done + TransactionNodes(p, ParseRecords(layout, s, i).value, |done| + 1))
    decreases |s| - i
  {
    if i >= |s| {
      assert done + [] == done;
    } else {
      ParseRecordsStep(layout, s, i);
      var (rec, next) := ReadRecord(layout, s, i).value;
      var rest := ParseRecords(layout, s, next).value;
      TransactionNodesCons(p, rec, rest, |done| + 1);
      var node := TransactionNode(p, |done| + 1, rec, DataSignatures(p, rec).value);
      RecordsLoopStep(p, layout, s, i, done);
      RecordsLoopBuildsNodes(p, layout, s, next, done + [node]);
      var tail := TransactionNodes(p, rest, |done| + 2);
      assert TransactionNodes(p, ParseRecords(layout, s, i).value, |done| + 1) == [node] + tail;
      SeqAssoc(done, [node], tail);
    }
  }

  /** 16^64 = 2^256: a 32-byte word holds the numbers below it. */
  const WORD_LIMIT: nat := 0x1_0000_0000_0000_0000_0000_0000_0000_0000_0000_0000_0000_0000_0000_0000_0000_0000

  /** The numbers the operation field holds: one byte packed, a word otherwise. */
  function OperationLimit(layout: Layout): nat {
    if layout.Packed? then 0x100 else WORD_LIMIT
  }

  lemma Limits(layout: Layout)
    ensures OperationLimit(layout) == Pow16(OperationChars(layout))
    ensures WORD_LIMIT == Pow16(64)
  {
    Pow16Squares();
  }

  /** 16^2, 16^4, ..., 16^64 by repeated squaring. */
  lemma Pow16Squares()
    ensures Pow16(2) == 0x100
    ensures Pow16(64) == WORD_LIMIT
  {
    Pow16Add(1, 1);
    Pow16Add(2, 2);
    Pow16Add(4, 4);
    Pow16Square(8, 0x1_0000_0000);
    Pow16Square(16, 0x1_0000_0000_0000_0000);
    Pow16Square(32, 0x1_0000_0000_0000_0000_0000_0000_0000_0000);
  }

  lemma Pow16Square(w: nat, n: nat)
    requires Pow16(w) == n
    ensures Pow16(w + w) == n * n
  {
    Pow16Add(w, w);
  }

  /** What an encoder may put in a record of `layout`: fields that fit their
      widths, a 40-digit address and an even number of data digits. */
  predicate WellFormed(layout: Layout, r: RawRecord) {
    && r.operation < OperationLimit(layout)
    && |r.to| == 40 && IsHex(r.to)
    && r.value < WORD_LIMIT
    && IsHex(r.data) && |r.data| % 2 == 0 && |r.data| / 2 < WORD_LIMIT
  }

  predicate AllWellFormed(layout: Layout, recs: seq<RawRecord>) {
    forall j :: 0 <= j < |recs| ==> WellFormed(layout, recs[j])
  }

  /** The word 0x80, the ABI offset of the data within a deprecated record. */
  const OFFSET_WORD: string := Zeros(62) + "80"

  /** The bytes a sender writes for one record, in hex. In the word-aligned
      layout the address is right-aligned in its word and the skipped word
      holds the ABI offset of the data (0x80). */
  function Encode(layout: Layout, r: RawRecord): (e: string)
    requires WellFormed(layout, r)
    ensures |e| == HeaderChars(layout) + |r.data| + PadChars(layout, |r.data|)
    ensures IsHex(e)
  {
    Limits(layout);
    match layout
    case Packed =>
      ToHex(r.operation, 2) + r.to + ToHex(r.value, 64) + ToHex(|r.data| / 2, 64) + r.data
    case AbiWords(_) =>
      ToHex(r.operation, 64) + Zeros(24) + r.to + ToHex(r.value, 64) + OFFSET_WORD
        + ToHex(|r.data| / 2, 64) + r.data + Zeros(PadChars(layout, |r.data|))
  }

  /** Records written back to back. */
  function EncodeAll(layout: Layout, recs: seq<RawRecord>): (e: string)
    requires AllWellFormed(layout, recs)
    ensures IsHex(e)
    decreases |recs|
  {
    if |recs| == 0 then [] else Encode(layout, recs[0]) + EncodeAll(layout, recs[1..])
  }

  /** Where the fields of a record lie in its encoding `e`: operation,
      address, value, length and data sit at the offsets the reader uses. */
  predicate FieldsEncoded(layout: Layout, r: RawRecord, e: string)
  {
    HeaderChars(layout) + |r.data| <= |e| && FieldsAt(layout, e, 0, r)
  }

  lemma EncodedFields(layout: Layout, r: RawRecord)
    requires WellFormed(layout, r)
    ensures FieldsEncoded(layout, r, Encode(layout, r))
  {
    var e := Encode(layout, r);
    EncodedSlices(layout, r);
    Limits(layout);
    DigitFieldEncoded(e, 0, OperationChars(layout), r.operation);
    DigitFieldEncoded(e, ValueOffset(layout), 64, r.value);
    DigitFieldEncoded(e, LengthOffset(layout), 64, |r.data| / 2);
  }

  /** A number written in `w` digits at `start` is read back. */
  lemma DigitFieldEncoded(e: string, start: nat, w: nat, n: nat)
    requires n < Pow16(w) && Slice(e, start, start + w) == ToHex(n, w)
    ensures ParseHex(e, start, start + w) == n
  {
    ParseHexOfSlice(e, start, start + w);
    HexValueOfToHex(n, w);
  }

  lemma EncodedSlices(layout: Layout, r: RawRecord)
    requires WellFormed(layout, r)
    ensures var e := Encode(layout, r);
      && HeaderChars(layout) + |r.data| <= |e|
      && Slice(e, 0, OperationChars(layout)) == ToHex(r.operation, OperationChars(layout))
      && Slice(e, ToOffset(layout), ToOffset(layout) + 40) == r.to
      && Slice(e, ValueOffset(layout), ValueOffset(layout) + 64) == ToHex(r.value, 64)
      && Slice(e, LengthOffset(layout), LengthOffset(layout) + 64) == ToHex(|r.data| / 2, 64)
      && Slice(e, HeaderChars(layout), HeaderChars(layout) + |r.data|) == r.data
  {
    if layout.Packed? {
      PackedSlices(r);
    } else {
      WordSlices(layout, r);
    }
  }

  lemma PackedSlices(r: RawRecord)
    requires WellFormed(Packed, r)
    ensures var e := Encode(Packed, r);
      && Slice(e, 0, 2) == ToHex(r.operation, 2)
      && Slice(e, 2, 42) == r.to
      && Slice(e, 42, 106) == ToHex(r.value, 64)
      && Slice(e, 106, 170) == ToHex(|r.data| / 2, 64)
      && Slice(e, 170, 170 + |r.data|) == r.data
  {
    var op := ToHex(r.operation, 2);
    var value := ToHex(r.value, 64);
    var length := ToHex(|r.data| / 2, 64);
    var n := |r.data|;
    var h := op + r.to + value + length;
    SliceLeft(h, r.data, 0, 2);
    SliceLeft(op + r.to + value, length, 0, 2);
    SliceLeft(op + r.to, value, 0, 2);
    SliceLeft(op, r.to, 0, 2);
    SliceWhole(op);
    SliceLeft(h, r.data, 2, 42);
    SliceLeft(op + r.to + value, length, 2, 42);
    SliceLeft(op + r.to, value, 2, 42);
    SliceRight(op, r.to, 2, 42);
    SliceWhole(r.to);
    SliceLeft(h, r.data, 42, 106);
    SliceLeft(op + r.to + value, length, 42, 106);
    SliceRight(op + r.to, value, 42, 106);
    SliceWhole(value);
    SliceLeft(h, r.data, 106, 170);
    SliceRight(op + r.to + value, length, 106, 170);
    SliceWhole(length);
    SliceRight(h, r.data, 170, 170 + n);
    SliceWhole(r.data);
  }

  lemma WordSlices(layout: Layout, r: RawRecord)
    requires layout.AbiWords? && WellFormed(layout, r)
    ensures var e := Encode(layout, r);
      && Slice(e, 0, 64) == ToHex(r.operation, 64)
      && Slice(e, 88, 128) == r.to
      && Slice(e, 128, 192) == ToHex(r.value, 64)
      && Slice(e, 256, 320) == ToHex(|r.data| / 2, 64)
      && Slice(e, 320, 320 + |r.data|) == r.data
  {
    var op := ToHex(r.operation, 64);
    var value := ToHex(r.value, 64);
    var length := ToHex(|r.data| / 2, 64);
    var n := |r.data|;
    var zeros := Zeros(24);
    var offset := OFFSET_WORD;
    var pad := Zeros(PadChars(layout, n));
    var h := op + zeros + r.to + value + offset + length;
    SliceLeft(h + r.data, pad, 0, 64);
    SliceLeft(h, r.data, 0, 64);
    SliceLeft(op + zeros + r.to + value + offset, length, 0, 64);
    SliceLeft(op + zeros + r.to + value, offset, 0, 64);
    SliceLeft(op + zeros + r.to, value, 0, 64);
    SliceLeft(op + zeros, r.to, 0, 64);
    SliceLeft(op, zeros, 0, 64);
    SliceWhole(op);
    SliceLeft(h + r.data, pad, 88, 128);
    SliceLeft(h, r.data, 88, 128);
    SliceLeft(op + zeros + r.to + value + offset, length, 88, 128);
    SliceLeft(op + zeros + r.to + value, offset, 88, 128);
    SliceLeft(op + zeros + r.to, value, 88, 128);
    SliceRight(op + zeros, r.to, 88, 128);
    SliceWhole(r.to);
    SliceLeft(h + r.data, pad, 128, 192);
    SliceLeft(h, r.data, 128, 192);
    SliceLeft(op + zeros + r.to + value + offset, length, 128, 192);
    SliceLeft(op + zeros + r.to + value, offset, 128, 192);
    SliceRight(op + zeros + r.to, value, 128, 192);
    SliceWhole(value);
    SliceLeft(h + r.data, pad, 256, 320);
    SliceLeft(h, r.data, 256, 320);
    SliceRight(op + zeros + r.to + value + offset, length, 256, 320);
    SliceWhole(length);
    SliceLeft(h + r.data, pad, 320, 320 + n);
    SliceRight(h, r.data, 320, 320 + n);
    SliceWhole(r.data);
  }

  /** Reading the encoding of `r`, placed after `pre` in `s`, gives `r` back,
      and the cursor moves past its header and data and then skips the
      reader's padding. The writer and the reader must agree on the field
      layout; their padding may differ. */
  lemma ReadEncodedRecord(read: Layout, write: Layout, pre: string, r: RawRecord, rest: string, s: string)
    requires read.Packed? == write.Packed?
    requires WellFormed(write, r)
    requires s == pre + Encode(write, r) + rest
    ensures |pre| < |s|
    ensures ReadRecord(read, s, |pre|)
         == Success((r, |pre| + RecordChars(read, r)))
  {
    EncodedFields(write, r);
    OccursInConcat(pre, Encode(write, r), rest, s);
    ReadFieldsEncoded(read, write, s, |pre|, r, Encode(write, r));
  }

  /** `e` occurs in `s` at position `i`. */
  predicate OccursAt(s: string, i: nat, e: string) {
    i + |e| <= |s| && s[i..i + |e|] == e
  }

  lemma OccursInConcat(pre: string, e: string, rest: string, s: string)
    requires s == pre + e + rest
    ensures OccursAt(s, |pre|, e)
  {
    assert s == pre + (e + rest);
    assert s[|pre|..] == e + rest;
  }

  /** Reading a record whose fields lie at the writer's offsets in `e`. */
  lemma ReadFieldsEncoded(read: Layout, write: Layout, s: string, i: nat, r: RawRecord, e: string)
    requires read.Packed? == write.Packed?
    requires FieldsEncoded(write, r, e)
    requires OccursAt(s, i, e)
    ensures i < |s|
    ensures ReadRecord(read, s, i) == Success((r, i + RecordChars(read, r)))
  {
    FieldsEncodedSameShape(read, write, r, e);
    EncodedFieldsAt(read, s, i, r, e);
    ReadRecordFromFields(read, s, i, r);
  }

  /** The same, seen through the reader the parse uses. */
  lemma ReaderReadsEncoded(read: Layout, write: Layout, s: string, i: nat, r: RawRecord, e: string)
    requires read.Packed? == write.Packed?
    requires FieldsEncoded(write, r, e)
    requires OccursAt(s, i, e)
    ensures i < |s|
    ensures ReaderOf(read, s)(i) == Success((r, i + RecordChars(read, r)))
  {
    ReadFieldsEncoded(read, write, s, i, r, e);
    ReaderAt(read, s, i);
  }

  /** The fields sit at the same offsets in layouts of the same shape. */
  lemma FieldsEncodedSameShape(read: Layout, write: Layout, r: RawRecord, e: string)
    requires read.Packed? == write.Packed?
    requires FieldsEncoded(write, r, e)
    ensures FieldsEncoded(read, r, e)
  {
    assert OperationChars(read) == OperationChars(write) && ValueOffset(read) == ValueOffset(write);
    assert ToOffset(read) == ToOffset(write) && LengthOffset(read) == LengthOffset(write);
  }

  /** The fields of an encoded record `e`, seen in `s` from where `e` occurs. */
  lemma EncodedFieldsAt(layout: Layout, s: string, i: nat, r: RawRecord, e: string)
    requires FieldsEncoded(layout, r, e) && OccursAt(s, i, e)
    ensures i < |s| && FieldsAt(layout, s, i, r)
  {
    EncodedDigitsAt(layout, s, i, r, e);
    EncodedSlicesAt(layout, s, i, r, e);
  }

  lemma EncodedDigitsAt(layout: Layout, s: string, i: nat, r: RawRecord, e: string)
    requires HeaderChars(layout) <= |e| && DigitsAt(layout, e, 0, r) && OccursAt(s, i, e)
    ensures i < |s| && DigitsAt(layout, s, i, r)
  {
    DigitFieldAt(s, i, e, 0, OperationChars(layout));
    DigitFieldAt(s, i, e, ValueOffset(layout), 64);
    DigitFieldAt(s, i, e, LengthOffset(layout), 64);
  }

  lemma EncodedSlicesAt(layout: Layout, s: string, i: nat, r: RawRecord, e: string)
    requires HeaderChars(layout) + |r.data| <= |e| && SlicesAt(layout, e, 0, r) && OccursAt(s, i, e)
    ensures SlicesAt(layout, s, i, r)
  {
    FieldAt(s, i, e, ToOffset(layout), 40, r.to);
    FieldAt(s, i, e, HeaderChars(layout), |r.data|, r.data);
  }

  /** A field of `e` is found at the same place, shifted, in `s`. */
  lemma FieldAt(s: string, i: nat, e: string, start: nat, len: nat, x: string)
    requires OccursAt(s, i, e) && start + len <= |e|
    requires Slice(e, start, start + len) == x
    ensures Slice(s, i + start, i + start + len) == x
  {
    OccursSlice(s, i, e, start, len);
  }

  /** A range of `e` is the same range, shifted, of `s`. */
  lemma OccursSlice(s: string, i: nat, e: string, start: nat, len: nat)
    requires OccursAt(s, i, e) && start + len <= |e|
    ensures s[i + start..i + start + len] == e[start..start + len]
  {
    var inS, inE := s[i + start..i + start + len], e[start..start + len];
    forall k | 0 <= k < len ensures inS[k] == inE[k] {
      assert e[start + k] == s[i..i + |e|][start + k] == s[i + (start + k)];
    }
  }

  /** A number field of `e`, read in `s`, has the same value. */
  lemma DigitFieldAt(s: string, i: nat, e: string, start: nat, len: nat)
    requires OccursAt(s, i, e) && start + len <= |e|
    ensures i + start + len <= |s|
    ensures ParseHex(s, i + start, i + start + len) == ParseHex(e, start, start + len)
  {
    if len > 0 {
      OccursSlice(s, i, e, start, len);
      HexAtSame(s, i + start, e, start, len);
    }
  }

  /** The record `r` is what the fields at cursor `i` spell: the operation,
      value and byte count in the digit fields, and the address and data
      slices. */
  predicate FieldsAt(layout: Layout, s: string, i: nat, r: RawRecord)
  {
    DigitsAt(layout, s, i, r) && SlicesAt(layout, s, i, r)
  }

  /** The number fields at cursor `i`, the last of which starts inside `s`. */
  predicate DigitsAt(layout: Layout, s: string, i: nat, r: RawRecord)
  {
    && i + LengthOffset(layout) < |s|
    && ParseHex(s, i, i + OperationChars(layout)) == r.operation
    && ParseHex(s, i + ValueOffset(layout), i + ValueOffset(layout) + 64) == r.value
    && 2 * ParseHex(s, i + LengthOffset(layout), i + LengthOffset(layout) + 64) == |r.data|
  }

  /** The address and data slices at cursor `i`. */
  predicate SlicesAt(layout: Layout, s: string, i: nat, r: RawRecord)
  {
    && Slice(s, i + ToOffset(layout), i + ToOffset(layout) + 40) == r.to
    && Slice(s, i + HeaderChars(layout), i + HeaderChars(layout) + |r.data|) == r.data
  }

  /** The reader returns exactly the fields found at its offsets: the
      operation, value and byte count the digit fields spell, and the address
      and data slices; the cursor moves past the data and the padding. */
  lemma ReadRecordFromFields(layout: Layout, s: string, i: nat, r: RawRecord)
    requires i < |s|
    requires FieldsAt(layout, s, i, r)
    ensures ReadRecord(layout, s, i)
         == Success((r, i + RecordChars(layout, r)))
  {
  }

  /** The padding a reader skips after each record is at least what the
      writer put there, and exactly that after every record but the last. */
  predicate PaddingAgrees(read: Layout, write: Layout, recs: seq<RawRecord>) {
    && (forall j :: 0 <= j < |recs| ==> PadChars(write, |recs[j].data|) <= PadChars(read, |recs[j].data|))
    && (forall j :: 0 <= j < |recs| - 1 ==> PadChars(write, |recs[j].data|) == PadChars(read, |recs[j].data|))
  }

  /** Records written back to back after `pre` are parsed back, provided the
      reader never skips less padding than was written, and skips exactly as
      much after every record but the last. */
  lemma ParseEncodedRecords(read: Layout, write: Layout, pre: string, recs: seq<RawRecord>, s: string)
    requires read.Packed? == write.Packed?
    requires AllWellFormed(write, recs) && PaddingAgrees(read, write, recs)
    requires s == pre + EncodeAll(write, recs)
    ensures ParseRecords(read, s, |pre|) == Success(recs)
  {
    EncodedRecordsRead(read, write, pre, recs, s, |pre|);
    ReaderAdvances(read, s);
    ParseReadRecords(ReaderOf(read, s), |s|, |pre|, recs);
  }

  /** Each record of `recs` is read in turn from cursor `i`, and the last one
      takes the cursor to `end` or past it. */
  predicate ReadsAll(read: Reader, end: nat, i: nat, recs: seq<RawRecord>)
    decreases |recs|
  {
    if |recs| == 0 then end <= i
    else i < end && read(i).Success? && read(i).value.0 == recs[0] && ReadsAll(read, end, read(i).value.1, recs[1..])
  }

  /** Records read one after the other are what the parse returns. */
  lemma {:induction false} ParseReadRecords(read: Reader, end: nat, i: nat, recs: seq<RawRecord>)
    requires Advances(read) && ReadsAll(read, end, i, recs)
    ensures ParseWith(read, end, i) == Success(recs)
    decreases |recs|
  {
    if |recs| > 0 {
      ParseReadRecords(read, end, read(i).value.1, recs[1..]);
      assert recs == [recs[0]] + recs[1..];
    }
  }

  /** The records of the encoding are read back one after the other. */
  lemma {:induction false} EncodedRecordsRead(read: Layout, write: Layout, pre: string, recs: seq<RawRecord>, s: string, i: nat)
    requires read.Packed? == write.Packed?
    requires AllWellFormed(write, recs) && PaddingAgrees(read, write, recs)
    requires s == pre + EncodeAll(write, recs) && i == |pre|
    ensures ReadsAll(ReaderOf(read, s), |s|, i, recs)
    decreases |recs|
  {
    if |recs| > 0 {
      var r := recs[0];
      var tail := recs[1..];
      var e := Encode(write, r);
      var rest := EncodeAll(write, tail);
      EncodeAllCons(write, recs);
      SeqAssoc(pre, e, rest);
      EncodedFields(write, r);
      OccursInConcat(pre, e, rest, s);
      ReaderReadsEncoded(read, write, s, i, r, e);
      var next := i + RecordChars(read, r);
      TailAgrees(read, write, recs);
      if |tail| == 0 {
        assert |s| <= next;
      } else {
        assert next == |pre + e|;
        EncodedRecordsRead(read, write, pre + e, tail, s, next);
      }
    }
  }

  /** Well-formedness and agreeing padding carry over to the tail. */
  lemma TailAgrees(read: Layout, write: Layout, recs: seq<RawRecord>)
    requires |recs| > 0 && AllWellFormed(write, recs) && PaddingAgrees(read, write, recs)
    ensures AllWellFormed(write, recs[1..]) && PaddingAgrees(read, write, recs[1..])
    ensures |recs| > 1 ==> PadChars(write, |recs[0].data|) == PadChars(read, |recs[0].data|)
  {
    var tail := recs[1..];
    forall j | 0 <= j < |tail| ensures tail[j] == recs[j + 1] { }
  }

  /** The encoding of a non-empty list starts with the encoding of its head. */
  lemma EncodeAllCons(layout: Layout, recs: seq<RawRecord>)
    requires |recs| > 0 && AllWellFormed(layout, recs)
    ensures EncodeAll(layout, recs) == Encode(layout, recs[0]) + EncodeAll(layout, recs[1..])
  {
  }

  lemma HexDigitsAfterPrefix(pre: string, e: string)
    requires HexDigitsFrom(pre, 2) && IsHex(e)
    ensures HexDigitsFrom(pre + e, 2)
  {
    forall k | 2 <= k < |pre + e| ensures IsHexDigit((pre + e)[k]) {
      if k >= |pre| { assert (pre + e)[k] == e[k - |pre|]; }
    }
  }

  /** Round trip: records encoded back to back after "0x" in either layout
      (with the decoder's own padding) parse back to the same records. */
  lemma ParseEncodingRoundTrip(layout: Layout, recs: seq<RawRecord>)
    requires AllWellFormed(layout, recs)
    ensures HexDigitsFrom("0x" + EncodeAll(layout, recs), 2)
    ensures ParseRecords(layout, "0x" + EncodeAll(layout, recs), 2) == Success(recs)
  {
    HexDigitsAfterPrefix("0x", EncodeAll(layout, recs));
    ParseEncodedRecords(layout, layout, "0x", recs, "0x" + EncodeAll(layout, recs));
  }

  /** Round trip through the whole decoder: when every lookup succeeds, the
      encoding of N records decodes to N nodes "Transaction 1" .. "Transaction N"
      carrying the same operation, address, value and data, in order. */
  lemma DecodeEncodingRoundTrip(p: Platform, layout: Layout, recs: seq<RawRecord>)
    requires AllWellFormed(layout, recs)
    requires LookupsSucceed(p, recs)
    ensures HexDigitsFrom("0x" + EncodeAll(layout, recs), 2)
    ensures DecodePacked(p, layout, "0x" + EncodeAll(layout, recs))
         == Success(Decoded(WrapperCaption(layout), TransactionNodes(p, recs, 1)))
  {
    var s := "0x" + EncodeAll(layout, recs);
    ParseEncodingRoundTrip(layout, recs);
    DecodePackedSucceedsIff(p, layout, s);
    DecodePackedBuildsNodes(p, layout, s);
  }

  /** The source's padding agrees with padding to the next 32-byte boundary
      except when the data is a whole number of words, where it skips one
      word too many. So its reader still parses well-padded payloads whose
      records (all but the last) have data lengths that are not multiples of
      32 bytes. */
  lemma SourcePaddingReadsUnalignedRecords(recs: seq<RawRecord>)
    requires AllWellFormed(AbiWords(ToWordBoundary), recs)
    requires forall j :: 0 <= j < |recs| - 1 ==> |recs[j].data| % 64 != 0
    ensures HexDigitsFrom("0x" + EncodeAll(AbiWords(ToWordBoundary), recs), 2)
    ensures ParseRecords(DEPRECATED, "0x" + EncodeAll(AbiWords(ToWordBoundary), recs), 2) == Success(recs)
  {
    HexDigitsAfterPrefix("0x", EncodeAll(AbiWords(ToWordBoundary), recs));
    UnalignedPaddingAgrees(recs);
    ParseEncodedRecords(DEPRECATED, AbiWords(ToWordBoundary), "0x", recs, "0x" + EncodeAll(AbiWords(ToWordBoundary), recs));
  }

  /** The source's padding is never shorter than the corrected one, and the
      two agree on data that does not end on a word boundary. */
  lemma PadCharsCompared(n: nat)
    ensures PadChars(AbiWords(ToWordBoundary), n) <= PadChars(DEPRECATED, n)
    ensures PadChars(AbiWords(ToWordBoundary), n) == PadChars(DEPRECATED, n) <==> n % 64 != 0
  {
  }

  lemma UnalignedPaddingAgrees(recs: seq<RawRecord>)
    requires forall j :: 0 <= j < |recs| - 1 ==> |recs[j].data| % 64 != 0
    ensures PaddingAgrees(DEPRECATED, AbiWords(ToWordBoundary), recs)
  {
    forall j | 0 <= j < |recs|
      ensures PadChars(AbiWords(ToWordBoundary), |recs[j].data|) <= PadChars(DEPRECATED, |recs[j].data|)
      ensures j < |recs| - 1 ==> PadChars(AbiWords(ToWordBoundary), |recs[j].data|) == PadChars(DEPRECATED, |recs[j].data|)
    {
      PadCharsCompared(|recs[j].data|);
    }
  }

  /** The discrepancy: two records with empty data (plain transfers), padded to
      32-byte boundaries, parse back with the corrected padding, but the
      source's padding jumps 32 bytes into the second record and then finds
      no length word. */
  lemma SourcePaddingMisreadsEmptyData(r1: RawRecord, r2: RawRecord)
    requires WellFormed(AbiWords(ToWordBoundary), r1) && WellFormed(AbiWords(ToWordBoundary), r2)
    requires |r1.data| == 0 && |r2.data| == 0
    ensures HexDigitsFrom("0x" + EncodeAll(AbiWords(ToWordBoundary), [r1, r2]), 2)
    ensures ParseRecords(AbiWords(ToWordBoundary), "0x" + EncodeAll(AbiWords(ToWordBoundary), [r1, r2]), 2) == Success([r1, r2])
    ensures ParseRecords(DEPRECATED, "0x" + EncodeAll(AbiWords(ToWordBoundary), [r1, r2]), 2) == Failure(LengthNotANumber)
  {
    var write := AbiWords(ToWordBoundary);
    var s := "0x" + EncodeAll(write, [r1, r2]);
    ParseEncodingRoundTrip(write, [r1, r2]);
    TwoEmptyRecords(r1, r2, s);
    ReaderReadsEncoded(DEPRECATED, write, s, 2, r1, Encode(write, r1));
    ReaderAt(DEPRECATED, s, 386);
    ReaderAdvances(DEPRECATED, s);
    ParseWithStopsAtSecond(ReaderOf(DEPRECATED, s), |s|, 2);
  }

  /** Where things lie in the encoding of two records with empty data. */
  lemma TwoEmptyRecords(r1: RawRecord, r2: RawRecord, s: string)
    requires WellFormed(AbiWords(ToWordBoundary), r1) && WellFormed(AbiWords(ToWordBoundary), r2)
    requires |r1.data| == 0 && |r2.data| == 0
    requires s == "0x" + EncodeAll(AbiWords(ToWordBoundary), [r1, r2])
    ensures |s| == 642 && RecordChars(DEPRECATED, r1) == 384
    ensures FieldsEncoded(AbiWords(ToWordBoundary), r1, Encode(AbiWords(ToWordBoundary), r1))
    ensures OccursAt(s, 2, Encode(AbiWords(ToWordBoundary), r1))
  {
    var write := AbiWords(ToWordBoundary);
    EncodeTwo(write, r1, r2);
    EncodedFields(write, r1);
    TwoRecordsAt(Encode(write, r1), Encode(write, r2), s);
  }

  lemma TwoRecordsAt(e1: string, e2: string, s: string)
    requires |e1| == 320 && |e2| == 320 && s == "0x" + e1 + e2
    ensures |s| == 642 && OccursAt(s, 2, e1)
  {
    OccursInConcat("0x", e1, e2, s);
  }

  lemma EncodeTwo(layout: Layout, r1: RawRecord, r2: RawRecord)
    requires WellFormed(layout, r1) && WellFormed(layout, r2)
    ensures EncodeAll(layout, [r1, r2]) == Encode(layout, r1) + Encode(layout, r2)
  {
    EncodeAllCons(layout, [r1, r2]);
    assert [r1, r2][1..] == [r2];
    assert EncodeAll(layout, [r2]) == Encode(layout, r2) + EncodeAll(layout, []);
  }

  /** A parse whose second read fails fails with that error. */
  lemma ParseWithStopsAtSecond(read: Reader, end: nat, i: nat)
    requires Advances(read) && i < end && read(i).Success?
    requires read(i).value.1 < end && read(read(i).value.1).Failure?
    ensures ParseWith(read, end, i) == Failure(read(read(i).value.1).error)
  {
  }
}
