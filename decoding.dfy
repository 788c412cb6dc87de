/** The entry point `decodeData` and the post-processing of ABI-decoded
    arguments (src/utils/decoding.ts:35-76, 138-157): the two pseudo
    signatures are routed to the packed multisend decoders, any other
    signature is decoded by the ABI codec, and the arguments of two well-known
    selectors get a dedicated shape. */
module Decoding {
  import opened Results
  import opened JsPrimitives
  import opened DecodedTree
  import opened PackedRecords

  /** The selector of `multiSend(bytes)`. */
  const MULTISEND_SELECTOR: string := "0x8d80ff0a"

  /** The selector of the Safe's `execTransaction`. */
  const EXEC_TRANSACTION_SELECTOR: string := "0x6a761202"

  /** The captions of `execTransaction`'s ten arguments, in order. */
  const SAFE_FIELDS: seq<string> :=
    ["To", "Value", "Data", "Operation", "SafeTxGas", "BaseGas", "GasPrice", "GasToken", "RefundReceiver", "Signatures"]

  /** `stubMultisend`: the packed payload of a `multiSend` call, offered for
      decoding under either multisend pseudo signature. */
  function StubMultisend(multisendData: Value): (n: DecodedValue)
    ensures n.value == multisendData && n.caption.None? && n.decoded.None?
    ensures n.signatures == Some(MULTISEND_SIGNATURES) && n.canCollapse == Some(true)
  {
    DecodedValue(None, multisendData, Some(MULTISEND_SIGNATURES), None, Some(true))
  }

  /** The node of a decoded `execTransaction`: no value, a subtree captioned
      "Safe transaction" with the ten arguments under their names in order,
      and only Data carrying the lookup's signatures and being collapsible. */
  predicate IsSafeTransactionNode(n: DecodedValue, decoded: seq<Value>, signatures: Option<seq<string>>) {
    && n.caption.None? && n.value == Undefined && n.signatures.None? && n.canCollapse.None?
    && n.decoded.Some? && n.decoded.value.caption == "Safe transaction"
    && |n.decoded.value.params| == 10 == |decoded|
    && (forall k :: 0 <= k < 10 ==>
          && n.decoded.value.params[k].caption == Some(SAFE_FIELDS[k])
          && n.decoded.value.params[k].value == decoded[k]
          && n.decoded.value.params[k].decoded.None?
          && (k != 2 ==> n.decoded.value.params[k].signatures.None? && n.decoded.value.params[k].canCollapse.None?))
    && n.decoded.value.params[2].signatures == signatures
    && n.decoded.value.params[2].canCollapse == Some(true)
  }

  /** `decodeSafeTransaction`: fails exactly when the lookup of the Data
      argument fails, and otherwise builds the Safe transaction node. */
  function DecodeSafeTransaction(p: Platform, decoded: seq<Value>): (r: Result<DecodedValue, Error>)
    requires |decoded| == 10
    ensures var signatures := LoadSignatures(p.lookup, decoded[2]);
      && (r.Success? <==> signatures.Success?)
      && (r.Failure? ==> r.error == signatures.error)
      && (r.Success? ==> IsSafeTransactionNode(r.value, decoded, signatures.value))
  {
    match LoadSignatures(p.lookup, decoded[2])
    case Failure(e) => Failure(e)
    case Success(signatures) =>
      Success(DecodedValue(None, Undefined, None, Some(Decoded("Safe transaction", [
        Field("To", decoded[0]),
        Field("Value", decoded[1]),
        DecodedValue(Some("Data"), decoded[2], signatures, None, Some(true)),
        Field("Operation", decoded[3]),
        Field("SafeTxGas", decoded[4]),
        Field("BaseGas", decoded[5]),
        Field("GasPrice", decoded[6]),
        Field("GasToken", decoded[7]),
        Field("RefundReceiver", decoded[8]),
        Field("Signatures", decoded[9])
      ])), None))
  }

  /** The selector `Interface.getSighash` gives, lower-cased: the same
      characters with every upper-case letter replaced by its lower-case one,
      so the comparisons with the lower-case selectors ignore case. */
  function Selector(p: Platform, fragment: Fragment): (s: string)
    ensures var h := p.sighash(fragment);
      && |s| == |h|
      && forall k :: 0 <= k < |s| ==>
           if 'A' <= h[k] <= 'Z' then s[k] as int == h[k] as int - 'A' as int + 'a' as int else s[k] == h[k]
  {
    Lower(p.sighash(fragment))
  }

  predicate IsMultisendCall(p: Platform, fragment: Fragment, decoded: seq<Value>) {
    Selector(p, fragment) == MULTISEND_SELECTOR && |decoded| == 1
  }

  predicate IsSafeCall(p: Platform, fragment: Fragment, decoded: seq<Value>) {
    Selector(p, fragment) == EXEC_TRANSACTION_SELECTOR && |decoded| == 10
  }

  /** An `execTransaction` call whose Safe transaction node can be built. */
  predicate IsSafeNodeBuilt(p: Platform, fragment: Fragment, decoded: seq<Value>) {
    IsSafeCall(p, fragment, decoded) && LoadSignatures(p.lookup, decoded[2]).Success?
  }

  /** Unlabelled nodes holding the arguments, one each, in order. */
  predicate AreLeaves(r: seq<DecodedValue>, decoded: seq<Value>) {
    |r| == |decoded| && forall k :: 0 <= k < |r| ==> r[k] == Leaf(decoded[k])
  }

  /** `processDecoded`: a `multiSend` call becomes the stub; an
      `execTransaction` call becomes the Safe transaction node, unless
      building it fails, which is caught; everything else becomes one leaf per
      argument. It never fails. */
  function ProcessDecoded(p: Platform, fragment: Fragment, decoded: seq<Value>): (r: seq<DecodedValue>)
    ensures IsMultisendCall(p, fragment, decoded) ==>
      |r| == 1 && r[0].value == decoded[0] && r[0].signatures == Some(MULTISEND_SIGNATURES)
      && r[0].canCollapse == Some(true) && r[0].caption.None? && r[0].decoded.None?
    ensures IsSafeNodeBuilt(p, fragment, decoded) ==>
      |r| == 1 && IsSafeTransactionNode(r[0], decoded, LoadSignatures(p.lookup, decoded[2]).value)
    ensures !IsMultisendCall(p, fragment, decoded) && !IsSafeNodeBuilt(p, fragment, decoded) ==>
      AreLeaves(r, decoded)
  {
    if IsMultisendCall(p, fragment, decoded) then [StubMultisend(decoded[0])]
    else if IsSafeCall(p, fragment, decoded) && DecodeSafeTransaction(p, decoded).Success? then
      [DecodeSafeTransaction(p, decoded).value]
    else seq(|decoded|, k requires 0 <= k < |decoded| => Leaf(decoded[k]))
  }

  /** The argument values a post-processed list shows: the parameters of a
      Safe transaction node, or else the value of each node. */
  function Arguments(r: seq<DecodedValue>): seq<Value> {
    if |r| == 1 && r[0].decoded.Some? && r[0].decoded.value.caption == "Safe transaction" then
      seq(|r[0].decoded.value.params|, k requires 0 <= k < |r[0].decoded.value.params| => r[0].decoded.value.params[k].value)
    else seq(|r|, k requires 0 <= k < |r| => r[k].value)
  }

  /** Post-processing loses no argument and reorders none: whichever case
      applies, the arguments can be read back from the output. */
  lemma ProcessDecodedKeepsArguments(p: Platform, fragment: Fragment, decoded: seq<Value>)
    ensures Arguments(ProcessDecoded(p, fragment, decoded)) == decoded
  {
    var r := ProcessDecoded(p, fragment, decoded);
    if IsSafeNodeBuilt(p, fragment, decoded) {
      assert Arguments(r) == decoded;
    } else if !IsMultisendCall(p, fragment, decoded) {
      assert Arguments(r) == decoded;
    } else {
      assert Arguments(r) == [decoded[0]];
    }
  }

  /** `handleSpecialSignatures`: "Multisend" runs the packed decoder,
      "Deprecated Multisend" the word-aligned one, anything else fails. */
  function HandleSpecialSignatures(p: Platform, functionSignature: string, data: string): (r: Result<Decoded, Error>)
    requires functionSignature in MULTISEND_SIGNATURES ==> HexDigitsFrom(data, 2)
    ensures functionSignature == "Multisend" ==> r == DecodePacked(p, Packed, data)
    ensures functionSignature == "Deprecated Multisend" ==> r == DecodePacked(p, DEPRECATED, data)
    ensures functionSignature !in MULTISEND_SIGNATURES ==> r == Failure(UnknownSignature(functionSignature))
    ensures r.Failure? && r.error.UnknownSignature? <==> functionSignature !in MULTISEND_SIGNATURES
    ensures r.Success? ==> r.value.caption == functionSignature + " transactions"
  {
    if functionSignature == "Multisend" then
      WrapperCaptions();
      DecodePacked(p, Packed, data)
    else if functionSignature == "Deprecated Multisend" then
      WrapperCaptions();
      DecodePacked(p, DEPRECATED, data)
    else Failure(UnknownSignature(functionSignature))
  }

  /** Each format's caption is its pseudo signature followed by " transactions". */
  lemma WrapperCaptions()
    ensures WrapperCaption(Packed) == MULTISEND_SIGNATURES[0] + " transactions"
    ensures WrapperCaption(DEPRECATED) == MULTISEND_SIGNATURES[1] + " transactions"
  {
  }

  /** `decodeData`: the pseudo signatures go to `handleSpecialSignatures`;
      any other signature is parsed into a fragment, the calldata is decoded
      against it, and the post-processed arguments are captioned with the
      signature. */
  function DecodeData(p: Platform, functionSignature: string, data: string): (r: Result<Decoded, Error>)
    requires functionSignature in MULTISEND_SIGNATURES ==> HexDigitsFrom(data, 2)
    ensures functionSignature in MULTISEND_SIGNATURES ==> r == HandleSpecialSignatures(p, functionSignature, data)
    ensures functionSignature !in MULTISEND_SIGNATURES ==>
      var fragment := p.parseFragment(functionSignature);
      && (r.Success? <==> fragment.Success? && p.decodeFunctionData(fragment.value, data).Success?)
      && (fragment.Failure? ==> r == Failure(AbiFailure(fragment.error)))
      && (fragment.Success? && p.decodeFunctionData(fragment.value, data).Failure? ==>
            r == Failure(AbiFailure(p.decodeFunctionData(fragment.value, data).error)))
      && (r.Success? ==>
            && r.value == Decoded(functionSignature, ProcessDecoded(p, fragment.value, p.decodeFunctionData(fragment.value, data).value))
            && Arguments(r.value.params) == p.decodeFunctionData(fragment.value, data).value)
    ensures r.Failure? ==> !r.error.UnknownSignature?
  {
    if functionSignature in MULTISEND_SIGNATURES then HandleSpecialSignatures(p, functionSignature, data)
    else
      match p.parseFragment(functionSignature)
      case Failure(reason) => Failure(AbiFailure(reason))
      case Success(fragment) =>
        match p.decodeFunctionData(fragment, data)
        case Failure(reason) => Failure(AbiFailure(reason))
        case Success(decoded) =>
          ProcessDecodedKeepsArguments(p, fragment, decoded);
          Success(Decoded(functionSignature, ProcessDecoded(p, fragment, decoded)))
  }

  /** The two signatures the stub offers are exactly the ones `decodeData`
      hands to the packed decoders, in the stub's order: choosing one decodes
      the payload as a multisend of that format. */
  lemma StubSignaturesDecodeAsMultisend(p: Platform, multisendData: Value, data: string)
    requires multisendData == Text(data) && HexDigitsFrom(data, 2)
    ensures var offered := StubMultisend(multisendData).signatures.value;
      && |offered| == 2
      && DecodeData(p, offered[0], data) == DecodePacked(p, Packed, data)
      && DecodeData(p, offered[1], data) == DecodePacked(p, DEPRECATED, data)
  {
  }
}
