/** The result tree of a decode (`DecodedValue` and `Decoded`), the errors a
    decode can end in, the external collaborators the decoder calls, and the
    signature lookup `loadSignatures`. */
module DecodedTree {
  import opened Results
  import opened JsPrimitives

  /** The JavaScript values that appear in the `value` field of a node. */
  datatype Value =
    | Undefined
    | Bool(b: bool)           // a JavaScript boolean (an ABI `bool`)
    | Number(n: int)          // a JavaScript number (parseInt result, small ABI integers)
    | Text(s: string)         // a string: hex data, addresses, formatted amounts
    | Other(shown: string)    // any other object the ABI codec produces (a BigNumber, an array, ...)

  /** One node of the tree (`caption` is the source's `label`, a keyword in
      Dafny); `None` stands for a property that is absent or undefined. */
  datatype DecodedValue = DecodedValue(
    caption: Option<string>,
    value: Value,
    signatures: Option<seq<string>>,
    decoded: Option<Decoded>,
    canCollapse: Option<bool>)

  /** A labelled list of nodes: a decoded call or a synthetic section. */
  datatype Decoded = Decoded(caption: string, params: seq<DecodedValue>)

  /** Why a decode did not produce a tree (an exception or rejected promise in the source). */
  datatype Error =
    | LookupFailed(reason: string)        // the registry request was rejected
    | NotAString                          // `slice` called on a non-string value (a TypeError)
    | InvalidBigNumber                    // `BigNumber.from("0x")`: an empty value field
    | LengthNotANumber                    // `parseInt("", 16)`: an empty length field
    | AbiFailure(reason: string)          // fragment parsing or ABI decoding threw
    | UnknownSignature(signature: string) // `handleSpecialSignatures` default case

  /** One entry of the signature registry's response. */
  datatype SignatureRecord = SignatureRecord(id: nat, textSignature: string, hexSignature: string)

  /** A parsed function signature as the ABI codec sees it. */
  datatype Fragment = Fragment(name: string, inputTypes: seq<string>)

  /** The collaborators outside the decoder, as functions given to it: the
      registry query (keyed by the selector text), `FunctionFragment.fromString`,
      `decodeFunctionData`, `Interface.getSighash`, and the hex rendering of
      `BigNumber` that only depends on the number. */
  datatype Platform = Platform(
    lookup: string -> Result<seq<SignatureRecord>, string>,
    parseFragment: string -> Result<Fragment, string>,
    decodeFunctionData: (Fragment, string) -> Result<seq<Value>, string>,
    sighash: Fragment -> string,
    toHexString: nat -> string)

  const MULTISEND_SIGNATURES: seq<string> := ["Multisend", "Deprecated Multisend"]

  /** A node holding only a value. */
  function Leaf(v: Value): DecodedValue {
    DecodedValue(None, v, None, None, None)
  }

  /** A node holding a label and a value. */
  function Field(caption: string, v: Value): DecodedValue {
    DecodedValue(Some(caption), v, None, None, None)
  }

  /** JavaScript falsiness, for the values that can be falsy here. */
  predicate IsFalsy(v: Value) {
    v == Undefined || v == Bool(false) || v == Number(0) || v == Text("")
  }

  /** The registry's selector key for calldata `s`: its first ten characters. */
  function SelectorKey(s: string): (key: string)
    ensures |s| >= 10 ==> key == s[..10]
    ensures |s| < 10 ==> key == s
  {
    Slice(s, 0, 10)
  }

  /** `loadSignatures`: nothing is looked up for a falsy value; a non-empty
      string is looked up by its first ten characters and the text signatures
      of the registry's answer are returned in its order, or `None` when the
      answer is empty; a failed request fails; any other value fails the way
      `slice` on a non-string does. */
  function LoadSignatures(lookup: string -> Result<seq<SignatureRecord>, string>, data: Value): (r: Result<Option<seq<string>>, Error>)
    ensures IsFalsy(data) ==> r == Success(None)
    ensures data == Bool(true) || (data.Number? && data.n != 0) || data.Other? ==> r == Failure(NotAString)
    ensures data.Text? && data.s != "" ==>
      var answer := lookup(SelectorKey(data.s));
      && (r.Failure? <==> answer.Failure?)
      && (answer.Failure? ==> r.error == LookupFailed(answer.error))
      && (answer.Success? ==> (r.value.None? <==> |answer.value| == 0))
      && (answer.Success? && r.value.Some? ==>
            |r.value.value| == |answer.value|
            && forall k :: 0 <= k < |answer.value| ==> r.value.value[k] == answer.value[k].textSignature)
  {
    match data
    case Undefined => Success(None)
    case Bool(b) => if b then Failure(NotAString) else Success(None)
    case Number(n) => if n == 0 then Success(None) else Failure(NotAString)
    case Other(_) => Failure(NotAString)
    case Text(s) =>
      if s == "" then Success(None)
      else
        match lookup(SelectorKey(s))
        case Failure(reason) => Failure(LookupFailed(reason))
        case Success(results) =>
          if |results| == 0 then Success(None)
          else Success(Some(seq(|results|, k requires 0 <= k < |results| => results[k].textSignature)))
  }

  /** Only the selector matters: two calldata strings that agree on their
      first ten characters get the same answer. */
  lemma LoadSignaturesReadsOnlySelector(lookup: string -> Result<seq<SignatureRecord>, string>, s: string, t: string)
    requires |s| >= 10 && |t| >= 10 && s[..10] == t[..10]
    ensures LoadSignatures(lookup, Text(s)) == LoadSignatures(lookup, Text(t))
  {
    assert SelectorKey(s) == SelectorKey(t);
  }
}
