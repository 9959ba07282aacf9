/**
  Output scanning: `BlockchainSpider.check_script` and
  `BlockchainSpider.decode_op_return`. The SPOOL verb sits in an OP_RETURN
  output, whose script hex starts with `6a` (the opcode) followed by one
  push-length byte; the payload is the hex after those four characters.
*/
module Scanner {
  import opened SpoolTypes

  /** `hex.startswith('6a')`. */
  predicate IsOpReturn(hex: string) {
    |hex| >= 2 && hex[0] == '6' && hex[1] == 'a'
  }

  /** `hex[4:]`, which is empty when the script is shorter than four characters. */
  function PayloadHex(hex: string): (p: string)
    ensures |hex| >= 4 ==> hex == hex[..4] + p
    ensures |hex| <= 4 ==> p == []
  {
    if |hex| >= 4 then hex[4..] else []
  }

  /** The OP_RETURN script that carries `payload` after the push-length byte `pushLength`. */
  function OpReturnScript(pushLength: string, payload: string): (hex: string)
    requires |pushLength| == 2
    ensures |hex| == 4 + |payload|
  {
    "6a" + pushLength + payload
  }

  /** Scanning recovers exactly the payload that was written after the opcode and the push length. */
  lemma OpReturnRoundTrip(pushLength: string, payload: string)
    requires |pushLength| == 2
    ensures IsOpReturn(OpReturnScript(pushLength, payload))
    ensures PayloadHex(OpReturnScript(pushLength, payload)) == payload
  {
    var hex := OpReturnScript(pushLength, payload);
    assert hex[4..] == payload;
  }

  /** `decode_op_return`: the hex decoder applied to the payload hex. */
  function DecodeOpReturn(c: Codec, hex: string): (b: Option<Bytes>) {
    c.unhexlify(PayloadHex(hex))
  }

  /** What one pass of the loop of `check_script` makes of one output. */
  datatype Verdict =
    | NotData                   // not an OP_RETURN output: filtered out
    | Undecodable               // the hex decoder or the verb codec raises
    | Unsupported               // decodes to an action the codec does not support
    | Accepted(payload: Bytes)  // decodes to a supported action: returned

  function Examine(c: Codec, v: Vout): (d: Verdict)
    ensures d.NotData? <==> !IsOpReturn(v.hex)
    ensures d.Undecodable? <==>
      && IsOpReturn(v.hex)
      && (DecodeOpReturn(c, v.hex).None? || c.fromVerb(DecodeOpReturn(c, v.hex).value).None?)
    ensures d.Unsupported? <==>
      && IsOpReturn(v.hex)
      && DecodeOpReturn(c, v.hex).Some?
      && c.fromVerb(DecodeOpReturn(c, v.hex).value).Some?
      && c.fromVerb(DecodeOpReturn(c, v.hex).value).value.action !in c.supportedActions
    ensures d.Accepted? <==>
      && IsOpReturn(v.hex)
      && DecodeOpReturn(c, v.hex).Some?
      && c.fromVerb(DecodeOpReturn(c, v.hex).value).Some?
      && c.fromVerb(DecodeOpReturn(c, v.hex).value).value.action in c.supportedActions
    ensures d.Accepted? ==> DecodeOpReturn(c, v.hex) == Some(d.payload)
  {
    if !IsOpReturn(v.hex) then NotData
    else match DecodeOpReturn(c, v.hex)
      case None => Undecodable
      case Some(payload) =>
        match c.fromVerb(payload)
        case None => Undecodable
        case Some(verb) => if verb.action in c.supportedActions then Accepted(payload) else Unsupported
  }

  /** Outputs the scan goes past without returning or raising. */
  predicate PassedOver(d: Verdict) {
    d.NotData? || d.Unsupported?
  }

  /** Every output above position `i` is passed over. */
  ghost predicate PassedOverAbove(c: Codec, vouts: seq<Vout>, i: int) {
    forall j :: 0 <= j < |vouts| && i < j ==> PassedOver(Examine(c, vouts[j]))
  }

  /**
    The result of `check_script` on `vouts`: scanning from the last output
    towards the first, the first output that is not passed over decides.
  */
  function FirstSupported(c: Codec, vouts: seq<Vout>): (r: Result<Bytes, Error>)
    ensures r.Ok? ==> c.fromVerb(r.value).Some? && c.fromVerb(r.value).value.action in c.supportedActions
    ensures r.Err? ==> r.error == UnsupportedTransaction || r.error == DecodeFailed
    decreases |vouts|
  {
    if vouts == [] then Err(UnsupportedTransaction)
    else
      match Examine(c, vouts[|vouts| - 1])
      case NotData => FirstSupported(c, vouts[..|vouts| - 1])
      case Unsupported => FirstSupported(c, vouts[..|vouts| - 1])
      case Undecodable => Err(DecodeFailed)
      case Accepted(payload) => Ok(payload)
  }

  /** An output passed over at the end extends "passed over above `i`" from the other outputs to all of them. */
  lemma PassedOverExtend(c: Codec, vouts: seq<Vout>, i: int)
    requires vouts != []
    requires PassedOverAbove(c, vouts[..|vouts| - 1], i)
    requires PassedOver(Examine(c, vouts[|vouts| - 1]))
    ensures PassedOverAbove(c, vouts, i)
  {
    var init := vouts[..|vouts| - 1];
    forall j | 0 <= j < |vouts| && i < j ensures PassedOver(Examine(c, vouts[j])) {
      if j < |init| {
        assert init[j] == vouts[j];
      }
    }
  }

  /**
    When `check_script` returns a payload, it is the payload of an output that
    decodes to a supported action and every output above it is passed over.
  */
  lemma {:induction false} FirstSupportedAccepted(c: Codec, vouts: seq<Vout>)
    requires FirstSupported(c, vouts).Ok?
    ensures exists i ::
      && 0 <= i < |vouts|
      && Examine(c, vouts[i]) == Accepted(FirstSupported(c, vouts).value)
      && PassedOverAbove(c, vouts, i)
    decreases |vouts|
  {
    var n := |vouts| - 1;
    var init := vouts[..n];
    var payload := FirstSupported(c, vouts).value;
    if Examine(c, vouts[n]) == Accepted(payload) {
      assert PassedOverAbove(c, vouts, n);
    } else {
      assert PassedOver(Examine(c, vouts[n]));
      assert FirstSupported(c, init) == Ok(payload);
      FirstSupportedAccepted(c, init);
      var i :| 0 <= i < n && Examine(c, init[i]) == Accepted(payload) && PassedOverAbove(c, init, i);
      assert init[i] == vouts[i];
      PassedOverExtend(c, vouts, i);
    }
  }

  /** When `check_script` raises "Invalid ascribe transaction", every output was passed over. */
  lemma {:induction false} FirstSupportedRejectsAll(c: Codec, vouts: seq<Vout>)
    requires FirstSupported(c, vouts) == Err(UnsupportedTransaction)
    ensures PassedOverAbove(c, vouts, -1)
    decreases |vouts|
  {
    if vouts != [] {
      var n := |vouts| - 1;
      var init := vouts[..n];
      assert PassedOver(Examine(c, vouts[n]));
      assert FirstSupported(c, init) == Err(UnsupportedTransaction);
      FirstSupportedRejectsAll(c, init);
      PassedOverExtend(c, vouts, -1);
    }
  }

  /** When every output is passed over, `check_script` raises "Invalid ascribe transaction". */
  lemma {:induction false} FirstSupportedRejectsOnly(c: Codec, vouts: seq<Vout>)
    requires PassedOverAbove(c, vouts, -1)
    ensures FirstSupported(c, vouts) == Err(UnsupportedTransaction)
    decreases |vouts|
  {
    if vouts != [] {
      var n := |vouts| - 1;
      var init := vouts[..n];
      assert PassedOver(Examine(c, vouts[n]));
      forall j | 0 <= j < n && -1 < j ensures PassedOver(Examine(c, init[j])) {
        assert init[j] == vouts[j];
      }
      FirstSupportedRejectsOnly(c, init);
    }
  }

  /** `check_script` raises "Invalid ascribe transaction" exactly when every output is passed over. */
  lemma FirstSupportedRejects(c: Codec, vouts: seq<Vout>)
    ensures FirstSupported(c, vouts) == Err(UnsupportedTransaction) <==> PassedOverAbove(c, vouts, -1)
  {
    if FirstSupported(c, vouts) == Err(UnsupportedTransaction) {
      FirstSupportedRejectsAll(c, vouts);
    }
    if PassedOverAbove(c, vouts, -1) {
      FirstSupportedRejectsOnly(c, vouts);
    }
  }

  /**
    `check_script` lets a decoding failure through only from an output that
    fails to decode while every output above it is passed over.
  */
  lemma {:induction false} FirstSupportedUndecodable(c: Codec, vouts: seq<Vout>)
    requires FirstSupported(c, vouts) == Err(DecodeFailed)
    ensures exists i :: 0 <= i < |vouts| && Examine(c, vouts[i]) == Undecodable && PassedOverAbove(c, vouts, i)
    decreases |vouts|
  {
    var n := |vouts| - 1;
    var init := vouts[..n];
    if Examine(c, vouts[n]) == Undecodable {
      assert PassedOverAbove(c, vouts, n);
    } else {
      assert PassedOver(Examine(c, vouts[n]));
      assert FirstSupported(c, init) == Err(DecodeFailed);
      FirstSupportedUndecodable(c, init);
      var i :| 0 <= i < n && Examine(c, init[i]) == Undecodable && PassedOverAbove(c, init, i);
      assert init[i] == vouts[i];
      PassedOverExtend(c, vouts, i);
    }
  }

  /** Scanning down to output `i` first examines output `i`, then what lies below it. */
  lemma FirstSupportedStep(c: Codec, vouts: seq<Vout>, i: int)
    requires 0 <= i < |vouts|
    ensures FirstSupported(c, vouts[..i + 1]) ==
      match Examine(c, vouts[i])
      case NotData => FirstSupported(c, vouts[..i])
      case Unsupported => FirstSupported(c, vouts[..i])
      case Undecodable => Err(DecodeFailed)
      case Accepted(payload) => Ok(payload)
  {
    var scanned := vouts[..i + 1];
    assert scanned[..i] == vouts[..i] && scanned[i] == vouts[i];
  }

  /** `check_script`: the loop over the OP_RETURN outputs in reverse order, with its early return. */
  method CheckScript(c: Codec, vouts: seq<Vout>) returns (r: Result<Bytes, Error>)
    ensures r == FirstSupported(c, vouts)
  {
    var i := |vouts|;
    assert vouts[..i] == vouts;
    while i > 0
      invariant 0 <= i <= |vouts|
      invariant FirstSupported(c, vouts) == FirstSupported(c, vouts[..i])
    {
      i := i - 1;
      var vout := vouts[i];
      FirstSupportedStep(c, vouts, i);
      if IsOpReturn(vout.hex) {
        var verb := DecodeOpReturn(c, vout.hex);
        if verb.None? {
          assert Examine(c, vout) == Undecodable;
          return Err(DecodeFailed);
        }
        var decoded := c.fromVerb(verb.value);
        if decoded.None? {
          assert Examine(c, vout) == Undecodable;
          return Err(DecodeFailed);
        }
        if decoded.value.action in c.supportedActions {
          assert Examine(c, vout) == Accepted(verb.value);
          return Ok(verb.value);
        }
        assert Examine(c, vout) == Unsupported;
      } else {
        assert Examine(c, vout) == NotData;
      }
    }
    assert vouts[..0] == [];
    r := Err(UnsupportedTransaction);
  }
}
