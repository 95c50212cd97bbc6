// The extraction pipeline of backend/services/pdfExtractor.js: trim the
// model's reply, repair and parse it, then map every element of
// data.transactions to a record whose amount and balance go through
// safeParseFloat, keep only records with an amount and a type of exactly
// "Credit" or "Debit" (in their original order), and wrap the outcome in the
// { success, count, transactions } / { success: false, error } envelope.
module TransactionFilter {
  import opened Wrappers
  import opened Decimals
  import opened JsValues
  import opened AmountParsing

  /** The record the map callback builds: date, description and type as read, amount and balance normalised. */
  datatype Transaction = Transaction(
    date: JsValue,
    description: JsValue,
    amount: Option<Decimal>,
    balance: Option<Decimal>,
    txnType: JsValue)

  /** The message thrown when jsonrepair or JSON.parse fails on the reply. */
  const RepairFailedMessage := "Failed to extract valid JSON structure from LLM output."

  /**
   * The callback succeeds on txn: it is an object-like value, and String()
   * does not throw on its amount or balance.
   */
  predicate Normalizable(txn: JsValue)
  {
    !IsNullish(txn) && Printable(Get(txn, "amount")) && Printable(Get(txn, "balance"))
  }

  /** What the callback throws on an element it fails on. */
  function NormalizeError(txn: JsValue): string
  {
    if IsNullish(txn) then PropertyReadError(txn, "date") else ToPrimitiveError
  }

  /**
   * The map callback for one element: reading txn.date throws when the
   * element is null or undefined, and safeParseFloat throws when String()
   * does on the amount or the balance; otherwise the record is built from
   * the lower-case keys date, description, amount, balance and type.
   */
  function Normalize(txn: JsValue): (r: Result<Transaction, string>)
    ensures r.Ok? <==> Normalizable(txn)
    ensures r.Err? ==> r.error == NormalizeError(txn)
    ensures r.Ok? ==> r.value.date == Get(txn, "date") && r.value.description == Get(txn, "description")
                      && r.value.txnType == Get(txn, "type")
                      && Ok(r.value.amount) == SafeParseFloat(Get(txn, "amount"))
                      && Ok(r.value.balance) == SafeParseFloat(Get(txn, "balance"))
  {
    SafeParseFloatSpec(Get(txn, "amount"));
    SafeParseFloatSpec(Get(txn, "balance"));
    if IsNullish(txn) then Err(PropertyReadError(txn, "date"))
    else
      match SafeParseFloat(Get(txn, "amount"))
      case Err(e) => Err(e)
      case Ok(amount) =>
        match SafeParseFloat(Get(txn, "balance"))
        case Err(e) => Err(e)
        case Ok(balance) =>
          Ok(Transaction(Get(txn, "date"), Get(txn, "description"), amount, balance, Get(txn, "type")))
  }

  /** The index of the first element the callback fails on, if any. */
  function FirstFailing(raws: seq<JsValue>): (r: Option<nat>)
    ensures r.Some? ==> (r.value < |raws| && !Normalizable(raws[r.value])
                         && forall k :: 0 <= k < r.value ==> Normalizable(raws[k]))
    ensures r.None? ==> forall k :: 0 <= k < |raws| ==> Normalizable(raws[k])
  {
    if raws == [] then None
    else if !Normalizable(raws[0]) then Some(0)
    else match FirstFailing(raws[1..])
      case None => None
      case Some(i) => Some(i + 1)
  }

  /** The first failing element is the one before which every element succeeds. */
  lemma {:induction false} FirstFailingAt(raws: seq<JsValue>, i: nat)
    requires i < |raws| && !Normalizable(raws[i])
    requires forall k :: 0 <= k < i ==> Normalizable(raws[k])
    ensures FirstFailing(raws) == Some(i)
  {
    if i > 0 {
      assert forall k :: 0 <= k < i - 1 ==> raws[1..][k] == raws[k + 1];
      FirstFailingAt(raws[1..], i - 1);
    }
  }

  /**
   * rawTransactions.map(...): one record per element, in order; the first
   * element the callback fails on makes the whole map throw its error.
   */
  function NormalizeAll(raws: seq<JsValue>): (r: Result<seq<Transaction>, string>)
    ensures r.Ok? <==> FirstFailing(raws).None?
    ensures r.Ok? ==> (|r.value| == |raws|
                       && forall i :: 0 <= i < |raws| ==> Normalize(raws[i]) == Ok(r.value[i]))
    ensures r.Err? ==> r.error == NormalizeError(raws[FirstFailing(raws).value])
  {
    var r := MapAll(raws, Normalize);
    if r.Err? then
      ghost var i :| 0 <= i < |raws| && Normalize(raws[i]) == Err(r.error)
                     && forall k :: 0 <= k < i ==> Normalize(raws[k]).Ok?;
      FirstFailingAt(raws, i);
      r
    else r
  }

  /** The filter's test: an amount was read and the type is exactly "Credit" or "Debit". */
  predicate IsKept(t: Transaction)
  {
    t.amount.Some? && (t.txnType == Str("Credit") || t.txnType == Str("Debit"))
  }

  /** .filter(txn => txn.amount !== null && ['Credit', 'Debit'].includes(txn.type)) */
  function KeepValid(ts: seq<Transaction>): (r: seq<Transaction>)
    ensures |r| <= |ts|
    ensures forall k :: 0 <= k < |r| ==> IsKept(r[k])
    ensures forall i :: 0 <= i < |ts| && IsKept(ts[i]) ==> ts[i] in r
  {
    if ts == [] then []
    else (if IsKept(ts[0]) then [ts[0]] else []) + KeepValid(ts[1..])
  }

  /** Every position moved one place to the right. */
  function Shift(idx: seq<nat>): (r: seq<nat>)
    ensures |r| == |idx|
    ensures forall k :: 0 <= k < |idx| ==> r[k] == idx[k] + 1
  {
    seq(|idx|, k requires 0 <= k < |idx| => idx[k] + 1)
  }

  /** The positions of the records the filter keeps, in increasing order. */
  function KeptIndices(ts: seq<Transaction>): (idx: seq<nat>)
    ensures forall k :: 0 <= k < |idx| ==> idx[k] < |ts| && IsKept(ts[idx[k]])
    ensures Increasing(idx)
    ensures forall i :: 0 <= i < |ts| && IsKept(ts[i]) ==> i in idx
  {
    if ts == [] then []
    else
      var rest := KeptIndices(ts[1..]);
      KeptIndicesStep(ts, rest);
      (if IsKept(ts[0]) then [0] else []) + Shift(rest)
  }

  /** One step of KeptIndices: the kept positions of ts[1..], shifted, behind position 0 when it is kept. */
  lemma KeptIndicesStep(ts: seq<Transaction>, rest: seq<nat>)
    requires ts != []
    requires forall k :: 0 <= k < |rest| ==> rest[k] < |ts| - 1 && IsKept(ts[1..][rest[k]])
    requires Increasing(rest)
    requires forall i :: 0 <= i < |ts| - 1 && IsKept(ts[1..][i]) ==> i in rest
    ensures var idx := (if IsKept(ts[0]) then [0] else []) + Shift(rest);
      && (forall k :: 0 <= k < |idx| ==> idx[k] < |ts| && IsKept(ts[idx[k]]))
      && Increasing(idx)
      && (forall i :: 0 <= i < |ts| && IsKept(ts[i]) ==> i in idx)
  {
    ShiftedKeptIndices(ts, rest);
    var head: seq<nat> := if IsKept(ts[0]) then [0] else [];
    PrependIncreasing(head, Shift(rest));
    PrependKept(ts, head, Shift(rest));
  }

  lemma PrependKept(ts: seq<Transaction>, head: seq<nat>, tail: seq<nat>)
    requires ts != [] && head == (if IsKept(ts[0]) then [0] else [])
    requires forall k :: 0 <= k < |tail| ==> tail[k] < |ts| && IsKept(ts[tail[k]])
    requires forall i :: 1 <= i < |ts| && IsKept(ts[i]) ==> i in tail
    ensures forall k :: 0 <= k < |head + tail| ==> (head + tail)[k] < |ts| && IsKept(ts[(head + tail)[k]])
    ensures forall i :: 0 <= i < |ts| && IsKept(ts[i]) ==> i in head + tail
  {
    var idx := head + tail;
    forall k | 0 <= k < |idx| ensures idx[k] < |ts| && IsKept(ts[idx[k]]) {
      if k >= |head| { assert idx[k] == tail[k - |head|]; }
    }
    forall i | 0 <= i < |ts| && IsKept(ts[i]) ensures i in idx {
      if i > 0 { assert i in tail; } else { assert idx[0] == 0; }
    }
  }

  predicate Increasing(idx: seq<nat>)
  {
    forall k, l :: 0 <= k < l < |idx| ==> idx[k] < idx[l]
  }

  lemma PrependIncreasing(head: seq<nat>, tail: seq<nat>)
    requires head == [] || head == [0]
    requires Increasing(tail) && forall k :: 0 <= k < |tail| ==> tail[k] >= 1
    ensures Increasing(head + tail)
  {
    var all := head + tail;
    forall k, l | 0 <= k < l < |all| ensures all[k] < all[l] {
      if head == [0] {
        assert all[l] == tail[l - 1];
        if k > 0 { assert all[k] == tail[k - 1]; }
      } else {
        assert all == tail;
      }
    }
  }

  lemma ShiftedKeptIndices(ts: seq<Transaction>, rest: seq<nat>)
    requires ts != []
    requires forall k :: 0 <= k < |rest| ==> rest[k] < |ts| - 1 && IsKept(ts[1..][rest[k]])
    requires forall i :: 0 <= i < |ts| - 1 && IsKept(ts[1..][i]) ==> i in rest
    ensures forall k :: 0 <= k < |rest| ==> Shift(rest)[k] < |ts| && IsKept(ts[Shift(rest)[k]])
    ensures forall i :: 1 <= i < |ts| && IsKept(ts[i]) ==> i in Shift(rest)
    ensures Increasing(rest) ==> Increasing(Shift(rest))
  {
    var shifted := Shift(rest);
    forall k | 0 <= k < |rest| ensures IsKept(ts[shifted[k]]) {
      assert ts[1..][rest[k]] == ts[shifted[k]];
    }
    forall i | 1 <= i < |ts| && IsKept(ts[i]) ensures i in shifted {
      assert ts[1..][i - 1] == ts[i];
      var k :| 0 <= k < |rest| && rest[k] == i - 1;
      assert shifted[k] == i;
    }
  }

  /**
   * The filter's output is exactly the kept records, taken at their
   * positions in increasing order: an order-preserving subsequence holding
   * every record that passes and no other.
   */
  lemma {:induction false} KeepValidIsKeptSubsequence(ts: seq<Transaction>)
    ensures |KeepValid(ts)| == |KeptIndices(ts)|
    ensures forall k :: 0 <= k < |KeptIndices(ts)| ==> KeepValid(ts)[k] == ts[KeptIndices(ts)[k]]
  {
    if ts != [] {
      KeepValidIsKeptSubsequence(ts[1..]);
      var kept := IsKept(ts[0]);
      SelectedStep(ts, if kept then [ts[0]] else [], if kept then [0] else [],
                   KeepValid(ts[1..]), KeptIndices(ts[1..]));
    }
  }

  lemma SelectedStep(ts: seq<Transaction>, head: seq<Transaction>, headIdx: seq<nat>,
                     tail: seq<Transaction>, rest: seq<nat>)
    requires ts != []
    requires (head == [ts[0]] && headIdx == [0]) || (head == [] && headIdx == [])
    requires |tail| == |rest|
    requires forall k :: 0 <= k < |rest| ==> rest[k] < |ts| - 1 && tail[k] == ts[1..][rest[k]]
    ensures |head + tail| == |headIdx + Shift(rest)|
    ensures forall k :: 0 <= k < |head + tail| ==>
      (headIdx + Shift(rest))[k] < |ts| && (head + tail)[k] == ts[(headIdx + Shift(rest))[k]]
  {
    var out, idx := head + tail, headIdx + Shift(rest);
    forall k | 0 <= k < |out| ensures idx[k] < |ts| && out[k] == ts[idx[k]] {
      if k >= |head| {
        var j := k - |head|;
        assert out[k] == tail[j] && idx[k] == rest[j] + 1;
        assert ts[1..][rest[j]] == ts[rest[j] + 1];
      }
    }
  }

  /** Filtering works record by record: a dropped record leaves the rest of the batch as it was. */
  lemma {:induction false} KeepValidConcat(a: seq<Transaction>, b: seq<Transaction>)
    ensures KeepValid(a + b) == KeepValid(a) + KeepValid(b)
  {
    if a == [] {
      assert a + b == b;
    } else {
      assert (a + b)[1..] == a[1..] + b;
      KeepValidConcat(a[1..], b);
    }
  }

  /**
   * extractTransactionsFromText of the backend variant, with the chat call's
   * outcome, jsonrepair and JSON.parse as parameters. A reply without
   * content fails when it is logged (raw.substring on undefined).
   */
  function ExtractBackend(completion: Completion, repair: string -> Option<string>,
                          parse: string -> Option<JsValue>): ExtractionResult<Transaction>
  {
    match completion
    case CallFailed(message) => Failed(message)
    case Reply(None) => Failed(PropertyReadError(Undefined, "substring"))
    case Reply(Some(content)) =>
      match repair(Trim(content))
      case None => Failed(RepairFailedMessage)
      case Some(repaired) =>
        match parse(repaired)
        case None => Failed(RepairFailedMessage)
        case Some(data) =>
          match NormalizeAll(RawTransactions(data))
          case Err(e) => Failed(e)
          case Ok(ts) =>
            var kept := KeepValid(ts);
            Succeeded(|kept|, kept)
  }

  /**
   * What a successful backend extraction promises: count is the number of
   * records returned, every record has an amount and a type of exactly
   * "Credit" or "Debit", and the records are the kept normalisations of
   * data.transactions in their original order. It succeeds exactly when the
   * callback fails on no element of the parsed array, and otherwise fails
   * with the error of the first element it fails on.
   */
  lemma ExtractBackendSpec(content: string, repair: string -> Option<string>,
                           parse: string -> Option<JsValue>, repaired: string, data: JsValue)
    requires repair(Trim(content)) == Some(repaired) && parse(repaired) == Some(data)
    ensures var r := ExtractBackend(Reply(Some(content)), repair, parse);
      && (r.Succeeded? <==> FirstFailing(RawTransactions(data)).None?)
      && (r.Succeeded? ==>
            && r.count == |r.transactions| <= |RawTransactions(data)|
            && (forall k :: 0 <= k < r.count ==> IsKept(r.transactions[k]))
            && var ts := NormalizeAll(RawTransactions(data)).value;
               |r.transactions| == |KeptIndices(ts)|
               && forall k :: 0 <= k < r.count ==> r.transactions[k] == ts[KeptIndices(ts)[k]])
      && (r.Failed? ==> r.error == NormalizeError(RawTransactions(data)[FirstFailing(RawTransactions(data)).value]))
  {
    var raws := RawTransactions(data);
    if FirstFailing(raws).None? {
      KeepValidIsKeptSubsequence(NormalizeAll(raws).value);
    }
  }

  /**
   * A record whose keys are capitalised as the prompt's schema asks
   * ("Amount", "Type") reads amount and type as undefined and is dropped.
   */
  lemma CapitalisedKeysDropped(fields: map<string, JsValue>)
    requires "amount" !in fields || "type" !in fields
    ensures Normalize(Obj(fields)).Ok? ==> !IsKept(Normalize(Obj(fields)).value)
    ensures (("amount" !in fields || Printable(fields["amount"]))
             && ("balance" !in fields || Printable(fields["balance"]))) ==> Normalize(Obj(fields)).Ok?
  {
  }

  /** A type other than exactly "Credit" or "Debit" ("credit", "Transfer") is dropped. */
  lemma OtherTypesDropped(fields: map<string, JsValue>, kind: string)
    requires "type" in fields && fields["type"] == Str(kind)
    requires kind != "Credit" && kind != "Debit"
    ensures Normalize(Obj(fields)).Ok? ==> !IsKept(Normalize(Obj(fields)).value)
  {
  }

  /**
   * An amount parsed from {"toString": ...} does not drop the record: the
   * callback throws, and with it the whole extraction.
   */
  lemma ToStringAmountThrows(fields: map<string, JsValue>, amount: map<string, JsValue>)
    requires "amount" in fields && fields["amount"] == Obj(amount) && "toString" in amount
    ensures Normalize(Obj(fields)) == Err(ToPrimitiveError)
  {
  }

  /** A missing transactions array, or data that is not an object, gives success with no records. */
  lemma MissingTransactionsIsEmpty(content: string, repair: string -> Option<string>,
                                   parse: string -> Option<JsValue>, repaired: string, data: JsValue)
    requires repair(Trim(content)) == Some(repaired) && parse(repaired) == Some(data)
    requires !GetOptional(data, "transactions").Arr?
    ensures ExtractBackend(Reply(Some(content)), repair, parse) == Succeeded(0, [])
  {
  }

  /**
   * The failures of the backend extractor: the chat call's own error; the
   * TypeError of raw.substring when the reply has no content; the fixed
   * repair message exactly when jsonrepair or JSON.parse throws; and
   * otherwise the error of the first record the map callback fails on.
   */
  lemma ExtractBackendErrors(completion: Completion, repair: string -> Option<string>,
                             parse: string -> Option<JsValue>)
    ensures var r := ExtractBackend(completion, repair, parse);
      && (completion.CallFailed? ==> r == Failed(completion.message))
      && (completion == Reply(None) ==> r == Failed(PropertyReadError(Undefined, "substring")))
      && (completion.Reply? && completion.content.Some? ==>
            var text := Trim(completion.content.value);
            && (r == Failed(RepairFailedMessage)
                <==> (repair(text).None? || parse(repair(text).value).None?))
            && (r.Failed? && repair(text).Some? && parse(repair(text).value).Some? ==>
                  var raws := RawTransactions(parse(repair(text).value).value);
                  FirstFailing(raws).Some? && r.error == NormalizeError(raws[FirstFailing(raws).value])))
  {
    if completion.Reply? && completion.content.Some? {
      var text := Trim(completion.content.value);
      if repair(text).Some? && parse(repair(text).value).Some? {
        var raws := RawTransactions(parse(repair(text).value).value);
        if FirstFailing(raws).Some? {
          NotRepairMessage(raws[FirstFailing(raws).value]);
        }
      }
    }
  }

  /** No record's error reads like the repair failure. */
  lemma NotRepairMessage(txn: JsValue)
    ensures NormalizeError(txn) != RepairFailedMessage
  {
    assert |NormalizeError(txn)| != |RepairFailedMessage|;
  }
}
