/**
 Matching the responses of a JSON-RPC batch to its requests (section 6, "Batch", of the JSON-RPC
 2.0 specification): the responses arrive in any order and are handed back in request order.
 */
module JsonRpcBatch {
  import opened Common

  type Id = nat

  const MAX_ID: Id := 0xFFFF_FFFF_FFFF_FFFF

  datatype Json = Null | Other(text: string)

  datatype Response = Response(id: Id, result: Json, error: Json)

  datatype Transport = Failed | Single(single: Response) | Batch(batch: seq<Response>)

  datatype RpcError =
    | InvalidRequest | TransportFailed | NotABatch | WrongCount | MissingId(id: Id) | RemoteError(json: Json)
    | Undecodable

  type Decoder<!T> = Json -> Option<T>

  // ---------- specification ----------

  ghost predicate Distinct(ids: seq<Id>) {
    forall i, j :: 0 <= i < j < |ids| ==> ids[i] != ids[j]
  }

  ghost function Ids(responses: seq<Response>): set<Id> {
    set i | 0 <= i < |responses| :: responses[i].id
  }

  ghost function IdSet(ids: seq<Id>): set<Id> {
    set i | 0 <= i < |ids| :: ids[i]
  }

  /** No later response has the same id. */
  ghost predicate IsLast(responses: seq<Response>, i: nat)
    requires i < |responses|
  {
    forall j :: i < j < |responses| ==> responses[j].id != responses[i].id
  }

  /** The last response that carries `id`. */
  ghost function Answer(responses: seq<Response>, id: Id): (r: Option<Response>)
    ensures r.Some? <==> id in Ids(responses)
    ensures r.Some? ==> r.value.id == id && r.value in responses
  {
    if responses == [] then None
    else
      var last := responses[|responses| - 1];
      if last.id == id then Some(last)
      else
        assert forall k :: k in Ids(responses) <==> k in Ids(responses[..|responses| - 1]) || k == last.id;
        Answer(responses[..|responses| - 1], id)
  }

  /** Of several responses with one id the last one counts. */
  lemma {:induction false} AnswerIsLast(responses: seq<Response>, i: nat)
    requires i < |responses| && IsLast(responses, i)
    ensures Answer(responses, responses[i].id) == Some(responses[i])
  {
    var last := |responses| - 1;
    if i < last {
      assert IsLast(responses[..last], i);
      AnswerIsLast(responses[..last], i);
    }
  }

  function ProcessSingle<T>(response: Response, decode: Decoder<T>): Result<T, RpcError> {
    if !response.error.Null? then Err(RemoteError(response.error))
    else
      match decode(response.result)
      case Some(value) => Ok(value)
      case None => Err(Undecodable)
  }

  /** An error in a response wins over its result; without one the result must decode. */
  lemma SingleIs<T>(response: Response, decode: Decoder<T>)
    ensures forall value: T :: ProcessSingle(response, decode) == Ok(value) <==>
              response.error == Null && decode(response.result) == Some(value)
    ensures forall e: Json :: ProcessSingle(response, decode) == Err(RemoteError(e)) <==>
        response.error == e && e != Null
    ensures ProcessSingle(response, decode) == Err(Undecodable) <==>
        response.error == Null && decode(response.result).None?
  {
  }

  /** Every request has an answer that decodes, and nothing else was answered. */
  ghost predicate FullyAnswered<T>(ids: seq<Id>, responses: seq<Response>, decode: Decoder<T>) {
    && Distinct(ids)
    && IdSet(ids) == Ids(responses)
    && forall i :: 0 <= i < |ids| ==>
         Answer(responses, ids[i]).Some? && ProcessSingle(Answer(responses, ids[i]).value, decode).Ok?
  }

  ghost predicate InRequestOrder<T>(ids: seq<Id>, responses: seq<Response>, decode: Decoder<T>, values: seq<T>) {
    && |values| == |ids|
    && forall i :: 0 <= i < |ids| ==>
         Answer(responses, ids[i]).Some? && ProcessSingle(Answer(responses, ids[i]).value, decode) == Ok(values[i])
  }

  /** The last response of each id. */
  ghost function ById(responses: seq<Response>): map<Id, Response> {
    map id | id in Ids(responses) :: Answer(responses, id).value
  }

  /**
   What taking the answers in request order comes to: the values, or the error of the first request without an answer
   that decodes.
   */
  ghost function TakeOutcome<T>(byId: map<Id, Response>, ids: seq<Id>, decode: Decoder<T>): Result<seq<T>, RpcError> {
    if ids == [] then Ok([])
    else
      var init, id := ids[..|ids| - 1], ids[|ids| - 1];
      match TakeOutcome(byId, init, decode)
      case Err(e) => Err(e)
      case Ok(values) =>
        if id !in byId || id in IdSet(init) then Err(MissingId(id))
        else
          match ProcessSingle(byId[id], decode)
          case Err(e) => Err(e)
          case Ok(value) => Ok(values + [value])
  }

  /** Values or error of a batch that was answered. */
  ghost function BatchOutcome<T>(ids: seq<Id>, responses: seq<Response>, decode: Decoder<T>): Result<seq<T>, RpcError> {
    if |ById(responses)| != |ids| then Err(WrongCount) else TakeOutcome(ById(responses), ids, decode)
  }

  /** The request at `i` is the first one that fails, with the error. */
  ghost predicate FailsAt<T>(byId: map<Id, Response>, ids: seq<Id>, decode: Decoder<T>, i: nat, error: RpcError) {
    && i < |ids|
    && (forall j :: 0 <= j < i ==> ids[j] in byId && byId[ids[j]].error == Null && decode(byId[ids[j]].result).Some?)
    && if ids[i] !in byId || exists j :: 0 <= j < i && ids[j] == ids[i] then error == MissingId(ids[i])
       else if byId[ids[i]].error != Null then error == RemoteError(byId[ids[i]].error)
       else decode(byId[ids[i]].result).None? && error == Undecodable
  }

  /** A failed batch reports what is wrong with the first request that fails. */
  lemma {:induction false} ErrorIsOfFirstFailure<T>(byId: map<Id, Response>, ids: seq<Id>, decode: Decoder<T>)
    requires TakeOutcome(byId, ids, decode).Err?
    ensures exists i: nat :: FailsAt(byId, ids, decode, i, TakeOutcome(byId, ids, decode).error)
  {
    var last := |ids| - 1;
    var init := ids[..last];
    assert forall j :: 0 <= j < last ==> init[j] == ids[j];
    if TakeOutcome(byId, init, decode).Err? {
      ErrorIsOfFirstFailure(byId, init, decode);
      var i: nat :| FailsAt(byId, init, decode, i, TakeOutcome(byId, init, decode).error);
      assert FailsAt(byId, ids, decode, i, TakeOutcome(byId, ids, decode).error);
    } else {
      TakeOutcomeIff(byId, init, decode);
      assert ids[last] in IdSet(init) <==> exists j :: 0 <= j < last && ids[j] == ids[last];
      assert FailsAt(byId, ids, decode, last, TakeOutcome(byId, ids, decode).error);
    }
  }

  /**
   A batch with as many different response ids as requests has its answers taken, any other is refused for its size.
   */
  lemma WrongCountIff<T>(ids: seq<Id>, responses: seq<Response>, decode: Decoder<T>)
    ensures BatchOutcome(ids, responses, decode) == Err(WrongCount) <==> |Ids(responses)| != |ids|
  {
    assert ById(responses).Keys == Ids(responses);
    assert |ById(responses)| == |ById(responses).Keys|;
    if TakeOutcome(ById(responses), ids, decode).Err? {
      ErrorIsOfFirstFailure(ById(responses), ids, decode);
    }
  }

  /** An error is final. */
  lemma {:induction false} ErrorStays<T>(byId: map<Id, Response>, ids: seq<Id>, decode: Decoder<T>, k: nat)
    requires k <= |ids| && TakeOutcome(byId, ids[..k], decode).Err?
    ensures TakeOutcome(byId, ids, decode) == TakeOutcome(byId, ids[..k], decode)
  {
    if k == |ids| {
      assert ids[..k] == ids;
    } else {
      assert ids[..|ids| - 1][..k] == ids[..k];
      ErrorStays(byId, ids[..|ids| - 1], decode, k);
    }
  }

  // ---------- the matcher ----------

  method CollectById(responses: seq<Response>) returns (byId: map<Id, Response>)
    ensures byId == ById(responses)
    ensures byId.Keys == Ids(responses)
    ensures forall id :: id in byId ==> Answer(responses, id) == Some(byId[id])
  {
    byId := map[];
    for i := 0 to |responses|
      invariant byId.Keys == Ids(responses[..i])
      invariant forall id :: id in byId ==> Answer(responses[..i], id) == Some(byId[id])
    {
      assert responses[..i + 1][..i] == responses[..i];
      byId := byId[responses[i].id := responses[i]];
    }
    assert responses[..|responses|] == responses;
  }

  /** It succeeds for distinct ids that are all answered decodably, and the values are in request order. */
  lemma {:induction false} TakeOutcomeIff<T>(byId: map<Id, Response>, ids: seq<Id>, decode: Decoder<T>)
    ensures var r := TakeOutcome(byId, ids, decode);
            && (r.Ok? <==> Distinct(ids)
                           && forall i :: 0 <= i < |ids| ==> ids[i] in byId && ProcessSingle(byId[ids[i]], decode).Ok?)
            && (r.Ok? ==>
                  && |r.value| == |ids|
                  && forall i :: 0 <= i < |ids| ==> ProcessSingle(byId[ids[i]], decode) == Ok(r.value[i]))
  {
    if ids != [] {
      var init, id := ids[..|ids| - 1], ids[|ids| - 1];
      TakeOutcomeIff(byId, init, decode);
      assert Distinct(ids) <==> Distinct(init) && id !in IdSet(init);
      assert forall i :: 0 <= i < |init| ==> init[i] == ids[i];
    }
  }

  /** Removes the answers in request order, so a repeated request id misses its second answer. */
  method TakeInOrder<T>(byId: map<Id, Response>, ids: seq<Id>, decode: Decoder<T>) returns (r: Result<seq<T>, RpcError>)
    ensures r == TakeOutcome(byId, ids, decode)
  {
    var rest := byId;
    var values: seq<T> := [];
    for i := 0 to |ids|
      invariant rest == byId - IdSet(ids[..i])
      invariant TakeOutcome(byId, ids[..i], decode) == Ok(values)
    {
      var id := ids[i];
      assert ids[..i + 1][..i] == ids[..i];
      assert IdSet(ids[..i + 1]) == IdSet(ids[..i]) + {id};
      if id !in rest {
        ErrorStays(byId, ids, decode, i + 1);
        return Err(MissingId(id));
      }
      var single := rest[id];
      rest := rest - {id};
      var value := ProcessSingle(single, decode);
      if value.Err? {
        ErrorStays(byId, ids, decode, i + 1);
        return Err(value.error);
      }
      values := values + [value.value];
    }
    assert ids[..|ids|] == ids;
    r := Ok(values);
  }

  method ProcessTransportBatchResult<T>(transport: Transport, ids: seq<Id>, decode: Decoder<T>)
    returns (r: Result<seq<T>, RpcError>)
    ensures r == match transport
                 case Failed => Err(TransportFailed)
                 case Single(_) => Err(NotABatch)
                 case Batch(responses) => BatchOutcome(ids, responses, decode)
    ensures r.Ok? <==> transport.Batch? && FullyAnswered(ids, transport.batch, decode)
    ensures r.Ok? ==> InRequestOrder(ids, transport.batch, decode, r.value)
  {
    match transport {
      case Failed => return Err(TransportFailed);
      case Single(_) => return Err(NotABatch);
      case Batch(_) =>
    }
    var responses := transport.batch;
    var byId := CollectById(responses);
    DistinctSize(ids);
    if |byId| != |ids| {
      assert |byId| == |Ids(responses)|;
      return Err(WrongCount);
    }
    r := TakeInOrder(byId, ids, decode);
    TakeOutcomeIff(byId, ids, decode);
    if Distinct(ids) && IdSet(ids) <= byId.Keys {
      SameSizeSubset(IdSet(ids), byId.Keys);
    }
    assert forall i :: 0 <= i < |ids| ==> ids[i] in IdSet(ids);
  }

  /** The counting argument: equally many distinct ids on both sides leave no response without a request. */
  lemma SameSizeSubset(a: set<Id>, b: set<Id>)
    requires a <= b && |a| == |b|
    ensures a == b
  {
    assert b == a + (b - a);
  }

  lemma {:induction false} DistinctSize(ids: seq<Id>)
    ensures Distinct(ids) ==> |IdSet(ids)| == |ids|
  {
    if ids != [] {
      var init, last := ids[..|ids| - 1], ids[|ids| - 1];
      DistinctSize(init);
      assert IdSet(ids) == IdSet(init) + {last};
    }
  }

  /** The whole call: an empty batch is answered without a request, one with repeated ids is not sent. */
  method BatchRpc<T>(ids: seq<Id>, transport: Transport, decode: Decoder<T>) returns (r: Result<seq<T>, RpcError>)
    ensures ids == [] ==> r == Ok([])
    ensures ids != [] ==> (r.Ok? <==> transport.Batch? && FullyAnswered(ids, transport.batch, decode))
    ensures r.Ok? && ids != [] ==> InRequestOrder(ids, transport.batch, decode, r.value)
    ensures !Distinct(ids) ==> r == Err(InvalidRequest)
    ensures ids != [] && Distinct(ids) && transport.Batch? ==> r == BatchOutcome(ids, transport.batch, decode)
  {
    if ids == [] {
      return Ok([]);
    }
    var unique := AllUnique(ids);
    if !unique {
      return Err(InvalidRequest);
    }
    r := ProcessTransportBatchResult(transport, ids, decode);
  }

  method AllUnique(ids: seq<Id>) returns (unique: bool)
    ensures unique <==> Distinct(ids)
  {
    var seen: set<Id> := {};
    for i := 0 to |ids|
      invariant seen == IdSet(ids[..i])
      invariant Distinct(ids[..i])
    {
      if ids[i] in seen {
        return false;
      }
      seen := seen + {ids[i]};
    }
    unique := true;
  }

  // ---------- consequences ----------

  lemma {:induction false} AnswerIsUnique(responses: seq<Response>, r: Response)
    requires r in responses
    requires forall i, j :: 0 <= i < j < |responses| ==> responses[i].id != responses[j].id
    ensures Answer(responses, r.id) == Some(r)
  {
    var init, last := responses[..|responses| - 1], responses[|responses| - 1];
    if last != r {
      assert r in init;
      AnswerIsUnique(init, r);
    }
  }

  /**
   With distinct response ids the order in which the responses arrive does not matter, for the values nor for the
   error.
   */
  lemma OrderOfResponsesDoesNotMatter<T>(ids: seq<Id>, a: seq<Response>, b: seq<Response>, decode: Decoder<T>)
    requires multiset(a) == multiset(b)
    requires forall i, j :: 0 <= i < j < |a| ==> a[i].id != a[j].id
    ensures BatchOutcome(ids, a, decode) == BatchOutcome(ids, b, decode)
    ensures FullyAnswered(ids, a, decode) <==> FullyAnswered(ids, b, decode)
  {
    DistinctInAnyOrder(a, b);
    forall r ensures r in a <==> r in b {
      assert r in multiset(a) <==> r in multiset(b);
    }
    forall id ensures Answer(a, id) == Answer(b, id) {
      SameAnswer(a, b, id);
    }
    assert Ids(a) == Ids(b) by {
      forall id ensures id in Ids(a) <==> id in Ids(b) {
        assert Answer(a, id).Some? <==> Answer(b, id).Some?;
      }
    }
    assert ById(a) == ById(b);
  }

  lemma DistinctInAnyOrder(a: seq<Response>, b: seq<Response>)
    requires multiset(a) == multiset(b)
    requires forall i, j :: 0 <= i < j < |a| ==> a[i].id != a[j].id
    ensures forall i, j :: 0 <= i < j < |b| ==> b[i].id != b[j].id
  {
    forall i, j | 0 <= i < j < |b| ensures b[i].id != b[j].id {
      assert b[i] in multiset(a) && b[j] in multiset(a);
      if b[i].id == b[j].id {
        assert b[i] == b[j];
        TwiceInMultiset(b, i, j);
        OnceInMultiset(a, b[i]);
      }
    }
  }

  lemma TwiceInMultiset(s: seq<Response>, i: nat, j: nat)
    requires i < j < |s| && s[i] == s[j]
    ensures multiset(s)[s[i]] >= 2
  {
    assert s == s[..j] + [s[j]] + s[j + 1..];
    assert s[i] in s[..j];
  }

  lemma {:induction false} OnceInMultiset(s: seq<Response>, r: Response)
    requires forall i, j :: 0 <= i < j < |s| ==> s[i].id != s[j].id
    ensures multiset(s)[r] <= 1
  {
    if s != [] {
      var init, last := s[..|s| - 1], s[|s| - 1];
      assert s == init + [last];
      OnceInMultiset(init, r);
      assert last !in init;
    }
  }

  lemma SameAnswer(a: seq<Response>, b: seq<Response>, id: Id)
    requires forall r :: r in a <==> r in b
    requires forall i, j :: 0 <= i < j < |a| ==> a[i].id != a[j].id
    requires forall i, j :: 0 <= i < j < |b| ==> b[i].id != b[j].id
    ensures Answer(a, id) == Answer(b, id)
  {
    if Answer(a, id).Some? {
      AnswerIsUnique(b, Answer(a, id).value);
    } else if Answer(b, id).Some? {
      AnswerIsUnique(a, Answer(b, id).value);
    }
  }

  /** The id of a batch: the greatest of its ids. */
  function BatchId(ids: seq<Id>): (id: Id)
    ensures ids != [] ==> id in IdSet(ids) && forall k :: k in IdSet(ids) ==> k <= id
    ensures ids == [] ==> id == 18446744073709551615
  {
    if ids == [] then MAX_ID
    else if |ids| == 1 then assert ids[0] in IdSet(ids); ids[0]
    else
      var init, last := BatchId(ids[..|ids| - 1]), ids[|ids| - 1];
      assert IdSet(ids) == IdSet(ids[..|ids| - 1]) + {last};
      if init < last then last else init
  }

  /** A fully answered batch has the same batch id as its request, so the transport can pair the two. */
  lemma BatchIdsAgree<T>(ids: seq<Id>, responses: seq<Response>, decode: Decoder<T>)
    requires FullyAnswered(ids, responses, decode)
    ensures BatchId(ids) == BatchId(seq(|responses|, i requires 0 <= i < |responses| => responses[i].id))
  {
    var responseIds := seq(|responses|, i requires 0 <= i < |responses| => responses[i].id);
    forall id ensures id in IdSet(responseIds) <==> id in Ids(responses) {
      if id in Ids(responses) {
        var i :| 0 <= i < |responses| && responses[i].id == id;
        assert responseIds[i] == id;
      }
    }
    assert ids == [] <==> IdSet(ids) == {} by {
      assert ids != [] ==> ids[0] in IdSet(ids);
    }
    assert responseIds == [] <==> IdSet(responseIds) == {} by {
      assert responseIds != [] ==> responseIds[0] in IdSet(responseIds);
    }
  }
}
