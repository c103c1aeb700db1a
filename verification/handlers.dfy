/** The request-handling contract of InstaPoll's poll endpoints: create,
    get and list, as the live code runs them, and beside them the
    persist-then-respond variants that the commented-out store calls
    describe. */
module Handlers {
  import opened Models

  const StatusOK := 200
  const StatusCreated := 201
  const StatusBadRequest := 400
  const StatusNotFound := 404
  const StatusInternalServerError := 500

  /** A JSON response body: a poll, an array of polls, the `null` a nil
      slice serialises to, or an `{"error": ...}` object. */
  datatype Body = PollJson(poll: Poll) | PollListJson(polls: seq<Poll>) | NullJson | ErrorJson(error: string)

  datatype Response = Response(status: int, body: Body)

  /** The outcome of binding the JSON request body to a `Poll`. */
  datatype Request = Decoded(poll: Poll) | Malformed(err: string)

  /** A Go slice: `nil`, or a (possibly empty) sequence of items. */
  datatype Slice<T> = Nil | Items(items: seq<T>)

  /** The outcome of a find-many on the collection followed by `cursor.All`. */
  datatype FindMany = FindFailed | DecodeFailed | Documents(results: Slice<Poll>)

  // ---------------------------------------------------------------------------
  // Preparation of a decoded poll
  // ---------------------------------------------------------------------------

  /** The identifiers the UUID generator hands out during one create request,
      in call order: one for the poll, then one per option. */
  ghost predicate FreshIds(ids: seq<string>, optionCount: nat) {
    && |ids| == optionCount + 1
    && (forall i :: 0 <= i < |ids| ==> ids[i] != "")
    && (forall i, j :: 0 <= i < j < |ids| ==> ids[i] != ids[j])
  }

  /** `out` is `input` prepared for creation with identifiers `ids` at `now`:
      new identity, option identities and zeroed votes, both timestamps set,
      every other field and the options' order and texts kept. */
  ghost predicate IsPreparation(input: Poll, ids: seq<string>, now: Time, out: Poll) {
    && |ids| == |input.options| + 1
    && out.id == ids[0]
    && out.title == input.title
    && out.description == input.description
    && out.expiresAt == input.expiresAt
    && out.createdAt == now
    && out.updatedAt == now
    && |out.options| == |input.options|
    && forall i :: 0 <= i < |out.options| ==> out.options[i] == Option(ids[i + 1], input.options[i].text, 0)
  }

  /** The preparation step of `CreatePoll`: the poll's ID, then each option's
      ID and vote count overwritten in place, then the timestamps. */
  method PrepareForCreation(poll: Poll, ids: seq<string>, now: Time) returns (prepared: Poll)
    requires |ids| == |poll.options| + 1
    ensures IsPreparation(poll, ids, now, prepared)
  {
    prepared := poll.(id := ids[0]);
    var options := new Option[|poll.options|](i requires 0 <= i < |poll.options| => poll.options[i]);
    for i := 0 to options.Length
      invariant forall k :: 0 <= k < i ==> options[k] == Option(ids[k + 1], poll.options[k].text, 0)
      invariant forall k :: i <= k < options.Length ==> options[k] == poll.options[k]
    {
      options[i] := options[i].(id := ids[i + 1], voteCount := 0);
    }
    prepared := prepared.(options := options[..], createdAt := now, updatedAt := now);
  }

  /** With fresh identifiers, a prepared poll has a non-empty ID, and every
      option a non-empty ID distinct from the poll's and from every other
      option's, and no votes; both timestamps are the same instant. */
  lemma PreparedPollHasFreshIdentity(input: Poll, ids: seq<string>, now: Time, out: Poll)
    requires FreshIds(ids, |input.options|)
    requires IsPreparation(input, ids, now, out)
    ensures out.id != ""
    ensures forall i :: 0 <= i < |out.options| ==>
      out.options[i].id != "" && out.options[i].id != out.id && out.options[i].voteCount == 0
    ensures forall i, j :: 0 <= i < j < |out.options| ==> out.options[i].id != out.options[j].id
    ensures out.createdAt == out.updatedAt == now
  {
  }

  /** Preparation never changes the validator's verdict. */
  lemma PreparationPreservesValidation(input: Poll, ids: seq<string>, now: Time, out: Poll, checkedAt: Time)
    requires IsPreparation(input, ids, now, out)
    ensures Validate(out, checkedAt) == Validate(input, checkedAt)
  {
    ValidateReadsOnlyValidatedFields(out, input, checkedAt);
  }

  // ---------------------------------------------------------------------------
  // The handler
  // ---------------------------------------------------------------------------

  const MsgInvalidBody := "Invalid request body: "
  const MsgValidationFailed := "Validation failed: "
  const MsgIdRequired := "Poll ID parameter is required"
  const MsgNotFoundStub := "Poll not found (DB fetch not implemented)"
  const MsgNotFound := "Poll not found"
  const MsgCreateFailed := "Failed to create poll"
  const MsgRetrieveFailed := "Failed to retrieve poll"
  const MsgListFailed := "Failed to retrieve polls"
  const MsgListDecodeFailed := "Failed to decode polls"

  /** The serialisation of a slice of polls: `nil` becomes `null`. */
  function SliceJson(s: Slice<Poll>): Body {
    match s
    case Nil => NullJson
    case Items(polls) => PollListJson(polls)
  }

  class PollHandler {
    /** The polls collection, keyed by each poll's `_id`; `Keyed` states
        that the key is the stored poll's ID. */
    var collection: map<string, Poll>

    /** Every stored poll sits under its own ID, as a document's `_id` is the
        poll's `ID`. */
    ghost predicate Keyed()
      reads this
    {
      forall k :: k in collection ==> collection[k].id == k
    }

    /** `POST /api/polls` as the live code runs it: decode, prepare, validate,
        respond. It declares no `modifies`, so the collection is unchanged on
        every path. `checkedAt` is the instant the validator's own clock read
        returns. */
    method CreatePoll(req: Request, ids: seq<string>, now: Time, checkedAt: Time) returns (resp: Response)
      requires req.Decoded? ==> |ids| == |req.poll.options| + 1
      ensures req.Malformed? ==> resp == Response(StatusBadRequest, ErrorJson(MsgInvalidBody + req.err))
      ensures req.Decoded? && Validate(req.poll, checkedAt).Fail? ==>
        resp == Response(StatusBadRequest, ErrorJson(MsgValidationFailed + Validate(req.poll, checkedAt).err.Error()))
      ensures resp.status == StatusCreated <==> req.Decoded? && Invariants(req.poll, checkedAt)
      ensures resp.status == StatusCreated ==>
        resp.body.PollJson? && IsPreparation(req.poll, ids, now, resp.body.poll)
        && Invariants(resp.body.poll, checkedAt)
    {
      match req
      case Malformed(err) =>
        resp := Response(StatusBadRequest, ErrorJson(MsgInvalidBody + err));
      case Decoded(poll) =>
        var prepared := PrepareForCreation(poll, ids, now);
        PreparationPreservesValidation(poll, ids, now, prepared, checkedAt);
        var outcome := Validate(prepared, checkedAt);
        if outcome.Fail? {
          resp := Response(StatusBadRequest, ErrorJson(MsgValidationFailed + outcome.err.Error()));
          return;
        }
        resp := Response(StatusCreated, PollJson(prepared));
    }

    /** `GET /api/polls/:id` as the live code runs it: an empty id is refused
        before any lookup; any other id is answered "not found". */
    function GetPoll(id: string): (resp: Response)
      ensures resp.status == StatusBadRequest <==> id == ""
      ensures resp.status == StatusBadRequest || resp.status == StatusNotFound
      ensures resp.body.ErrorJson?
    {
      if id == "" then Response(StatusBadRequest, ErrorJson(MsgIdRequired))
      else Response(StatusNotFound, ErrorJson(MsgNotFoundStub))
    }

    /** `GET /api/polls` as the live code runs it: always an empty array. */
    function ListPolls(): (resp: Response)
      ensures resp.status == StatusOK && resp.body.PollListJson? && resp.body.polls == []
    {
      Response(StatusOK, SliceJson(Items([])))
    }

    // -------------------------------------------------------------------------
    // Persist-then-respond, following the commented-out store calls; the
    // live handlers above do not do this.
    // -------------------------------------------------------------------------

    /** `POST /api/polls` with the commented-out insert: a poll is stored under
        its new ID only when it is valid and the insert succeeds; an insert
        fails when `insertFails` (store error, timeout) or when the ID is
        already a key (duplicate `_id`). */
    method CreatePollPersisting(req: Request, ids: seq<string>, now: Time, checkedAt: Time, insertFails: bool)
      returns (resp: Response)
      requires req.Decoded? ==> |ids| == |req.poll.options| + 1
      modifies this
      ensures req.Malformed? ==> resp == Response(StatusBadRequest, ErrorJson(MsgInvalidBody + req.err))
      ensures req.Decoded? && Validate(req.poll, checkedAt).Fail? ==>
        resp == Response(StatusBadRequest, ErrorJson(MsgValidationFailed + Validate(req.poll, checkedAt).err.Error()))
      ensures req.Decoded? && Invariants(req.poll, checkedAt) && (insertFails || ids[0] in old(collection)) ==>
        resp == Response(StatusInternalServerError, ErrorJson(MsgCreateFailed))
      ensures resp.status != StatusCreated ==> collection == old(collection)
      ensures resp.status == StatusCreated <==>
        req.Decoded? && Invariants(req.poll, checkedAt) && !insertFails && ids[0] !in old(collection)
      ensures resp.status == StatusCreated ==>
        resp.body.PollJson? && IsPreparation(req.poll, ids, now, resp.body.poll)
        && collection == old(collection)[ids[0] := resp.body.poll]
      ensures old(Keyed()) ==> Keyed()
    {
      resp := CreatePoll(req, ids, now, checkedAt);
      if resp.status == StatusCreated {
        var poll := resp.body.poll;
        if insertFails || poll.id in collection {
          resp := Response(StatusInternalServerError, ErrorJson(MsgCreateFailed));
          return;
        }
        collection := collection[poll.id := poll];
      }
    }

    /** `GET /api/polls/:id` with the commented-out find-one; `findFails`
        stands for a store error other than "no documents". */
    function GetPollFromCollection(id: string, findFails: bool): (resp: Response)
      reads this
      ensures id == "" ==> resp == Response(StatusBadRequest, ErrorJson(MsgIdRequired))
      ensures resp.status == StatusOK <==> id != "" && !findFails && id in collection
      ensures resp.status == StatusOK ==> resp.body == PollJson(collection[id])
      ensures Keyed() && resp.status == StatusOK ==> resp.body.poll.id == id
      ensures resp.status == StatusNotFound <==> id != "" && !findFails && id !in collection
      ensures resp.status == StatusNotFound ==> resp.body == ErrorJson(MsgNotFound)
      ensures id != "" && findFails ==> resp == Response(StatusInternalServerError, ErrorJson(MsgRetrieveFailed))
    {
      if id == "" then Response(StatusBadRequest, ErrorJson(MsgIdRequired))
      else if findFails then Response(StatusInternalServerError, ErrorJson(MsgRetrieveFailed))
      else if id !in collection then Response(StatusNotFound, ErrorJson(MsgNotFound))
      else Response(StatusOK, PollJson(collection[id]))
    }

    /** The live `GetPoll` answers with the status the lookup would give
        exactly when the id is empty or the poll is absent. */
    lemma GetPollStubAgreesOnlyWhenAbsent(id: string)
      ensures GetPoll(id).status == GetPollFromCollection(id, false).status <==> id == "" || id !in collection
    {
    }

    /** `GET /api/polls` with the commented-out find-many: a nil result is
        replaced by an empty slice, so the body is never `null`. */
    function ListPollsFromCursor(found: FindMany): (resp: Response)
      ensures resp.status == StatusOK <==> found.Documents?
      ensures resp.status == StatusOK ==> resp.body.PollListJson?
      ensures found.Documents? && found.results.Items? ==> resp.body.polls == found.results.items
      ensures found.Documents? && found.results.Nil? ==> resp.body.polls == []
      ensures found.FindFailed? ==> resp == Response(StatusInternalServerError, ErrorJson(MsgListFailed))
      ensures found.DecodeFailed? ==> resp == Response(StatusInternalServerError, ErrorJson(MsgListDecodeFailed))
    {
      match found
      case FindFailed => Response(StatusInternalServerError, ErrorJson(MsgListFailed))
      case DecodeFailed => Response(StatusInternalServerError, ErrorJson(MsgListDecodeFailed))
      case Documents(results) =>
        var nonNil := if results.Nil? then Items([]) else results;
        Response(StatusOK, SliceJson(nonNil))
    }

    /** The live `ListPolls` is what the find-many gives on an empty
        collection, whether the cursor yields `nil` or an empty slice. */
    lemma ListPollsStubMatchesEmptyCollection()
      ensures ListPolls() == ListPollsFromCursor(Documents(Nil))
      ensures ListPolls() == ListPollsFromCursor(Documents(Items([])))
    {
    }
  }
}
