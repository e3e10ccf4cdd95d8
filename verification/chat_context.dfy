/** The study assistant's per-learner context
    (enliven-backend/controllers/chatbotContextController.js): an update
    merges the request into the stored context object, and the chat history
    of a learner without a record is empty. The database is a map from user
    id to record. */
module ChatContext {

  import opened Wrappers

  /** A JSON value as it arrives in a request body. `Undefined` is a missing
      `event`. */
  datatype Json =
    | Undefined
    | Null
    | Bool(b: bool)
    | Num(n: int)
    | Str(s: string)
    | Arr(items: seq<Json>)
    | Obj(fields: map<string, Json>)

  datatype Sender = User | Assistant

  datatype Message = Message(sender: Sender, text: string, timestamp: int)

  /** A stored `ChatbotContext` document (its `userId` is the map key). */
  datatype Record = Record(context: map<string, Json>, messages: seq<Message>)

  const EventKey := "event"
  const LastEventKey := "lastEvent"

  /** The schema defaults of a new document. */
  const EmptyRecord := Record(map[], [])

  /** `{ ...context, lastEvent: event, ...payload }` where
      `{ event, ...payload } = body`. */
  function Merge(context: map<string, Json>, body: map<string, Json>): (r: map<string, Json>)
  {
    var event := if EventKey in body then body[EventKey] else Undefined;
    var payload := body - {EventKey};
    context[LastEventKey := event] + payload
  }

  /** What the merge keeps and what it overwrites: the result holds the old
      keys, `lastEvent` and the payload's keys; every payload key takes the
      payload's value; `lastEvent` is the request's `event` unless the
      payload carries its own `lastEvent`; every other old key keeps its
      value. */
  lemma MergeEffect(context: map<string, Json>, body: map<string, Json>)
    ensures var r := Merge(context, body);
      r.Keys == context.Keys + {LastEventKey} + (body.Keys - {EventKey}) &&
      (forall k :: k in body && k != EventKey ==> r[k] == body[k]) &&
      r[LastEventKey] == (if LastEventKey in body then body[LastEventKey]
                          else if EventKey in body then body[EventKey] else Undefined) &&
      (forall k :: k in context && k !in body && k != LastEventKey ==> r[k] == context[k]) &&
      (EventKey in context ==> r[EventKey] == context[EventKey])
  {
  }

  /** Sending the same update twice leaves the context as after the first. */
  lemma MergeIdempotent(context: map<string, Json>, body: map<string, Json>)
    ensures Merge(Merge(context, body), body) == Merge(context, body)
  {
    var r := Merge(context, body);
    var r2 := Merge(r, body);
    MergeEffect(context, body);
    MergeEffect(r, body);
    assert r2.Keys == r.Keys;
    forall k | k in r
      ensures r2[k] == r[k]
    {
    }
  }

  class Contexts {
    var records: map<string, Record>

    constructor(initial: map<string, Record>)
      ensures records == initial
    {
      records := initial;
    }

    /** `updateContext`. A request without a user id is rejected and
        nothing changes. Otherwise the learner's record, created with an
        empty context and no messages when missing, gets the merged context;
        its messages and every other learner's record stay as they were. */
    method UpdateContext(userId: Option<string>, body: map<string, Json>) returns (r: Result<map<string, Json>, Failure>)
      modifies this
      ensures userId.None? || userId.value == "" ==>
        r == Err(BadRequest("Missing userId")) && records == old(records)
      ensures userId.Some? && userId.value != "" ==>
        var before := if userId.value in old(records) then old(records)[userId.value] else EmptyRecord;
        var context := Merge(before.context, body);
        r == Ok(context) &&
        records == old(records)[userId.value := Record(context, before.messages)]
    {
      if userId.None? || userId.value == "" {
        return Err(BadRequest("Missing userId"));
      }
      var id := userId.value;
      var ctx := EmptyRecord;
      if id in records {
        ctx := records[id];
      }
      var event := Undefined;
      if EventKey in body {
        event := body[EventKey];
      }
      var context := ctx.context[LastEventKey := event] + (body - {EventKey});
      records := records[id := ctx.(context := context)];
      r := Ok(context);
    }

    /** `getChatHistory`: the stored messages, or none for a learner
        without a record. */
    method GetChatHistory(userId: string) returns (messages: seq<Message>)
      ensures userId !in records ==> messages == []
      ensures userId in records ==> messages == records[userId].messages
    {
      messages := [];
      if userId in records {
        messages := records[userId].messages;
      }
    }
  }

  /** A learner's first update starts from an empty context: the stored
      context is then exactly `lastEvent` and the payload. */
  lemma FirstUpdate(body: map<string, Json>)
    ensures var r := Merge(EmptyRecord.context, body);
      r.Keys == {LastEventKey} + (body.Keys - {EventKey})
  {
    MergeEffect(EmptyRecord.context, body);
  }
}
