/** The message history and attachment handlers (controllers/messagesController.js):
    `getMessages` returns the direct conversation between two users in timestamp order,
    `uploadFile` turns the outcome of the upload middleware into a response. */
module Messages {
  import opened Common
  import opened Schemas

  /** The `$or` query: the message goes from one of the two users to the other. */
  predicate Between(m: Message, u1: UserId, u2: UserId)
    ensures Between(m, u1, u2) ==> m.recipient.Some?
    ensures Between(m, u1, u2) ==> (m.sender == u1 || m.sender == u2)
    ensures Between(m, u1, u2) ==> (m.recipient.value == u1 || m.recipient.value == u2)
  {
    || (m.sender == u1 && m.recipient == Some(u2))
    || (m.sender == u2 && m.recipient == Some(u1))
  }

  /** `Message.find` with the `$or` query, in store order. */
  function Conversation(messages: seq<Message>, u1: UserId, u2: UserId): (r: seq<Message>)
    ensures forall m :: m in r ==> Between(m, u1, u2)
    ensures multiset(r) <= multiset(messages)
    ensures forall k :: 0 <= k < |messages| && Between(messages[k], u1, u2) ==> messages[k] in r
  {
    if messages == [] then []
    else
      var rest := Conversation(messages[1..], u1, u2);
      assert messages == [messages[0]] + messages[1..];
      assert forall k :: 1 <= k < |messages| ==> messages[k] == messages[1..][k - 1];
      if Between(messages[0], u1, u2) then [messages[0]] + rest else rest
  }

  /** Every matching message, counted with its multiplicity in the store. */
  lemma {:induction false} ConversationCounts(messages: seq<Message>, u1: UserId, u2: UserId, m: Message)
    requires Between(m, u1, u2)
    ensures multiset(Conversation(messages, u1, u2))[m] == multiset(messages)[m]
  {
    if messages != [] {
      assert messages == [messages[0]] + messages[1..];
      ConversationCounts(messages[1..], u1, u2, m);
    }
  }

  /** The selection does not depend on which of the two users asks. */
  lemma {:induction false} ConversationSymmetric(messages: seq<Message>, u1: UserId, u2: UserId)
    ensures Conversation(messages, u1, u2) == Conversation(messages, u2, u1)
  {
    if messages != [] {
      ConversationSymmetric(messages[1..], u1, u2);
    }
  }

  /** A message involving a third party, or with no recipient, is never selected. */
  lemma ThirdPartyExcluded(messages: seq<Message>, u1: UserId, u2: UserId, m: Message)
    requires m.recipient.None? || (m.sender != u1 && m.sender != u2)
          || (m.recipient.Some? && m.recipient.value != u1 && m.recipient.value != u2)
    ensures m !in Conversation(messages, u1, u2)
  {
  }

  predicate SortedByTime(s: seq<Message>)
  {
    forall i, j :: 0 <= i < j < |s| ==> s[i].timestamp <= s[j].timestamp
  }

  /** Insert `m` before the first message that is not earlier than it. */
  function Insert(m: Message, s: seq<Message>): (r: seq<Message>)
    requires SortedByTime(s)
    ensures SortedByTime(r)
    ensures multiset(r) == multiset(s) + multiset{m}
  {
    if s == [] then [m]
    else if m.timestamp <= s[0].timestamp then [m] + s
    else
      var rest := Insert(m, s[1..]);
      InsertTail(m, s, rest);
      [s[0]] + rest
  }

  lemma InsertTail(m: Message, s: seq<Message>, rest: seq<Message>)
    requires s != [] && SortedByTime(s) && s[0].timestamp < m.timestamp
    requires SortedByTime(rest) && multiset(rest) == multiset(s[1..]) + multiset{m}
    ensures SortedByTime([s[0]] + rest)
    ensures multiset([s[0]] + rest) == multiset(s) + multiset{m}
  {
    assert s == [s[0]] + s[1..];
    forall x | x in rest ensures s[0].timestamp <= x.timestamp {
      assert x in multiset(rest);
      if x != m {
        assert x in multiset(s[1..]);
        var k :| 0 <= k < |s[1..]| && s[1..][k] == x;
        assert s[k + 1] == x;
      }
    }
    var r := [s[0]] + rest;
    forall i, j | 0 <= i < j < |r| ensures r[i].timestamp <= r[j].timestamp {
      if i == 0 { assert r[j] == rest[j - 1] && r[j] in rest; } else { assert r[i] == rest[i - 1] && r[j] == rest[j - 1]; }
    }
  }

  /** `.sort({timestamp: 1})`: ascending by timestamp. The model keeps messages with equal
      timestamps in their store order (`SortByTimeStable`). */
  function SortByTime(s: seq<Message>): (r: seq<Message>)
    ensures SortedByTime(r)
    ensures multiset(r) == multiset(s)
  {
    if s == [] then []
    else
      assert s == [s[0]] + s[1..];
      Insert(s[0], SortByTime(s[1..]))
  }

  /** `[x]` when `x` is stamped `t`, otherwise nothing. */
  function Stamped(x: Message, t: int): seq<Message>
  {
    if x.timestamp == t then [x] else []
  }

  /** The messages of `s` stamped `t`, in order. */
  function AtTime(s: seq<Message>, t: int): seq<Message>
  {
    if s == [] then [] else Stamped(s[0], t) + AtTime(s[1..], t)
  }

  lemma AtTimeCons(x: Message, s: seq<Message>, t: int)
    ensures AtTime([x] + s, t) == Stamped(x, t) + AtTime(s, t)
  {
    assert ([x] + s)[0] == x && ([x] + s)[1..] == s;
  }

  lemma InsertPast(m: Message, s: seq<Message>)
    requires SortedByTime(s) && s != [] && s[0].timestamp < m.timestamp
    ensures s == [s[0]] + s[1..] && SortedByTime(s[1..])
    ensures Insert(m, s) == [s[0]] + Insert(m, s[1..])
  {
  }

  lemma {:induction false} InsertAtTime(m: Message, s: seq<Message>, t: int)
    requires SortedByTime(s)
    ensures AtTime(Insert(m, s), t) == Stamped(m, t) + AtTime(s, t)
  {
    if s == [] {
      AtTimeCons(m, [], t);
    } else if m.timestamp <= s[0].timestamp {
      AtTimeCons(m, s, t);
    } else {
      var tail := s[1..];
      InsertPast(m, s);
      InsertAtTime(m, tail, t);
      AtTimeCons(s[0], Insert(m, tail), t);
      AtTimeCons(s[0], tail, t);
      var a, b, rest := Stamped(s[0], t), Stamped(m, t), AtTime(tail, t);
      assert a == [] || b == [];
      assert AtTime(Insert(m, s), t) == a + (b + rest);
      assert AtTime(s, t) == a + rest;
      assert a + (b + rest) == b + (a + rest);
    }
  }

  /** Sorting keeps the messages of every timestamp in their store order. */
  lemma {:induction false} SortByTimeStable(s: seq<Message>, t: int)
    ensures AtTime(SortByTime(s), t) == AtTime(s, t)
  {
    if s != [] {
      SortByTimeStable(s[1..], t);
      InsertAtTime(s[0], SortByTime(s[1..]), t);
    }
  }

  datatype FetchReply = BadRequest | ServerError | Fetched(messages: seq<Message>)

  function FetchStatus(reply: FetchReply): nat
  {
    match reply
    case BadRequest => StatusBadRequest
    case ServerError => StatusServerError
    case Fetched(_) => StatusOk
  }

  /** `getMessages`: both user ids must be truthy (400 otherwise, whatever the store would
      have done, since no query runs); then the conversation is fetched and sorted. */
  function GetMessages(user1: Option<UserId>, user2: Option<UserId>, store: Store<Message>): (reply: FetchReply)
    ensures !Truthy(user1) || !Truthy(user2) <==> reply.BadRequest?
    ensures reply.ServerError? <==> Truthy(user1) && Truthy(user2) && store.Unavailable?
    ensures FetchStatus(reply) == StatusOk <==> Truthy(user1) && Truthy(user2) && store.Available?
    ensures reply.Fetched? ==> SortedByTime(reply.messages)
    ensures reply.Fetched? ==> forall m :: m in reply.messages ==> Between(m, user1.value, user2.value)
    ensures reply.Fetched? ==> forall m :: Between(m, user1.value, user2.value) ==>
      multiset(reply.messages)[m] == multiset(store.records)[m]
  {
    if !Truthy(user1) || !Truthy(user2) then BadRequest
    else
      match store
      case Unavailable => ServerError
      case Available(records) =>
        var found := Conversation(records, user1.value, user2.value);
        var sorted := SortByTime(found);
        assert forall m :: m in sorted ==> m in multiset(found);
        assert forall m :: Between(m, user1.value, user2.value) ==> multiset(found)[m] == multiset(records)[m] by {
          forall m | Between(m, user1.value, user2.value) ensures multiset(found)[m] == multiset(records)[m] {
            ConversationCounts(records, user1.value, user2.value, m);
          }
        }
        Fetched(sorted)
  }

  /** Swapping the two users yields the same reply. */
  lemma GetMessagesSymmetric(u1: UserId, u2: UserId, store: Store<Message>)
    ensures GetMessages(Some(u1), Some(u2), store) == GetMessages(Some(u2), Some(u1), store)
  {
    if store.Available? {
      ConversationSymmetric(store.records, u1, u2);
    }
  }

  /** The file object multer attaches to the request. `path` is missing (or empty) when the
      upload to the file store did not produce a location. */
  datatype UploadedFile = UploadedFile(path: Option<string>, mimetype: string, size: nat)

  datatype FileData = FileData(filePath: string, fileType: string, fileSize: nat)

  datatype UploadReply = NoFile | UploadFailed | Uploaded(data: FileData)

  function UploadStatus(reply: UploadReply): nat
  {
    match reply
    case NoFile => StatusBadRequest
    case UploadFailed => StatusServerError
    case Uploaded(_) => StatusOk
  }

  /** `uploadFile`: 400 without a file, 500 when the file has no path, otherwise 200 with
      the path, MIME type and size of the file. */
  function UploadFile(file: Option<UploadedFile>): (reply: UploadReply)
    ensures file.None? <==> UploadStatus(reply) == StatusBadRequest
    ensures file.Some? && !Truthy(file.value.path) <==> UploadStatus(reply) == StatusServerError
    ensures UploadStatus(reply) == StatusOk <==> file.Some? && Truthy(file.value.path)
    ensures reply.Uploaded? ==> reply.data == FileData(file.value.path.value, file.value.mimetype, file.value.size)
  {
    match file
    case None => NoFile
    case Some(f) =>
      if !Truthy(f.path) then UploadFailed
      else Uploaded(FileData(f.path.value, f.mimetype, f.size))
  }
}
