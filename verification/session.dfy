/** The chat session (`ChatSDK`): conversations, their keys, subscribers and
    message logs, and the deduplication set, as one immutable state record.
    Every public operation is a total function from a state to a new state or
    an error; a thrown exception becomes `Err` and leaves the state as it was.

    A fresh uuid and `Date.now()` are parameters (`freshId`, `now`). Network
    sends, the cross-tab broadcast and handler bodies are not modelled: an
    operation returns the encrypted message it would hand to them, and the
    list of handlers it would call, in order. */
module ChatSession {
  import opened Results
  import opened JsStrings
  import opened Messages
  import opened Codec

  /** A registered message handler, compared by reference in the source. */
  type HandlerId = nat

  datatype ConversationType = Direct | Group

  datatype Conversation = Conversation(
    id: JsString,
    kind: ConversationType,
    participants: seq<JsString>,
    name: Option<JsString>)

  datatype State = State(
    identity: Option<JsString>,                  // the local peerId, once `init` has run
    order: seq<JsString>,                        // conversation ids in Map insertion order
    conversations: map<JsString, Conversation>,
    keys: map<JsString, JsString>,               // encryptionKeys
    handlers: map<JsString, seq<HandlerId>>,     // messageHandlers
    store: map<JsString, seq<Message>>,          // the per-conversation message logs
    processed: set<JsString>,                    // processedMessageIds
    subscribed: set<JsString>)                   // subscribedConversations

  datatype Error =
    | NotInitialized    // no identity yet
    | InvalidArgument   // a direct conversation without exactly one other participant
    | NotFound          // unknown conversation
    | PermissionDenied  // revoking a locally known message sent by someone else
    | MissingKey        // a known conversation without a cached key

  /** The retention window of each message log. */
  const MaxLogLength: nat := 100

  /** "群聊1", the name `joinGroupConversation` gives when none is passed. */
  const DefaultGroupName: JsString := [0x7FA4, 0x804A, 0x31]

  predicate NoDup<T(==)>(s: seq<T>) {
    forall i, j :: 0 <= i < j < |s| ==> s[i] != s[j]
  }

  predicate UniqueIds(log: seq<Message>) {
    forall i, j :: 0 <= i < j < |log| ==> log[i].id != log[j].id
  }

  /** What holds of the log of conversation `c`: within the window, no id
      twice, every message filed under its own conversation and recorded as
      processed. */
  predicate LogValid(log: seq<Message>, c: JsString, processed: set<JsString>) {
    && |log| <= MaxLogLength
    && UniqueIds(log)
    && forall i :: 0 <= i < |log| ==> log[i].conversationId == c && log[i].id in processed
  }

  /** The invariant of every reachable session state. */
  ghost predicate Valid(s: State) {
    && NoDup(s.order)
    && (forall id :: id in s.order <==> id in s.conversations)
    && s.keys.Keys == s.conversations.Keys
    && (forall id :: id in s.conversations ==> s.conversations[id].id == id)
    && (forall c :: c in s.handlers ==> NoDup(s.handlers[c]))
    && (forall c :: c in s.store ==> LogValid(s.store[c], c, s.processed))
  }

  /** A new `ChatSDK` before `init`. */
  const EmptySession: State := State(None, [], map[], map[], map[], map[], {}, {})

  /** `init`, with the loaded or generated identity's peerId as a parameter. */
  function Init(s: State, peerId: JsString): (r: State)
    ensures r.identity == Some(peerId)
    ensures r.(identity := s.identity) == s
    ensures Valid(s) ==> Valid(r)
  {
    s.(identity := Some(peerId))
  }

  // ---------------------------------------------------------------- getters

  /** `getMessages`: the log, or empty when there is none. */
  function GetMessages(s: State, c: JsString): (r: seq<Message>)
    ensures c !in s.store ==> r == []
    ensures Valid(s) ==> LogValid(r, c, s.processed)
  {
    if c in s.store then s.store[c] else []
  }

  /** `getConversation`. */
  function GetConversation(s: State, id: JsString): (r: Option<Conversation>)
    ensures r.Some? <==> id in s.conversations
    ensures Valid(s) ==> (r.Some? <==> id in s.order)
    ensures Valid(s) && r.Some? ==> r.value.id == id
  {
    if id in s.conversations then Some(s.conversations[id]) else None
  }

  function ConversationsIn(order: seq<JsString>, conversations: map<JsString, Conversation>): (r: seq<Conversation>)
    ensures (forall i :: 0 <= i < |order| ==> order[i] in conversations) ==>
              |r| == |order| && forall i :: 0 <= i < |order| ==> r[i] == conversations[order[i]]
  {
    if |order| == 0 then []
    else (if order[0] in conversations then [conversations[order[0]]] else [])
         + ConversationsIn(order[1..], conversations)
  }

  /** `getAllConversations`: every conversation once, in the order it was created. */
  function GetAllConversations(s: State): (r: seq<Conversation>)
    ensures Valid(s) ==> |r| == |s.order|
    ensures Valid(s) ==> forall i :: 0 <= i < |s.order| ==> r[i] == s.conversations[s.order[i]]
    ensures Valid(s) ==> forall id :: id in s.conversations ==> s.conversations[id] in r
    ensures Valid(s) ==> forall i, j :: 0 <= i < j < |r| ==> r[i].id != r[j].id
  {
    var r := ConversationsIn(s.order, s.conversations);
    assert Valid(s) ==> forall i, j :: 0 <= i < j < |r| ==> r[i].id != r[j].id by {
      if Valid(s) {
        forall i, j | 0 <= i < j < |r| ensures r[i].id != r[j].id {
          assert r[i].id == s.order[i] && r[j].id == s.order[j];
        }
      }
    }
    assert Valid(s) ==> forall id :: id in s.conversations ==> s.conversations[id] in r by {
      if Valid(s) {
        forall id | id in s.conversations ensures s.conversations[id] in r {
          var i :| 0 <= i < |s.order| && s.order[i] == id;
          assert r[i] == s.conversations[id];
        }
      }
    }
    r
  }

  /** The handlers `notifyMessageHandlers` calls for `c`, in order. */
  function HandlersFor(s: State, c: JsString): (r: seq<HandlerId>)
    ensures c !in s.handlers ==> r == []
    ensures Valid(s) ==> NoDup(r)
  {
    if c in s.handlers then s.handlers[c] else []
  }

  // ---------------------------------------------------------- message store

  /** Everything but the message logs and the processed set is the same. */
  predicate Unchanged(s: State, r: State) {
    && r.identity == s.identity
    && r.order == s.order
    && r.conversations == s.conversations
    && r.keys == s.keys
    && r.handlers == s.handlers
    && r.subscribed == s.subscribed
  }

  /** The retention rule of `storeMessage`: a log longer than 100 entries
      keeps its last 100 (`slice(-100)`), in order. */
  function Window(log: seq<Message>): (r: seq<Message>)
    ensures |r| <= MaxLogLength && |r| <= |log|
    ensures |log| <= MaxLogLength ==> r == log
  {
    if |log| > MaxLogLength then log[|log| - MaxLogLength..] else log
  }

  /** `storeMessage`: a message whose id was processed before is ignored;
      otherwise its id is recorded, it is appended to its conversation's log,
      and the log is cut back to its last 100 entries. */
  function StoreMessage(s: State, m: Message): (r: State)
    ensures s.processed <= r.processed
    ensures m.id in s.processed ==> r == s
    ensures m.id !in s.processed ==>
      && r.processed == s.processed + {m.id}
      && m.conversationId in r.store
      && r.store[m.conversationId] == Window(GetMessages(s, m.conversationId) + [m])
      && 0 < |r.store[m.conversationId]| <= MaxLogLength
      && r.store[m.conversationId][|r.store[m.conversationId]| - 1] == m
    ensures r.store - {m.conversationId} == s.store - {m.conversationId}
    ensures Unchanged(s, r)
    ensures Valid(s) ==> Valid(r)
  {
    if m.id in s.processed then s
    else
      var r := s.(processed := s.processed + {m.id},
                  store := s.store[m.conversationId := Window(GetMessages(s, m.conversationId) + [m])]);
      assert Valid(s) ==> Valid(r) by {
        if Valid(s) {
          StoreKeepsValid(s, m, r);
        }
      }
      r
  }

  /** Appending a message with a new id to a valid log of its conversation,
      then cutting back, gives a valid log. */
  lemma AppendKeepsLogValid(prior: seq<Message>, m: Message, processed: set<JsString>)
    requires LogValid(prior, m.conversationId, processed) && m.id !in processed
    ensures LogValid(Window(prior + [m]), m.conversationId, processed + {m.id})
  {
    var log := prior + [m];
    forall i, j | 0 <= i < j < |log| ensures log[i].id != log[j].id {
      if j == |log| - 1 {
        assert log[i].id in processed;
      }
    }
    var kept := Window(log);
    forall i, j | 0 <= i < j < |kept| ensures kept[i].id != kept[j].id {
      assert kept[i] == log[|log| - |kept| + i] && kept[j] == log[|log| - |kept| + j];
    }
    forall i | 0 <= i < |kept|
      ensures kept[i].conversationId == m.conversationId && kept[i].id in processed + {m.id}
    {
      assert kept[i] == log[|log| - |kept| + i];
    }
  }

  lemma StoreKeepsValid(s: State, m: Message, r: State)
    requires Valid(s) && m.id !in s.processed
    requires r == s.(processed := s.processed + {m.id},
                     store := s.store[m.conversationId := Window(GetMessages(s, m.conversationId) + [m])])
    ensures Valid(r)
  {
    AppendKeepsLogValid(GetMessages(s, m.conversationId), m, s.processed);
    forall c | c in r.store ensures LogValid(r.store[c], c, r.processed) {
      if c != m.conversationId {
        assert LogValid(s.store[c], c, s.processed);
      }
    }
  }

  /** `messages.filter((msg) => msg.id !== id)`. */
  function RemoveId(log: seq<Message>, id: JsString): (r: seq<Message>)
    ensures |r| <= |log|
    ensures forall m :: m in r <==> m in log && m.id != id
    ensures (forall m :: m in log ==> m.id != id) ==> r == log
  {
    if |log| == 0 then []
    else (if log[0].id != id then [log[0]] else []) + RemoveId(log[1..], id)
  }

  lemma {:induction false} RemoveIdKeepsValid(log: seq<Message>, id: JsString, c: JsString, processed: set<JsString>)
    requires LogValid(log, c, processed)
    ensures LogValid(RemoveId(log, id), c, processed)
  {
    if |log| > 0 {
      TailKeepsLogValid(log, c, processed);
      RemoveIdKeepsValid(log[1..], id, c, processed);
      if log[0].id != id {
        var rest := RemoveId(log[1..], id);
        forall m | m in rest ensures m.id != log[0].id {
          HeadIdNotInTail(log, c, processed, m);
        }
        ConsKeepsLogValid(log[0], rest, c, processed);
      }
    }
  }

  lemma TailKeepsLogValid(log: seq<Message>, c: JsString, processed: set<JsString>)
    requires |log| > 0 && LogValid(log, c, processed)
    ensures LogValid(log[1..], c, processed)
  {
    var t := log[1..];
    forall i, j | 0 <= i < j < |t| ensures t[i].id != t[j].id {
      assert t[i] == log[i + 1] && t[j] == log[j + 1];
    }
  }

  lemma HeadIdNotInTail(log: seq<Message>, c: JsString, processed: set<JsString>, m: Message)
    requires |log| > 0 && LogValid(log, c, processed)
    requires m in log[1..]
    ensures m.id != log[0].id
  {
    var k :| 0 <= k < |log[1..]| && log[1..][k] == m;
    assert log[k + 1] == m;
  }

  /** Putting a message of the conversation, already processed and with an
      id not yet in the log, in front of a valid log keeps it valid. */
  lemma ConsKeepsLogValid(m: Message, rest: seq<Message>, c: JsString, processed: set<JsString>)
    requires LogValid(rest, c, processed) && |rest| < MaxLogLength
    requires m.conversationId == c && m.id in processed
    requires forall x :: x in rest ==> x.id != m.id
    ensures LogValid([m] + rest, c, processed)
  {
    var r := [m] + rest;
    forall i, j | 0 <= i < j < |r| ensures r[i].id != r[j].id {
      assert r[j] == rest[j - 1];
      if i > 0 {
        assert r[i] == rest[i - 1];
      }
    }
    forall i | 0 <= i < |r| ensures r[i].conversationId == c && r[i].id in processed {
      if i > 0 {
        assert r[i] == rest[i - 1];
      }
    }
  }

  /** `deleteMessageLocally`: drops every entry of the log with the given id,
      keeping the rest in order. The processed set is not touched, so the id
      stays deduplicated. */
  function DeleteMessageLocally(s: State, c: JsString, messageId: JsString): (r: State)
    ensures c !in s.store ==> r == s
    ensures c in s.store ==> c in r.store && r.store[c] == RemoveId(s.store[c], messageId)
    ensures c in s.store ==> forall m :: m in r.store[c] <==> m in s.store[c] && m.id != messageId
    ensures r.store - {c} == s.store - {c}
    ensures Unchanged(s, r) && r.processed == s.processed
    ensures Valid(s) ==> Valid(r)
  {
    if c in s.store then
      var r := s.(store := s.store[c := RemoveId(s.store[c], messageId)]);
      assert Valid(s) ==> Valid(r) by {
        if Valid(s) {
          RemoveIdKeepsValid(s.store[c], messageId, c, s.processed);
        }
      }
      r
    else s
  }

  // ---------------------------------------------------------- conversations

  /** The id both peers of a direct conversation derive: the two peerIds,
      sorted, joined with "_". */
  function DirectId(self: JsString, other: JsString): JsString {
    Join(Sort([self, other]), [Underscore])
  }

  /** `genEncryptionKey`: the first 32 characters of the hash of the id (group)
      or of the id, "_" and the sorted participants joined with "_" (direct). */
  function ConversationKey(p: Primitives, c: Conversation): (r: JsString)
    ensures ValidPrimitives(p) ==> |r| == KeyLength
  {
    var material :=
      if c.kind == Group then c.id
      else c.id + [Underscore] + Join(Sort(c.participants), [Underscore]);
    assert ValidPrimitives(p) ==> IsDigest(p.hash(material));
    Slice(p.hash(material), KeyLength)
  }

  /** `subscribeToConversation`, local part: the subscribed marker. */
  function MarkSubscribed(s: State, c: JsString): (r: State)
    ensures c in r.subscribed && s.subscribed <= r.subscribed
    ensures r.subscribed - {c} == s.subscribed - {c}
    ensures r.(subscribed := s.subscribed) == s
    ensures c in s.subscribed ==> r == s
  {
    s.(subscribed := s.subscribed + {c})
  }

  datatype Opened = Opened(state: State, conversation: Conversation)

  /** `createConversation`. A direct conversation needs exactly one other
      participant; a group takes the given id, or the fresh one. An id that
      already exists returns the stored conversation and changes nothing:
      neither name nor participants are merged. */
  function CreateConversation(s: State, p: Primitives, participantIds: seq<JsString>, kind: ConversationType,
                              name: Option<JsString>, conversationId: Option<JsString>, freshId: JsString)
    : (r: Result<Opened, Error>)
    ensures s.identity.None? ==> r == Err(NotInitialized)
    ensures s.identity.Some? && kind == Direct && |participantIds| != 1 ==> r == Err(InvalidArgument)
    ensures s.identity.Some? && (kind == Group || |participantIds| == 1) ==> r.Ok?
    ensures r.Ok? && Valid(s) && kind == Direct ==>
              r.value.conversation.id == DirectId(s.identity.value, participantIds[0])
    ensures r.Ok? && Valid(s) && kind == Group ==> r.value.conversation.id == conversationId.GetOr(freshId)
    ensures r.Ok? && Valid(s) ==> var c := r.value.conversation;
              c.id in r.value.state.conversations && r.value.state.conversations[c.id] == c
    ensures r.Ok? && Valid(s) && r.value.conversation.id in s.conversations ==>
              r.value == Opened(s, s.conversations[r.value.conversation.id])
    ensures r.Ok? && Valid(s) && r.value.conversation.id !in s.conversations ==>
              var c := r.value.conversation;
              && c.kind == kind && c.name == name
              && (kind == Direct ==> c.participants == Sort([s.identity.value, participantIds[0]]))
              && (kind == Group ==> c.participants == [s.identity.value])
              && r.value.state == AddConversation(s, p, c)
    ensures r.Ok? && Valid(s) ==> Valid(r.value.state)
  {
    if s.identity.None? then Err(NotInitialized)
    else if kind == Direct && |participantIds| != 1 then Err(InvalidArgument)
    else
      var self := s.identity.value;
      var id := if kind == Direct then DirectId(self, participantIds[0]) else conversationId.GetOr(freshId);
      if id in s.conversations then Ok(Opened(s, s.conversations[id]))
      else
        var participants := if kind == Direct then Sort([self, participantIds[0]]) else [self];
        var c := Conversation(id, kind, participants, name);
        Ok(Opened(AddConversation(s, p, c), c))
  }

  /** The new-conversation branch of `createConversation`: the conversation
      is recorded last in creation order with its derived key, and marked
      subscribed; nothing else changes. */
  function AddConversation(s: State, p: Primitives, c: Conversation): (r: State)
    ensures r.order == s.order + [c.id]
    ensures r.conversations == s.conversations[c.id := c]
    ensures r.keys == s.keys[c.id := ConversationKey(p, c)]
    ensures r.subscribed == s.subscribed + {c.id}
    ensures r.(order := s.order, conversations := s.conversations, keys := s.keys, subscribed := s.subscribed) == s
    ensures Valid(s) && c.id !in s.conversations ==> Valid(r)
  {
    var r := MarkSubscribed(
      s.(order := s.order + [c.id],
         conversations := s.conversations[c.id := c],
         keys := s.keys[c.id := ConversationKey(p, c)]), c.id);
    assert Valid(s) && c.id !in s.conversations ==> NoDup(r.order);
    r
  }

  /** `joinGroupConversation`: a group create with the given id. */
  function JoinGroupConversation(s: State, p: Primitives, conversationId: JsString, name: Option<JsString>)
    : (r: Result<Opened, Error>)
    ensures s.identity.None? <==> r == Err(NotInitialized)
    ensures r.Ok? && Valid(s) ==> r.value.conversation.id == conversationId
    ensures r.Ok? && Valid(s) && conversationId !in s.conversations ==>
              r.value.conversation.name == Some(name.GetOr(DefaultGroupName))
              && r.value.conversation.kind == Group
    ensures r.Ok? && Valid(s) && conversationId in s.conversations ==> r.value.state == s
  {
    CreateConversation(s, p, [], Group, Some(name.GetOr(DefaultGroupName)), Some(conversationId), [])
  }

  /** `removeConversationLocally`: removes the conversation, its key, its
      handlers, its log and its subscribed marker, and nothing else. */
  function RemoveConversationLocally(s: State, c: JsString): (r: State)
    ensures c !in r.conversations && c !in r.keys && c !in r.handlers && c !in r.store && c !in r.subscribed
    ensures r.order == Without(s.order, c)
    ensures forall x :: x in r.order <==> x in s.order && x != c
    ensures r.conversations - {c} == s.conversations - {c}
    ensures r.keys - {c} == s.keys - {c}
    ensures r.handlers - {c} == s.handlers - {c}
    ensures r.store - {c} == s.store - {c}
    ensures r.subscribed + {c} == s.subscribed + {c}
    ensures r.identity == s.identity && r.processed == s.processed
    ensures Valid(s) ==> Valid(r)
  {
    var order := Without(s.order, c);
    var r := State(s.identity, order, s.conversations - {c}, s.keys - {c}, s.handlers - {c},
                   s.store - {c}, s.processed, s.subscribed - {c});
    assert Valid(s) ==> Valid(r) by {
      if Valid(s) {
        RemoveKeepsValid(s, c, r);
      }
    }
    r
  }

  lemma RemoveKeepsValid(s: State, c: JsString, r: State)
    requires Valid(s)
    requires r == State(s.identity, Without(s.order, c), s.conversations - {c}, s.keys - {c}, s.handlers - {c},
                        s.store - {c}, s.processed, s.subscribed - {c})
    ensures Valid(r)
  {
    WithoutKeepsNoDup(s.order, c);
    assert forall id :: id in r.order <==> id in r.conversations;
    assert r.keys.Keys == r.conversations.Keys;
    forall x | x in r.store ensures LogValid(r.store[x], x, r.processed) {
      assert r.store[x] == s.store[x];
    }
    forall x | x in r.handlers ensures NoDup(r.handlers[x]) {
      assert r.handlers[x] == s.handlers[x];
    }
  }

  /** The ids of `order` other than `c`, in order. */
  function Without(order: seq<JsString>, c: JsString): (r: seq<JsString>)
    ensures forall x :: x in r <==> x in order && x != c
    ensures c !in order ==> r == order
  {
    if |order| == 0 then []
    else (if order[0] != c then [order[0]] else []) + Without(order[1..], c)
  }

  lemma {:induction false} WithoutKeepsNoDup(order: seq<JsString>, c: JsString)
    requires NoDup(order)
    ensures NoDup(Without(order, c))
  {
    if |order| > 0 {
      WithoutKeepsNoDup(order[1..], c);
      var rest := Without(order[1..], c);
      if order[0] != c {
        assert order[0] !in order[1..] by {
          forall k | 0 <= k < |order| - 1 ensures order[1..][k] != order[0] {
            assert order[1..][k] == order[k + 1];
          }
        }
        var r := [order[0]] + rest;
        forall i, j | 0 <= i < j < |r| ensures r[i] != r[j] {
          if i == 0 {
            assert r[j] in rest;
          } else {
            assert r[i] == rest[i - 1] && r[j] == rest[j - 1];
          }
        }
      }
    }
  }

  // ---------------------------------------------------------------- messages

  /** What `sendMessage` and `revokeMessage` produce: the new state, the id
      returned, the encrypted message handed to the broadcast and the network,
      and the handlers called with it. */
  datatype Sent = Sent(state: State, id: JsString, message: Message, notified: seq<HandlerId>)

  /** `sendMessage`. */
  function SendMessage(s: State, p: Primitives, conversationId: JsString, content: JsString,
                       freshId: JsString, now: int): (r: Result<Sent, Error>)
    ensures s.identity.None? ==> r == Err(NotInitialized)
    ensures s.identity.Some? && conversationId !in s.conversations ==> r == Err(NotFound)
    ensures s.identity.Some? && conversationId in s.conversations && Valid(s) ==> r.Ok?
    ensures r.Ok? ==>
      var e := r.value.message;
      && r.value.id == freshId && e.id == freshId
      && e.(signature := None, mac := None, payload := None)
         == Message(freshId, conversationId, s.identity.value, content, now, Text, None, None, None, None)
      && conversationId in s.keys
      && e == Encrypt(p, e.(signature := None, mac := None, payload := None), s.keys[conversationId])
      && r.value.state == StoreMessage(s, e)
      && r.value.notified == HandlersFor(s, conversationId)
    ensures r.Ok? && freshId !in s.processed ==>
      GetMessages(r.value.state, conversationId) == Window(GetMessages(s, conversationId) + [r.value.message])
    ensures r.Ok? && Valid(s) ==> Valid(r.value.state)
  {
    if s.identity.None? then Err(NotInitialized)
    else if conversationId !in s.conversations then Err(NotFound)
    else if conversationId !in s.keys then Err(MissingKey)
    else
      var m := Message(freshId, conversationId, s.identity.value, content, now, Text, None, None, None, None);
      var e := Encrypt(p, m, s.keys[conversationId]);
      var t := StoreMessage(s, e);
      Ok(Sent(t, e.id, e, HandlersFor(t, conversationId)))
  }

  /** `messages.find((msg) => msg.id === id)`. */
  function FindById(log: seq<Message>, id: JsString): (r: Option<Message>)
    ensures r.Some? ==> r.value in log && r.value.id == id
    ensures r.None? <==> forall m :: m in log ==> m.id != id
    ensures r.Some? ==> exists i :: 0 <= i < |log| && log[i] == r.value && forall j :: 0 <= j < i ==> log[j].id != id
  {
    if |log| == 0 then None
    else if log[0].id == id then Some(log[0])
    else
      var r := FindById(log[1..], id);
      assert r.Some? ==> exists i :: 0 <= i < |log| && log[i] == r.value && forall j :: 0 <= j < i ==> log[j].id != id by {
        if r.Some? {
          var k :| 0 <= k < |log| - 1 && log[1..][k] == r.value && forall j :: 0 <= j < k ==> log[1..][j].id != id;
          assert log[k + 1] == r.value;
          forall j | 0 <= j < k + 1 ensures log[j].id != id {
            if j > 0 {
              assert log[j] == log[1..][j - 1];
            }
          }
        }
      }
      r
  }

  /** In a log with unique ids, the message found is the only one with that id. */
  lemma FindByIdUnique(log: seq<Message>, id: JsString, m: Message)
    requires UniqueIds(log) && m in log && m.id == id
    ensures FindById(log, id) == Some(m)
  {
    var f := FindById(log, id).value;
    var i :| 0 <= i < |log| && log[i] == f;
    var j :| 0 <= j < |log| && log[j] == m;
    assert i == j;
  }

  /** `revokeMessage`. The sender check applies only when the target is in
      the local log; revoking an id not held locally still creates a tombstone. */
  function RevokeMessage(s: State, p: Primitives, conversationId: JsString, messageId: JsString,
                         freshId: JsString, now: int): (r: Result<Sent, Error>)
    ensures s.identity.None? ==> r == Err(NotInitialized)
    ensures s.identity.Some? && conversationId !in s.conversations ==> r == Err(NotFound)
    ensures s.identity.Some? && conversationId in s.conversations && Valid(s) ==>
      (r == Err(PermissionDenied)
       <==> exists m :: m in GetMessages(s, conversationId) && m.id == messageId && m.sender != s.identity.value)
    ensures s.identity.Some? && conversationId in s.conversations && Valid(s) ==> r.Ok? || r == Err(PermissionDenied)
    ensures r.Ok? ==>
      var e := r.value.message;
      && r.value.id == freshId && e.id == freshId
      && e.(signature := None, mac := None, payload := None)
         == Message(freshId, conversationId, s.identity.value, [], now, Tombstone, Some(messageId), None, None, None)
      && conversationId in s.keys
      && e == Encrypt(p, e.(signature := None, mac := None, payload := None), s.keys[conversationId])
      && r.value.state == StoreMessage(s, e)
      && r.value.notified == HandlersFor(s, conversationId)
    ensures r.Ok? && Valid(s) ==> Valid(r.value.state)
  {
    if s.identity.None? then Err(NotInitialized)
    else if conversationId !in s.conversations then Err(NotFound)
    else
      var self := s.identity.value;
      var target := FindById(GetMessages(s, conversationId), messageId);
      if target.Some? && target.value.sender != self then
        Err(PermissionDenied)
      else if conversationId !in s.keys then Err(MissingKey)
      else
        var m := Message(freshId, conversationId, self, [], now, Tombstone, Some(messageId), None, None, None);
        var e := Encrypt(p, m, s.keys[conversationId]);
        var t := StoreMessage(s, e);
        Ok(Sent(t, e.id, e, HandlersFor(t, conversationId)))
  }

  /** What `leaveConversation` produces: the state after local teardown and
      the encrypted `user-leave` notice handed to the broadcast and the network. */
  datatype Left = Left(state: State, notice: Message)

  /** `leaveConversation`. An unknown conversation is an error. The notice is
      never stored locally: its id is not recorded as processed, and the
      conversation's log is removed. */
  function LeaveConversation(s: State, p: Primitives, conversationId: JsString, freshId: JsString, now: int)
    : (r: Result<Left, Error>)
    ensures s.identity.None? ==> r == Err(NotInitialized)
    ensures s.identity.Some? && conversationId !in s.conversations ==> r == Err(NotFound)
    ensures s.identity.Some? && conversationId in s.conversations && Valid(s) ==> r.Ok?
    ensures r.Ok? ==>
      var n := r.value.notice;
      && n.(signature := None, mac := None, payload := None)
         == Message(freshId, conversationId, s.identity.value, [], now, UserLeave, None, None, None, None)
      && n.payload.Some?
      && conversationId in s.keys
      && n == Encrypt(p, n.(signature := None, mac := None, payload := None), s.keys[conversationId])
      && r.value.state == RemoveConversationLocally(s, conversationId)
      && r.value.state.processed == s.processed
      && GetMessages(r.value.state, conversationId) == []
      && GetConversation(r.value.state, conversationId) == None
    ensures r.Ok? && Valid(s) ==> Valid(r.value.state)
  {
    if s.identity.None? then Err(NotInitialized)
    else if conversationId !in s.conversations then Err(NotFound)
    else if conversationId !in s.keys then Err(MissingKey)
    else
      var n := Message(freshId, conversationId, s.identity.value, [], now, UserLeave, None, None, None, None);
      Ok(Left(RemoveConversationLocally(s, conversationId), Encrypt(p, n, s.keys[conversationId])))
  }

  // ------------------------------------------------------------ subscribers

  /** `subscribe`: registers the handler unless it is already registered,
      and marks the conversation subscribed. The conversation need not exist. */
  function Subscribe(s: State, c: JsString, h: HandlerId): (r: State)
    ensures c in r.handlers && h in r.handlers[c]
    ensures h in HandlersFor(s, c) ==> r.handlers[c] == HandlersFor(s, c)
    ensures h !in HandlersFor(s, c) ==> r.handlers[c] == HandlersFor(s, c) + [h]
    ensures NoDup(HandlersFor(s, c)) ==> NoDup(r.handlers[c])
    ensures c in r.subscribed && r.subscribed == s.subscribed + {c}
    ensures r.handlers - {c} == s.handlers - {c}
    ensures r.(handlers := s.handlers, subscribed := s.subscribed) == s
    ensures Valid(s) ==> Valid(r)
  {
    var hs := HandlersFor(s, c);
    MarkSubscribed(s.(handlers := s.handlers[c := if h in hs then hs else hs + [h]]), c)
  }

  /** The outcome of one inbound network message: the new state and the
      handlers called. Every failure is logged and swallowed. */
  datatype Delivery = Delivery(state: State, notified: seq<HandlerId>)

  /** `messageCallback(topicId)` reads on: a payload is present and the
      topic has a key that is not the empty string. */
  predicate Readable(s: State, topicId: JsString, payload: Option<seq<Byte>>) {
    payload.Some? && topicId in s.keys && s.keys[topicId] != []
  }

  /** The message `messageCallback(topicId)` decrypts from this payload, if any. */
  function Decoded(s: State, p: Primitives, topicId: JsString, payload: Option<seq<Byte>>): Result<Message, DecryptError> {
    if Readable(s, topicId, payload) then DecryptMessage(p, payload.value, s.keys[topicId])
    else Err(Unparseable)
  }

  /** The message `messageCallback(topicId)` accepts: one that decrypts,
      authenticates, and names the topic's conversation as its own. */
  function Accepted(s: State, p: Primitives, topicId: JsString, payload: Option<seq<Byte>>): (r: Option<Message>)
    ensures r.Some? <==> (var d := Decoded(s, p, topicId, payload); d.Ok? && d.value.conversationId == topicId)
    ensures r.Some? ==> Readable(s, topicId, payload) && Decoded(s, p, topicId, payload) == Ok(r.value)
    ensures r.Some? ==> r.value.conversationId == topicId
  {
    var d := Decoded(s, p, topicId, payload);
    if d.Ok? && d.value.conversationId == topicId then Some(d.value) else None
  }

  /** `messageCallback(topicId)`: without a payload or a (non-empty) key nothing happens;
      a payload that fails decryption or authentication is dropped; a message
      whose own conversation id differs from the topic's is dropped; anything
      else is stored and its handlers are called. */
  function DeliverInbound(s: State, p: Primitives, topicId: JsString, payload: Option<seq<Byte>>): (r: Delivery)
    ensures Accepted(s, p, topicId, payload).None? ==> r == Delivery(s, [])
    ensures Accepted(s, p, topicId, payload).Some? ==>
              r == Delivery(StoreMessage(s, Accepted(s, p, topicId, payload).value), HandlersFor(s, topicId))
    ensures s.processed <= r.state.processed
    ensures Valid(s) ==> Valid(r.state)
  {
    match Accepted(s, p, topicId, payload)
    case None => Delivery(s, [])
    case Some(m) =>
      var t := StoreMessage(s, m);
      Delivery(t, HandlersFor(t, topicId))
  }
}
