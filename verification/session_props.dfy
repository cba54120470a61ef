/** Properties that relate several session operations: both peers of a direct
    conversation, repeated creation, deduplication and the retention window,
    the path of a message from one session to another, and revocation as the
    App shows it. */
module SessionProperties {
  import opened Results
  import opened JsStrings
  import opened Messages
  import opened Codec
  import opened AppView
  import opened ChatSession

  // ------------------------------------------------------ direct conversations

  /** Both peers derive the same direct id, whichever of them computes it. */
  lemma DirectIdSymmetric(a: JsString, b: JsString)
    ensures DirectId(a, b) == DirectId(b, a)
  {
    SortPairSymmetric(a, b);
  }

  /** Peers `a` and `b` each opening the direct conversation with the other
      get the same conversation id; when both create it afresh they also
      record the same participants and derive the same key. Names, explicit
      ids and fresh ids passed along play no part. */
  lemma DirectPeersAgree(sa: State, sb: State, p: Primitives, a: JsString, b: JsString,
                         na: Option<JsString>, nb: Option<JsString>,
                         ca: Option<JsString>, cb: Option<JsString>, fa: JsString, fb: JsString)
    requires Valid(sa) && Valid(sb)
    requires sa.identity == Some(a) && sb.identity == Some(b)
    ensures var ra := CreateConversation(sa, p, [b], Direct, na, ca, fa);
            var rb := CreateConversation(sb, p, [a], Direct, nb, cb, fb);
            && ra.Ok? && rb.Ok?
            && ra.value.conversation.id == rb.value.conversation.id
            && (ra.value.conversation.id !in sa.conversations && rb.value.conversation.id !in sb.conversations ==>
                  && ra.value.conversation.participants == rb.value.conversation.participants
                  && ra.value.state.keys[ra.value.conversation.id] == rb.value.state.keys[rb.value.conversation.id])
  {
    DirectIdSymmetric(a, b);
    SortPairSymmetric(a, b);
  }

  /** Two members joining the same group derive the same key, whatever names
      they pass: a group's key material is its id alone. */
  lemma GroupPeersAgree(sa: State, sb: State, p: Primitives, g: JsString, na: Option<JsString>, nb: Option<JsString>)
    requires Valid(sa) && Valid(sb)
    requires sa.identity.Some? && sb.identity.Some?
    requires g !in sa.conversations && g !in sb.conversations
    ensures var ra := JoinGroupConversation(sa, p, g, na);
            var rb := JoinGroupConversation(sb, p, g, nb);
            && ra.Ok? && rb.Ok?
            && g in ra.value.state.keys && g in rb.value.state.keys
            && ra.value.state.keys[g] == rb.value.state.keys[g]
  {
  }

  /** The participants of a direct conversation are stored sorted, so
      sorting them again for the key changes nothing: the key material is
      the direct id, "_" and the direct id once more. */
  lemma DirectKeyMaterial(p: Primitives, a: JsString, b: JsString, name: Option<JsString>)
    ensures var id := DirectId(a, b);
            ConversationKey(p, Conversation(id, Direct, Sort([a, b]), name))
            == Slice(p.hash(id + [Underscore] + id), KeyLength)
  {
    SortOfSorted(Sort([a, b]));
  }

  /** A direct id built from two peerIds without '-' (hex addresses) is
      classified as direct by the App. */
  lemma DirectIdsClassifiedDirect(a: JsString, b: JsString)
    requires Hyphen !in a && Hyphen !in b
    ensures IsDirectId(DirectId(a, b))
  {
    var parts := Sort([a, b]);
    forall i | 0 <= i < |parts| ensures Hyphen !in parts[i] {
      assert parts[i] in multiset([a, b]);
    }
    JoinOmits(parts, [Underscore], Hyphen);
  }

  // ------------------------------------------------------- repeated creation

  /** Creating (or joining) a conversation a second time returns the stored
      conversation and changes nothing, whatever name is passed the second
      time: nothing is merged and the number of conversations stays put. */
  lemma {:induction false} CreateIdempotent(s: State, p: Primitives, participantIds: seq<JsString>, kind: ConversationType,
                                            name: Option<JsString>, conversationId: Option<JsString>, freshId: JsString,
                                            name2: Option<JsString>)
    requires Valid(s)
    requires CreateConversation(s, p, participantIds, kind, name, conversationId, freshId).Ok?
    ensures var first := CreateConversation(s, p, participantIds, kind, name, conversationId, freshId).value;
            var again := CreateConversation(first.state, p, participantIds, kind, name2, conversationId, freshId);
            && again == Ok(first)
            && |GetAllConversations(again.value.state)| == |GetAllConversations(first.state)|
  {
    var first := CreateConversation(s, p, participantIds, kind, name, conversationId, freshId).value;
    var c := first.conversation;
    assert Valid(first.state);
    assert c.id in first.state.conversations && first.state.conversations[c.id] == c;
  }

  /** Joining a group the session already holds returns it as stored, with the
      name it was created with. */
  lemma JoinExistingKeepsName(s: State, p: Primitives, conversationId: JsString, name: Option<JsString>)
    requires Valid(s) && s.identity.Some? && conversationId in s.conversations
    ensures var r := JoinGroupConversation(s, p, conversationId, name);
            r == Ok(Opened(s, s.conversations[conversationId]))
  {
  }

  // ---------------------------------------------- deduplication and the window

  /** Storing the same message twice is the same as storing it once. */
  lemma StoreIdempotent(s: State, m: Message)
    ensures StoreMessage(StoreMessage(s, m), m) == StoreMessage(s, m)
  {
  }

  /** A deleted message cannot come back: its id stays processed, so storing
      it again changes nothing. */
  lemma DeletedStaysDeleted(s: State, m: Message)
    ensures var t := DeleteMessageLocally(StoreMessage(s, m), m.conversationId, m.id);
            && StoreMessage(t, m) == t
            && forall x :: x in GetMessages(t, m.conversationId) ==> x.id != m.id
  {
  }

  /** The window keeps the last 100 entries, in order, and trims nothing
      from a log that fits. */
  lemma WindowIsLastHundred(log: seq<Message>)
    ensures |Window(log)| == if |log| <= MaxLogLength then |log| else MaxLogLength
    ensures forall i :: 0 <= i < |Window(log)| ==> Window(log)[i] == log[|log| - |Window(log)| + i]
    ensures |log| <= MaxLogLength ==> Window(log) == log
  {
  }

  /** Cutting a log back before appending more does not change the window
      after the append. */
  lemma WindowOfWindow(x: seq<Message>, y: seq<Message>)
    ensures Window(Window(x) + y) == Window(x + y)
  {
    var w := Window(x) + y;
    var a, b := Window(w), Window(x + y);
    assert |a| == |b|;
    forall i | 0 <= i < |a| ensures a[i] == b[i] {
      var k := |w| - |a| + i;
      if k < |Window(x)| {
        assert w[k] == x[|x| - |Window(x)| + k];
      } else {
        assert w[k] == y[k - |Window(x)|];
      }
    }
  }

  /** Deleting is a filter: it distributes over concatenation, so the
      entries it keeps stay in their order. */
  lemma {:induction false} RemoveIdAppend(a: seq<Message>, b: seq<Message>, id: JsString)
    ensures RemoveId(a + b, id) == RemoveId(a, id) + RemoveId(b, id)
  {
    if |a| == 0 {
      assert a + b == b;
    } else {
      var h := if a[0].id != id then [a[0]] else [];
      calc {
        RemoveId(a + b, id);
        { ConsAppend(a, b); }
        RemoveId([a[0]] + (a[1..] + b), id);
        { RemoveIdCons(a[0], a[1..] + b, id); }
        h + RemoveId(a[1..] + b, id);
        { RemoveIdAppend(a[1..], b, id); }
        h + (RemoveId(a[1..], id) + RemoveId(b, id));
        { AppendAssoc(h, RemoveId(a[1..], id), RemoveId(b, id)); }
        (h + RemoveId(a[1..], id)) + RemoveId(b, id);
        { RemoveIdCons(a[0], a[1..], id); HeadTail(a); }
        RemoveId(a, id) + RemoveId(b, id);
      }
    }
  }

  lemma RemoveIdCons(x: Message, s: seq<Message>, id: JsString)
    ensures RemoveId([x] + s, id) == (if x.id != id then [x] else []) + RemoveId(s, id)
  {
    assert ([x] + s)[1..] == s;
  }

  /** Stores each message in turn. */
  function StoreAll(s: State, ms: seq<Message>): State
    decreases |ms|
  {
    if |ms| == 0 then s else StoreAll(StoreMessage(s, ms[0]), ms[1..])
  }

  /** The messages of a run are all new and all of conversation `c`. */
  predicate FreshRun(processed: set<JsString>, c: JsString, ms: seq<Message>) {
    && UniqueIds(ms)
    && forall i :: 0 <= i < |ms| ==> ms[i].conversationId == c && ms[i].id !in processed
  }

  lemma FreshRunTail(processed: set<JsString>, c: JsString, ms: seq<Message>)
    requires |ms| > 0 && FreshRun(processed, c, ms)
    ensures FreshRun(processed + {ms[0].id}, c, ms[1..])
  {
    forall i | 0 <= i < |ms| - 1
      ensures ms[1..][i].conversationId == c && ms[1..][i].id !in processed + {ms[0].id}
    {
      assert ms[1..][i] == ms[i + 1];
    }
    forall i, j | 0 <= i < j < |ms| - 1 ensures ms[1..][i].id != ms[1..][j].id {
      assert ms[1..][i] == ms[i + 1] && ms[1..][j] == ms[j + 1];
    }
  }

  lemma SplitFirst(log: seq<Message>, ms: seq<Message>)
    requires |ms| > 0
    ensures log + [ms[0]] + ms[1..] == log + ms
  {
    assert ms == [ms[0]] + ms[1..];
  }

  /** Storing a run of new messages of one conversation, one after another,
      keeps exactly the last 100 of the old log followed by the run. */
  lemma {:induction false} StoreAllWindow(s: State, c: JsString, ms: seq<Message>)
    requires |GetMessages(s, c)| <= MaxLogLength
    requires FreshRun(s.processed, c, ms)
    ensures GetMessages(StoreAll(s, ms), c) == Window(GetMessages(s, c) + ms)
    decreases |ms|
  {
    var log := GetMessages(s, c);
    if |ms| == 0 {
      assert log + ms == log;
    } else {
      var s1 := StoreMessage(s, ms[0]);
      var w := Window(log + [ms[0]]);
      assert GetMessages(s1, c) == w;
      FreshRunTail(s.processed, c, ms);
      StoreAllWindow(s1, c, ms[1..]);
      WindowOfWindow(log + [ms[0]], ms[1..]);
      SplitFirst(log, ms);
      calc {
        GetMessages(StoreAll(s, ms), c);
        GetMessages(StoreAll(s1, ms[1..]), c);
        Window(w + ms[1..]);
        Window(log + ms);
      }
    }
  }

  /** Two new messages of one conversation arriving in either order leave
      logs with the same entries, also when the window evicts old ones; the
      App then shows the same entries with the same flags. */
  lemma ArrivalOrderIrrelevant(s: State, m: Message, t: Message)
    requires m.conversationId == t.conversationId && m.id != t.id
    requires m.id !in s.processed && t.id !in s.processed
    ensures var c := m.conversationId;
            var mt := GetMessages(StoreMessage(StoreMessage(s, m), t), c);
            var tm := GetMessages(StoreMessage(StoreMessage(s, t), m), c);
            && multiset(mt) == multiset(tm)
            && RevokedIds(mt) == RevokedIds(tm)
            && multiset(GetDisplayMessages(mt)) == multiset(GetDisplayMessages(tm))
  {
    var c := m.conversationId;
    var log := GetMessages(s, c);
    var mt := GetMessages(StoreMessage(StoreMessage(s, m), t), c);
    var tm := GetMessages(StoreMessage(StoreMessage(s, t), m), c);
    WindowOfWindow(log + [m], [t]);
    WindowOfWindow(log + [t], [m]);
    assert mt == Window(log + [m] + [t]);
    assert tm == Window(log + [t] + [m]);
    WindowSwapLast(log, m, t);
    DisplayPermutationInvariant(mt, tm);
  }

  /** Swapping the last two entries before cutting back to the window gives
      the same entries. */
  lemma WindowSwapLast(x: seq<Message>, a: Message, b: Message)
    ensures multiset(Window(x + [a] + [b])) == multiset(Window(x + [b] + [a]))
  {
    var y, z := x + [a] + [b], x + [b] + [a];
    var k := if |y| > MaxLogLength then |y| - MaxLogLength else 0;
    SuffixOfAppendTwo(x, a, b, k);
    SuffixOfAppendTwo(x, b, a, k);
    SwapLastTwo(x[k..], a, b);
  }

  lemma SuffixOfAppendTwo<T>(x: seq<T>, a: T, b: T, k: nat)
    requires k <= |x|
    ensures (x + [a] + [b])[k..] == x[k..] + [a] + [b]
  {
  }

  lemma SwapLastTwo<T>(u: seq<T>, a: T, b: T)
    ensures multiset(u + [a] + [b]) == multiset(u + [b] + [a])
  {
  }

  /** Delivering the same network message twice stores it once; the handlers
      are called both times, since the source notifies after the store
      whether or not it stored anything. */
  lemma DeliverTwice(s: State, p: Primitives, topicId: JsString, payload: Option<seq<Byte>>)
    ensures var first := DeliverInbound(s, p, topicId, payload);
            var second := DeliverInbound(first.state, p, topicId, payload);
            && second.state == first.state
            && second.notified == first.notified
  {
    var first := DeliverInbound(s, p, topicId, payload);
    if Readable(s, topicId, payload) {
      assert first.state.keys == s.keys;
      assert Decoded(first.state, p, topicId, payload) == Decoded(s, p, topicId, payload);
    }
  }

  // ------------------------------------------------------ end-to-end delivery

  /** A message encrypted with the key a session holds for the message's own
      conversation, arriving on that conversation's topic, is accepted and
      stored with its signature and MAC and without ciphertext, and the
      conversation's handlers are called. */
  lemma DeliverEncrypted(s: State, p: Primitives, m: Message, key: JsString)
    requires ValidPrimitives(p)
    requires m.mac.None? && m.payload.None?
    requires m.conversationId in s.keys && s.keys[m.conversationId] == key && key != []
    ensures var e := Encrypt(p, m, key);
            DeliverInbound(s, p, m.conversationId, e.payload)
            == Delivery(StoreMessage(s, e.(payload := None)), HandlersFor(s, m.conversationId))
  {
    DecryptEncrypted(p, m, key);
  }

  /** A message encrypted with the topic's key is accepted exactly when it
      names the topic's conversation as its own, and then as the sender
      authenticated it, less its ciphertext. */
  lemma AcceptedEncrypted(s: State, p: Primitives, m: Message, key: JsString, topicId: JsString)
    requires ValidPrimitives(p)
    requires m.mac.None? && m.payload.None?
    requires topicId in s.keys && s.keys[topicId] == key && key != []
    ensures var e := Encrypt(p, m, key);
            Accepted(s, p, topicId, e.payload)
            == if m.conversationId == topicId then Some(e.(payload := None)) else None
  {
    DecryptEncrypted(p, m, key);
  }

  /** A message that names another conversation than the topic it arrives on
      is dropped, even though it decrypts and authenticates. */
  lemma DeliverMismatchDropped(s: State, p: Primitives, m: Message, key: JsString, topicId: JsString)
    requires ValidPrimitives(p)
    requires m.mac.None? && m.payload.None?
    requires topicId in s.keys && s.keys[topicId] == key && key != []
    requires m.conversationId != topicId
    ensures DeliverInbound(s, p, topicId, Encrypt(p, m, key).payload) == Delivery(s, [])
  {
    DecryptEncrypted(p, m, key);
  }

  /** What one session sends reaches another session holding the same key for
      the conversation: the receiver stores the sent message (less its
      ciphertext) as the last entry of its log, and calls its handlers. */
  lemma SendThenDeliver(sa: State, sb: State, p: Primitives, c: JsString, content: JsString,
                        freshId: JsString, now: int)
    requires ValidPrimitives(p)
    requires SendMessage(sa, p, c, content, freshId, now).Ok?
    requires c in sa.keys && c in sb.keys && sb.keys[c] == sa.keys[c] && sa.keys[c] != []
    requires freshId !in sb.processed
    ensures var sent := SendMessage(sa, p, c, content, freshId, now).value;
            var got := DeliverInbound(sb, p, c, sent.message.payload);
            var log := GetMessages(got.state, c);
            && got.notified == HandlersFor(sb, c)
            && 0 < |log| && log[|log| - 1] == sent.message.(payload := None)
            && log[|log| - 1].sender == sa.identity.value
            && log[|log| - 1].content == content
  {
    var sent := SendMessage(sa, p, c, content, freshId, now).value;
    var m := sent.message.(signature := None, mac := None, payload := None);
    assert sent.message == Encrypt(p, m, sa.keys[c]);
    DeliverEncrypted(sb, p, m, sa.keys[c]);
  }

  // ------------------------------------------------------------- revocation

  /** Appending to a log within the window keeps its last entry, now second to last. */
  lemma WindowKeepsLast(log: seq<Message>, t: Message)
    requires 0 < |log| <= MaxLogLength
    ensures var w := Window(log + [t]);
            |w| >= 2 && w[|w| - 1] == t && w[|w| - 2] == log[|log| - 1]
  {
  }

  /** The message a session has just sent is the last entry of its log. */
  lemma SentIsLast(s: State, p: Primitives, c: JsString, content: JsString, id: JsString, now: int)
    returns (sent: Sent)
    requires Valid(s) && s.identity.Some? && c in s.conversations && id !in s.processed
    ensures SendMessage(s, p, c, content, id, now) == Ok(sent)
    ensures var log := GetMessages(sent.state, c);
            && Valid(sent.state) && sent.state.identity == s.identity && c in sent.state.conversations
            && 0 < |log| <= MaxLogLength && log[|log| - 1] == sent.message
            && sent.message.id == id && sent.message.sender == s.identity.value && sent.message.kind == Text
            && sent.state.processed == s.processed + {id}
            && log == Window(GetMessages(s, c) + [sent.message])
  {
    sent := SendMessage(s, p, c, content, id, now).value;
    assert LogValid(GetMessages(sent.state, c), c, sent.state.processed);
  }

  /** Revoking one's own message that is in the log is allowed; the tombstone
      is stored like any message. */
  lemma RevokeOwnAllowed(s: State, p: Primitives, c: JsString, m: Message, id: JsString, now: int)
    returns (rev: Sent)
    requires Valid(s) && s.identity.Some? && c in s.conversations
    requires m in GetMessages(s, c) && m.sender == s.identity.value
    ensures RevokeMessage(s, p, c, m.id, id, now) == Ok(rev)
    ensures rev.state == StoreMessage(s, rev.message)
    ensures rev.message.id == id && rev.message.conversationId == c
    ensures Revokes(rev.message, m.id)
  {
    var log := GetMessages(s, c);
    assert LogValid(log, c, s.processed);
    forall x | x in log && x.id == m.id ensures x.sender == s.identity.value {
      var i :| 0 <= i < |log| && log[i] == x;
      var j :| 0 <= j < |log| && log[j] == m;
      assert i == j;
    }
    rev := RevokeMessage(s, p, c, m.id, id, now).value;
  }

  /** A session that sends a message and then revokes it keeps both in its
      log; the App lists the message flagged as revoked, and the test helper
      no longer shows it. The tombstone itself is listed only when an earlier
      entry already targeted the tombstone's fresh id. */
  lemma {:induction false} RevokeOwnMessage(s: State, p: Primitives, c: JsString, content: JsString,
                                            id1: JsString, t1: int, id2: JsString, t2: int)
    returns (sent: Sent, rev: Sent)
    requires Valid(s) && s.identity.Some? && c in s.conversations
    requires id1 !in s.processed && id2 !in s.processed && id1 != id2
    ensures SendMessage(s, p, c, content, id1, t1) == Ok(sent)
    ensures RevokeMessage(sent.state, p, c, id1, id2, t2) == Ok(rev)
    ensures ShownRevoked(GetMessages(rev.state, c), sent.message, rev.message)
    ensures (forall x :: x in GetMessages(s, c) ==> !Revokes(x, id2)) ==>
              TombstoneHidden(GetMessages(rev.state, c), rev.message)
  {
    sent := SentIsLast(s, p, c, content, id1, t1);
    var log0 := GetMessages(s, c);
    var log1 := GetMessages(sent.state, c);
    rev := RevokeOwnAllowed(sent.state, p, c, sent.message, id2, t2);
    assert id2 !in sent.state.processed;
    assert GetMessages(rev.state, c) == Window(log1 + [rev.message]);
    RevocationShown(log1, sent.message, rev.message);
    NoRevokerAfterText(log0, sent.message, id2);
  }

  /** Once a tombstone for the last entry of a log is appended, the App lists
      that entry flagged and the test helper drops it; the App hides the
      tombstone unless some entry targets the tombstone's own id. */
  lemma RevocationShown(log: seq<Message>, m: Message, t: Message)
    requires 0 < |log| <= MaxLogLength && log[|log| - 1] == m
    requires m.kind != Tombstone && Revokes(t, m.id)
    ensures ShownRevoked(Window(log + [t]), m, t)
    ensures t.id != m.id && (forall x :: x in log ==> !Revokes(x, t.id)) ==> TombstoneHidden(Window(log + [t]), t)
  {
    var w := Window(log + [t]);
    WindowKeepsLast(log, t);
    ViewsDifferOnRevoked(w, m);
    if t.id != m.id && forall x :: x in log ==> !Revokes(x, t.id) {
      WindowWithin(log + [t]);
      assert forall x :: x in w ==> !Revokes(x, t.id);
      assert t.id !in RevokedIds(w);
    }
  }

  /** Appending a text message adds no entry that revokes `id`. */
  lemma NoRevokerAfterText(log: seq<Message>, m: Message, id: JsString)
    requires m.kind == Text
    ensures (forall x :: x in log ==> !Revokes(x, id)) ==>
              forall x :: x in Window(log + [m]) ==> !Revokes(x, id)
  {
    WindowWithin(log + [m]);
  }

  /** Every entry of the window is an entry of the log it was cut from. */
  lemma WindowWithin(log: seq<Message>)
    ensures forall x :: x in Window(log) ==> x in log
  {
    if |log| > MaxLogLength {
      var k := |log| - MaxLogLength;
      forall x | x in log[k..] ensures x in log {
        var i :| 0 <= i < |log| - k && log[k..][i] == x;
        assert log[k + i] == x;
      }
    }
  }

  /** The App does not list tombstone `t` in this log. */
  predicate TombstoneHidden(log: seq<Message>, t: Message) {
    forall d :: d in GetDisplayMessages(log) ==> d.message != t
  }

  /** Log `log` holds message `m` and tombstone `t`; the App lists `m`
      flagged as revoked and the test helper does not show it. */
  predicate ShownRevoked(log: seq<Message>, m: Message, t: Message) {
    && m in log && t in log
    && DisplayMessage(m, true) in GetDisplayMessages(log)
    && m !in FilterVisibleMessages(log)
  }

  // ------------------------------------------------------------------ leaving

  /** Local teardown leaves every other conversation reading as before. */
  lemma RemoveKeepsOthers(s: State, c: JsString, x: JsString)
    requires x != c
    ensures var t := RemoveConversationLocally(s, c);
            && GetConversation(t, x) == GetConversation(s, x)
            && GetMessages(t, x) == GetMessages(s, x)
            && HandlersFor(t, x) == HandlersFor(s, x)
  {
  }

  /** Dropping an id from the creation order distributes over concatenation,
      so the remaining conversations keep their relative order. */
  lemma {:induction false} WithoutAppend(a: seq<JsString>, b: seq<JsString>, c: JsString)
    ensures Without(a + b, c) == Without(a, c) + Without(b, c)
  {
    if |a| == 0 {
      assert a + b == b;
    } else {
      var h := if a[0] != c then [a[0]] else [];
      calc {
        Without(a + b, c);
        { ConsAppend(a, b); }
        Without([a[0]] + (a[1..] + b), c);
        { WithoutCons(a[0], a[1..] + b, c); }
        h + Without(a[1..] + b, c);
        { WithoutAppend(a[1..], b, c); }
        h + (Without(a[1..], c) + Without(b, c));
        { AppendAssoc(h, Without(a[1..], c), Without(b, c)); }
        (h + Without(a[1..], c)) + Without(b, c);
        { WithoutCons(a[0], a[1..], c); HeadTail(a); }
        Without(a, c) + Without(b, c);
      }
    }
  }

  lemma WithoutCons(x: JsString, s: seq<JsString>, c: JsString)
    ensures Without([x] + s, c) == (if x != c then [x] else []) + Without(s, c)
  {
    assert ([x] + s)[1..] == s;
  }

  /** After leaving, the conversation is gone from every getter, every other
      conversation reads as before, and messages still arriving on its topic
      are ignored because its key is gone. */
  lemma {:induction false} LeaveTearsDown(s: State, p: Primitives, c: JsString, freshId: JsString, now: int,
                                          payload: Option<seq<Byte>>)
    requires Valid(s)
    requires LeaveConversation(s, p, c, freshId, now).Ok?
    ensures var t := LeaveConversation(s, p, c, freshId, now).value.state;
            && GetConversation(t, c) == None
            && GetMessages(t, c) == []
            && (forall k :: 0 <= k < |GetAllConversations(t)| ==> GetAllConversations(t)[k].id != c)
            && (forall x :: x != c ==>
                  && GetConversation(t, x) == GetConversation(s, x)
                  && GetMessages(t, x) == GetMessages(s, x)
                  && HandlersFor(t, x) == HandlersFor(s, x))
            && DeliverInbound(t, p, c, payload) == Delivery(t, [])
  {
    assert LeaveConversation(s, p, c, freshId, now).value.state == RemoveConversationLocally(s, c);
    TornDown(s, p, c, payload);
  }

  /** The local teardown `leaveConversation` ends with, stated on its own. */
  lemma TornDown(s: State, p: Primitives, c: JsString, payload: Option<seq<Byte>>)
    requires Valid(s)
    ensures var t := RemoveConversationLocally(s, c);
            && GetConversation(t, c) == None
            && GetMessages(t, c) == []
            && (forall k :: 0 <= k < |GetAllConversations(t)| ==> GetAllConversations(t)[k].id != c)
            && (forall x :: x != c ==>
                  && GetConversation(t, x) == GetConversation(s, x)
                  && GetMessages(t, x) == GetMessages(s, x)
                  && HandlersFor(t, x) == HandlersFor(s, x))
            && DeliverInbound(t, p, c, payload) == Delivery(t, [])
  {
    TornDownListing(s, c);
    TornDownOthers(s, c);
    TornDownDeaf(s, p, c, payload);
  }

  lemma TornDownListing(s: State, c: JsString)
    requires Valid(s)
    ensures var t := RemoveConversationLocally(s, c);
            forall k :: 0 <= k < |GetAllConversations(t)| ==> GetAllConversations(t)[k].id != c
  {
    var t := RemoveConversationLocally(s, c);
    assert Valid(t);
    ListingIds(t);
    var all := GetAllConversations(t);
    forall k | 0 <= k < |all| ensures all[k].id != c {
      assert t.order[k] in t.order;
    }
  }

  /** Under the invariant, entry k of the listing is the conversation with
      id k of the creation order. */
  lemma ListingIds(t: State)
    requires Valid(t)
    ensures |GetAllConversations(t)| == |t.order|
    ensures forall k :: 0 <= k < |t.order| ==> GetAllConversations(t)[k].id == t.order[k]
  {
    var all := GetAllConversations(t);
    forall k | 0 <= k < |t.order| ensures all[k].id == t.order[k] {
      assert t.order[k] in t.conversations;
    }
  }

  lemma TornDownOthers(s: State, c: JsString)
    ensures var t := RemoveConversationLocally(s, c);
            forall x :: x != c ==>
              && GetConversation(t, x) == GetConversation(s, x)
              && GetMessages(t, x) == GetMessages(s, x)
              && HandlersFor(t, x) == HandlersFor(s, x)
  {
    var t := RemoveConversationLocally(s, c);
    forall x | x != c
      ensures GetConversation(t, x) == GetConversation(s, x)
      ensures GetMessages(t, x) == GetMessages(s, x)
      ensures HandlersFor(t, x) == HandlersFor(s, x)
    {
      RemoveKeepsOthers(s, c, x);
    }
  }

  lemma TornDownDeaf(s: State, p: Primitives, c: JsString, payload: Option<seq<Byte>>)
    ensures var t := RemoveConversationLocally(s, c);
            DeliverInbound(t, p, c, payload) == Delivery(t, [])
  {
  }

  // -------------------------------------------------------------- subscribing

  /** Subscribing the same handler twice registers it once. */
  lemma SubscribeIdempotent(s: State, c: JsString, h: HandlerId)
    ensures Subscribe(Subscribe(s, c, h), c, h) == Subscribe(s, c, h)
  {
  }

  /** A new session satisfies the invariant, and every operation preserves it,
      so every reachable state does. */
  lemma EmptySessionValid()
    ensures Valid(EmptySession)
  {
  }
}
