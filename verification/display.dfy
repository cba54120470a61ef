/** The revocation projections of a conversation's message log, and the
    App's direct/group classification of conversation ids.

    Two projections exist side by side: the App's `getDisplayMessages` keeps a
    revoked message and flags it, while the visibility helper the integration
    tests use drops it. Both are modelled, and the lemmas at the end relate them. */
module AppView {
  import opened JsStrings
  import opened Messages
  import opened Results

  /** A message as the App lists it: every field of the message, plus `isRevoked`. */
  datatype DisplayMessage = DisplayMessage(message: Message, isRevoked: bool)

  /** `t` is a tombstone whose `tombstoneFor` is `id`. */
  predicate Revokes(t: Message, id: JsString) {
    t.kind == Tombstone && t.tombstoneFor == Some(id)
  }

  /** `revokedMessageIds`: the targets of the tombstones in the log. A
      tombstone without a target contributes `undefined`, which equals no id. */
  function RevokedIds(msgs: seq<Message>): (r: set<JsString>)
    ensures forall id :: id in r <==> exists t :: t in msgs && Revokes(t, id)
  {
    set t | t in msgs && t.kind == Tombstone && t.tombstoneFor.Some? :: t.tombstoneFor.value
  }

  /** The filter of `getDisplayMessages`: tombstones are dropped unless their
      own id is itself revoked. */
  predicate Shown(m: Message, revoked: set<JsString>) {
    m.kind != Tombstone || m.id in revoked
  }

  /** The filter and the map of `getDisplayMessages`, in log order. */
  function Annotate(msgs: seq<Message>, revoked: set<JsString>): (r: seq<DisplayMessage>)
    ensures forall d :: d in r ==> d.message in msgs && Shown(d.message, revoked)
                                   && d.isRevoked == (d.message.id in revoked)
  {
    if |msgs| == 0 then []
    else
      (if Shown(msgs[0], revoked) then [DisplayMessage(msgs[0], msgs[0].id in revoked)] else [])
      + Annotate(msgs[1..], revoked)
  }

  /** Each message of the log is listed once per occurrence when shown, and
      not at all otherwise, with the flag its id calls for. */
  lemma {:induction false} AnnotateCount(msgs: seq<Message>, revoked: set<JsString>, d: DisplayMessage)
    ensures multiset(Annotate(msgs, revoked))[d]
            == if Shown(d.message, revoked) && d.isRevoked == (d.message.id in revoked)
               then multiset(msgs)[d.message] else 0
  {
    if |msgs| > 0 {
      AnnotateCount(msgs[1..], revoked, d);
      assert msgs == [msgs[0]] + msgs[1..];
    }
  }

  function Ts(d: DisplayMessage): int {
    d.message.timestamp
  }

  predicate SortedByTime(ds: seq<DisplayMessage>) {
    forall i, j :: 0 <= i < j < |ds| ==> Ts(ds[i]) <= Ts(ds[j])
  }

  /** Inserts `x` after every element whose timestamp is not later than its own. */
  function InsertByTime(x: DisplayMessage, s: seq<DisplayMessage>): (r: seq<DisplayMessage>)
    ensures |r| == |s| + 1
    ensures multiset(r) == multiset(s) + multiset{x}
  {
    if |s| == 0 then [x]
    else if Ts(x) < Ts(s[0]) then [x] + s
    else
      assert s == [s[0]] + s[1..];
      [s[0]] + InsertByTime(x, s[1..])
  }

  lemma {:induction false} InsertByTimeSorted(x: DisplayMessage, s: seq<DisplayMessage>)
    requires SortedByTime(s)
    ensures SortedByTime(InsertByTime(x, s))
  {
    if |s| > 0 && Ts(s[0]) <= Ts(x) {
      var rest := InsertByTime(x, s[1..]);
      InsertByTimeSorted(x, s[1..]);
      forall j | 0 <= j < |rest|
        ensures Ts(s[0]) <= Ts(rest[j])
      {
        assert rest[j] in multiset(rest);
        assert rest[j] == x || rest[j] in multiset(s[1..]);
      }
      assert InsertByTime(x, s) == [s[0]] + rest;
    }
  }

  /** `sort((a, b) => a.timestamp - b.timestamp)`: a stable sort by timestamp,
      built by inserting each element after the ones before it. */
  function SortByTime(ds: seq<DisplayMessage>): (r: seq<DisplayMessage>)
    ensures |r| == |ds|
    ensures multiset(r) == multiset(ds)
    ensures SortedByTime(r)
  {
    if |ds| == 0 then []
    else
      assert ds == ds[..|ds| - 1] + [ds[|ds| - 1]];
      InsertByTimeSorted(ds[|ds| - 1], SortByTime(ds[..|ds| - 1]));
      InsertByTime(ds[|ds| - 1], SortByTime(ds[..|ds| - 1]))
  }

  /** The elements with timestamp `t`, in order. */
  function OfTime(ds: seq<DisplayMessage>, t: int): seq<DisplayMessage> {
    if |ds| == 0 then []
    else (if Ts(ds[0]) == t then [ds[0]] else []) + OfTime(ds[1..], t)
  }

  lemma {:induction false} OfTimeAppend(a: seq<DisplayMessage>, b: seq<DisplayMessage>, t: int)
    ensures OfTime(a + b, t) == OfTime(a, t) + OfTime(b, t)
  {
    if |a| == 0 {
      assert a + b == b;
    } else {
      var h := if Ts(a[0]) == t then [a[0]] else [];
      calc {
        OfTime(a + b, t);
        { ConsAppend(a, b); }
        OfTime([a[0]] + (a[1..] + b), t);
        { OfTimeCons(a[0], a[1..] + b, t); }
        h + OfTime(a[1..] + b, t);
        { OfTimeAppend(a[1..], b, t); }
        h + (OfTime(a[1..], t) + OfTime(b, t));
        { AppendAssoc(h, OfTime(a[1..], t), OfTime(b, t)); }
        (h + OfTime(a[1..], t)) + OfTime(b, t);
        { OfTimeCons(a[0], a[1..], t); HeadTail(a); }
        OfTime(a, t) + OfTime(b, t);
      }
    }
  }

  lemma {:induction false} OfTimeAbsent(s: seq<DisplayMessage>, t: int)
    requires forall i :: 0 <= i < |s| ==> Ts(s[i]) != t
    ensures OfTime(s, t) == []
  {
    if |s| > 0 {
      OfTimeAbsent(s[1..], t);
    }
  }

  lemma OfTimeCons(a: DisplayMessage, s: seq<DisplayMessage>, t: int)
    ensures OfTime([a] + s, t) == (if Ts(a) == t then [a] else []) + OfTime(s, t)
  {
    assert ([a] + s)[1..] == s;
  }

  lemma SortedTail(s: seq<DisplayMessage>)
    requires |s| > 0 && SortedByTime(s)
    ensures SortedByTime(s[1..])
    ensures forall i :: 0 <= i < |s| ==> Ts(s[0]) <= Ts(s[i])
  {
  }

  lemma {:induction false} InsertOfTime(x: DisplayMessage, s: seq<DisplayMessage>, t: int)
    requires SortedByTime(s)
    ensures OfTime(InsertByTime(x, s), t) == OfTime(s, t) + (if Ts(x) == t then [x] else [])
  {
    if |s| == 0 {
      OfTimeCons(x, [], t);
      assert [x] + [] == [x];
    } else if Ts(x) < Ts(s[0]) {
      InsertOfTimeFront(x, s, t);
    } else {
      SortedTail(s);
      InsertOfTime(x, s[1..], t);
      InsertOfTimeStep(x, s, t);
    }
  }

  /** The case of `InsertOfTime` where `x` goes in front: no element of `s`
      shares its timestamp. */
  lemma InsertOfTimeFront(x: DisplayMessage, s: seq<DisplayMessage>, t: int)
    requires SortedByTime(s) && |s| > 0 && Ts(x) < Ts(s[0])
    ensures OfTime(InsertByTime(x, s), t) == OfTime(s, t) + (if Ts(x) == t then [x] else [])
  {
    OfTimeCons(x, s, t);
    if Ts(x) == t {
      SortedTail(s);
      OfTimeAbsent(s, t);
      assert OfTime(InsertByTime(x, s), t) == [x];
    }
  }

  /** The step of `InsertOfTime` where `x` goes past the head of `s`. */
  lemma InsertOfTimeStep(x: DisplayMessage, s: seq<DisplayMessage>, t: int)
    requires |s| > 0 && Ts(s[0]) <= Ts(x)
    requires OfTime(InsertByTime(x, s[1..]), t) == OfTime(s[1..], t) + (if Ts(x) == t then [x] else [])
    ensures OfTime(InsertByTime(x, s), t) == OfTime(s, t) + (if Ts(x) == t then [x] else [])
  {
    var rest := InsertByTime(x, s[1..]);
    var head := if Ts(s[0]) == t then [s[0]] else [];
    var tail := if Ts(x) == t then [x] else [];
    calc {
      OfTime(InsertByTime(x, s), t);
      OfTime([s[0]] + rest, t);
      { OfTimeCons(s[0], rest, t); }
      head + OfTime(rest, t);
      head + (OfTime(s[1..], t) + tail);
      (head + OfTime(s[1..], t)) + tail;
      OfTime(s, t) + tail;
    }
  }

  /** Stability: among elements with equal timestamps the sort keeps the input order. */
  lemma {:induction false} SortByTimeStable(ds: seq<DisplayMessage>, t: int)
    ensures OfTime(SortByTime(ds), t) == OfTime(ds, t)
    decreases |ds|
  {
    if |ds| > 0 {
      var init, last := ds[..|ds| - 1], ds[|ds| - 1];
      var tail := if Ts(last) == t then [last] else [];
      calc {
        OfTime(SortByTime(ds), t);
        OfTime(InsertByTime(last, SortByTime(init)), t);
        { InsertOfTime(last, SortByTime(init), t); }
        OfTime(SortByTime(init), t) + tail;
        { SortByTimeStable(init, t); }
        OfTime(init, t) + tail;
        { OfTimeCons(last, [], t); }
        OfTime(init, t) + OfTime([last], t);
        { OfTimeAppend(init, [last], t); }
        OfTime(init + [last], t);
        { SplitLast(ds); }
        OfTime(ds, t);
      }
    }
  }

  /** `getDisplayMessages`. */
  function GetDisplayMessages(msgs: seq<Message>): (r: seq<DisplayMessage>)
    ensures |msgs| == 0 ==> r == []
    ensures SortedByTime(r)
    ensures forall d :: d in r ==> d.message in msgs && Shown(d.message, RevokedIds(msgs))
    ensures forall d :: d in r ==> (d.isRevoked <==> exists t :: t in msgs && Revokes(t, d.message.id))
  {
    if |msgs| == 0 then []
    else
      var listed := Annotate(msgs, RevokedIds(msgs));
      var sorted := SortByTime(listed);
      assert forall d :: d in sorted ==> d in multiset(listed);
      sorted
  }

  /** Exactly which entries the App lists, and how often: each shown message
      once per occurrence in the log, flagged as its id calls for. */
  lemma DisplayCount(msgs: seq<Message>, d: DisplayMessage)
    ensures var revoked := RevokedIds(msgs);
            multiset(GetDisplayMessages(msgs))[d]
            == if Shown(d.message, revoked) && d.isRevoked == (d.message.id in revoked)
               then multiset(msgs)[d.message] else 0
  {
    AnnotateCount(msgs, RevokedIds(msgs), d);
  }

  /** Among entries with the same timestamp the App keeps log order. */
  lemma DisplayStable(msgs: seq<Message>, t: int)
    ensures OfTime(GetDisplayMessages(msgs), t) == OfTime(Annotate(msgs, RevokedIds(msgs)), t)
  {
    SortByTimeStable(Annotate(msgs, RevokedIds(msgs)), t);
  }

  /** Arrival order does not matter: two logs holding the same messages revoke
      the same ids and list the same entries with the same flags. */
  lemma DisplayPermutationInvariant(a: seq<Message>, b: seq<Message>)
    requires multiset(a) == multiset(b)
    ensures RevokedIds(a) == RevokedIds(b)
    ensures multiset(GetDisplayMessages(a)) == multiset(GetDisplayMessages(b))
  {
    SameMessagesSameRevoked(a, b);
    forall d
      ensures multiset(GetDisplayMessages(a))[d] == multiset(GetDisplayMessages(b))[d]
    {
      DisplayCount(a, d);
      DisplayCount(b, d);
    }
  }

  lemma SameMessagesSameRevoked(a: seq<Message>, b: seq<Message>)
    requires multiset(a) == multiset(b)
    ensures RevokedIds(a) == RevokedIds(b)
  {
    forall m | m in a ensures m in b {
      assert m in multiset(a);
    }
    forall m | m in b ensures m in a {
      assert m in multiset(b);
    }
  }

  /** `t` revokes `m` in the sense of the test helper: `t.tombstoneFor === m.id`. */
  predicate RevokedIn(msgs: seq<Message>, m: Message) {
    exists t :: t in msgs && Revokes(t, m.id)
  }

  /** The filter of the test helper, judging each message against the whole log `all`. */
  function VisibleAmong(all: seq<Message>, s: seq<Message>): (r: seq<Message>)
    ensures forall m :: m in r <==> m in s && m.kind != Tombstone && !RevokedIn(all, m)
    ensures |r| <= |s|
  {
    if |s| == 0 then []
    else
      (if s[0].kind != Tombstone && !RevokedIn(all, s[0]) then [s[0]] else [])
      + VisibleAmong(all, s[1..])
  }

  /** The visibility filter distributes over concatenation, so the kept
      messages stay in log order. */
  lemma {:induction false} VisibleAmongAppend(all: seq<Message>, a: seq<Message>, b: seq<Message>)
    ensures VisibleAmong(all, a + b) == VisibleAmong(all, a) + VisibleAmong(all, b)
  {
    if |a| == 0 {
      assert a + b == b;
    } else {
      var h := if a[0].kind != Tombstone && !RevokedIn(all, a[0]) then [a[0]] else [];
      calc {
        VisibleAmong(all, a + b);
        { ConsAppend(a, b); }
        VisibleAmong(all, [a[0]] + (a[1..] + b));
        { VisibleAmongCons(all, a[0], a[1..] + b); }
        h + VisibleAmong(all, a[1..] + b);
        { VisibleAmongAppend(all, a[1..], b); }
        h + (VisibleAmong(all, a[1..]) + VisibleAmong(all, b));
        { AppendAssoc(h, VisibleAmong(all, a[1..]), VisibleAmong(all, b)); }
        (h + VisibleAmong(all, a[1..])) + VisibleAmong(all, b);
        { VisibleAmongCons(all, a[0], a[1..]); HeadTail(a); }
        VisibleAmong(all, a) + VisibleAmong(all, b);
      }
    }
  }

  lemma VisibleAmongCons(all: seq<Message>, x: Message, s: seq<Message>)
    ensures VisibleAmong(all, [x] + s) == (if x.kind != Tombstone && !RevokedIn(all, x) then [x] else []) + VisibleAmong(all, s)
  {
    assert ([x] + s)[1..] == s;
  }

  /** `filterVisibleMessages` of the integration tests: tombstones and
      revoked messages are both dropped. */
  function FilterVisibleMessages(msgs: seq<Message>): (r: seq<Message>)
    ensures forall m :: m in r <==> m in msgs && m.kind != Tombstone && !RevokedIn(msgs, m)
    ensures |r| <= |msgs|
  {
    VisibleAmong(msgs, msgs)
  }

  /** The two projections agree on what is plainly visible: a message passes
      the test helper exactly when the App lists it unflagged, and neither
      lists a tombstone as an ordinary entry. */
  lemma ViewsAgree(msgs: seq<Message>, m: Message)
    ensures m in FilterVisibleMessages(msgs) <==> DisplayMessage(m, false) in GetDisplayMessages(msgs)
    ensures m in FilterVisibleMessages(msgs) ==> m.kind != Tombstone
    ensures forall d :: d in GetDisplayMessages(msgs) && d.message.kind == Tombstone ==> d.isRevoked
  {
    DisplayCount(msgs, DisplayMessage(m, false));
    assert m in msgs <==> m in multiset(msgs);
    assert DisplayMessage(m, false) in GetDisplayMessages(msgs)
       <==> DisplayMessage(m, false) in multiset(GetDisplayMessages(msgs));
  }

  /** Where they differ: a revoked message is dropped by the test helper but
      kept, flagged, by the App. */
  lemma ViewsDifferOnRevoked(msgs: seq<Message>, m: Message)
    requires m in msgs && m.kind != Tombstone && RevokedIn(msgs, m)
    ensures m !in FilterVisibleMessages(msgs)
    ensures DisplayMessage(m, true) in GetDisplayMessages(msgs)
  {
    DisplayCount(msgs, DisplayMessage(m, true));
    assert m in multiset(msgs);
    assert DisplayMessage(m, true) in multiset(GetDisplayMessages(msgs));
  }

  /** `!conversationId.includes("-")`: the App treats an unknown conversation
      id without a hyphen as a direct conversation, and any other as a group. */
  predicate IsDirectId(conversationId: JsString)
    ensures IsDirectId(conversationId) <==> forall i :: 0 <= i < |conversationId| ==> conversationId[i] != Hyphen
  {
    Hyphen !in conversationId
  }
}
