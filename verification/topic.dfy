/** Content-topic naming: one transport topic per conversation. */
module Topics {
  import opened JsStrings

  /** `/[a-zA-Z0-9_-]/`: the code units a topic segment may keep. */
  predicate IsSafe(u: CodeUnit) {
    || 0x41 <= u <= 0x5A   // A-Z
    || 0x61 <= u <= 0x7A   // a-z
    || 0x30 <= u <= 0x39   // 0-9
    || u == Underscore
    || u == Hyphen
  }

  predicate AllSafe(s: JsString) {
    forall i :: 0 <= i < |s| ==> IsSafe(s[i])
  }

  const Slash: CodeUnit := 0x2F

  /** "/waku/chat/" */
  const TopicPrefix: JsString := [Slash, 0x77, 0x61, 0x6B, 0x75, Slash, 0x63, 0x68, 0x61, 0x74, Slash]

  /** "/proto" */
  const TopicSuffix: JsString := [Slash, 0x70, 0x72, 0x6F, 0x74, 0x6F]

  function SanitizeUnit(u: CodeUnit): CodeUnit {
    if IsSafe(u) then u else Underscore
  }

  /** `id.replace(/[^a-zA-Z0-9_-]/g, "_")`. Without the `u` flag the pattern
      matches single code units, so each half of a surrogate pair becomes its
      own '_'. */
  function Sanitize(id: JsString): (r: JsString)
    ensures |r| == |id|
    ensures AllSafe(r)
    ensures Slash !in r
    ensures forall i :: 0 <= i < |id| && IsSafe(id[i]) ==> r[i] == id[i]
    ensures forall i :: 0 <= i < |id| && !IsSafe(id[i]) ==> r[i] == Underscore
  {
    seq(|id|, i requires 0 <= i < |id| => SanitizeUnit(id[i]))
  }

  /** A string is left unchanged exactly when it is already transport-safe. */
  lemma SanitizeFixesSafe(id: JsString)
    ensures Sanitize(id) == id <==> AllSafe(id)
  {
    if !AllSafe(id) {
      var i :| 0 <= i < |id| && !IsSafe(id[i]);
      assert Sanitize(id)[i] != id[i];
    }
  }

  lemma SanitizeIdempotent(id: JsString)
    ensures Sanitize(Sanitize(id)) == Sanitize(id)
  {
    SanitizeFixesSafe(Sanitize(id));
  }

  /** `genContentTopic`. */
  function ContentTopic(conversationId: JsString): (r: JsString)
    ensures |r| == |TopicPrefix| + |conversationId| + |TopicSuffix|
    ensures r[..|TopicPrefix|] == TopicPrefix
    ensures r[|r| - |TopicSuffix|..] == TopicSuffix
    ensures r[|TopicPrefix|..|r| - |TopicSuffix|] == Sanitize(conversationId)
  {
    TopicPrefix + Sanitize(conversationId) + TopicSuffix
  }

  /** Distinct transport-safe ids (direct ids built from hex addresses, uuid
      group ids) get distinct topics. */
  lemma ContentTopicInjectiveOnSafe(a: JsString, b: JsString)
    requires AllSafe(a) && AllSafe(b)
    requires ContentTopic(a) == ContentTopic(b)
    ensures a == b
  {
    SanitizeFixesSafe(a);
    SanitizeFixesSafe(b);
    var t := ContentTopic(a);
    assert Sanitize(a) == t[|TopicPrefix|..|t| - |TopicSuffix|] == Sanitize(b);
  }

  /** Sanitizing is not injective: "a.b" and "a_b" share a topic. */
  lemma TopicsCanCollide()
    ensures ContentTopic([0x61, 0x2E, 0x62]) == ContentTopic([0x61, Underscore, 0x62])
  {
    assert Sanitize([0x61, 0x2E, 0x62]) == [0x61, Underscore, 0x62];
    SanitizeFixesSafe([0x61, Underscore, 0x62]);
  }
}
