# waku-conversation: a Dafny model of the chat core

This project models the core of waku-conversation, a browser chat client that carries end-to-end
encrypted conversations over Waku content topics, in Dafny 4.11. It also proves properties of that model.
It covers three pieces:

- **The session (`ChatSDK`)**, in `session.dfy` (module `ChatSession`).
  - **State.** One immutable record holds:
    - the local identity;
    - the conversations, in the order they were created (a JavaScript `Map` keeps that order);
    - the per-conversation encryption keys, handler lists and message logs;
    - the set of processed message ids;
    - the set of subscribed conversations.
  - **Operations.** Each public operation is a total function that returns the new state or an `Error`. A thrown exception becomes `Err` and leaves the state as it was. The operations are:
    - `createConversation` and `joinGroupConversation`;
    - `sendMessage`, `revokeMessage` and `leaveConversation`;
    - `subscribe`, `storeMessage` and `deleteMessageLocally`;
    - the getters;
    - the inbound `messageCallback`.
  - **Invariant.** `Valid` is preserved by every operation:
    - the creation order lists each conversation once;
    - every conversation has a key;
    - handler lists have no duplicates;
    - every log holds at most 100 messages of its own conversation, with distinct and already processed ids.
  - **Parameters.** The fresh uuid and `Date.now()` are passed in.
  - **Outputs.** An operation returns the encrypted message it would broadcast and the handlers it would call, in order.
- **The codec**, in `codec.dfy` (module `Codec`).
  - `encrypt` signs, then MACs, then XORs the UTF-8 JSON text with a repeating 32-byte keystream.
  - `decryptMessage` undoes the XOR, parses, then checks the signature, then the MAC.
  - keccak256, `JSON.stringify`/`JSON.parse` and `TextEncoder`/`TextDecoder` are function-valued fields of a `Primitives` record. The only facts assumed of them are stated in `ValidPrimitives`:
    - a digest is "0x" and 64 lower-case hex digits;
    - UTF-8 encodes ASCII byte for byte;
    - a message without ciphertext survives stringify, encode, decode and parse.
- **The pure helpers.**
  - `genContentTopic`, in `topic.dfy` (module `Topics`).
  - The App's `getDisplayMessages` and its direct/group classification of conversation ids, in `display.dfy` (module `AppView`).
  - The integration tests' `filterVisibleMessages`, in the same module, so that the two revocation views can be compared.

Other modules:

- `jsstring.dfy` models JavaScript strings as sequences of UTF-16 code units. It also holds the default `sort()` order and `join`.
- `message.dfy` holds the message record.
- `results.dfy` holds `Option` and `Result`.
- `session_props.dfy` (module `SessionProperties`) holds the lemmas that relate several operations.

The code and the integration tests disagree in one place. `leaveConversation` on an unknown conversation fails (`Asserts.isExist`, src/sdk/chat-sdk.ts:298). The test at src/__tests__/conversation.test.ts:121-125 expects the call to resolve. The model follows the code: `LeaveConversation` returns `Err(NotFound)`.

## Model

| member | source | states |
|---|---|---|
| ChatSession.Init | src/sdk/chat-sdk.ts:47-82 | `init` records the peerId as identity and changes nothing else; the invariant is kept |
| ChatSession.GetAllConversations | src/sdk/chat-sdk.ts:500-502 | lists every conversation exactly once, in creation order, and nothing else |
| ChatSession.StoreMessage | src/sdk/chat-sdk.ts:452-472 | an already processed id changes nothing; otherwise the id becomes processed, the message is the last entry of its log, the log is the last (at most 100) of old log plus message, other logs and all other state are untouched, and the invariant is kept |
| ChatSession.RemoveId | src/sdk/chat-sdk.ts:484 | the filter keeps exactly the entries whose id differs, and is the identity when no entry has that id |
| ChatSession.RemoveIdKeepsValid | src/sdk/chat-sdk.ts:481-487 | filtering a valid log (bounded, unique ids, own conversation, processed ids) leaves it valid |
| ChatSession.DeleteMessageLocally | src/sdk/chat-sdk.ts:481-487 | an unknown conversation is a no-op; otherwise exactly the entries with the id disappear from that log, other logs and the processed set are untouched, and the invariant is kept |
| ChatSession.ConversationKey | src/sdk/chat-sdk.ts:135-142 | the key is 32 characters long |
| ChatSession.CreateConversation | src/sdk/chat-sdk.ts:90-129 | fails without identity, and fails for a direct conversation without exactly one other participant; otherwise succeeds with the derived id (sorted pair joined by "_" for direct, given or fresh id for group); an existing id returns the stored conversation with the state unchanged; a new one records kind, name and participants and adds the conversation; the invariant is kept |
| ChatSession.AddConversation | src/sdk/chat-sdk.ts:117-126 | the new conversation goes last in creation order with its derived key and is marked subscribed; nothing else changes; a fresh id keeps the invariant |
| ChatSession.JoinGroupConversation | src/sdk/chat-sdk.ts:131-133 | joining uses the given id as a group; a new group gets the given name or the default one; joining a known id changes nothing |
| ChatSession.RemoveConversationLocally | src/sdk/chat-sdk.ts:336-342 | conversation, key, handlers, log and subscribed marker of that id are gone; every other entry and the processed set are unchanged; the creation order loses exactly that id; the invariant is kept |
| ChatSession.Without | src/sdk/chat-sdk.ts:337 | deleting from the insertion-ordered map leaves exactly the other ids, and an absent id changes nothing |
| ChatSession.SendMessage | src/sdk/chat-sdk.ts:147-195 | errors for no identity and unknown conversation; otherwise (under the invariant) succeeds with exactly one new text message from the local peer with the fresh id, encrypted with the conversation's key, appended to the log (cut back to 100), handlers of the conversation notified, invariant kept |
| ChatSession.FindById | src/sdk/chat-sdk.ts:234 | finds the first message of the log with that id, and finds none exactly when no message has it |
| ChatSession.FindByIdUnique | src/sdk/chat-sdk.ts:233-235 | in a log with unique ids the message found is the one with that id |
| ChatSession.RevokeMessage | src/sdk/chat-sdk.ts:224-261 | errors for no identity and unknown conversation; permission is denied exactly when the local log holds the target from another sender; otherwise a tombstone from the local peer for the target id is encrypted, stored and notified, even when the target is not held locally |
| ChatSession.LeaveConversation | src/sdk/chat-sdk.ts:294-334 | errors for no identity and unknown conversation; otherwise returns a user-leave notice encrypted with the conversation's key, tears the conversation down locally, leaves the processed set unchanged (the notice is not stored), and keeps the invariant |
| ChatSession.Subscribe | src/sdk/chat-sdk.ts:345-363 | the handler is registered once (appended only if absent), the conversation is marked subscribed and no other marker changes, other handler lists are untouched, duplicates never appear |
| SessionProperties.AcceptedEncrypted | src/sdk/chat-sdk.ts:366-385 | a ciphertext made with the topic's key is accepted exactly when its message names the topic's conversation, and then yields the message with signature and MAC |
| ChatSession.GetMessages | src/sdk/chat-sdk.ts:490-492 | an unknown conversation has an empty log; under the invariant the log is bounded, of that conversation, with distinct processed ids |
| ChatSession.GetConversation | src/sdk/chat-sdk.ts:495-497 | finds a conversation exactly for a known id, which is then in the creation order, and the one found carries that id |
| ChatSession.HandlersFor | src/sdk/chat-sdk.ts:475-478 | a conversation without handlers notifies nobody; under the invariant no handler is called twice |
| ChatSession.Window | src/sdk/chat-sdk.ts:465-467 | the kept log holds at most 100 entries, and a log that fits is kept whole |
| ChatSession.MarkSubscribed | src/sdk/chat-sdk.ts:408-415 | the conversation is marked, no other marker and nothing else changes, and marking twice is marking once |
| ChatSession.DeliverInbound | src/sdk/chat-sdk.ts:366-404 | a rejected message changes nothing and calls no handler; an accepted one is stored and the topic's handlers are called; the processed set only grows and the invariant is kept |
| Codec.KeystreamShape | src/sdk/crypto/encrypt.ts:29-30 | the keystream is the 32 ASCII bytes of the digest's first 32 characters, so it is never empty |
| Codec.Xor | src/sdk/crypto/encrypt.ts:32-35 | the XOR loop keeps the length of its input |
| Codec.XorInvolution | src/sdk/crypto/decrypt.ts:35-38 | XOR with the same cyclic keystream undoes itself |
| Codec.Encrypt | src/sdk/crypto/encrypt.ts:4-16 | the result carries the signature, the MAC and a ciphertext, and every other field of the input unchanged |
| Codec.EncryptPayload | src/sdk/crypto/encrypt.ts:22-38 | the ciphertext is as long as the UTF-8 JSON text of the message |
| Codec.Sign | src/sdk/crypto/encrypt.ts:41-45 | a signature has the digest shape |
| Codec.SignIgnoresSignature | src/sdk/crypto/encrypt.ts:42 | the signature does not depend on a signature already present |
| Codec.Mac | src/sdk/crypto/encrypt.ts:48-55 | a MAC has the digest shape |
| Codec.MacIgnoresAuth | src/sdk/crypto/encrypt.ts:49-53 | the MAC does not depend on a signature or MAC already present |
| Codec.EncryptedBytes | src/sdk/crypto/encrypt.ts:22-38 | the ciphertext is as long as the UTF-8 JSON text of the authenticated message and byte i is plaintext byte i XOR keystream byte i mod 32 |
| Codec.DecryptPayloadInverse | src/sdk/crypto/decrypt.ts:26-42 | decrypting the ciphertext of a message without ciphertext, with the same key, gives the message back |
| Codec.SignatureVerifies | src/sdk/crypto/decrypt.ts:45-57 | a signature made over a message without MAC passes the check whatever MAC is attached later |
| Codec.MacVerifies | src/sdk/crypto/decrypt.ts:60-71 | a MAC made with a key passes the check with that key whatever signature is attached |
| Codec.DecryptMessage | src/sdk/crypto/decrypt.ts:5-20 | succeeds exactly when the payload parses and both checks pass, returning the parsed message as it is; a failed signature is reported before the MAC is looked at |
| Codec.DecryptEncrypted | src/sdk/crypto/encrypt.ts:4-16 | round trip: for a message without MAC and ciphertext, decrypting what encrypt produced with the same key succeeds and yields the message with its signature and MAC |
| Topics.Sanitize | src/sdk/utils/waku-util.ts:32 | keeps the length in code units, keeps every safe code unit, turns every other into '_', so the result is transport-safe and has no '/' |
| Topics.SanitizeFixesSafe | src/sdk/utils/waku-util.ts:32 | sanitizing leaves a string unchanged exactly when it is already safe |
| Topics.SanitizeIdempotent | src/sdk/utils/waku-util.ts:32 | sanitizing twice is sanitizing once |
| Topics.ContentTopic | src/sdk/utils/waku-util.ts:31-34 | the topic is "/waku/chat/", the sanitized id and "/proto", in that order |
| Topics.ContentTopicInjectiveOnSafe | src/sdk/utils/waku-util.ts:31-34 | distinct safe ids get distinct topics |
| Topics.TopicsCanCollide | src/sdk/utils/waku-util.ts:32 | "a.b" and "a_b" share a topic |
| AppView.IsDirectId | src/App.tsx:62 | an id counts as direct exactly when no code unit of it is a hyphen |
| AppView.RevokedIds | src/App.tsx:283-285 | an id is revoked exactly when some tombstone in the list targets it |
| AppView.Annotate | src/App.tsx:287-292 | every listed entry is a message of the list that passes the filter, flagged exactly when its id is revoked |
| AppView.AnnotateCount | src/App.tsx:287-292 | each shown message appears once per occurrence with its flag, and other entries not at all |
| AppView.SortByTime | src/App.tsx:293 | the result is a permutation of the input, sorted by timestamp |
| AppView.SortByTimeStable | src/App.tsx:293 | entries with equal timestamps keep their input order |
| AppView.GetDisplayMessages | src/App.tsx:279-294 | empty input gives empty output; the output is sorted by timestamp; every entry is a shown message of the input, flagged exactly when a tombstone of the input targets its id |
| AppView.DisplayCount | src/App.tsx:279-294 | exactly which entries are listed, and how often: each shown message once per occurrence, flagged as its id calls for |
| AppView.DisplayStable | src/App.tsx:293 | among entries with the same timestamp the App keeps log order, for any log |
| AppView.DisplayPermutationInvariant | src/App.tsx:283-292 | two logs holding the same messages revoke the same ids and list the same entries with the same flags |
| AppView.FilterVisibleMessages | src/__tests__/chat-sdk.test.ts:188-196 | keeps exactly the messages of the log that are no tombstone and are not targeted by a tombstone of the log, and never lengthens it |
| AppView.VisibleAmongAppend | src/__tests__/chat-sdk.test.ts:189-195 | the test helper's filter distributes over concatenation, so kept messages stay in log order |
| AppView.VisibleAmong | src/__tests__/chat-sdk.test.ts:188-196 | a message passes the test helper exactly when it is no tombstone and no tombstone of the log targets it |
| AppView.ViewsAgree | src/__tests__/chat-sdk.test.ts:188-196 | a message passes the test helper exactly when the App lists it unflagged; neither view lists a tombstone as an ordinary entry |
| AppView.ViewsDifferOnRevoked | src/__tests__/chat-sdk.test.ts:191-194 | a revoked message is dropped by the test helper but listed, flagged, by the App |
| JsStrings.Sort | src/sdk/chat-sdk.ts:105 | the default sort returns a sorted permutation |
| JsStrings.SortOfSorted | src/sdk/chat-sdk.ts:139 | sorting sorted participants changes nothing |
| JsStrings.SortPairSymmetric | src/sdk/chat-sdk.ts:105 | sorting a pair does not depend on the order it is given in |
| JsStrings.LeAntisymmetric | src/sdk/chat-sdk.ts:105 | two strings each sorting no later than the other are equal |
| JsStrings.JoinOmits | src/sdk/chat-sdk.ts:106 | a code unit in neither the separator nor any part is not in the joined string |
| JsStrings.Slice | src/sdk/chat-sdk.ts:142 | `slice(0, n)` is the prefix of length n, or the whole string when shorter |
| SessionProperties.DirectIdSymmetric | src/sdk/chat-sdk.ts:105-106 | both peers derive the same direct id |
| SessionProperties.DirectPeersAgree | src/sdk/chat-sdk.ts:101-106 | two peers opening their direct conversation get the same id and, when both create it afresh, the same participants and the same key |
| SessionProperties.GroupPeersAgree | src/sdk/chat-sdk.ts:131-138 | two sessions joining the same new group both succeed and derive the same key for it, whatever names they pass |
| SessionProperties.DirectKeyMaterial | src/sdk/chat-sdk.ts:135-141 | the stored participants of a direct conversation are already sorted, so its key is the digest prefix of the direct id, "_" and the direct id again |
| SessionProperties.DirectIdsClassifiedDirect | src/App.tsx:62 | a direct id built from two hyphen-free peerIds is classified as direct |
| SessionProperties.CreateIdempotent | src/sdk/chat-sdk.ts:113-115 | creating the same conversation again returns the stored one with the state unchanged, whatever name is passed, and the count stays put |
| SessionProperties.JoinExistingKeepsName | src/sdk/chat-sdk.ts:131-133 | joining a known group returns it as stored, with its original name |
| SessionProperties.StoreIdempotent | src/sdk/chat-sdk.ts:454-456 | storing the same message twice is storing it once |
| SessionProperties.DeletedStaysDeleted | src/sdk/chat-sdk.ts:481-487 | a deleted message cannot be stored back, because its id stays processed |
| SessionProperties.WindowIsLastHundred | src/sdk/chat-sdk.ts:465-467 | the window keeps min(length, 100) entries, which are the last ones in order, and trims nothing from a log that fits |
| SessionProperties.WindowOfWindow | src/sdk/chat-sdk.ts:460-471 | trimming before appending more does not change the window after the append |
| SessionProperties.WithoutAppend | src/sdk/chat-sdk.ts:337 | removing an id from the creation order distributes over concatenation, so the remaining conversations keep their order |
| SessionProperties.RemoveIdAppend | src/sdk/chat-sdk.ts:484 | deleting distributes over concatenation, so the kept entries stay in order |
| SessionProperties.StoreAllWindow | src/sdk/chat-sdk.ts:460-471 | storing a run of new messages one by one leaves exactly the last 100 of old log plus run |
| SessionProperties.ArrivalOrderIrrelevant | src/sdk/chat-sdk.ts:452-472 | two new messages arriving in either order give logs with the same entries, also when the 100-message window evicts older entries, and the App lists the same entries with the same flags, counted as multisets; entries with equal timestamps keep arrival order, so their listed order can differ |
| SessionProperties.DeliverTwice | src/sdk/chat-sdk.ts:397-398 | delivering a network message twice stores it once but calls the handlers both times |
| SessionProperties.DeliverEncrypted | src/sdk/chat-sdk.ts:366-398 | a message encrypted with the topic's key for its own conversation is stored with signature and MAC and its handlers are called |
| SessionProperties.DeliverMismatchDropped | src/sdk/chat-sdk.ts:382-385 | a message naming another conversation than its topic is dropped although it authenticates |
| SessionProperties.SendThenDeliver | src/sdk/chat-sdk.ts:154-172 | what one session sends is stored by a receiver holding the same key as its newest entry, with sender and content intact |
| SessionProperties.SentIsLast | src/sdk/chat-sdk.ts:168-172 | a message just sent is the last entry of its log |
| SessionProperties.RevokeOwnAllowed | src/sdk/chat-sdk.ts:233-237 | revoking one's own message is allowed and stores a tombstone for it |
| SessionProperties.RevokeOwnMessage | src/sdk/chat-sdk.ts:224-261 | send then revoke: both succeed and the App then lists the message flagged revoked; the tombstone itself is not listed unless an earlier entry of the log already targeted the tombstone's id |
| SessionProperties.RevocationShown | src/App.tsx:283-292 | once a tombstone for the last entry is appended, the App lists that entry flagged, and it does not list the tombstone when the tombstone's id differs from the target's and no entry of the log targets it |
| SessionProperties.RemoveKeepsOthers | src/sdk/chat-sdk.ts:336-342 | local teardown leaves every other conversation reading as before |
| SessionProperties.LeaveTearsDown | src/sdk/chat-sdk.ts:294-334 | after leaving, the conversation is gone from every getter, the others are unchanged, and inbound traffic on its topic is ignored |
| SessionProperties.SubscribeIdempotent | src/sdk/chat-sdk.ts:349-351 | subscribing the same handler twice registers it once |
| SessionProperties.EmptySessionValid | src/sdk/chat-sdk.ts:34-41 | a new session satisfies the invariant |

## Left out

- Network I/O is not modelled: starting the Waku node, dialling and waiting for peers, `lightPush.send`, `filter.subscribe`, Store queries and `close`. Subscribing is modelled only as the subscribed-set marker; sending returns the encrypted message.
- The cross-tab `localStorage` broadcast and the App's `storage` event listener are not modelled. This includes the listener's automatic join of unknown conversations; only its `isDirect` test is modelled, as `AppView.IsDirectId`.
- Identity persistence and generation (`identity-util.ts`) are not modelled. `init` takes the peerId as a parameter.
- uuid and `Date.now()` are parameters.
- keccak256, `JSON.stringify`/`JSON.parse` and UTF-8 encoding and decoding are not modelled. They are uninterpreted fields of `Primitives`, constrained only by `ValidPrimitives`.
- Cryptographic strength is not claimed. In particular, nothing is said about decryption under a wrong key.
- Handler bodies are not modelled. Handlers are opaque ids, and a notification is the ordered list of handlers called.
- Asynchronous interleaving is not modelled: operations are sequential transitions.
- JavaScript's in-place mutation of a log array already returned by `getMessages` is not modelled.
- The React rendering, the toast component and the rest of `App.tsx` are not modelled.
- `types.ts` is not part of this model. The message and conversation fields are taken from where the source builds them.
- Codec.DecryptEncrypted: the round trip is proved only for messages that carry neither a MAC nor a ciphertext. The signature clears only `signature`, while both checks clear `signature` and `mac`. Every call site in the SDK meets this condition.
- Codec.Encrypt: determinism (same message and key give the same output) holds because `Encrypt` is a function, so no separate lemma states it.
- ChatSession.LeaveConversation: the `user-leave` notice is built and encrypted but not stored locally. The model states this through the unchanged processed set and the removed log.
- ChatSession.CreateConversation: the id, stored-conversation and invariant clauses are stated under the invariant `Valid`. Every state reachable from a new session satisfies it (`SessionProperties.EmptySessionValid` and the preservation clauses).
- ChatSession.ConversationKey: only the key's length is stated on the function itself; its value is the keccak256 digest of the key material, which is uninterpreted. Agreement between peers is stated by `SessionProperties.GroupPeersAgree`, `SessionProperties.DirectPeersAgree` and `SessionProperties.DirectKeyMaterial`.
