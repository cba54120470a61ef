/** The message codec: sign, then MAC, then XOR with a repeating keystream;
    decryption undoes the XOR, then checks the signature, then the MAC.

    keccak256, `JSON.stringify`/`JSON.parse` and `TextEncoder`/`TextDecoder`
    are not modelled; they are the fields of a `Primitives` record, and
    `ValidPrimitives` states the only facts about them that the codec relies on. */
module Codec {
  import opened Results
  import opened JsStrings
  import opened Messages

  type Byte = bv8

  /** The foreign functions the codec calls. */
  datatype Primitives = Primitives(
    hash: JsString -> JsString,           // keccak256(toUtf8Bytes(s)), as a "0x"-prefixed hex string
    stringify: Message -> JsString,       // JSON.stringify; absent (undefined) fields are omitted
    parse: JsString -> Option<Message>,   // JSON.parse; None where it throws
    encodeUtf8: JsString -> seq<Byte>,    // TextEncoder.encode
    decodeUtf8: seq<Byte> -> JsString)    // TextDecoder.decode

  predicate IsLowerHex(u: CodeUnit) {
    0x30 <= u <= 0x39 || 0x61 <= u <= 0x66
  }

  /** The shape of a keccak256 digest as ethers prints it: "0x" and 64 lower-case hex digits. */
  predicate IsDigest(h: JsString) {
    && |h| == 66
    && h[0] == 0x30 && h[1] == 0x78
    && forall i :: 2 <= i < 66 ==> IsLowerHex(h[i])
  }

  predicate IsAscii(s: JsString) {
    forall i :: 0 <= i < |s| ==> s[i] < 0x80
  }

  /** UTF-8 of an ASCII string: one byte per code unit, with the same value. */
  function AsciiBytes(s: JsString): (r: seq<Byte>)
    requires IsAscii(s)
    ensures |r| == |s|
  {
    seq(|s|, i requires 0 <= i < |s| => s[i] as Byte)
  }

  /** What the codec assumes of the foreign functions: digests have the
      keccak256 shape, UTF-8 encodes ASCII byte for byte, and a message without
      ciphertext survives stringify, encode, decode and parse. */
  ghost predicate ValidPrimitives(p: Primitives) {
    && (forall s :: IsDigest(p.hash(s)))
    && (forall s :: IsAscii(s) ==> p.encodeUtf8(s) == AsciiBytes(s))
    && (forall m: Message :: m.payload.None? ==> p.parse(p.decodeUtf8(p.encodeUtf8(p.stringify(m)))) == Some(m))
  }

  /** Length of the digest prefix used as key and as keystream (`slice(0, 32)`). */
  const KeyLength: nat := 32

  /** The keystream for `key`: `TextEncoder.encode(keccak256(key).slice(0, 32))`. */
  function Keystream(p: Primitives, key: JsString): seq<Byte> {
    p.encodeUtf8(Slice(p.hash(key), KeyLength))
  }

  /** With well-behaved primitives the keystream is never empty: it is the
      32 ASCII bytes of the digest's first 32 characters. */
  lemma KeystreamShape(p: Primitives, key: JsString)
    requires ValidPrimitives(p)
    ensures IsAscii(Slice(p.hash(key), KeyLength))
    ensures Keystream(p, key) == AsciiBytes(Slice(p.hash(key), KeyLength))
    ensures |Keystream(p, key)| == KeyLength
  {
    var h := p.hash(key);
    assert IsDigest(h);
    var k := Slice(h, KeyLength);
    assert k == h[..32];
    forall i | 0 <= i < |k|
      ensures k[i] < 0x80
    {
      if i >= 2 {
        assert IsLowerHex(h[i]);
      }
    }
  }

  /** The keystream byte XORed into position `i`: `ks[i % ks.length]`. On an
      empty keystream JavaScript reads `undefined`, and `b ^ undefined` is `b`. */
  function KeyByte(ks: seq<Byte>, i: nat): Byte {
    if |ks| == 0 then 0 else ks[i % |ks|]
  }

  /** The XOR loop shared by `encryptPayload` and `decryptPayload`. */
  function Xor(data: seq<Byte>, ks: seq<Byte>): (r: seq<Byte>)
    ensures |r| == |data|
  {
    seq(|data|, i requires 0 <= i < |data| => data[i] ^ KeyByte(ks, i))
  }

  /** XOR with the same cyclic keystream undoes itself. */
  lemma XorInvolution(data: seq<Byte>, ks: seq<Byte>)
    ensures Xor(Xor(data, ks), ks) == data
  {
    var once := Xor(data, ks);
    forall i | 0 <= i < |data|
      ensures Xor(once, ks)[i] == data[i]
    {
      assert once[i] == data[i] ^ KeyByte(ks, i);
    }
  }

  /** The signature clears `signature` only. */
  function Sign(p: Primitives, m: Message): (r: JsString)
    ensures ValidPrimitives(p) ==> IsDigest(r)
  {
    p.hash(p.stringify(m.(signature := None)))
  }

  /** Re-signing a message gives the signature it would have had unsigned. */
  lemma SignIgnoresSignature(p: Primitives, m: Message, sig: Option<JsString>)
    ensures Sign(p, m.(signature := sig)) == Sign(p, m)
  {
    assert m.(signature := sig).(signature := None) == m.(signature := None);
  }

  /** The message with both authentication fields cleared, as the MAC and both checks see it. */
  function Unauthenticated(m: Message): Message {
    m.(signature := None, mac := None)
  }

  /** `keccak256(JSON.stringify(message without signature and mac) + "_" + key)`. */
  function Mac(p: Primitives, m: Message, key: JsString): (r: JsString)
    ensures ValidPrimitives(p) ==> IsDigest(r)
  {
    p.hash(p.stringify(Unauthenticated(m)) + [Underscore] + key)
  }

  /** The MAC does not depend on any signature or MAC already attached. */
  lemma MacIgnoresAuth(p: Primitives, m: Message, sig: Option<JsString>, mac: Option<JsString>, key: JsString)
    ensures Mac(p, m.(signature := sig, mac := mac), key) == Mac(p, m, key)
  {
    assert Unauthenticated(m.(signature := sig, mac := mac)) == Unauthenticated(m);
  }

  /** The ciphertext of `m`: its UTF-8 JSON text XORed with the keystream. */
  function EncryptPayload(p: Primitives, m: Message, key: JsString): (r: seq<Byte>)
    ensures |r| == |p.encodeUtf8(p.stringify(m))|
  {
    Xor(p.encodeUtf8(p.stringify(m)), Keystream(p, key))
  }

  /** `encrypt`: attaches the signature and the MAC, then the ciphertext of
      the authenticated message, and keeps every other field. */
  function Encrypt(p: Primitives, m: Message, key: JsString): (r: Message)
    ensures r.signature == Some(Sign(p, m))
    ensures r.mac == Some(Mac(p, m, key))
    ensures r.payload.Some?
    ensures r.(signature := m.signature, mac := m.mac, payload := m.payload) == m
  {
    var withAuth := m.(signature := Some(Sign(p, m)), mac := Some(Mac(p, m, key)));
    withAuth.(payload := Some(EncryptPayload(p, withAuth, key)))
  }

  /** With well-behaved primitives, the ciphertext is as long as the UTF-8
      JSON text of the authenticated message, and byte `i` is plaintext byte
      `i` XOR keystream byte `i mod 32`. */
  lemma EncryptedBytes(p: Primitives, m: Message, key: JsString)
    requires ValidPrimitives(p)
    ensures var e := Encrypt(p, m, key);
            var plain := p.encodeUtf8(p.stringify(e.(payload := m.payload)));
            var ks := Keystream(p, key);
            && |ks| == KeyLength
            && |e.payload.value| == |plain|
            && forall i :: 0 <= i < |plain| ==> e.payload.value[i] == plain[i] ^ ks[i % KeyLength]
  {
    KeystreamShape(p, key);
  }

  /** `decryptPayload`: undoes the XOR and parses; None where parsing throws. */
  function DecryptPayload(p: Primitives, ciphertext: seq<Byte>, key: JsString): Option<Message> {
    p.parse(p.decodeUtf8(Xor(ciphertext, Keystream(p, key))))
  }

  /** Decrypting the ciphertext of a message that carries no ciphertext
      itself gives the message back. */
  lemma DecryptPayloadInverse(p: Primitives, m: Message, key: JsString)
    requires ValidPrimitives(p)
    requires m.payload.None?
    ensures DecryptPayload(p, EncryptPayload(p, m, key), key) == Some(m)
  {
    XorInvolution(p.encodeUtf8(p.stringify(m)), Keystream(p, key));
  }

  /** `verifySignature`: a missing or empty signature fails; otherwise it must
      equal the hash of the message with both authentication fields cleared. */
  predicate VerifySignature(p: Primitives, m: Message) {
    && m.signature.Some?
    && m.signature.value != []
    && m.signature.value == p.hash(p.stringify(Unauthenticated(m)))
  }

  /** `verifyMAC`: a missing or empty MAC fails; otherwise it must equal the
      hash of the cleared message, "_" and the key. */
  predicate VerifyMac(p: Primitives, m: Message, key: JsString) {
    && m.mac.Some?
    && m.mac.value != []
    && m.mac.value == p.hash(p.stringify(Unauthenticated(m)) + [Underscore] + key)
  }

  /** A signature made over a message without a MAC passes the check,
      whatever MAC is attached afterwards. */
  lemma SignatureVerifies(p: Primitives, m: Message, mac: Option<JsString>)
    requires ValidPrimitives(p)
    requires m.mac.None?
    ensures VerifySignature(p, m.(signature := Some(Sign(p, m)), mac := mac))
  {
    assert IsDigest(Sign(p, m));
    assert Unauthenticated(m.(signature := Some(Sign(p, m)), mac := mac)) == m.(signature := None);
  }

  /** A MAC made with `key` passes the check with `key`, whatever signature
      is attached. */
  lemma MacVerifies(p: Primitives, m: Message, sig: Option<JsString>, key: JsString)
    requires ValidPrimitives(p)
    ensures VerifyMac(p, m.(signature := sig, mac := Some(Mac(p, m, key))), key)
  {
    assert IsDigest(Mac(p, m, key));
    assert Unauthenticated(m.(signature := sig, mac := Some(Mac(p, m, key)))) == Unauthenticated(m);
  }

  datatype DecryptError = Unparseable | BadSignature | BadMac

  /** `decryptMessage`: decrypt and parse, then the signature check, then the
      MAC check; on success the parsed message is returned as it is. */
  function DecryptMessage(p: Primitives, ciphertext: seq<Byte>, key: JsString): (r: Result<Message, DecryptError>)
    ensures r.Ok? <==> (var d := DecryptPayload(p, ciphertext, key);
                        d.Some? && VerifySignature(p, d.value) && VerifyMac(p, d.value, key))
    ensures r.Ok? ==> DecryptPayload(p, ciphertext, key) == Some(r.value)
    ensures var d := DecryptPayload(p, ciphertext, key);
            d.Some? && !VerifySignature(p, d.value) ==> r == Err(BadSignature)
  {
    match DecryptPayload(p, ciphertext, key)
    case None => Err(Unparseable)
    case Some(m) =>
      if !VerifySignature(p, m) then Err(BadSignature)
      else if !VerifyMac(p, m, key) then Err(BadMac)
      else Ok(m)
  }

  /** Round trip: for a message that carries neither a MAC nor a ciphertext,
      decrypting the ciphertext `encrypt` attached, with the same key, passes
      both checks and yields the message with its signature and MAC. */
  lemma {:induction false} DecryptEncrypted(p: Primitives, m: Message, key: JsString)
    requires ValidPrimitives(p)
    requires m.mac.None? && m.payload.None?
    ensures var e := Encrypt(p, m, key);
            DecryptMessage(p, e.payload.value, key) == Ok(e.(payload := None))
    ensures var e := Encrypt(p, m, key);
            e.(payload := None) == m.(signature := Some(Sign(p, m)), mac := Some(Mac(p, m, key)))
  {
    var withAuth := m.(signature := Some(Sign(p, m)), mac := Some(Mac(p, m, key)));
    DecryptPayloadInverse(p, withAuth, key);
    SignatureVerifies(p, m, Some(Mac(p, m, key)));
    MacVerifies(p, m, Some(Sign(p, m)), key);
  }
}
