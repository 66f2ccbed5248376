/** The disco messages and their wire format. Encryption is a parameter: all that is assumed is that
    opening what was sealed under the same key gives the message back. */
module Codec {
  import opened Options
  import opened ByteData

  type Bytes = seq<Byte>

  const PING: Byte := 128
  const PONG: Byte := 129
  const KEY_LENGTH := 32
  const PAYLOAD_LENGTH := 40

  /** A public key is an array of 32 bytes. */
  type PublicKey = k: Bytes | |k| == 32 witness seq(32, i => 0)

  type Id = n: nat | n < WORD

  /** Authenticated encryption with a precomputed shared key; sealing needs a fresh nonce. */
  datatype Cipher = Cipher(seal: (Bytes, Bytes, Bytes) -> Bytes, open: (Bytes, Bytes) -> Option<Bytes>)

  ghost predicate Sound(c: Cipher) {
    forall key, nonce, m :: c.open(key, c.seal(key, nonce, m)) == Some(m)
  }

  /** The contents of a message. */
  datatype Message = Message(header: Byte, src: PublicKey, endpointID: Id, id: Id)

  /** The contents of an encrypted message. */
  datatype Envelope = Envelope(header: Byte, src: PublicKey, payload: Bytes)

  // ----- the format

  function Plain(m: Message): (p: Bytes)
    ensures |p| == PAYLOAD_LENGTH
  {
    Put32(m.endpointID) + Put32(m.id) + m.src
  }

  function Seal(c: Cipher, key: Bytes, nonce: Bytes, m: Message): Envelope {
    Envelope(m.header, m.src, c.seal(key, nonce, Plain(m)))
  }

  function Wire(e: Envelope): Bytes {
    [e.header] + e.src + e.payload
  }

  function Parse(b: Bytes): Option<Envelope> {
    if |b| < 1 + KEY_LENGTH then None
    else Some(Envelope(b[0], b[1..1 + KEY_LENGTH], b[1 + KEY_LENGTH..]))
  }

  /** The message in the envelope, if it opens and repeats the sender's key. */
  function Open(c: Cipher, key: Bytes, e: Envelope): Option<Message> {
    var m := c.open(key, e.payload);
    if m.None? || |m.value| < PAYLOAD_LENGTH || m.value[8..] != e.src then None
    else Some(Message(e.header, e.src, Get32(m.value[..4]), Get32(m.value[4..8])))
  }

  lemma ParseWire(e: Envelope)
    ensures Parse(Wire(e)) == Some(e)
  {
    var b := Wire(e);
    assert b[1..1 + KEY_LENGTH] == e.src;
    assert b[1 + KEY_LENGTH..] == e.payload;
  }

  /** An envelope opens exactly to the message whose plain form it holds; there is no other way to
      pass the checks, in particular not with a longer payload. */
  lemma OpenExactly(c: Cipher, key: Bytes, e: Envelope, m: Message)
    ensures Open(c, key, e) == Some(m) <==>
            c.open(key, e.payload) == Some(Plain(m)) && e.header == m.header && e.src == m.src
  {
    var r := c.open(key, e.payload);
    PutGet32(m.endpointID);
    PutGet32(m.id);
    var p := Plain(m);
    assert p[..4] == Put32(m.endpointID) && p[4..8] == Put32(m.id) && p[8..] == m.src;
    if Open(c, key, e) == Some(m) {
      var q := r.value;
      GetPut32(q[..4]);
      GetPut32(q[4..8]);
      assert q == q[..4] + q[4..8] + q[8..];
    }
  }

  /** What is where: the header byte, the sender's key of 32 bytes and the sealed part; and in the
      latter endpoint ID and packet ID, four bytes each with the highest first, and the key again. */
  lemma Layout(c: Cipher, key: Bytes, nonce: Bytes, m: Message)
    ensures var p := Plain(m);
      && |p| == 40
      && Number(p[..4]) == m.endpointID && Number(p[4..8]) == m.id && p[8..] == m.src
      && var w := Wire(Seal(c, key, nonce, m));
      && |w| >= 33 && w[0] == m.header && w[1..33] == m.src && w[33..] == c.seal(key, nonce, p)
  {
    var p := Plain(m);
    assert p[..4] == Put32(m.endpointID) && p[4..8] == Put32(m.id) && p[8..] == m.src;
    FourBytes(p[..4]);
    FourBytes(p[4..8]);
    PutGet32(m.endpointID);
    PutGet32(m.id);
  }

  lemma FourBytes(s: Bytes)
    requires |s| == 4
    ensures Number(s) == Get32(s)
  {
    assert s[..3][..2] == s[..2] && s[..2][..1] == s[..1] && s[..1][..0] == [];
    assert Number(s[..1]) == s[0];
    assert Number(s[..2]) == 256 * Number(s[..1]) + s[1];
    assert Number(s[..3]) == 256 * Number(s[..2]) + s[2];
  }

  /** A message that is sealed, put on the wire, parsed and opened under the same key arrives
      unchanged. */
  lemma RoundTrip(c: Cipher, key: Bytes, nonce: Bytes, m: Message)
    requires Sound(c)
    ensures var e := Parse(Wire(Seal(c, key, nonce, m)));
      e.Some? && Open(c, key, e.value) == Some(m)
  {
    ParseWire(Seal(c, key, nonce, m));
    OpenExactly(c, key, Seal(c, key, nonce, m), m);
  }

  // ----- the objects that are filled in

  class EncryptedDiscoPacket {
    var header: Byte
    var src: PublicKey
    var payload: Bytes
    var endpoint: int

    ghost function Value(): Envelope
      reads this
    {
      Envelope(header, src, payload)
    }

    constructor (header: Byte, src: PublicKey, payload: Bytes, endpoint: int)
      ensures Value() == Envelope(header, src, payload) && this.endpoint == endpoint
    {
      this.header, this.src, this.payload, this.endpoint := header, src, payload, endpoint;
    }

    /** Only pings and pongs are written. */
    method Marshal() returns (buf: Bytes, ok: bool)
      ensures ok <==> header == 128 || header == 129
      ensures ok ==> buf == Wire(Value())
      ensures !ok ==> buf == []
    {
      buf := [];
      if header != PING && header != PONG {
        return [], false;
      }
      buf := buf + [header];
      buf := buf + src;
      buf := buf + payload;
      return buf, true;
    }

    method Unmarshal(b: Bytes) returns (ok: bool)
      modifies this`header, this`src, this`payload
      ensures ok <==> Parse(b).Some?
      ensures ok ==> Value() == Parse(b).value
      ensures !ok ==> Value() == old(Value())
    {
      if |b| < 1 + |src| {
        return false;
      }
      var payloadIdx := 1 + |src|;
      header := b[0];
      src := b[1..payloadIdx];
      payload := b[payloadIdx..];
      return true;
    }
  }

  class DiscoPacket {
    var header: Byte
    var src: PublicKey
    var endpointID: Id
    var id: Id
    var endpoint: int
    var sharedKey: Bytes

    ghost function Value(): Message
      reads this
    {
      Message(header, src, endpointID, id)
    }

    constructor (m: Message, endpoint: int, sharedKey: Bytes)
      ensures Value() == m && this.endpoint == endpoint && this.sharedKey == sharedKey
    {
      header, src, endpointID, id := m.header, m.src, m.endpointID, m.id;
      this.endpoint, this.sharedKey := endpoint, sharedKey;
    }

    /** Fails only when there is no randomness for a nonce. */
    method Encrypt(c: Cipher, nonce: Option<Bytes>) returns (e: EncryptedDiscoPacket?, ok: bool)
      ensures ok <==> nonce.Some?
      ensures ok <==> e != null
      ensures ok ==> fresh(e) && e.Value() == Seal(c, sharedKey, nonce.value, Value()) && e.endpoint == endpoint
    {
      var plain: array<Byte> := new Byte[PAYLOAD_LENGTH](i => 0);
      var first, second := Put32(endpointID), Put32(id);
      for i := 0 to 4
        invariant forall k | 0 <= k < i :: plain[k] == first[k] && plain[4 + k] == second[k]
      {
        plain[i] := first[i];
        plain[4 + i] := second[i];
      }
      for i := 0 to KEY_LENGTH
        invariant forall k | 0 <= k < 4 :: plain[k] == first[k] && plain[4 + k] == second[k]
        invariant forall k | 0 <= k < i :: plain[8 + k] == src[k]
      {
        plain[8 + i] := src[i];
      }
      assert plain[..] == Plain(Value());
      if nonce.None? {
        return null, false;
      }
      e := new EncryptedDiscoPacket(header, src, c.seal(sharedKey, nonce.value, plain[..]), endpoint);
      return e, true;
    }

    /** On success the packet holds the message of the envelope and the address it came from. */
    method Decrypt(c: Cipher, e: EncryptedDiscoPacket) returns (ok: bool)
      modifies this`header, this`src, this`endpointID, this`id, this`endpoint
      ensures ok <==> Open(c, sharedKey, e.Value()).Some?
      ensures ok ==> Value() == Open(c, sharedKey, e.Value()).value && endpoint == e.endpoint
      ensures !ok ==> endpoint == old(endpoint)
      ensures c.open(sharedKey, e.payload).None? ==> unchanged(this)
    {
      var m := c.open(sharedKey, e.payload);
      if m.None? {
        return false;
      }
      if |m.value| < PAYLOAD_LENGTH {
        return false;
      }
      header := e.header;
      src := e.src;
      endpointID := Get32(m.value[..4]);
      id := Get32(m.value[4..8]);
      if m.value[8..] != src {
        return false;
      }
      endpoint := e.endpoint;
      return true;
    }
  }
}
