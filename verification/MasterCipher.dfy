/** Data sealed under a counter nonce and opened from the blob it travels in. */
module MasterCipher {
  import opened Wrappers
  import opened Bytes
  import opened Blobs
  import opened Nonces

  /** The authenticated cipher: key, twelve-byte nonce, data. */
  datatype RawAead = RawAead(seal: (bytes, bytes, bytes) -> Option<bytes>, open: (bytes, bytes, bytes) -> Option<bytes>)

  ghost predicate Lawful(s: RawAead) {
    forall k, n, m {:trigger s.seal(k, n, m)} ::
      s.seal(k, n, m).Some? ==> s.open(k, n, s.seal(k, n, m).value) == Some(m)
  }

  type Aead = s: RawAead | Lawful(s) ghost witness RawAead((_, _, m) => Some(m), (_, _, c) => Some(c))

  datatype Answer = Blob(blob: EncryptedBlob) | Refused | Stopped

  /** What becomes of data for which the next nonce has been asked. */
  function Sealed(s: Aead, data: bytes, key: bytes, generation: nat, o: Outcome): Answer {
    match o
    case Collision => Refused
    case Panicked => Stopped
    case Issued(counter) =>
      match s.seal(key, NonceOf(counter), data)
      case None => Refused
      case Some(ciphertext) => Blob(EncryptedBlob(1, generation, counter, ciphertext))
  }

  method EncryptData(nonces: NonceManager, s: Aead, data: bytes, key: bytes, keyId: Key, generation: nat)
    returns (r: Answer)
    modifies nonces
    ensures var (slot, o) := Next(old(nonces.SlotOf(keyId)));
            nonces.SlotOf(keyId) == slot && r == Sealed(s, data, key, generation, o)
    ensures nonces.OnlyFor(keyId)
  {
    hide Next, NonceOf;
    var o, nonce := nonces.GetNextNonce(keyId);
    if o.Panicked? {
      return Stopped;
    }
    if o.Collision? {
      return Refused;
    }
    var ciphertext := s.seal(key, nonce, data);
    if ciphertext == None {
      return Refused;
    }
    return Blob(EncryptedBlob(1, generation, o.counter, ciphertext.value));
  }

  /** The nonce is made again from the counter in the blob. */
  function Opened(s: Aead, b: EncryptedBlob, key: bytes): Option<bytes> {
    s.open(key, NonceOf(b.nonceCounter), b.ciphertext)
  }

  /** Four zero bytes and the counter in eight, high byte first. */
  lemma NoncePlace(counter: nat)
    requires counter < 0x1_0000_0000_0000_0000
    ensures NonceOf(counter)[..4] == [0, 0, 0, 0] && FromBytes(NonceOf(counter)[4..]) == counter
  {
    EightBytes();
    assert NonceOf(counter)[4..] == BigEndian(counter, 8);
    assert Zeros(4) == [0, 0, 0, 0];
    BigEndianValue(counter, 8);
    hide FromBytes, BigEndian, Pow256;
  }

  lemma EightBytes()
    ensures Pow256(8) == 0x1_0000_0000_0000_0000 && Pow256(4) == 0x1_0000_0000
  {
    assert Pow256(2) == 0x10000 && Pow256(4) == 0x10000 * Pow256(2);
    assert Pow256(6) == 0x10000 * Pow256(4);
  }

  /** Where the fields of a blob stand in its bytes. */
  lemma BlobLayout(b: EncryptedBlob)
    requires b.generation < 0x1_0000_0000 && b.nonceCounter < 0x1_0000_0000_0000_0000
    ensures var data := Serialized(b);
            && |data| == 13 + |b.ciphertext| && data[0] == b.version
            && FromBytes(data[1..5]) == b.generation && FromBytes(data[5..13]) == b.nonceCounter
            && data[13..] == b.ciphertext
  {
    EightBytes();
    BlobRoundTrip(b);
    hide FromBytes, BigEndian, Pow256;
  }

  /** Sealed data, sent as bytes, comes back under the same key; the blob says version 1 and the given generation. */
  lemma DataRoundTrip(s: Aead, data: bytes, key: bytes, generation: nat, slot: Slot)
    requires generation < 0x1_0000_0000
    ensures var (next, o) := Next(slot);
            var r := Sealed(s, data, key, generation, o);
            && (r.Blob? ==>
                  && r.blob.version == 1 && r.blob.generation == generation && r.blob.nonceCounter == slot.counter + 1
                  && Parsed(Serialized(r.blob)) == Some(r.blob)
                  && Opened(s, Parsed(Serialized(r.blob)).value, key) == Some(data))
            && (r.Stopped? <==> o.Panicked?)
            && (r.Blob? ==> o == Issued(slot.counter + 1))
  {
    var (next, o) := Next(slot);
    var r := Sealed(s, data, key, generation, o);
    hide Serialized, Parsed, NonceOf, Pow256;
    EightBytes();
    if r.Blob? { BlobRoundTrip(r.blob); }
  }
}
