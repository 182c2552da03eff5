/**
  The cryptographic primitives as a term algebra: a ciphertext, a tag and a wrapped key remember
  what they were made from, and opening one compares those ingredients.
 */
module Crypto {
  import opened Base

  type Key = nat        // a generated read or write key
  type SecretKey = nat

  // A public key determines, and is determined by, its private key.
  datatype PublicKey = PublicOf(sk: SecretKey)

  datatype Cipher = Seal(key: Key, data: Bytes, meta: Bytes)

  // The tag covers the data followed by the metadata, with no separator.
  datatype Tag = Tag(key: Key, text: Bytes)

  datatype Wrapped = Wrapped(senderSk: SecretKey, receiver: PublicKey, secret: Key)

  function Encrypt(key: Key, data: Bytes, meta: Bytes): Option<Cipher> {
    if data == [] then None else Some(Seal(key, data, meta))
  }

  function Decrypt(key: Key, block: Cipher, meta: Bytes): Option<Bytes> {
    if block.key == key && block.meta == meta then Some(block.data) else None
  }

  function MacCreate(key: Key, data: Bytes, meta: Bytes): Option<Tag> {
    if data == [] then None else Some(Tag(key, data + meta))
  }

  function Wrap(senderSk: SecretKey, receiver: PublicKey, secret: Key): Wrapped {
    Wrapped(senderSk, receiver, secret)
  }

  function Unwrap(receiverSk: SecretKey, sender: PublicKey, w: Wrapped): Option<Key> {
    if w.receiver == PublicOf(receiverSk) && sender == PublicOf(w.senderSk) then Some(w.secret) else None
  }
}
