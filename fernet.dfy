/**
  The Fernet cipher, kept symbolic. A token records the key it was sealed
  under and the plaintext it carries; text that no `Encrypt` of this model
  produced is `Opaque`. Decryption succeeds exactly on tokens sealed under
  the decrypting key, which is the authenticated-encryption guarantee
  Fernet is used for, taken here as given.
 */
module Fernet {

  import opened Wrappers

  predicate IsUrlSafeBase64(c: char) {
    ('A' <= c <= 'Z') || ('a' <= c <= 'z') || ('0' <= c <= '9') || c == '-' || c == '_'
  }

  /**
    A key `Fernet(key)` accepts: the url-safe base64 text of 32 bytes,
    that is 43 alphabet characters and one `=` of padding.
   */
  predicate ValidKey(key: string) {
    && |key| == 44
    && (forall i :: 0 <= i < 43 ==> IsUrlSafeBase64(key[i]))
    && key[43] == '='
  }

  datatype Cipher = Cipher(key: string)

  datatype Token = Sealed(key: string, plaintext: string) | Opaque(text: string)

  /** `Fernet(key)`; `None` stands for the `ValueError` raised on a malformed key. */
  function MakeCipher(key: string): (r: Option<Cipher>)
    ensures r.Some? <==> ValidKey(key)
    ensures r.Some? ==> r.value.key == key
  {
    if ValidKey(key) then Some(Cipher(key)) else None
  }

  function Encrypt(c: Cipher, plaintext: string): Token {
    Sealed(c.key, plaintext)
  }

  /** `cipher.decrypt(token)`; `None` stands for `InvalidToken`. */
  function Decrypt(c: Cipher, t: Token): Option<string> {
    if t.Sealed? && t.key == c.key then Some(t.plaintext) else None
  }

  /** What one key seals, the same key opens. */
  lemma DecryptEncrypt(c: Cipher, plaintext: string)
    ensures Decrypt(c, Encrypt(c, plaintext)) == Some(plaintext)
  {
  }

  /** A token sealed under another key never opens, rather than opening to a wrong plaintext. */
  lemma DecryptOtherKey(sealer: Cipher, opener: Cipher, plaintext: string)
    requires sealer.key != opener.key
    ensures Decrypt(opener, Encrypt(sealer, plaintext)) == None
  {
  }

  /** Whatever opens under a key was sealed under that key. */
  lemma DecryptAuthentic(c: Cipher, t: Token, plaintext: string)
    requires Decrypt(c, t) == Some(plaintext)
    ensures t == Encrypt(c, plaintext)
  {
  }
}
