/** The library functions the core calls but that this model does not define: AES-GCM,
    base64, UTF-8, SHA-256, PBKDF2-HMAC-SHA256 and `str(datetime)`. Each is a field of
    `Primitives`, so every operation of the model is stated for ANY implementation of
    them; `Sound` collects the properties the model is allowed to rely on. */
module Primitives {
  import opened Base

  /** A point in time as `datetime.now()` returns it, ordered like the database's
      `timestamp` column (for instance microseconds since an epoch). */
  type Timestamp = int

  datatype Primitives = Primitives(
    /** `AESGCM(key).encrypt(nonce, data, None)`; `None` where the library raises. */
    seal: (Bytes, Bytes, Bytes) -> Option<Bytes>,
    /** `AESGCM(key).decrypt(nonce, data, None)`; `None` on a tag mismatch or bad input. */
    open: (Bytes, Bytes, Bytes) -> Option<Bytes>,
    /** `base64.b64encode`. */
    b64encode: Bytes -> Bytes,
    /** `base64.b64decode`; `None` where it raises. */
    b64decode: Bytes -> Option<Bytes>,
    /** `str.encode()` (UTF-8). */
    utf8encode: string -> Bytes,
    /** `bytes.decode()` (UTF-8); `None` on a malformed sequence. */
    utf8decode: Bytes -> Option<string>,
    /** SHA-256 of a message. */
    sha256: Bytes -> Bytes,
    /** PBKDF2-HMAC-SHA256(password, salt, iterations, length). */
    pbkdf2: (Bytes, Bytes, nat, nat) -> Bytes,
    /** `str(timestamp)` as an f-string renders a `datetime`. */
    timeText: Timestamp -> string
  )

  /** Length of an AES-GCM nonce as the cipher module draws it (96 bits). */
  const IV_LEN: nat := 12
  /** Length of the derived AES-256 key. */
  const KEY_LEN: nat := 32
  /** Length of the persisted PBKDF2 salt. */
  const SALT_LEN: nat := 16
  /** PBKDF2 iteration count. */
  const KDF_ITERATIONS: nat := 100000
  /** Length of a SHA-256 digest. */
  const DIGEST_LEN: nat := 32
  /** The largest plaintext `AESGCM.encrypt` accepts (2**31 - 1 bytes). */
  const AEAD_MAX_DATA: nat := 0x7fff_ffff

  /** The properties of the primitives that the model relies on. */
  ghost predicate Sound(p: Primitives) {
    // AES-GCM decryption inverts encryption under the same key and nonce
    && (forall k, n, m {:trigger p.seal(k, n, m)} :: p.seal(k, n, m).Some? ==> p.open(k, n, p.seal(k, n, m).value) == Some(m))
    // AES-GCM encryption raises only for over-long data
    && (forall k, n, m {:trigger p.seal(k, n, m)} ::
          |k| == KEY_LEN && |n| == IV_LEN && |m| <= AEAD_MAX_DATA ==> p.seal(k, n, m).Some?)
    // base64 decoding inverts encoding; the encoding has the padded base64 length
    && (forall b {:trigger p.b64encode(b)} :: p.b64decode(p.b64encode(b)) == Some(b))
    && (forall b {:trigger p.b64encode(b)} :: |p.b64encode(b)| == 4 * ((|b| + 2) / 3))
    // base64 output is ASCII, hence valid UTF-8
    && (forall b {:trigger p.b64encode(b)} :: p.utf8decode(p.b64encode(b)).Some?)
    // UTF-8 decoding inverts encoding
    && (forall s {:trigger p.utf8encode(s)} :: p.utf8decode(p.utf8encode(s)) == Some(s))
    // digest and key lengths
    && (forall m {:trigger p.sha256(m)} :: |p.sha256(m)| == DIGEST_LEN)
    && (forall pw, salt, it, len {:trigger p.pbkdf2(pw, salt, it, len)} :: |p.pbkdf2(pw, salt, it, len)| == len)
  }

  /** UTF-8 encoding is injective, since decoding inverts it. */
  lemma Utf8Injective(p: Primitives, s: string, t: string)
    requires Sound(p)
    requires p.utf8encode(s) == p.utf8encode(t)
    ensures s == t
  {
    assert p.utf8decode(p.utf8encode(s)) == Some(s);
    assert p.utf8decode(p.utf8encode(t)) == Some(t);
  }
}
