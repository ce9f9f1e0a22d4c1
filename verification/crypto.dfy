/** The cipher module: `MedicalCrypto` with its derived key, the seven-field record
    codec, the base64(iv ‖ ciphertext) blob framing, re-encryption and the audit-log
    digest (crypto_utils.py). */
module MedicalCrypto {
  import opened Base
  import opened Text
  import opened Primitives

  /** A `MedicalCrypto` instance: the primitives and the key derived at construction. */
  datatype Crypto = Crypto(prims: Primitives, key: Bytes)

  /** `MedicalCrypto()` given the master secret and the persisted salt: the key is
      PBKDF2-HMAC-SHA256 over the UTF-8 secret, 100000 iterations, 32 bytes. */
  function NewCrypto(p: Primitives, masterKey: string, salt: Bytes): (c: Crypto)
    ensures c.prims == p
    ensures Sound(p) ==> |c.key| == KEY_LEN
  {
    Crypto(p, p.pbkdf2(p.utf8encode(masterKey), salt, KDF_ITERATIONS, KEY_LEN))
  }

  /** A crypto instance whose primitives are sound and whose key has AES-256 length. */
  ghost predicate Ready(c: Crypto) {
    Sound(c.prims) && |c.key| == KEY_LEN
  }

  // ---------------------------------------------------------------------------
  // The seven-field record
  // ---------------------------------------------------------------------------

  /** The dictionary `decrypt_patient_data` returns: seven string fields. */
  datatype Record = Record(
    name: string, dob: string, address: string, phone: string,
    diagnosis: string, treatment: string, gender: string)

  /** The delimiter between serialised fields. */
  const DELIMITER: char := '|'

  /** Number of serialised fields. */
  const FIELD_COUNT: nat := 7

  /** The record returned when decryption fails: every field empty. */
  const EMPTY_RECORD: Record := Record("", "", "", "", "", "", "")

  /** The fields in wire order: name, dob, address, phone, diagnosis, treatment, gender. */
  function Fields(r: Record): (fs: seq<string>)
    ensures |fs| == FIELD_COUNT
  {
    [r.name, r.dob, r.address, r.phone, r.diagnosis, r.treatment, r.gender]
  }

  /** The record whose wire-order fields are `fs`. */
  function FromFields(fs: seq<string>): (r: Record)
    requires |fs| == FIELD_COUNT
    ensures Fields(r) == fs
  {
    Record(fs[0], fs[1], fs[2], fs[3], fs[4], fs[5], fs[6])
  }

  /** Python's `not any(record.values())`: every field is the empty string. */
  predicate AllEmpty(r: Record) {
    forall i :: 0 <= i < FIELD_COUNT ==> Fields(r)[i] == ""
  }

  /** No field holds the delimiter, so the record survives a join and a split. */
  predicate DelimiterFree(r: Record) {
    forall i :: 0 <= i < FIELD_COUNT ==> DELIMITER !in Fields(r)[i]
  }

  lemma AllEmptyIffEmptyRecord(r: Record)
    ensures AllEmpty(r) <==> r == EMPTY_RECORD
  {
    if AllEmpty(r) {
      assert Fields(r)[0] == "" && Fields(r)[1] == "" && Fields(r)[2] == "";
      assert Fields(r)[3] == "" && Fields(r)[4] == "" && Fields(r)[5] == "";
      assert Fields(r)[6] == "";
    }
  }

  // ---------------------------------------------------------------------------
  // Dictionaries handed to encrypt_patient_data
  // ---------------------------------------------------------------------------

  /** A Python dictionary of patient values keyed by field name. */
  type PatientDict = map<string, Value>

  /** `str(patient_data.get(key, ''))`: a missing key gives the empty string. */
  function Lookup(d: PatientDict, key: string): string {
    if key in d then PyStr(d[key]) else ""
  }

  /** The dictionary keys `encrypt_patient_data` reads, in wire order. */
  const KEYS: seq<string> := ["name", "dob", "address", "phone", "diagnosis", "treatment", "gender"]

  /** The seven strings `encrypt_patient_data` serialises from a dictionary. */
  function Rendered(d: PatientDict): Record {
    Record(Lookup(d, "name"), Lookup(d, "dob"), Lookup(d, "address"), Lookup(d, "phone"),
           Lookup(d, "diagnosis"), Lookup(d, "treatment"), Lookup(d, "gender"))
  }

  /** Field i of the serialised record is `str()` of the value under the i-th key, or
      empty when the key is missing. */
  lemma RenderedFields(d: PatientDict)
    ensures forall i :: 0 <= i < FIELD_COUNT ==>
      Fields(Rendered(d))[i] == (if KEYS[i] in d then PyStr(d[KEYS[i]]) else "")
  {
  }

  /** Keys other than the seven are never read. */
  lemma RenderedIgnoresOtherKeys(d: PatientDict, k: string, v: Value)
    requires k !in KEYS
    ensures Rendered(d[k := v]) == Rendered(d)
  {
  }

  /** The record as a dictionary with a string under each of the seven keys. */
  function ToDict(r: Record): (d: PatientDict)
    ensures Rendered(d) == r
  {
    map["name" := Str(r.name), "dob" := Str(r.dob), "address" := Str(r.address),
        "phone" := Str(r.phone), "diagnosis" := Str(r.diagnosis),
        "treatment" := Str(r.treatment), "gender" := Str(r.gender)]
  }

  /** The plaintext string: the seven rendered fields joined by the delimiter. */
  function Plaintext(d: PatientDict): string {
    Join(Fields(Rendered(d)), DELIMITER)
  }

  /** The plaintext reads back field by field. */
  lemma PlaintextFields(d: PatientDict)
    requires DelimiterFree(Rendered(d))
    ensures Split(Plaintext(d), DELIMITER) == Fields(Rendered(d))
  {
    SplitJoin(Fields(Rendered(d)), DELIMITER);
  }

  /** The fields a decrypted plaintext yields: split on the delimiter, right-padded
      with empty strings to seven, anything past the seventh dropped. */
  function ParseRecord(s: string): (r: Record)
    ensures DelimiterFree(r)
  {
    var parts := Split(s, DELIMITER);
    var padded := if |parts| < FIELD_COUNT then parts + seq(FIELD_COUNT - |parts|, _ => "") else parts;
    FromFields(padded[..FIELD_COUNT])
  }

  /** Decoding a join of delimiter-free parts keeps the first seven parts in place and
      fills the missing ones with empty strings. */
  lemma ParseJoinedParts(parts: seq<string>, i: nat)
    requires |parts| >= 1
    requires forall j :: 0 <= j < |parts| ==> DELIMITER !in parts[j]
    requires i < FIELD_COUNT
    ensures Fields(ParseRecord(Join(parts, DELIMITER)))[i] == (if i < |parts| then parts[i] else "")
  {
    SplitJoin(parts, DELIMITER);
  }

  /** Decoding the serialisation of a delimiter-free record gives the record back. */
  lemma ParseRecordOfJoin(r: Record)
    requires DelimiterFree(r)
    ensures ParseRecord(Join(Fields(r), DELIMITER)) == r
  {
    SplitJoin(Fields(r), DELIMITER);
  }

  // ---------------------------------------------------------------------------
  // Blob framing
  // ---------------------------------------------------------------------------

  /** `raw[:12]` and `raw[12:]`: Python slices clip, so a short input is all IV. */
  function SplitFrame(raw: Bytes): (parts: (Bytes, Bytes))
    ensures parts.0 + parts.1 == raw
    ensures |raw| >= IV_LEN ==> |parts.0| == IV_LEN
    ensures |raw| <= IV_LEN ==> parts.1 == []
  {
    if |raw| <= IV_LEN then (raw, []) else (raw[..IV_LEN], raw[IV_LEN..])
  }

  /** The framing splits `iv ‖ ciphertext` back at the IV boundary. */
  lemma SplitFrameOfJoin(iv: Bytes, ct: Bytes)
    requires |iv| == IV_LEN
    ensures SplitFrame(iv + ct) == (iv, ct)
  {
    assert (iv + ct)[..IV_LEN] == iv;
    assert (iv + ct)[IV_LEN..] == ct;
  }

  /** `encrypt_patient_data(patient_data)` with the IV `os.urandom(12)` would draw:
      base64 of the IV followed by the AES-GCM ciphertext of the UTF-8 plaintext, or
      `None` where the cipher raises. */
  function EncryptPatientData(c: Crypto, d: PatientDict, iv: Bytes): (r: Option<Bytes>)
    requires |iv| == IV_LEN
    ensures Ready(c) && |c.prims.utf8encode(Plaintext(d))| <= AEAD_MAX_DATA ==> r.Some?
    ensures Ready(c) && r.Some? ==> |r.value| >= 16
  {
    var p := c.prims;
    match p.seal(c.key, iv, p.utf8encode(Plaintext(d)))
    case None => None
    case Some(ct) => Some(p.b64encode(iv + ct))
  }

  /** The plaintext `decrypt_patient_data` recovers, or `None` where its try block
      raises (bad base64, authentication failure, malformed UTF-8). */
  function OpenBlob(c: Crypto, blob: Bytes): Option<string> {
    var p := c.prims;
    match p.b64decode(blob)
    case None => None
    case Some(raw) =>
      var (iv, ct) := SplitFrame(raw);
      match p.open(c.key, iv, ct)
      case None => None
      case Some(pt) => p.utf8decode(pt)
  }

  /** `decrypt_patient_data(encrypted_data)`: never raises; on any failure every field
      is empty, otherwise the fields are those of the recovered plaintext. */
  function DecryptPatientData(c: Crypto, blob: Bytes): (r: Record)
    ensures OpenBlob(c, blob).None? ==> r == EMPTY_RECORD
    ensures DelimiterFree(r)
  {
    match OpenBlob(c, blob)
    case None => EMPTY_RECORD
    case Some(s) => ParseRecord(s)
  }

  /** A blob produced by encryption opens to the plaintext it sealed: the framing
      round-trips through base64 and the split at offset 12. */
  lemma OpenEncrypted(c: Crypto, d: PatientDict, iv: Bytes)
    requires Ready(c) && |iv| == IV_LEN
    requires EncryptPatientData(c, d, iv).Some?
    ensures OpenBlob(c, EncryptPatientData(c, d, iv).value) == Some(Plaintext(d))
  {
    var p := c.prims;
    var pt := p.utf8encode(Plaintext(d));
    var ct := p.seal(c.key, iv, pt).value;
    assert p.b64decode(p.b64encode(iv + ct)) == Some(iv + ct);
    SplitFrameOfJoin(iv, ct);
    assert p.open(c.key, iv, ct) == Some(pt);
  }

  /** Round trip: decrypting what encryption produced gives back the seven rendered
      fields, provided no field contains the delimiter. */
  lemma DecryptEncrypt(c: Crypto, d: PatientDict, iv: Bytes)
    requires Ready(c) && |iv| == IV_LEN
    requires DelimiterFree(Rendered(d))
    requires EncryptPatientData(c, d, iv).Some?
    ensures DecryptPatientData(c, EncryptPatientData(c, d, iv).value) == Rendered(d)
  {
    OpenEncrypted(c, d, iv);
    ParseRecordOfJoin(Rendered(d));
  }

  /** Round trip on records: `decrypt(encrypt(r)) == r` on all seven fields. */
  lemma RecordRoundTrip(c: Crypto, r: Record, iv: Bytes)
    requires Ready(c) && |iv| == IV_LEN
    requires DelimiterFree(r)
    requires EncryptPatientData(c, ToDict(r), iv).Some?
    ensures DecryptPatientData(c, EncryptPatientData(c, ToDict(r), iv).value) == r
  {
    DecryptEncrypt(c, ToDict(r), iv);
  }

  /** Six empty fields, the tail of the example below. */
  const SIX_EMPTY: seq<string> := ["", "", "", "", "", ""]

  /** The plaintext of the name "a|b" alone is the join of "a", "b" and six empty
      fields. */
  lemma ShiftedPlaintext()
    ensures Plaintext(map["name" := Str("a|b")]) == Join(["a", "b"] + SIX_EMPTY, DELIMITER)
  {
    var d: PatientDict := map["name" := Str("a|b")];
    var tail := Join(SIX_EMPTY, DELIMITER);
    assert Fields(Rendered(d)) == ["a|b"] + SIX_EMPTY;
    assert Plaintext(d) == "a|b" + [DELIMITER] + tail by {
      assert (["a|b"] + SIX_EMPTY)[1..] == SIX_EMPTY;
    }
    assert Join(["a", "b"] + SIX_EMPTY, DELIMITER) == "a" + [DELIMITER] + ("b" + [DELIMITER] + tail) by {
      assert (["a", "b"] + SIX_EMPTY)[1..] == ["b"] + SIX_EMPTY;
      assert (["b"] + SIX_EMPTY)[1..] == SIX_EMPTY;
    }
  }

  /** Those eight parts decode to name "a", dob "b" and the rest empty. */
  lemma ShiftedParse()
    ensures ParseRecord(Join(["a", "b"] + SIX_EMPTY, DELIMITER)) == Record("a", "b", "", "", "", "", "")
  {
    var parts := ["a", "b"] + SIX_EMPTY;
    assert forall j :: 0 <= j < |parts| ==> DELIMITER !in parts[j];
    ParseJoinedParts(parts, 0);
    ParseJoinedParts(parts, 1);
    ParseJoinedParts(parts, 2);
    ParseJoinedParts(parts, 3);
    ParseJoinedParts(parts, 4);
    ParseJoinedParts(parts, 5);
    ParseJoinedParts(parts, 6);
  }

  /** A field holding the delimiter breaks the round trip: the name "a|b" comes back
      as "a" and every later field shifts one place. */
  lemma DelimiterInFieldShifts(c: Crypto, iv: Bytes)
    requires Ready(c) && |iv| == IV_LEN
    requires EncryptPatientData(c, map["name" := Str("a|b")], iv).Some?
    ensures DecryptPatientData(c, EncryptPatientData(c, map["name" := Str("a|b")], iv).value)
         == Record("a", "b", "", "", "", "", "")
  {
    OpenEncrypted(c, map["name" := Str("a|b")], iv);
    ShiftedPlaintext();
    ShiftedParse();
  }

  /** An all-empty record is a legitimate plaintext, yet it decrypts to exactly the
      failure value: the two cannot be told apart by the caller. */
  lemma EmptyRecordIndistinguishable(c: Crypto, iv: Bytes)
    requires Ready(c) && |iv| == IV_LEN
    requires EncryptPatientData(c, ToDict(EMPTY_RECORD), iv).Some?
    ensures AllEmpty(DecryptPatientData(c, EncryptPatientData(c, ToDict(EMPTY_RECORD), iv).value))
  {
    RecordRoundTrip(c, EMPTY_RECORD, iv);
  }

  // ---------------------------------------------------------------------------
  // Re-encryption
  // ---------------------------------------------------------------------------

  /** `re_encrypt_data(encrypted_data)`: `None` when the decrypted record is all empty,
      otherwise the encryption of exactly the decrypted record. */
  function ReEncryptData(c: Crypto, blob: Bytes, iv: Bytes): (r: Option<Bytes>)
    requires |iv| == IV_LEN
    ensures AllEmpty(DecryptPatientData(c, blob)) ==> r.None?
    ensures !AllEmpty(DecryptPatientData(c, blob)) ==>
      r == EncryptPatientData(c, ToDict(DecryptPatientData(c, blob)), iv)
    ensures Ready(c) && !AllEmpty(DecryptPatientData(c, blob))
         && |c.prims.utf8encode(Plaintext(ToDict(DecryptPatientData(c, blob))))| <= AEAD_MAX_DATA
         ==> r.Some?
  {
    var decrypted := DecryptPatientData(c, blob);
    if AllEmpty(decrypted) then None else EncryptPatientData(c, ToDict(decrypted), iv)
  }

  /** Re-encryption preserves content: the new blob decrypts to the same record as the
      old one (decrypted fields never hold the delimiter, so the round trip applies). */
  lemma ReEncryptPreservesRecord(c: Crypto, blob: Bytes, iv: Bytes)
    requires Ready(c) && |iv| == IV_LEN
    requires ReEncryptData(c, blob, iv).Some?
    ensures DecryptPatientData(c, ReEncryptData(c, blob, iv).value) == DecryptPatientData(c, blob)
    ensures !AllEmpty(DecryptPatientData(c, ReEncryptData(c, blob, iv).value))
  {
    RecordRoundTrip(c, DecryptPatientData(c, blob), iv);
  }

  // ---------------------------------------------------------------------------
  // Audit-log digest
  // ---------------------------------------------------------------------------

  /** The message `create_log_hash` digests: the five arguments run together with no
      separator, the timestamp as `str(datetime)` renders it. */
  function LogMessage(p: Primitives, prevHash: string, role: string, action: string,
                      details: string, timestamp: Timestamp): string
  {
    prevHash + role + action + details + p.timeText(timestamp)
  }

  /** `create_log_hash(prev_hash, role, action, details, timestamp)`: the lower-case hex
      SHA-256 digest of the UTF-8 message, always 64 characters. */
  function CreateLogHash(p: Primitives, prevHash: string, role: string, action: string,
                         details: string, timestamp: Timestamp): (h: string)
    ensures IsLowerHex(h)
    ensures Sound(p) ==> |h| == 2 * DIGEST_LEN
  {
    Hex(p.sha256(p.utf8encode(LogMessage(p, prevHash, role, action, details, timestamp))))
  }

  /** Two log hashes agree exactly when SHA-256 agrees on the two messages. */
  lemma LogHashEqualIff(p: Primitives, m1: string, m2: string)
    ensures Hex(p.sha256(p.utf8encode(m1))) == Hex(p.sha256(p.utf8encode(m2)))
        <==> p.sha256(p.utf8encode(m1)) == p.sha256(p.utf8encode(m2))
  {
    if Hex(p.sha256(p.utf8encode(m1))) == Hex(p.sha256(p.utf8encode(m2))) {
      HexInjective(p.sha256(p.utf8encode(m1)), p.sha256(p.utf8encode(m2)));
    }
  }

  /** With no separator between arguments, moving characters across the boundary of
      two adjacent arguments leaves the digest unchanged. */
  lemma LogHashIgnoresBoundaries(p: Primitives, prevHash: string, role: string, action: string,
                                 details: string, timestamp: Timestamp, x: string)
    ensures CreateLogHash(p, prevHash + x, role, action, details, timestamp)
         == CreateLogHash(p, prevHash, x + role, action, details, timestamp)
    ensures CreateLogHash(p, prevHash, role + x, action, details, timestamp)
         == CreateLogHash(p, prevHash, role, x + action, details, timestamp)
    ensures CreateLogHash(p, prevHash, role, action + x, details, timestamp)
         == CreateLogHash(p, prevHash, role, action, x + details, timestamp)
  {
    assert LogMessage(p, prevHash + x, role, action, details, timestamp)
        == LogMessage(p, prevHash, x + role, action, details, timestamp);
    assert LogMessage(p, prevHash, role + x, action, details, timestamp)
        == LogMessage(p, prevHash, role, x + action, details, timestamp);
    assert LogMessage(p, prevHash, role, action + x, details, timestamp)
        == LogMessage(p, prevHash, role, action, x + details, timestamp);
  }
}
