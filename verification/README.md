# Medical records core in Dafny

A model of the logic at the centre of a small hospital records system. The system
is a Flask application over PostgreSQL, with an AES-GCM encrypted copy of each
patient record and a hash-linked audit log. The model covers three parts:

- **The cipher module** (`MedicalCrypto`, crypto_utils.py). A patient dictionary is
  rendered as seven fields joined by `|` in the order name, dob, address, phone,
  diagnosis, treatment, gender. The blob is `base64(iv ‖ ciphertext)` with a
  12-byte IV. Decryption splits at offset 12, splits the plaintext on `|`, pads to
  seven fields and drops the rest. Any failure gives the all-empty record. The
  module also covers `re_encrypt_data` and the audit digest `create_log_hash`, a
  SHA-256 hex digest of five arguments run together with no separator.
- **The routes of app.py that write or summarise** (`App`, `AuditChain`,
  `Calendar`):
  - the role guard of each route;
  - add, edit and delete of a patient, and the nurse's treatment-only update;
  - the admin log view, and the blob backfill of `view_encrypted`;
  - the gender counts and age bins of the patients page;
  - the audit append each write performs. Its `prev_hash` is the hash of the
    latest row by timestamp (64 zeros when the log is empty). Its `hash` is
    computed over a SHORT details string, while the `details` column stores a
    different LONG string.
- **The migration script** (`Migration`, migrate_encryption.py). It folds over the
  rows whose blob is not NULL, decrypts each, rebuilds an all-empty record from
  the side columns, re-encrypts, writes only `encrypted_data`, and counts
  successes, failures and reconstructions.

The primitives the code calls come from the library, so the model does not define
them. They are AES-GCM, base64, UTF-8, SHA-256, PBKDF2 and `str(datetime)`. Each is
a function-valued field of `Primitives.Primitives`. The ghost predicate
`Primitives.Sound` lists what the proofs rely on:

- decryption inverts encryption, and encryption succeeds for a 32-byte key, a
  12-byte nonce and data under 2^31 bytes;
- base64 decoding inverts encoding, with the padded length, and its output is valid
  UTF-8;
- UTF-8 decoding inverts encoding;
- the digest is 32 bytes and the derived key has the requested length.

Three things the source draws from outside become parameters:

- `os.urandom(12)` becomes `iv` (or `ivs` for the migration, one per row);
- `datetime.now()` and `date.today()` become `now` and `today`;
- the id the `patients` sequence hands out becomes `newId`.

The database is an immutable value `App.Db`: a map from patient id to row, plus the
audit rows in insertion order. A POST ends in one of three ways:

- `Denied`: the role guard redirected;
- `Failed`: an exception escaped before `conn.commit()`, so nothing is written;
- `Committed(db)`: the new state.

Files:

- `base.dfy`: bytes, `Option`, Python values (`str(None)`, `x or ''`, truthiness).
- `text.dfy`: `str.split`/`join`, decimal rendering, hex.
- `primitives.dfy`: the primitives and their properties.
- `crypto.dfy`: crypto_utils.py.
- `audit.dfy`: the audit append.
- `calendar.dfy`: dates (`str(date)`, ISO parsing, `toordinal`, the age computation).
- `app.dfy`: app.py.
- `migrate.dfy`: migrate_encryption.py.

## Model

| member | source | states |
|---|---|---|
| `MedicalCrypto.NewCrypto` | crypto_utils.py:66-76 | the key is PBKDF2 of the UTF-8 master secret with the salt, 100000 iterations, and has the 32 bytes AES-256 needs |
| `MedicalCrypto.RenderedFields` | crypto_utils.py:82-90 | field i of the rendered record, for each of the seven keys name, dob, address, phone, diagnosis, treatment, gender in that order, is `str()` of the dictionary value under that key, and the empty string when the key is missing |
| `MedicalCrypto.RenderedIgnoresOtherKeys` | crypto_utils.py:82-90 | a key outside the seven does not reach the plaintext |
| `MedicalCrypto.ToDict` | crypto_utils.py:82-90 | a record written as a dictionary renders back to exactly that record |
| `MedicalCrypto.PlaintextFields` | crypto_utils.py:82-90 | splitting the plaintext on `|` gives back the seven fields in wire order when none holds `|` |
| `MedicalCrypto.AllEmptyIffEmptyRecord` | crypto_utils.py:141-149 | "no field truthy" holds exactly of the failure record with all seven fields empty |
| `MedicalCrypto.ParseRecord` | crypto_utils.py:126-138 | the decoded record has seven fields, none of which can contain `|` |
| `MedicalCrypto.ParseJoinedParts` | crypto_utils.py:126-138 | field i of the decoded record is the i-th `|`-separated part when there is one and `''` otherwise; parts after the seventh are ignored |
| `MedicalCrypto.ParseRecordOfJoin` | crypto_utils.py:126-138 | decoding the `|`-join of a delimiter-free record returns the record |
| `MedicalCrypto.SplitFrame` | crypto_utils.py:115-116 | the two slices concatenate to the raw bytes; the IV part has 12 bytes when the input is that long; a short input is all IV with an empty ciphertext |
| `MedicalCrypto.SplitFrameOfJoin` | crypto_utils.py:103-116 | the framing `iv ‖ ct` splits back into the same IV and ciphertext |
| `MedicalCrypto.EncryptPatientData` | crypto_utils.py:78-106 | with a sound cipher and a 32-byte key, encryption yields a blob (at least 16 base64 bytes) for every plaintext the cipher accepts; `None` only where the cipher raises |
| `MedicalCrypto.DecryptPatientData` | crypto_utils.py:108-149 | any failure to decode, authenticate or decode UTF-8 gives the all-empty record; the result never holds `|` in a field |
| `MedicalCrypto.OpenEncrypted` | crypto_utils.py:93-123 | a freshly encrypted blob base64-decodes, splits at offset 12 and opens to exactly the plaintext that was sealed |
| `MedicalCrypto.DecryptEncrypt` | crypto_utils.py:82-138 | decrypt after encrypt returns the seven rendered fields of the dictionary when none holds `|` |
| `MedicalCrypto.RecordRoundTrip` | crypto_utils.py:82-138 | `decrypt(encrypt(r)) == r` on all seven fields for every delimiter-free record |
| `MedicalCrypto.DelimiterInFieldShifts` | crypto_utils.py:82-138 | a name `a|b` comes back as name `a`, dob `b`, every later field shifted, so the round trip needs delimiter-free fields |
| `MedicalCrypto.EmptyRecordIndistinguishable` | crypto_utils.py:139-149 | a genuinely empty record decrypts to the same all-empty value as a failure |
| `MedicalCrypto.ReEncryptData` | crypto_utils.py:151-165 | re-encryption gives `None` when the decrypted record is all empty; otherwise it is exactly the encryption, under the fresh IV, of the decrypted record as a dictionary, and with a sound cipher and a 32-byte key it is a blob whenever that plaintext fits the cipher |
| `MedicalCrypto.ReEncryptPreservesRecord` | crypto_utils.py:151-165 | a re-encrypted blob decrypts to the same record as the original blob, and that record is not all empty |
| `MedicalCrypto.CreateLogHash` | crypto_utils.py:167-172 | the digest is lower-case hex of 64 characters |
| `MedicalCrypto.LogHashEqualIff` | crypto_utils.py:170-172 | two hex digests are equal exactly when the SHA-256 digests are equal |
| `MedicalCrypto.LogHashIgnoresBoundaries` | crypto_utils.py:169 | moving characters across the boundary of two adjacent arguments leaves the digest unchanged |
| `Text.Split` | crypto_utils.py:126 | `str.split` gives at least one piece, no piece holds the separator, and joining the pieces gives the string back |
| `Text.SplitJoin` | crypto_utils.py:126 | splitting a join of separator-free parts gives the parts back |
| `Text.Hex` | crypto_utils.py:172 | `bytes.hex()` has two lower-case hex digits per byte |
| `Text.HexInjective` | crypto_utils.py:172 | different digests have different hex strings |
| `Primitives.Utf8Injective` | crypto_utils.py:169 | different messages have different UTF-8 encodings |
| `AuditChain.LatestIndex` | app.py:188-190 | the row `ORDER BY timestamp DESC LIMIT 1` picks has a timestamp no smaller than any other row's |
| `AuditChain.Tip` | app.py:188-190 | the `prev_hash` is 64 zeros on an empty log, otherwise the hash of a row with the greatest timestamp |
| `AuditChain.NewEntry` | app.py:192-203 | the new row stores the tip as `prev_hash`, the long details string, and a hash over its own `prev_hash`, role, action, the short details string and timestamp; the hash is 64 hex characters |
| `AuditChain.Append` | app.py:188-203 | appending keeps every earlier row and adds one row whose `prev_hash` is the previous tip |
| `AuditChain.TipOfMonotone` | app.py:188-190 | when timestamps strictly increase, the last row inserted is the only row with the greatest timestamp, so whichever latest row the query returns, the tip is its hash |
| `AuditChain.AppendKeepsLinked` | app.py:188-203 | an append at a time later than every row keeps the timestamps strictly increasing and each `prev_hash` equal to its predecessor's hash |
| `AuditChain.AppendAll` | app.py:188-203 | a run of appends keeps the original rows as a prefix and adds one row per request |
| `AuditChain.AppendAllRecords` | app.py:193-203 | row `n + k` of a run of appends on a log of `n` rows records request k with the hash computed from its own `prev_hash` |
| `AuditChain.SequentialAppendsLink` | app.py:188-203 | sequential appends with a clock that strictly advances produce a log whose timestamps strictly increase and which is linked from the genesis value |
| `AuditChain.GenesisAppend` | app.py:190 | the first row ever appended carries the 64-zero `prev_hash` |
| `AuditChain.StoredRowRecomputesOnlyOnCollision` | app.py:193-203 | when hashed and stored details differ, recomputing the hash from the stored columns matches only through a SHA-256 collision of two different messages |
| `App.AddAuditDetails` | app.py:192-203 | the hashed details of an add name the patient, the stored details mention all seven posted fields, and the two strings differ |
| `App.EditAuditDetails` | app.py:257-268 | the hashed details of an edit name the patient, the stored details mention all seven posted fields, and the two strings differ |
| `App.TreatmentAuditDetails` | app.py:332-341 | the hashed details of a treatment update carry the stored name and the decimal id, the stored details carry the previous and the new treatment, and the two strings differ |
| `App.DeleteAuditDetails` | app.py:380-388 | both details strings of a delete carry the patient's name and they differ |
| `App.AuditDetailsDiffer` | app.py:193-203 | the hashed and the stored details differ in add, edit, treatment update and delete alike |
| `App.ResolvedRoleMeetsGuards` | app.py:154-156 | with no form role and no query role, each write route's own default (Doctor for add, edit and delete at lines 154, 218 and 360; Nurse for the treatment update at line 287) passes its guard; for add, edit, delete and the treatment update, a non-empty form role alone decides whether the request is denied, and an empty or absent form role defers to the query role |
| `App.SideDict` | migrate_encryption.py:93-101 | the dictionary of side columns renders as those columns with `None` mapped to `''` and the dob stringified |
| `App.FormDict` | app.py:159-167 | the dictionary built from a posted form renders as the form's seven fields in wire order |
| `App.TreatmentDict` | app.py:308-316 | the nurse's dictionary renders as the current row with only the treatment replaced; NULL columns become `None` through `str()` |
| `App.AddPatientRoute` | app.py:152-211 | denied exactly for a role other than Doctor; fails exactly when a posted field holds a NUL character or the dob is not a date; on commit one new row is added whose side columns are the posted fields and whose blob is the encrypted form, no other row changes, and one audit row is appended |
| `App.AddedPatientDecrypts` | app.py:178-203 | the stored blob decrypts to the posted fields and the new audit row links to the previous tip |
| `App.EditPatientRoute` | app.py:216-274 | denied exactly for a role other than Doctor; fails exactly when a posted field holds a NUL character or the dob is not a date; only the edited row changes, its side columns become the posted fields and its blob the encrypted form; the audit row is appended even when the id has no row |
| `App.EditTreatmentRoute` | app.py:285-347 | denied exactly for a role other than Nurse; fails exactly when the id has no row or the treatment holds a NUL character; on commit only `treatment` and `encrypted_data` of that row change, the blob being the encryption of the current row with the new treatment, and one audit row is appended |
| `App.TreatmentBlobDecrypts` | app.py:304-325 | the nurse's new blob decrypts to the current row with only the treatment replaced, NULL columns showing as `None` |
| `App.DeletePatientRoute` | app.py:358-397 | denied exactly for a role other than Doctor; fails exactly when the id has no row; on commit that row alone goes and one audit row is appended |
| `App.RejectedRequestsWriteNothing` | app.py:153-397 | the role guard of each write route (Doctor for add, edit and delete, lines 155, 220 and 361; Nurse for the treatment update, line 289; Admin for the blob view, line 437) denies any other role, an add or edit whose fields hold a NUL character or whose dob is not a date fails, a treatment update of a missing id or with a NUL in the treatment fails, and a delete of a missing id fails; in every such case the database is unchanged |
| `App.WriteRoutesAppendOneRow` | app.py:188-203 | for any role, form, fresh id, target id and IV, each of add, edit, treatment update and delete, when it commits, appends exactly one audit row after the old ones, whose `prev_hash` is the previous tip |
| `App.LogsRoute` | app.py:402-418 | the audit rows are returned exactly to the Admin role, and unchanged |
| `App.ViewEncryptedRoute` | app.py:434-480 | denied exactly for a role other than Admin; only the viewed row may change, and only in its blob: a missing or empty blob is backfilled with the encryption of the side columns, any other is kept; a record is shown exactly when the resulting blob is non-empty UTF-8 text, and it is that blob's decryption |
| `App.BackfillShowsSideColumns` | app.py:451-478 | a backfilled row is shown decrypted as its side columns with `None` mapped to `''` |
| `App.CountPartition3` | app.py:103-105 | three tests of which each row passes exactly one split the rows: their counts sum to the number of rows |
| `App.CountIfIsMultiplicity` | app.py:103-104 | counting the rows whose gender equals g is the multiplicity of g in the gender column |
| `App.GenderDistribution` | app.py:103-105 | the male count is the number of rows whose gender is `Male`, the female count the number whose gender is `Female`, and male, female and other sum to the number of patients |
| `App.AgeBin` | app.py:130-137 | an age lands in exactly one of the bins `<20`, `20-39`, `40-59`, `60+` by the thresholds 20, 40 and 60 |
| `App.AgeDistribution` | app.py:120-139 | each bin counts exactly the patients whose age falls in it; rows with a NULL dob are skipped; the bins sum to the patients with a dob, at most all patients |
| `Calendar.AgeInYears` | app.py:129 | the age is the whole number of 365-day periods between the dob and today: `365 * age <= days < 365 * (age + 1)`, floored also for a dob in the future |
| `Calendar.ParseIsoDate` | app.py:179-184 | a date accepted for the dob column is spelled with 8 to 10 characters |
| `Calendar.ParseDateText` | app.py:180-184 | the dob the database reads from the text `str(date)` is that date again, for every valid date; the same `str(date)` is what migrate_encryption.py:95 and app.py:454 put back into a record |
| `App.CanonicalDobReadsBack` | app.py:452-460 | a form whose dob is spelled `YYYY-MM-DD` and whose fields hold no NUL character is never refused by add or edit, and the written row's side columns, read with `None` as `''` as the backfill and the migration read them, give back exactly the posted form |
| `Migration.Select` | migrate_encryption.py:65-68 | an id is fetched exactly when the scan lists it and its blob is not NULL; each row comes as stored, and once when the scan lists each id once |
| `Migration.DistinctCount` | migrate_encryption.py:65-68 | a list of distinct ids has as many elements as the set of those ids |
| `Migration.ProcessRow` | migrate_encryption.py:85-130 | the reconstruction branch runs exactly when decryption gives the all-empty record; the new blob encrypts the decrypted record or, when rebuilding, the side columns; with a sound cipher a row fails exactly when encryption gives `None` |
| `Migration.ApplyOutcome` | migrate_encryption.py:106-125 | a successful row's UPDATE writes only its `encrypted_data`; a failed row issues no update |
| `Migration.ApplyOutcomes` | migrate_encryption.py:75-134 | each row bumps exactly one of success and failure; every reconstruction is also a success; the counters equal the counts of outcomes; only the blobs of the fetched rows change |
| `Migration.MigrateEncryptedData` | migrate_encryption.py:56-144 | total is the number of rows with a non-NULL blob, and each of them is processed; `success + fail == total`; `reconstructed <= success`; side columns and keys unchanged; each processed row ends with its new or its old blob |
| `Migration.ReencryptedRowIsStable` | migrate_encryption.py:117-127 | a re-encrypted row keeps its content, so a second run re-encrypts it again without reconstruction |
| `Migration.ReconstructedRowDecryptsToSideColumns` | migrate_encryption.py:88-113 | a reconstructed row decrypts to its side columns, so a second run rebuilds it again exactly when those columns are all empty or NULL |

## Left out

- Flask routing, templates, `flash`, and the redirect after a connection failure.
  Each write route takes the role already resolved (`App.ResolveRole`). The GET branches of the
  form routes only render pages.
- psycopg2 connections, cursors and SQL text. Rows fetched as `memoryview` or
  `bytes` are modelled as the same bytes.
- Database errors. The migration's `except` branch counts a failure only on a
  database error, because no other statement in its `try` raises. A psycopg2
  error also aborts the rest of that transaction, which the model does not
  represent.
- The internals of AES-GCM, base64, UTF-8, SHA-256 and PBKDF2. Each is a parameter
  with the properties listed above.
- Salt file I/O (`_get_or_create_salt`) and the environment lookup of the master
  secret with its development fallback. `MedicalCrypto.NewCrypto` takes the secret
  and the salt as values.
- The gender percentages: floating-point division.
- Concurrency. Two requests can read the same tip before either inserts. The
  model performs appends one after the other and claims no atomicity.
- `AuditChain.LatestIndex`: among rows with equal timestamps the database may
  return any of them. The model picks the one inserted last.
- AuditChain.TipOfMonotone, AuditChain.AppendKeepsLinked and
  AuditChain.SequentialAppendsLink: they assume strictly increasing timestamps. Two
  requests that share one `datetime.now()` value leave two rows tied for the
  latest, and the next append may link to either. For such ties the model does not
  promise a linked chain.
- Rows already in the table never hold a NUL character, since no statement could
  have stored one. The model does not check the columns it reads back for NUL.
- `AuditChain.Recomputes` is not a check the code has. app.py never verifies the
  chain; the predicate exists only to state what the stored rows do and do not
  satisfy.
- The table definitions are not part of this model. The model assumes that the
  `dob` column has type DATE: the INSERT and UPDATE of `add_patient` and
  `edit_patient` then fail on text the database cannot read as a date, and rows
  read back hold date objects. The dob part of the failure clauses of
  `App.AddPatientRoute` and `App.EditPatientRoute` rests on this assumption.
- Date parsing by the database: PostgreSQL accepts more date spellings than
  `YYYY-M(M)-D(D)`. `Calendar.ParseIsoDate` accepts exactly that form, and every
  other string fails the route.
- The `strptime` branch of the age loop (app.py:127-128) handles a dob held as
  text. Under the DATE assumption above no row holds one, so the branch is not
  modelled.
- Strings containing lone surrogates. Dafny's `char` cannot hold them, so UTF-8
  encoding is total in the model; Python raises on them during encryption.
- App.LogsRoute: the query orders the rows by `timestamp DESC`; the model returns
  them in insertion order.
- Calendar.ParseIsoDate: the contract bounds only the length of an accepted string;
  that it reads back every `str(date)` is `Calendar.ParseDateText`. The digit and
  dash shape of an accepted string is defined in the body but not restated.

## Notes on the code

- app.py has no chain verification. The stored `hash` covers a different details
  string than the stored `details` column, so recomputing it from a stored row
  fails short of a SHA-256 collision (`AuditChain.StoredRowRecomputesOnlyOnCollision`,
  `App.AuditDetailsDiffer`).
- A missing master secret is not an error: crypto_utils.py falls back to a
  development constant. The model takes the secret as a value.
- A row whose side columns are all empty or NULL is reconstructed again on every
  run of the migration (`Migration.ReconstructedRowDecryptsToSideColumns`).
- The migration commits once, after the loop (migrate_encryption.py:136).
  `Migration.MigrateEncryptedData` returns the table as that single commit leaves it.
- The routes take no lock between reading the tip and inserting the audit row. The
  model performs appends one after the other.
