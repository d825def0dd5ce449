# Encrypted customer store, modelled in Dafny

This project models the core of `backend/db_client.py`, the persistence layer
of a transit-encryption demo application. `DbClient` stores customer records
(name, birth date, social security number, address, salary) in a MySQL table.
When a Vault client is configured it sends the sensitive fields through
Vault's transit engine before writing them and decrypts them on read.

The model covers:

- **Transit codec** (`Transit`). `encrypt` UTF-8-encodes the text, encodes
  it in Base64 (section 4 of RFC 4648) and sends it to the key service.
  `decrypt` passes every text without the `vault:v` tag through unchanged.
  For a tagged text it asks the key service, then Base64-decodes and
  UTF-8-decodes the answer. Any failure inside either function's
  try-block makes it return Python's `None`. The key service is an oracle, `TransitService`, and the
  model assumes only `WellBehaved` of it: its ciphertexts carry the tag, and
  it decrypts its own output back to the payload. Base64 (`Base64`) and
  UTF-8 (`Utf8`) are written out as pure encode/decode pairs, each with a
  round-trip lemma. This gives `Transit.RoundTrip`: decrypt(encrypt(v)) == v.
- **Encryption policy.** The store is in plaintext mode until `init_vault`
  gets a non-empty address and a non-empty token. In vault mode exactly
  `birth_date`, `ssn`, `address` and `salary` go through `encrypt`;
  `first_name`, `last_name` and `create_date` never do.
- **Record mapping and CRUD over an abstract table** (`Records`). The table
  is a sequence of 8-column rows plus an AUTO_INCREMENT counter. Statements
  are structured values (column to value), not SQL text. A row becomes a
  record by column index, with the four sensitive columns decrypted only in
  vault mode. The listing loop skips a row whose mapping raises. An insert
  never names `cust_no`. An update is keyed by `cust_no` and leaves
  `create_date` alone.
- **`_execute_sql`** (`DbClient.ExecResult`, `DbClient.DbClient.ExecuteSql`).
  A first-attempt success returns 1. Error 2006 ("server has gone away")
  triggers a reconnect and exactly one retry on a fresh cursor, which
  returns 0 on success. A failed retry propagates. Any other
  `OperationalError` is swallowed and the method returns `None`. What the
  server does with each attempt is an input (`Attempts`).

The store object is a class (`DbClient.DbClient`) whose fields are those
the source updates in place: the Vault client, key name, mount point and
connection. A `table` field stands in for the server's `customers` table.
Fetched rows hold Python values (`Value`: `int`, `str` or `None`), and that
is what makes the per-row skip reachable. `decrypt` calls `startswith`
before its try-block, so a non-`str` cell in a sensitive column raises out
of `decrypt`. The listing loop catches that and drops the row. Over a table
that conforms to its DDL this never happens (`Records.ListedConforming`).

### Behaviour of the source worth knowing

- A failed `encrypt` does not abort the write. It returns `None`, and
  `"{}".format(None)` writes the text `None` into the column
  (`Records.Formatted`, `Records.StoredText`).
- A tagged value that cannot be decrypted does not drop its row. The row is
  listed with that field set to `None`. Only an exception raised outside
  `decrypt`'s try-block drops a row.
- A non-2006 `OperationalError` is swallowed. Insert and update then go on
  to commit and list as if nothing failed.
- After a reconnect, `get_customer_records` iterates its own cursor, but the
  SELECT was re-run on a fresh cursor. The model gives that listing no rows
  (`DbClient.Listing`).
- `init_vault` can be called again later and switches the policy. Nothing
  fixes the policy at construction.
- Insert and update return the default listing of the first 10 rows, not
  the written record. `DbClient.InsertedRecordIsListed` states when the new
  record appears in it.

## Model

| member | source | states |
|---|---|---|
| `Base64.Encode` | backend/db_client.py:61 | the Base64 text has 4 characters per started group of 3 bytes, each an alphabet character or padding |
| `Base64.RoundTrip` | backend/db_client.py:84 | `b64decode` inverts `b64encode` for every byte sequence |
| `Utf8.Encode` | backend/db_client.py:61 | `str.encode()` yields 1 to 4 bytes per character |
| `Utf8.RoundTrip` | backend/db_client.py:84 | strict UTF-8 decoding inverts encoding for every string |
| `Transit.Encrypt` | backend/db_client.py:56-66 | without a client `encrypt` yields None; a ciphertext from a well-behaved service carries the `vault:v` tag |
| `Transit.Decrypt` | backend/db_client.py:69-88 | raises exactly on a non-`str`; an untagged `str` comes back unchanged whatever the policy; otherwise the result is a `str` or None, never an exception |
| `Transit.RoundTrip` | backend/db_client.py:56-88 | with a well-behaved service, decrypting what `encrypt` returned gives the original text, and the ciphertext is tagged |
| `Records.StoredText` | backend/db_client.py:144-149 | in plaintext mode, and for the three non-sensitive columns, the caller's text is stored verbatim; in vault mode the sensitive columns hold the formatted `encrypt` result, tagged when encryption succeeded |
| `Records.InsertStatement` | backend/db_client.py:143-149 | the INSERT names exactly the seven caller columns (no `cust_no`), each with its stored text |
| `Records.UpdateStatement` | backend/db_client.py:156-164 | the UPDATE sets exactly the six columns other than `create_date`, keyed by the caller's `cust_no` |
| `Records.PlaintextPolicy` | backend/db_client.py:144-146 | without a client both statements carry the caller's fields verbatim and do not depend on the key service |
| `Records.NewRow` | backend/db_client.py:145-146 | the inserted row conforms to the schema, has the AUTO_INCREMENT number as `cust_no` and each value at its column's position |
| `Records.UpdatedRow` | backend/db_client.py:158-160 | the updated row keeps `cust_no` and `create_date` and holds the new value of every other column |
| `Records.UpdateRows` | backend/db_client.py:158-160 | the UPDATE rewrites only rows whose `cust_no` matches the key and keeps every other row and the row count |
| `Records.SelectRows` | backend/db_client.py:118 | `LIMIT` yields the first `min(limit, rows)` rows of the table, in the order the model keeps them (see "## Left out" on row order) |
| `Records.InsertKeepsTableValid` | backend/db_client.py:9-17 | an insert keeps the schema and unique keys, and its `cust_no` is held by no earlier row |
| `Records.UpdateKeepsTableValid` | backend/db_client.py:158-164 | an update keeps the schema and unique keys; at most one row carries the key it rewrites |
| `Records.MapRow` | backend/db_client.py:123-137 | mapping raises exactly for a row shorter than 8 or, in vault mode, a non-`str` sensitive cell; otherwise each field is the cell at its column's index, decrypted only for the four sensitive fields and only in vault mode |
| `Records.ListedAppend` | backend/db_client.py:121-141 | the listing of two row sequences one after the other is the concatenation of their listings |
| `Records.SkipsOnlyFailingRow` | backend/db_client.py:122-141 | a row whose mapping raises is the only one left out; every other row is still listed |
| `Records.ListedBounded` | backend/db_client.py:121-141 | the listing holds no more records than rows, each the mapping of one of them |
| `Records.ListedConforming` | backend/db_client.py:122-138 | over schema-conforming rows nothing is skipped: one record per row, in row order |
| `Records.CollectRecords` | backend/db_client.py:121-141 | the loop over the cursor returns exactly the listing of the fetched rows |
| `Records.SensitiveReadsBack` | backend/db_client.py:134-137 | in vault mode a sensitive column written by the store decrypts back to the caller's text |
| `Records.InsertedRowReadsBack` | backend/db_client.py:143-149 | an inserted row maps back to the caller's record under its new `cust_no`, in both modes |
| `Records.UpdatedRowReadsBack` | backend/db_client.py:156-164 | an updated row maps back to the caller's fields with the stored `create_date` and the same `cust_no` |
| `DbClient.ExecResult` | backend/db_client.py:91-101 | 1 exactly on first-attempt success, 0 exactly on success after a reconnect; a number exactly when the statement took effect; None exactly for a non-2006 operational error; otherwise the failing attempt's exception |
| `DbClient.Listing` | backend/db_client.py:115-141 | the listing raises exactly when executing the SELECT raises, and it is empty whenever the first attempt failed |
| `DbClient.ListingBounded` | backend/db_client.py:115-122 | a listing holds at most `limit` records, each mapped from a row of the table |
| `DbClient.ListingOfValidTable` | backend/db_client.py:115-138 | over a valid table a successful listing has one record per row of the first `limit` rows, in order |
| `DbClient.InsertedRecordIsListed` | backend/db_client.py:143-154 | after an insert the confirmation listing ends with the caller's record when fewer than `limit` rows existed, and omits it otherwise |
| `DbClient.DbClient.constructor` | backend/db_client.py:26-43 | a new store is in plaintext mode over the existing table, on its first connection |
| `DbClient.DbClient.InitVault` | backend/db_client.py:46-53 | an empty or missing address or token changes nothing; otherwise client, key name and mount point are set; the table and connection are untouched |
| `DbClient.DbClient.Reconnect` | backend/db_client.py:29-43 | re-running `init_db` opens a new connection and leaves the table and Vault settings as they were |
| `DbClient.DbClient.RunOn` | backend/db_client.py:93 | a successful execute applies the statement to the table and leaves its result rows on the cursor |
| `DbClient.DbClient.ExecuteSql` | backend/db_client.py:91-101 | the statement takes effect at most once; the result is `ExecResult`; the connection is renewed exactly on error 2006; the caller's cursor holds the statement's rows after a first-attempt success and is empty otherwise |
| `DbClient.DbClient.GetCustomerRecords` | backend/db_client.py:115-141 | limit 10 when none is given; leaves the table unchanged; returns `Listing` of the current table and policy |
| `DbClient.DbClient.InsertCustomerRecord` | backend/db_client.py:143-154 | when the INSERT takes effect, exactly one row is appended under the next `cust_no` and the counter advances; otherwise the table is unchanged; then either the INSERT's exception or the default listing; the connection is renewed once for each first attempt (the INSERT's, then the listing's if reached) that hits error 2006 |
| `DbClient.DbClient.UpdateCustomerRecord` | backend/db_client.py:156-169 | when the UPDATE takes effect, only the matching row changes (not its `cust_no` or `create_date`); then either the UPDATE's exception or the default listing; the connection is renewed once for each first attempt (the UPDATE's, then the listing's if reached) that hits error 2006 |

## Left out

- The MySQL server and connector are not modelled: connecting, the error-code
  printing in `connect_db`, and the `CREATE DATABASE` / `CREATE TABLE` DDL.
  The table is a value and each attempt's outcome is an input. A reconnect
  always yields a new connection; a failed `connect_db` inside it is not
  modelled.
- The `hvac` client and the network transit API are an oracle. Vault's own
  AES encryption cannot be seen from this code.
- SQL text, quoting and interpolation are not modelled. Statements are
  structured values, so a quote inside a field cannot break the statement
  as it can in the source.
- `print` logging is left out, including the credential printing in `connect_db`.
- `e[0]` on an exception raises `TypeError` under Python 3. The model reads
  it as the error number, as intended.
- Cursor iteration is read as "the rows of the last statement executed on
  this cursor". `execute` clears the cursor's result set before it runs.
  Whether the connector raises on a cursor whose execute failed is not
  modelled: such a cursor yields no rows.
- `Records.ConformsToSchema` and `Records.TableValid`: the DDL's column
  widths, `varchar(255)` for the seven text columns and `int(11)` for
  `cust_no`, are not modelled. In the model a successful INSERT or UPDATE
  stores text of any length, and AUTO_INCREMENT has no ceiling. On a
  server, a value longer than 255 characters fails the statement with
  error 1406 (a `DataError`, which `_execute_sql` does not catch) in strict
  mode, or is truncated otherwise. In vault mode the stored ciphertext is
  longer than the caller's field, `vault:v1:` plus the Base64 of the
  payload and Vault's nonce and tag, so this happens for fields of roughly
  155 UTF-8 bytes or more. `Records.InsertedRowReadsBack`,
  `Records.UpdatedRowReadsBack` and `DbClient.InsertedRecordIsListed` hold
  only for values within the widths; a server's rejection can be
  given to the model as a first attempt `Fails(DatabaseError(1406))`, which
  `ExecResult` propagates.
- `commit` is not modelled separately. A statement that takes effect is
  kept; one that fails has no effect.
- `Base64.Decode`: the lenient `b64decode` that discards characters outside
  the alphabet is not modelled. Decoding is strict, which is the same on
  the well-formed Base64 a key service returns.
- Caller record fields are strings. Non-`str` values in the caller's
  dictionary are not modelled.
- Negative `num` values are left out, because MySQL rejects `LIMIT -1` as a
  syntax error. The limit is a `nat`.
- There is no concurrency: the store is single-threaded and has no locking.
- `Utf8.Encode`: a Python `str` can hold a lone surrogate, and `str.encode()`
  raises on it, so in vault mode `encrypt` would return None and the text
  `None` would be stored. A Dafny `string` cannot hold a lone surrogate, so
  this path is not modelled: encoding never fails in the model.
- `Transit.TransitService`: the key service's encrypt endpoint is a function,
  so the same payload always gets the same ciphertext. Vault's transit
  encryption draws a fresh nonce on every call. No proof relies on the
  ciphertext being fixed, only on it being tagged and decrypting back.
- `Records.SelectRows`: `SELECT ... LIMIT` has no `ORDER BY`, so the server
  may return the rows in any order. The model returns the first rows of the
  table sequence, assumed to be the server's order (primary-key order for
  this table). `Records.TableValid` does not require the sequence to be
  sorted by `cust_no`.
