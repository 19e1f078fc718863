# Encrypted personal-data store: a Dafny model

The application is a single Streamlit page, `aes.py`. It stores four personal fields:
name (`nama`), national identity number (`nik`), address (`alamat`) and phone number (`no_hp`).
Each field is encrypted under a passphrase that the user types. This project models the core
under the page:

- **Key derivation.** The passphrase's UTF-8 bytes are right-filled with zero bytes to 16 and
  cut to 16. Module `FieldCipher`.
- **Field encryption.** PKCS#7 padding (RFC 5652, section 6.3), AES-CBC (NIST SP 800-38A,
  section 6.2) and Base64 (RFC 4648, section 4). A field is stored as the Base64 text of
  `IV(16) || ciphertext`. Modules `Utf8`, `Pkcs7`, `Cbc`, `Base64`, `FieldCipher`.
- **The `users` table.** SQLite with an `AUTOINCREMENT` id. Class `Database.UserTable` keeps
  the rows in ascending id order, which is the order `SELECT *` returns them in. It also keeps
  the largest id ever issued, so a deleted id is never reused. Its abstract value is a map
  from id to the four columns.
- **What the pages do around the table.** Module `App`:
  - A record is stored only when all five inputs are non-empty.
  - Each field is encrypted on its own, with its own IV.
  - A row is decrypted all-or-nothing: one `try` wraps its four field decryptions.
  - On the decrypt page, every row is tried independently.

Two things are parameters rather than parts of the model:

- **The AES block cipher** (FIPS 197, from PyCryptodome) is a `Cbc.BlockCipher`: a pair of
  keyed functions on 16-byte blocks. The only fact the proofs use about it is `Cbc.Inverts`:
  block decryption undoes block encryption under the same key.
- **The IV** that `get_random_bytes(16)` would draw is passed in.

Everything else is modelled exactly:

- UTF-8 encoding and strict decoding. Decoding rejects overlong forms, surrogates and values
  above U+10FFFF.
- CPython's non-strict Base64 decoder. It refuses non-ASCII text, skips characters outside
  the alphabet, stops at a completing `=`, and reports leftover characters as an error.
- PyCryptodome's padding checks, and its IV-length and block-alignment checks.

The central theorem is `FieldCipher.DecryptEncrypt`: decrypting the result of encrypting a
text, under the same passphrase, gives back that text.

## Model

| member | source | states |
|---|---|---|
| `FieldCipher.DeriveKey` | aes.py:10 | The key has 16 bytes. Byte i is byte i of the passphrase's UTF-8 encoding when the passphrase is that long, and 0 otherwise. Encrypt and decrypt (aes.py:17) share this one definition. |
| `FieldCipher.Ljust` | aes.py:10 | Right-filling reaches the width only when the input is shorter. It keeps the input as a prefix, and every added byte is the fill byte. |
| `FieldCipher.DeriveKeyEmpty` | aes.py:10 | The empty passphrase gives 16 zero bytes. |
| `FieldCipher.DeriveKeyShort` | aes.py:17 | A passphrase shorter than 16 bytes gives its bytes followed by zero bytes. |
| `FieldCipher.DeriveKeyTruncates` | aes.py:10 | Two passphrases of 16 bytes or more that agree on their first 16 bytes get the same key. |
| `FieldCipher.DeriveKeyTrailingNul` | aes.py:10 | Appending a NUL character to a passphrase shorter than 16 bytes does not change its key. |
| `Utf8.Encode` | aes.py:10 | `str.encode('utf-8')`: each character becomes one to four bytes. Its round trips are `Utf8.DecodeEncode` and `Utf8.EncodeDecode`. |
| `Utf8.Decode` | aes.py:23 | Strict `bytes.decode('utf-8')`. Its contract is carried by `Utf8.DecodeEncode`, `Utf8.EncodeDecode` and `Utf8.DecodeLength`. |
| `Utf8.DecodeLength` | aes.py:23 | A successful decode yields at most one character per byte and at least one per four bytes. |
| `Utf8.DecodeEncode` | aes.py:23 | Decoding the UTF-8 encoding of any string gives back that string. |
| `Utf8.EncodeDecode` | aes.py:23 | Decoding succeeds only on the encoding of its result, so UTF-8 encoding is a bijection onto the bytes that decode. |
| `Pkcs7.Pad` | aes.py:13 | The padded length is a multiple of 16. It exceeds the input length by 1 to 16 bytes. The input is a prefix, and every appended byte equals the number of bytes appended. |
| `Pkcs7.Unpad` | aes.py:22 | A successful unpad returns a strictly shorter prefix of its input. |
| `Pkcs7.UnpadPad` | aes.py:22 | Unpadding a padded input gives back the input. |
| `Pkcs7.PadUnpad` | aes.py:22 | Whatever unpad accepts, re-padding its result rebuilds the original input. |
| `Pkcs7.UnpadSucceedsIffPadded` | aes.py:22 | Unpad succeeds exactly on the outputs of pad. It fails on empty input, on misaligned input, on a bad last byte and on disagreeing trailing bytes. |
| `Cbc.Encrypt` | aes.py:12-13 | CBC encryption preserves length. |
| `Cbc.Decrypt` | aes.py:21-22 | CBC decryption preserves length. |
| `Cbc.DecryptEncrypt` | aes.py:21-22 | For a block cipher that inverts, CBC decryption with the same key and IV undoes CBC encryption. |
| `Base64.Encode` | aes.py:14 | The output is ASCII and has 4 characters for every 3 bytes or part of 3 bytes. |
| `Base64.Decode` | aes.py:18 | A successful `b64decode` means the text was ASCII, and it yields at most 3 bytes for every 4 characters. |
| `Base64.RunBound` | aes.py:18 | Every character the decoder reads pays for at most three quarters of an output byte, whatever state it starts in. |
| `Base64.DecodeEncode` | aes.py:18 | The lenient decoder returns exactly the bytes the encoder was given. |
| `Base64.DecodeTruncated` | aes.py:18 | An encoding with 1 to 3 characters cut off its end is always rejected. |
| `FieldCipher.EncryptFrame` | aes.py:11-14 | An encrypted field Base64-decodes to exactly its sealed bytes: the IV, then the CBC encryption of the padded UTF-8 text. That ciphertext is as long as the padded text: at least one block, and a multiple of 16 bytes. |
| `FieldCipher.Encrypt` | aes.py:9-14 | `encrypt` with the IV passed in. Its contract is carried by `FieldCipher.EncryptFrame`, `FieldCipher.DecryptEncrypt` and `FieldCipher.EncryptSeparatesIvs`. |
| `FieldCipher.Seal` | aes.py:11-13 | The bytes `iv + encrypted` before Base64. Its contract is carried by `FieldCipher.SealFrame` and `FieldCipher.OpenSeal`. |
| `FieldCipher.Decrypt` | aes.py:16-23 | `decrypt`, with the exception it raises as an error value. Its contract is carried by `FieldCipher.DecryptEncrypt`, `FieldCipher.DecryptNeedsFrame`, `FieldCipher.DecryptRejectsBase64` and `FieldCipher.DecryptTruncated`. |
| `FieldCipher.Open` | aes.py:19-23 | The steps of `decrypt` after Base64 decoding. Its contract is carried by `FieldCipher.OpenSeal` and `FieldCipher.OpenNeedsFrame`. |
| `FieldCipher.SealFrame` | aes.py:12-14 | The bytes under an encrypted field are the IV, then as many ciphertext bytes as the padded plaintext has: at least 32 bytes in all, and a multiple of 16. |
| `FieldCipher.OpenSeal` | aes.py:19-23 | Splitting off the IV, CBC-decrypting, unpadding and UTF-8-decoding the sealed bytes of a text, under the same key, gives back that text. |
| `FieldCipher.OpenNeedsFrame` | aes.py:19-22 | Decoded bytes that the rest of decryption accepts hold a 16-byte IV and at least one whole cipher block. |
| `FieldCipher.DecryptRejectsBase64` | aes.py:18 | When `b64decode` raises, `decrypt` fails with that Base64 error, before any cipher step. |
| `FieldCipher.DecryptEncrypt` | aes.py:9-23 | Decrypting an encrypted field with the same passphrase returns the original text, for every text, passphrase and IV. |
| `FieldCipher.DecryptWithEquivalentPassphrase` | aes.py:17 | Any passphrase that derives the same key decrypts the field. |
| `FieldCipher.DecryptNeedsFrame` | aes.py:18-22 | Decryption succeeds only when the text decodes to at least 32 bytes and a multiple of 16. |
| `FieldCipher.EncryptSeparatesIvs` | aes.py:11-14 | Encrypting the same text under the same passphrase with different IVs gives different fields. |
| `FieldCipher.DecryptTruncated` | aes.py:16-23 | A field with 1 to 3 characters cut off its end fails to decrypt under every passphrase. |
| `Database.UserTable.constructor` | aes.py:26-39 | A new table is empty and has issued no ids. |
| `Database.UserTable.Insert` | aes.py:41-47 | Insert adds exactly one row. Its id has never been issued and is greater than every earlier id. |
| `Database.UserTable.SelectAll` | aes.py:49-55 | Returns every row, ids strictly ascending, and its map view is the table. |
| `Database.UserTable.Update` | aes.py:64-71 | Replaces all four fields of that id and changes no other row. A missing id leaves the table unchanged. |
| `Database.UserTable.Delete` | aes.py:57-62 | Removes that id and only that id. A missing id leaves the table unchanged. Issued ids stay issued. |
| `Database.Without` | aes.py:60 | The remaining rows are rows of the table, none of them has the deleted id, and id order is kept. |
| `Database.AsMapWithout` | aes.py:60 | Deleting by id removes exactly that key from the table's map. |
| `Database.Replace` | aes.py:67-69 | Updating keeps the number of rows and every row's id. The row with the given id gets the new fields, and every other row keeps its own. |
| `Database.AsMapReplace` | aes.py:67-69 | Updating by id changes that key's value and no other key, and adds no key. |
| `Database.FindRow` | aes.py:124 | The row found is a listed row with the requested id. If none is found, no listed row has that id. |
| `Database.FindRowAsMap` | aes.py:124 | In an id-ordered listing, the row found holds exactly the table's fields for that id. |
| `App.AllFilled` | aes.py:89 | The write guard: all four fields and the passphrase are non-empty. `App.SaveNewRecord` states that a record is stored exactly when it holds. |
| `App.EncryptFields` | aes.py:90-93 | Each of the four fields is encrypted separately under the same passphrase, each with its own IV. Its contract is carried by `App.DecryptFieldsEncryptFields` and `App.SaveNewRecord`. |
| `App.DecryptFields` | aes.py:126-130 | A row decrypts only if all four fields decrypt, and then it yields exactly their four texts. If any field fails, no text is produced. |
| `App.DecryptFieldsEncryptFields` | aes.py:89-94 | A record whose four fields were encrypted under a passphrase decrypts whole, under that passphrase, to the same four texts. |
| `App.SaveNewRecord` | aes.py:88-97 | A record is stored exactly when the four fields and the passphrase are all non-empty. It then goes into one new row under an id greater than every id ever issued, holding the four fields encrypted separately, and that id alone joins the issued ids. Otherwise the table and the issued ids are unchanged. |
| `App.SaveEdit` | aes.py:120-147 | No form without a listed row and a passphrase. If any field of the row fails to decrypt, the table is unchanged. Otherwise exactly that row gets the new fields, encrypted. |
| `App.ViewRow` | aes.py:161-176 | A row is shown with all four decrypted texts exactly when every field decrypts. Otherwise only its id is reported. |
| `App.ViewRowOfEncrypted` | aes.py:162-174 | A row written under a passphrase is shown with its original texts under that passphrase. |
| `App.ShowDecrypted` | aes.py:152-178 | A warning when there is no passphrase, a notice when there are no rows. Otherwise one outcome per row, in order, each decided by that row alone. |
| `Utf8.DecodeFirstEncodeChar` | aes.py:23 | The decoder reads back the character just encoded, whatever bytes follow. |
| `Utf8.EncodeCharDecodeFirst` | aes.py:23 | The bytes the decoder consumed for one character are exactly that character's encoding. |

## Left out

- AES itself (FIPS 197, PyCryptodome) is not modelled. It is the parameter `Cbc.BlockCipher`, and the round-trip lemmas assume only `Cbc.Inverts`.
- The randomness of `get_random_bytes(16)` is not modelled. IVs are parameters, and IV freshness is probabilistic. `FieldCipher.EncryptSeparatesIvs` states the deterministic part: different IVs give different fields.
- Nothing says that a wrong passphrase fails to decrypt. It fails only with high probability, through padding or UTF-8 errors, and that cannot be stated without a model of AES.
- SQLite I/O is left out: connections, commits and the database file.
- `init_db` on a file that already holds the table keeps the stored rows (`CREATE TABLE IF NOT EXISTS`). The constructor models only a fresh file.
- Running out of `AUTOINCREMENT` ids at 2^63 - 1 (SQLITE_FULL) is not modelled; ids are unbounded integers.
- SQL does not promise row order for `SELECT *` without `ORDER BY`. The model returns ascending id order, which is the rowid scan SQLite performs for this table.
- The Streamlit widgets, messages, buttons, `st.session_state['edit_id']` and page reruns are not modelled. The "Lihat Data" listing displays `SelectAll` unchanged, and its delete button is `Delete`.
- Python strings containing lone surrogates cannot be encoded to UTF-8. Such a text or passphrase raises in `encrypt` (aes.py:10, 13), and such a passphrase raises in `decrypt` (aes.py:17) before Base64 decoding. Dafny's `char` excludes surrogates, so `FieldCipher.DeriveKey`, `FieldCipher.Encrypt` and `FieldCipher.Decrypt` have no such error path.
- Only CPython's current non-strict `binascii.a2b_base64` is modelled. Older CPython releases treat misplaced `=` slightly differently.
- Update or delete of a missing id raises no error: SQLite matches no row, and the model changes nothing.
- The edit form does not require the new field values to be non-empty: the write guard applies only to the "Enkripsi Data" page. The model follows the code.
