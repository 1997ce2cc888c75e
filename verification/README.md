# Master-password records of `AppAuthentication`, in Dafny

This project models the master-password record protocol of the password
manager's `AppAuthentication` class (`ManagerAuth.py`) and proves its
properties.

- **Creation** (`create_master_password`) takes a 16-byte salt. It derives a
  32-byte key from the password and the salt with PBKDF2-HMAC-SHA256
  (section 5.2 of RFC 8018). The record is the salt followed by the key. It is
  returned Base64url-encoded (section 5 of RFC 4648).
- **Verification** (`verify_master_password`) decodes the record and splits it
  after the salt. It derives a key from the offered password and the stored
  salt, and compares that key with the stored one. A failed comparison is
  `False`. A string the model's strict decoder rejects raises an error,
  because the decoding is outside the `try`.

Files:

- `wrappers.dfy`: `Option` and `Result`.
- `base64url.dfy`, module `Base64Url`: the codec over byte sequences. It has
  two layers. One maps bytes to 6-bit values and padding. The other maps
  those symbols to characters.
- `manager_auth.dfy`, module `ManagerAuth`: the salt and key lengths (16 and
  32), the iteration count (100000 by default), key derivation, the record
  split, creation, verification and the protocol's properties.

The key derivation function is a parameter `kdf` of type
`(password, salt, iterations, length) -> bytes`. The model assumes one thing
about it (`ProducesRequestedLength`): it returns exactly as many bytes as it
is asked for. Because it is a function, it is deterministic. The salt, which
the program takes from `os.urandom`, is also a parameter. The password is
an opaque byte sequence.

Three behaviours of the program worth stating:
- A record that decodes to a length other than 48 bytes gives `False`; it is
  not reported as malformed.
- A record that does not decode raises an error (`Failure(MalformedEncoding)`);
  it is not mapped to `False`.
- An empty password is accepted.

## Model

| member | source | states |
|---|---|---|
| Base64Url.Encode | ManagerAuth.py:33 | `base64.urlsafe_b64encode`; it carries no contract of its own: its properties are stated by DecodeEncode, EncodeDecode, EncodedLength and EncodedShape |
| Base64Url.Decode | ManagerAuth.py:38 | `base64.urlsafe_b64decode`, strict; it carries no contract of its own: its properties are stated by DecodeEncode, EncodeDecode and DecodedLength |
| ManagerAuth.DeriveKey | ManagerAuth.py:20-27 | The one derivation that creation and verification both use: the instance's iteration count, and a 32-byte key |
| ManagerAuth.StoredSalt | ManagerAuth.py:39 | `combined[:16]` with Python's clipping: 16 bytes when the record has at least 16, the whole record otherwise; always a prefix of the record |
| ManagerAuth.StoredKey | ManagerAuth.py:40 | `combined[16:]` with Python's clipping: exactly the bytes that follow the salt part (salt part and key part together are the record), so the record minus 16 bytes, or empty when the record has at most 16 bytes |
| ManagerAuth.SplitJoin | ManagerAuth.py:30-40 | Splitting `salt + key` at 16 bytes gives back exactly the salt and the key it was joined from |
| ManagerAuth.JoinSplit | ManagerAuth.py:39-40 | The salt part and the key part of any record, joined again, are the record |
| ManagerAuth.CreateMasterPassword | ManagerAuth.py:15-35 | The created string decodes to the salt followed by the key derived from the password and that salt; that record is 48 bytes; the string is 64 alphabet characters with no `=` |
| ManagerAuth.RecordEncoding | ManagerAuth.py:30-33 | Any 48-byte record encodes to 64 unpadded alphabet characters and decodes back to itself |
| ManagerAuth.VerifyMasterPassword | ManagerAuth.py:37-55 | Verification is an error exactly when the string does not decode; a decoded record whose length is not 48 gives `false`, not an error |
| ManagerAuth.VerifyCharacterisation | ManagerAuth.py:38-55 | Verification gives `true` if and only if the string decodes to some 16-byte salt followed by the key derived from the password and that salt |
| ManagerAuth.VerifyCreated | ManagerAuth.py:15-55 | A record created with one iteration count and password, verified with another iteration count and password, gives `true` exactly when both derive the same key from the salt |
| ManagerAuth.CreateThenVerify | ManagerAuth.py:15-53 | For any password and salt, verifying the password against the record just created for it gives `true` |
| ManagerAuth.WrongPasswordRejected | ManagerAuth.py:51-55 | An offered password whose key differs from the stored key (for the stored salt) gives `false`, not an error |
| ManagerAuth.VerifyAcceptsExactlyCreated | ManagerAuth.py:15-55 | A password verifies against a string if and only if creating that password with some 16-byte salt produces exactly that string |
| Base64Url.DecodeEncode | ManagerAuth.py:33-38 | Decoding the Base64url encoding of any byte sequence gives that byte sequence |
| Base64Url.EncodeDecode | ManagerAuth.py:38 | A string that decodes to a multiple of three bytes is exactly the encoding of those bytes, so decoding such strings is injective |
| Base64Url.EncodedLength | ManagerAuth.py:33 | Encoding `n` bytes gives `4 * ceil(n / 3)` characters |
| Base64Url.DecodedLength | ManagerAuth.py:38 | Only strings whose length is a multiple of four decode, and a string of `k` groups decodes to between `3k - 2` and `3k` bytes |
| Base64Url.EncodedShape | ManagerAuth.py:33 | An encoding is made of alphabet characters only (no `=`) if and only if the number of bytes is a multiple of three |
| Base64Url.CharOfMatchesTable | ManagerAuth.py:33 | The value-to-character mapping is Table 2 of RFC 4648: `A`-`Z`, `a`-`z`, `0`-`9`, `-`, `_` |
| Base64Url.RfcVectorOne | ManagerAuth.py:33-38 | The one-byte vector of section 10 of RFC 4648 (`f` is `Zg==`) in both directions |
| Base64Url.RfcVectorTwo | ManagerAuth.py:33-38 | The two-byte vector of section 10 of RFC 4648 (`fo` is `Zm8=`) in both directions |
| Base64Url.RfcVectorThree | ManagerAuth.py:33-38 | The three-byte vector of section 10 of RFC 4648 (`foo` is `Zm9v`) in both directions |
| Base64Url.RfcVectorLong | ManagerAuth.py:33-38 | The six-byte vector of section 10 of RFC 4648 (`foobar` is `Zm9vYmFy`) in both directions |

## Left out

- PBKDF2-HMAC-SHA256 itself (the `cryptography` library, `default_backend()`): it is the parameter `kdf`. The only property assumed is the output length. Its cryptographic strength is not modelled, and neither is collision resistance.
- ManagerAuth.WrongPasswordRejected: it assumes that the two derived keys differ. "Different passwords are rejected" needs PBKDF2 to be collision-free, and the model does not assume that.
- `os.urandom`: the salt is a parameter of length 16. Salts being distinct across calls is probabilistic, and it is not modelled.
- The `.encode()` of the password as UTF-8 (lines 27 and 52): the password is already a byte sequence. So the encoding error a lone surrogate raises (raised from line 27; turned into `False` at line 52) is not modelled.
- Python's lenient decoding: `urlsafe_b64decode` also accepts `+` and `/`. It discards characters outside the alphabet, it stops at the first complete padding, and it skips an `=` that cannot start padding, for example at a group boundary (so `====` decodes to no bytes and `Zm9v=` to `foo`, and verification of such a string gives `False`). The model's decoder rejects all of these, and verification of them is `Failure(MalformedEncoding)`. Like Python, it ignores the bits that a padded final group discards.
- Byte strings versus text: the encoded record is modelled as a string of ASCII characters, not as Python `bytes`.
- The iteration count is a natural number. What the library does with a count of zero or less is not modelled.
- Constant-time comparison inside `kdf.verify`: the model compares keys with plain equality, because timing cannot be expressed.
- The `__main__` console block (lines 58-71), which reads passwords and prints the results.
- `AppGUI.py`: a Kivy window that shows a label, with no logic.
- The unused `Scrypt` import.
- A persistent credential store and its state machine (initialise, replace, lock-out of concurrent writers): the source keeps no store. It returns the record to its caller. Replacing a record is covered only as a statement about records (`VerifyCreated`).
