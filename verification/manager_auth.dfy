/**
 The master-password record protocol of `AppAuthentication`.

 Creating a master password draws a salt, derives a key from the password and
 the salt with PBKDF2-HMAC-SHA256 (section 5.2 of RFC 8018), and hands back the
 salt followed by the key, Base64url-encoded. Verifying a password decodes such
 a record, splits it back into salt and key, derives a key from the offered
 password and the stored salt, and compares the two keys.

 The key derivation function is a parameter: a deterministic function of
 password, salt, iteration count and requested length, of which the model
 assumes only that it returns as many bytes as it is asked for. The salt, which
 the program draws from the operating system's random source, is a parameter
 too.
 */
module ManagerAuth {
  import opened Wrappers
  import opened Base64Url

  /** Length in bytes of the salt (`salt_length`). */
  const SaltLength: nat := 16

  /** Length in bytes of the derived key (`key_length`). */
  const KeyLength: nat := 32

  /** Length in bytes of a record: the salt followed by the derived key. */
  const RecordLength: nat := SaltLength + KeyLength

  /** The iteration count the constructor uses when it is given none. */
  const DefaultIterations: nat := 100000

  /** An authenticator: the iteration count is the one setting it is built
      with; salt and key lengths are the same for every instance. */
  datatype AppAuthentication = AppAuthentication(iterations: nat := DefaultIterations)

  /** A key derivation function: password, salt, iteration count and
      requested length to key bytes. */
  type Kdf = (seq<byte>, seq<byte>, nat, nat) -> seq<byte>

  /** What the model assumes of PBKDF2-HMAC-SHA256: the key has the requested length. */
  ghost predicate ProducesRequestedLength(kdf: Kdf) {
    forall password, salt, iterations, length :: |kdf(password, salt, iterations, length)| == length
  }

  /** The derivation both creation and verification perform: SHA-256 based
      PBKDF2 with the instance's iteration count and a 32-byte output. */
  function DeriveKey(auth: AppAuthentication, kdf: Kdf, password: seq<byte>, salt: seq<byte>): (key: seq<byte>)
    requires ProducesRequestedLength(kdf)
    ensures |key| == KeyLength
  {
    kdf(password, salt, auth.iterations, KeyLength)
  }

  // ----- the record: salt followed by key -----

  /** `combined[:salt_length]`: the salt part of a record, which a record
      shorter than a salt gives in full. */
  function StoredSalt(combined: seq<byte>): (salt: seq<byte>)
    ensures |combined| >= SaltLength ==> |salt| == SaltLength
    ensures |combined| < SaltLength ==> salt == combined
    ensures salt <= combined
  {
    if |combined| <= SaltLength then combined else combined[..SaltLength]
  }

  /** `combined[salt_length:]`: the key part of a record, empty when the
      record is no longer than a salt. */
  function StoredKey(combined: seq<byte>): (key: seq<byte>)
    ensures |combined| >= SaltLength ==> |key| == |combined| - SaltLength
    ensures |combined| <= SaltLength ==> key == []
    ensures StoredSalt(combined) + key == combined
  {
    if |combined| <= SaltLength then [] else combined[SaltLength..]
  }

  /** Splitting a salt-sized prefix off a joined record gives back the salt
      and the key it was joined from. */
  lemma SplitJoin(salt: seq<byte>, key: seq<byte>)
    requires |salt| == SaltLength
    ensures StoredSalt(salt + key) == salt
    ensures StoredKey(salt + key) == key
  {
  }

  /** The two parts of a split record, joined again, are the record: the
      split loses nothing. */
  lemma JoinSplit(combined: seq<byte>)
    ensures StoredSalt(combined) + StoredKey(combined) == combined
  {
  }

  // ----- creation and verification -----

  /** `create_master_password`: the salt followed by the key derived from it
      and the password, Base64url-encoded. A record is 48 bytes, a multiple
      of three, so its encoding is 64 alphabet characters with no padding. */
  function CreateMasterPassword(auth: AppAuthentication, kdf: Kdf, password: seq<byte>, salt: seq<byte>): (encoded: string)
    requires ProducesRequestedLength(kdf)
    requires |salt| == SaltLength
    ensures Decode(encoded) == Some(salt + DeriveKey(auth, kdf, password, salt))
    ensures |Decode(encoded).value| == RecordLength
    ensures |encoded| == 64 && Unpadded(encoded)
  {
    var combined := salt + DeriveKey(auth, kdf, password, salt);
    RecordEncoding(combined);
    Encode(combined)
  }

  /** A 48-byte record encodes to 64 alphabet characters, from which it
      decodes again. */
  lemma RecordEncoding(combined: seq<byte>)
    requires |combined| == RecordLength
    ensures Decode(Encode(combined)) == Some(combined)
    ensures |Encode(combined)| == 64 && Unpadded(Encode(combined))
  {
    assert Unpadded(Encode(combined)) by {
      EncodedShape(combined);
    }
    assert |Encode(combined)| == 64 by {
      EncodedLength(combined);
    }
    DecodeEncode(combined);
  }

  /** Why verification can fail: the record is not Base64url. The program
      raises this from the decoding, which is outside its `try`. */
  datatype VerifyError = MalformedEncoding

  /** `verify_master_password`: decode the record, split it, derive a key
      from the password and the stored salt, and compare it with the stored
      key. A record that does not decode is an error; any other record gives
      an answer, and a record of the wrong length always the answer `false`. */
  function VerifyMasterPassword(auth: AppAuthentication, kdf: Kdf, password: seq<byte>, encoded: string): (r: Result<bool, VerifyError>)
    requires ProducesRequestedLength(kdf)
    ensures r.Failure? <==> Decode(encoded).None?
    ensures r.Success? && |Decode(encoded).value| != RecordLength ==> r == Success(false)
  {
    match Decode(encoded)
    case None => Failure(MalformedEncoding)
    case Some(combined) =>
      Success(DeriveKey(auth, kdf, password, StoredSalt(combined)) == StoredKey(combined))
  }

  // ----- properties of the protocol -----

  /** A record verifies under a password exactly when it decodes to some
      16-byte salt followed by the key derived from that salt and the password. */
  lemma VerifyCharacterisation(auth: AppAuthentication, kdf: Kdf, password: seq<byte>, encoded: string)
    requires ProducesRequestedLength(kdf)
    ensures VerifyMasterPassword(auth, kdf, password, encoded) == Success(true)
        <==> exists salt :: |salt| == SaltLength && Decode(encoded) == Some(salt + DeriveKey(auth, kdf, password, salt))
  {
    if VerifyMasterPassword(auth, kdf, password, encoded) == Success(true) {
      var combined := Decode(encoded).value;
      var salt := StoredSalt(combined);
      JoinSplit(combined);
      assert Decode(encoded) == Some(salt + DeriveKey(auth, kdf, password, salt));
    }
    if exists salt :: |salt| == SaltLength && Decode(encoded) == Some(salt + DeriveKey(auth, kdf, password, salt)) {
      var salt :| |salt| == SaltLength && Decode(encoded) == Some(salt + DeriveKey(auth, kdf, password, salt));
      SplitJoin(salt, DeriveKey(auth, kdf, password, salt));
    }
  }

  /** A record made by one authenticator from one password and salt verifies
      under another authenticator and password exactly when both derive the
      same key from that salt. */
  lemma VerifyCreated(creator: AppAuthentication, verifier: AppAuthentication, kdf: Kdf,
                      created: seq<byte>, offered: seq<byte>, salt: seq<byte>)
    requires ProducesRequestedLength(kdf)
    requires |salt| == SaltLength
    ensures VerifyMasterPassword(verifier, kdf, offered, CreateMasterPassword(creator, kdf, created, salt))
         == Success(DeriveKey(verifier, kdf, offered, salt) == DeriveKey(creator, kdf, created, salt))
  {
  }

  /** Creating a master password and then verifying the same password with
      the same authenticator succeeds. */
  lemma CreateThenVerify(auth: AppAuthentication, kdf: Kdf, password: seq<byte>, salt: seq<byte>)
    requires ProducesRequestedLength(kdf)
    requires |salt| == SaltLength
    ensures VerifyMasterPassword(auth, kdf, password, CreateMasterPassword(auth, kdf, password, salt)) == Success(true)
  {
  }

  /** A password whose key differs from the stored one, under the stored
      salt, is rejected, not raised as an error. */
  lemma WrongPasswordRejected(auth: AppAuthentication, kdf: Kdf, created: seq<byte>, offered: seq<byte>, salt: seq<byte>)
    requires ProducesRequestedLength(kdf)
    requires |salt| == SaltLength
    requires DeriveKey(auth, kdf, offered, salt) != DeriveKey(auth, kdf, created, salt)
    ensures VerifyMasterPassword(auth, kdf, offered, CreateMasterPassword(auth, kdf, created, salt)) == Success(false)
  {
  }

  /** The strings a password verifies against are exactly the strings that
      creating that password can produce, for some salt. */
  lemma VerifyAcceptsExactlyCreated(auth: AppAuthentication, kdf: Kdf, password: seq<byte>, encoded: string)
    requires ProducesRequestedLength(kdf)
    ensures VerifyMasterPassword(auth, kdf, password, encoded) == Success(true)
        <==> exists salt :: |salt| == SaltLength && encoded == CreateMasterPassword(auth, kdf, password, salt)
  {
    VerifyCharacterisation(auth, kdf, password, encoded);
    if VerifyMasterPassword(auth, kdf, password, encoded) == Success(true) {
      var salt :| |salt| == SaltLength && Decode(encoded) == Some(salt + DeriveKey(auth, kdf, password, salt));
      EncodeDecode(encoded);
      assert encoded == CreateMasterPassword(auth, kdf, password, salt);
    }
    if exists salt :: |salt| == SaltLength && encoded == CreateMasterPassword(auth, kdf, password, salt) {
      var salt :| |salt| == SaltLength && encoded == CreateMasterPassword(auth, kdf, password, salt);
      CreateThenVerify(auth, kdf, password, salt);
    }
  }
}
