# CryptoService, modelled in Dafny

This project models the file-encryption service of the Cryptography desktop application. The
service is the class `CryptoService` (`Cryptography/CryptoService.cs`) and has four operations:

- `EncryptFile(path, keyBase64, alg, mode)` reads a file. It generates a fresh IV and writes
  `IV || ciphertext` to `path + ".enc"`.
- `DecryptFile(path, keyBase64, alg, mode)` reads one block of the file as the IV. It decrypts
  the rest and writes the plaintext to `path` with every ".enc" removed.
- `GenerateRandomKey(algorithm)` returns as many random bytes as the algorithm's key takes, as
  base64 text.
- `DeriveKeyFromPassword(password, algorithm)` returns the PBKDF2 derivation of the password as
  base64 text. It uses HMAC-SHA-256, a fixed salt and 10000 iterations.

The service keeps no state of its own, so there is no class for it. Each operation is a method
(or, for the derivation, a function) of module `CryptoService`. The methods act on a model of
the platform (module `Platform`):

- a `FileSystem` maps paths to byte sequences and records the paths open for reading;
- a `RandomSource` is the operating system's generator, an endless stream of bytes;
- an `InputStream` is a file open for reading, with `ReadExactly`;
- a `SymmetricAlgorithm` object carries the `Mode`, `Padding` and `IV` properties the service
  sets.

The block ciphers and PBKDF2 are library code. They are function values the caller supplies:
`Cipher` holds an encryptor and a decryptor, and `Pbkdf2` is a function type whose results have
the requested length. Only the facts the service relies on are stated about them.

The pure parts are functions with lemmas:

- the name and mode tables (module `Dispatch`);
- the ASCII case mapping and the ordinal `Replace(".enc", "")` (module `Text`);
- the output-path naming (module `Naming`);
- the on-disk layout `IV || body` (module `Framing`);
- the base64 text of section 4 of RFC 4648 (module `Base64`), with its round trip.

Main results:

- `DecryptedPath(EncryptedPath(p)) == p` holds exactly when `p` contains no ".enc". The marker
  has no self-overlap, so an appended ".enc" never merges with the text before it.
- Decryption receives the same IV and ciphertext that encryption wrote, in ECB as in CBC. So
  `Recover(Artifact(iv, p)) == Ok(p)` whenever the cipher inverts its encryptor.
  `EncryptThenDecrypt` carries this through the two file operations.
- Every check of the algorithm, the mode and the key text happens before any file is opened.
  Errors come in the source's order: key text, then algorithm, then mode.
- `GenerateRandomKey` upper-cases the algorithm name; the three other operations need it
  exactly. Modes are matched ignoring case.
- Generated and derived key texts decode to exactly `KeyLength` bytes: 32 for AES, 8 for DES,
  24 for 3DES.

Facts taken about the platform:

- Block sizes are 128 bits for AES and 64 bits for DES and 3DES, so the IV is 16 or 8 bytes.
- A new `SymmetricAlgorithm` starts in CBC mode with PKCS #7 padding.
- Opening a file with `FileMode.Create` fails while the same path is open through a
  `FileAccess.Read` stream. Such a stream shares the file with readers only.
- `FileStream`'s constructor refuses an empty path with `ArgumentException` (`InvalidPath`),
  before it looks the file up or checks sharing.

Behaviour of the code worth noting:

- Decryption removes every ".enc" from the path, not only a trailing one. The removal scans
  once from the left and does not look at its own result again.
- A file named ".enc" decrypts to the empty path, which `FileStream` refuses after the input
  is opened, so nothing is written.
- The password salt is the fixed text "static-salt-for-demo", the same on every call.
- "TripleDES" is not accepted; only "3DES" is.
- The IV is generated and written in ECB mode too.
- Decrypting a path that holds no ".enc" makes the output path equal the input path. Creating
  that output then fails with `FileInUse` while the input is open. This follows from the
  sharing rule above; the code has no explicit check for it.

## Model

| member | source | states |
|---|---|---|
| `Dispatch.ParseAlgorithm` | Cryptography/CryptoService.cs:15-21 | a name selects an algorithm only when it is that algorithm's name exactly ("AES", "DES", "3DES"); any other name gives UnsupportedAlgorithm, and then no algorithm has that name |
| `Dispatch.ParseMode` | Cryptography/CryptoService.cs:23-28 | a token selects a mode exactly when its lower-case form is "cbc" or "ecb"; any other token gives InvalidMode |
| `Dispatch.ParseModeIgnoresCase` | Cryptography/CryptoService.cs:62-67 | a token selects mode m exactly when it equals m's token with letter case ignored (both directions) |
| `Dispatch.KeyLengthOf` | Cryptography/CryptoService.cs:106-112 | the key-length table accepts exactly the names the algorithm switch accepts, and gives 32, 8 or 24 bytes, the key length of the algorithm so named; other names give UnsupportedAlgorithm |
| `Dispatch.ParseUpperCasedIgnoresCase` | Cryptography/CryptoService.cs:90-96 | upper-casing the name first selects algorithm a exactly when the name equals a's name with letter case ignored |
| `Dispatch.NameMatchingDiffers` | Cryptography/CryptoService.cs:88-112 | "aes" has a key length only when upper-cased first (as in GenerateRandomKey); "TripleDES" is rejected by both kinds of matching |
| `Dispatch.ModeTokensInAnyCase` | Cryptography/CryptoService.cs:23-28 | "CBC" and "Ecb" select CBC and ECB; "cfb" is rejected |
| `Text.ToLower` | Cryptography/CryptoService.cs:23 | `mode.ToLower()` keeps the length, leaves no upper-case ASCII letter, and gives a text equal to the input with letter case ignored |
| `Text.ToUpper` | Cryptography/CryptoService.cs:90 | `algorithm.ToUpper()` keeps the length, leaves no lower-case ASCII letter, and gives a text equal to the input with letter case ignored |
| `Text.ToUpperEqualsIgnoringCase` | Cryptography/CryptoService.cs:90 | two texts have the same upper-case form exactly when they are equal with letter case ignored |
| `Text.ToLowerEqualsIgnoringCase` | Cryptography/CryptoService.cs:23 | two texts have the same lower-case form exactly when they are equal with letter case ignored |
| `Text.RemoveAll` | Cryptography/CryptoService.cs:70 | the ordinal `Replace(p, "")`: one scan from the left removing each occurrence that does not overlap one removed before it, never making the text longer |
| `Text.RemoveAllUnchanged` | Cryptography/CryptoService.cs:70 | removing every occurrence of a marker leaves a text unchanged exactly when the marker does not occur in it |
| `Text.RemoveAllShrinks` | Cryptography/CryptoService.cs:70 | removing the marker from a text that contains it makes the text shorter |
| `Naming.EncryptedPath` | Cryptography/CryptoService.cs:34 | the encrypt output path begins with the input path and continues with ".enc" and nothing else |
| `Naming.DecryptedPath` | Cryptography/CryptoService.cs:70 | the decrypt output path is the input path with every ".enc" removed, so it is no longer than the input path |
| `Naming.RemoveAfterAppend` | Cryptography/CryptoService.cs:34 | appending ".enc" to a path does not change what removing every ".enc" leaves: the appended marker never merges with the text before it |
| `Naming.DecryptedOfEncrypted` | Cryptography/CryptoService.cs:70 | the decrypt path of an encrypt path equals the decrypt path of the original path |
| `Naming.NameRoundTrip` | Cryptography/CryptoService.cs:70 | the decrypt path of the encrypt path of p is p exactly when p contains no ".enc" |
| `Naming.DecryptedPathIsInput` | Cryptography/CryptoService.cs:70-73 | decryption's output path equals its input path exactly when the input path contains no ".enc" |
| `Naming.InteriorMarkerRemoved` | Cryptography/CryptoService.cs:70 | a ".enc" inside the path is removed too: "a.enc.b.enc" decrypts to "a.b" |
| `Naming.RemovalIsNotRepeated` | Cryptography/CryptoService.cs:70 | the removal does not rescan its result: ".e.encnc" decrypts to ".enc" |
| `Naming.MarkerAloneLeavesNothing` | Cryptography/CryptoService.cs:70 | a path that is ".enc" alone decrypts to the empty path |
| `Framing.Frame` | Cryptography/CryptoService.cs:40-45 | the encrypted file's first bytes are exactly the IV and the remaining bytes exactly the encryptor's output |
| `Framing.SplitIv` | Cryptography/CryptoService.cs:76-80 | splitting a file at n succeeds exactly when it holds at least n bytes; the parts are n bytes of IV and a body that frame back to the file |
| `Framing.SplitFrame` | Cryptography/CryptoService.cs:76-80 | splitting a framed file at the IV's length gives back the IV and the body |
| `Base64.Encode` | Cryptography/CryptoService.cs:101 | the key text of n bytes has 4 * ceil(n / 3) characters |
| `Base64.Decode` | Cryptography/CryptoService.cs:13 | a text that decodes has a length that is a multiple of four and at most three bytes per four characters; a text that does not decode gives InvalidBase64 |
| `Base64.DecodeEncode` | Cryptography/CryptoService.cs:98-101 | decoding the text of any byte sequence gives back exactly that sequence |
| `Base64.DecodedLength` | Cryptography/CryptoService.cs:118-119 | the text of a key of n bytes decodes to exactly n bytes |
| `Octets.AsciiBytes` | Cryptography/CryptoService.cs:116 | `Encoding.UTF8.GetBytes` of ASCII text: one byte per character, with the character's code |
| `Platform.IvLength` | Cryptography/CryptoService.cs:76 | `BlockSize / 8` loses nothing to the division: one block is 16 bytes for AES and 8 for DES and 3DES |
| `Platform.RandomSource.GetBytes` | Cryptography/CryptoService.cs:98-100 | the buffer is filled with the generator's next bytes, and exactly that many bytes are used up |
| `Platform.InputStream.ReadExactly` | Cryptography/CryptoService.cs:76-77 | the buffer gets the next buffer-length bytes when that many are left; otherwise the read fails (EndOfStream) having read to the end |
| `Platform.FileSystem.OpenRead` | Cryptography/CryptoService.cs:72 | opening for reading refuses an empty path (InvalidPath), then succeeds exactly when the file exists (else FileNotFound); it gives a stream at the file's first byte and records the path as open |
| `Platform.FileSystem.OpenCreate` | Cryptography/CryptoService.cs:73 | opening for writing refuses an empty path (InvalidPath), fails while the path is open for reading (FileInUse), and otherwise empties or creates the file; on failure nothing changes |
| `Platform.FileSystem.Append` | Cryptography/CryptoService.cs:40 | writing appends the bytes to the file and changes no other file |
| `Platform.FileSystem.CloseRead` | Cryptography/CryptoService.cs:36 | disposing of a read stream removes one record of its path and changes no file |
| `Platform.SymmetricAlgorithm.Create` | Cryptography/CryptoService.cs:15-21 | a new algorithm object is in CBC mode with PKCS #7 padding |
| `Platform.SymmetricAlgorithm.GenerateIV` | Cryptography/CryptoService.cs:32 | the IV becomes the generator's next block-size-in-bytes bytes (16 for AES, 8 for DES and 3DES) |
| `CryptoService.ParseRequest` | Cryptography/CryptoService.cs:11-28 | the arguments are valid exactly when the key text decodes, the algorithm name is exact and the mode token matches; otherwise the first failing check gives the error: InvalidBase64, then UnsupportedAlgorithm, then InvalidMode |
| `CryptoService.Artifact` | Cryptography/CryptoService.cs:40-45 | the written file begins with the IV, in every mode |
| `CryptoService.Recover` | Cryptography/CryptoService.cs:76-83 | a file shorter than one block gives EndOfStream, and nothing else does; for a longer file the result is Ok exactly when the decryptor succeeds on the first block as IV and the remaining bytes, and then it is the decryptor's output; failures are EndOfStream or Cryptographic |
| `CryptoService.RecoverArtifact` | Cryptography/CryptoService.cs:40-80 | decryption reads back the IV and ciphertext that encryption wrote, so the plaintext comes back whenever the cipher inverts its encryptor |
| `CryptoService.EncryptFile` | Cryptography/CryptoService.cs:11-48 | invalid arguments change no file and use no random bytes; otherwise one IV is drawn; an empty path gives InvalidPath and a missing input FileNotFound; an output path open for reading gives FileInUse; on success exactly the file at path + ".enc" changes, to the IV followed by the encryption of the input; all read streams are released |
| `CryptoService.EncryptRequest` | Cryptography/CryptoService.cs:30-47 | after the checks, one IV is drawn whether or not the input exists; then an empty path gives InvalidPath, a missing input FileNotFound and an output path open for reading FileInUse; success replaces exactly the file at path + ".enc" with the IV followed by the encryption of the input |
| `CryptoService.WriteEncrypted` | Cryptography/CryptoService.cs:34-47 | with the algorithm object holding the IV, the output file becomes that IV followed by the output of the encryptor built from the object's algorithm, mode and padding for the whole input; no other file changes, and the input stream is released on every outcome |
| `CryptoService.DecryptFile` | Cryptography/CryptoService.cs:50-85 | invalid arguments, an empty path or a missing input change no file; an output path that is empty (the input is ".enc" alone) gives InvalidPath, and one open for reading (the input itself when the path has no ".enc") gives FileInUse, with no file changed; otherwise the output is created, left empty for a file shorter than one block, and holds the decryption on success; no other file changes |
| `CryptoService.DecryptRequest` | Cryptography/CryptoService.cs:68-85 | after the checks, an empty input path or output path gives InvalidPath, a missing input FileNotFound and an output path open for reading FileInUse, with no file changed; otherwise only the output file changes: it holds the plaintext on success and is empty for a file shorter than one block |
| `CryptoService.ReadDecrypted` | Cryptography/CryptoService.cs:76-83 | reading a file from its start gives exactly what Recover says: EndOfStream for less than one block, else the decryptor's result for the first block as IV and the rest as ciphertext |
| `CryptoService.EncryptThenDecrypt` | Cryptography/CryptoService.cs:11-85 | encrypting a file whose name is not empty and has no ".enc" and decrypting the result both succeed and leave the original bytes under the original name |
| `CryptoService.GenerateRandomKey` | Cryptography/CryptoService.cs:88-102 | an upper-cased name outside the table gives UnsupportedAlgorithm and uses no random bytes; otherwise the result is the base64 text of the generator's next KeyLength bytes, and it decodes back to exactly those bytes |
| `CryptoService.Salt` | Cryptography/CryptoService.cs:116 | the salt is the 20 bytes of the fixed text "static-salt-for-demo" |
| `CryptoService.DeriveKeyFromPassword` | Cryptography/CryptoService.cs:104-120 | the name must match exactly (else UnsupportedAlgorithm); the result decodes to PBKDF2(password, fixed salt, 10000, SHA-256) of exactly KeyLength bytes, so it depends on the password and the name alone |
| `CryptoService.DerivationNamesAreExact` | Cryptography/CryptoService.cs:106-112 | derivation rejects "aes" and accepts "AES" |

## Left out

- The block ciphers (AES of FIPS 197, DES and 3DES of FIPS 46-3), the CBC and ECB modes (NIST SP 800-38A) and PKCS #7 padding are library code. They are the caller-supplied `Cipher`. The model does not state that CBC uses the IV or that ECB ignores it.
- PBKDF2 (section 5.2 of RFC 2898) and the UTF-8 encoding of the password are library code. They are the caller-supplied `Pbkdf2`, whose only stated fact is the output length.
- Key-length checking: the service does not check the decoded key's length; the library's `CreateEncryptor`/`CreateDecryptor` does. The modelled cipher accepts any key, so there is no key-length error.
- Streaming: `CopyTo` through a `CryptoStream` moves the data in chunks. The model hands the whole remaining input to the transform and writes its whole output at once.
- CryptoService.DecryptFile: on a padding failure (Cryptographic) the model states only that the output file exists and that no other file changed. The library may already have written all but the last block.
- CryptoService.DecryptRequest: the same weakening as DecryptFile, for the same reason: after a padding failure the output file's content is left open.
- Text.ToLower, Text.ToUpper: only ASCII letters change case. .NET's culture-sensitive case mapping of other characters is not modelled.
- Base64.Decode: whitespace inside the key text, which Convert.FromBase64String skips, is not modelled. Such text is rejected. The unused low bits of the last character are not checked.
- File-system effects other than those above are not modelled: access rights, directories, disk-full and other I/O errors, and the disposal of the output stream.
- Path validation beyond the empty path is not modelled: a path of white space, with characters the operating system refuses, or too long is treated as an ordinary path, although `FileStream` may reject it with an exception.
- Null arguments and the resulting NullReferenceException/ArgumentNullException are left out: Dafny strings cannot be null.
- `RandomNumberGenerator.Create()` and `GenerateIV` draw from the one `RandomSource` passed in. Randomness is therefore a parameter, and nothing is stated about its quality or its uniqueness across calls.
- The WPF user interface (`Cryptography/MainWindow.xaml.cs`, `Cryptography/Views/PasswordDialog.xaml.cs`) is not part of this model: file dialogs, the log panel, the default choices "AES"/"CBC", `Task.Run` and the dispatcher.
