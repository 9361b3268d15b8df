/**
 * The file-encryption service: encrypting a file into "IV || ciphertext" beside it,
 * decrypting such a file back, and producing key text, random or derived from a password.
 */
module CryptoService {
  import opened Octets
  import opened Failures
  import opened Text
  import Base64
  import opened Dispatch
  import opened Naming
  import opened Framing
  import opened Platform

  /** What the arguments of EncryptFile and DecryptFile select, once they are all valid. */
  datatype Request = Request(key: seq<byte>, algorithm: Algorithm, mode: Mode)

  /** The checks both operations make before touching any file, in their order: the key text
      must be base64, then the algorithm name one of the three, then the mode token one of two.
      The first that fails decides the error. */
  function ParseRequest(keyBase64: string, alg: string, mode: string): (r: Result<Request>)
    ensures r.Ok? <==> Base64.Decode(keyBase64).Ok? && ParseAlgorithm(alg).Ok? && ParseMode(mode).Ok?
    ensures r.Ok? ==> (r.value.key == Base64.Decode(keyBase64).value
                       && alg == Name(r.value.algorithm)
                       && ToLower(mode) == ModeName(r.value.mode))
    ensures Base64.Decode(keyBase64).Err? ==> r == Err(InvalidBase64)
    ensures Base64.Decode(keyBase64).Ok? && ParseAlgorithm(alg).Err? ==> r == Err(UnsupportedAlgorithm)
    ensures Base64.Decode(keyBase64).Ok? && ParseAlgorithm(alg).Ok? && ParseMode(mode).Err? ==> r == Err(InvalidMode)
  {
    match (Base64.Decode(keyBase64), ParseAlgorithm(alg), ParseMode(mode))
    case (Ok(key), Ok(a), Ok(m)) => Ok(Request(key, a, m))
    case (Err(e), _, _) => Err(e)
    case (Ok(_), Err(e), _) => Err(e)
    case (Ok(_), Ok(_), Err(e)) => Err(e)
  }

  /** The bytes EncryptFile writes for `plain` with IV `iv`: the IV, then the encryptor's output
      for PKCS #7 padding, the library's default. */
  function Artifact(c: Cipher, req: Request, iv: seq<byte>, plain: seq<byte>): (f: seq<byte>)
    ensures |iv| <= |f| && f[..|iv|] == iv
  {
    Frame(iv, c.encrypt(req.algorithm, req.mode, Pkcs7, req.key, iv, plain))
  }

  /** What DecryptFile makes of the bytes of an encrypted file: the first block is the IV, the
      rest goes to the decryptor. */
  function Recover(c: Cipher, req: Request, file: seq<byte>): (r: Result<seq<byte>>)
    ensures |file| < IvLength(req.algorithm) <==> r == Err(EndOfStream)
    ensures r.Err? ==> r.error in {EndOfStream, Cryptographic}
    ensures r.Ok? ==> c.decrypt(req.algorithm, req.mode, Pkcs7, req.key,
                                file[..IvLength(req.algorithm)], file[IvLength(req.algorithm)..]) == Some(r.value)
    ensures IvLength(req.algorithm) <= |file| ==>
      (r.Ok? <==> c.decrypt(req.algorithm, req.mode, Pkcs7, req.key,
                            file[..IvLength(req.algorithm)], file[IvLength(req.algorithm)..]).Some?)
  {
    match SplitIv(file, IvLength(req.algorithm))
    case None => Err(EndOfStream)
    case Some((iv, body)) =>
      match c.decrypt(req.algorithm, req.mode, Pkcs7, req.key, iv, body)
      case Some(plain) => Ok(plain)
      case None => Err(Cryptographic)
  }

  /** Decryption receives the very IV and ciphertext that encryption wrote, so whenever the
      cipher inverts its encryptor for that key and IV, the plaintext comes back. This holds
      for ECB as for CBC: the IV block is written and skipped in both modes. */
  lemma RecoverArtifact(c: Cipher, req: Request, iv: seq<byte>, plain: seq<byte>)
    requires |iv| == IvLength(req.algorithm)
    requires c.decrypt(req.algorithm, req.mode, Pkcs7, req.key, iv,
                       c.encrypt(req.algorithm, req.mode, Pkcs7, req.key, iv, plain)) == Some(plain)
    ensures Recover(c, req, Artifact(c, req, iv, plain)) == Ok(plain)
  {
    SplitFrame(iv, c.encrypt(req.algorithm, req.mode, Pkcs7, req.key, iv, plain));
  }

  /** EncryptFile: validates the key text, algorithm and mode, generates an IV, then writes the
      IV followed by the encrypted input to the input path with ".enc" appended. */
  method EncryptFile(fs: FileSystem, rng: RandomSource, c: Cipher,
                     path: string, keyBase64: string, alg: string, mode: string)
    returns (r: Result<()>)
    modifies fs, rng
    ensures fs.openForReading == old(fs.openForReading)
    ensures ParseRequest(keyBase64, alg, mode).Err? ==>
      r == Err(ParseRequest(keyBase64, alg, mode).error) && fs.files == old(fs.files) && rng.position == old(rng.position)
    ensures ParseRequest(keyBase64, alg, mode).Ok? ==>
      rng.position == old(rng.position) + IvLength(ParseRequest(keyBase64, alg, mode).value.algorithm)
    ensures ParseRequest(keyBase64, alg, mode).Ok? && !ValidPath(path) ==>
      r == Err(InvalidPath) && fs.files == old(fs.files)
    ensures ParseRequest(keyBase64, alg, mode).Ok? && ValidPath(path) && path !in old(fs.files) ==>
      r == Err(FileNotFound) && fs.files == old(fs.files)
    ensures ParseRequest(keyBase64, alg, mode).Ok? && ValidPath(path) && path in old(fs.files)
            && EncryptedPath(path) in old(fs.openForReading) ==>
      r == Err(FileInUse) && fs.files == old(fs.files)
    ensures r.Ok? <==> ParseRequest(keyBase64, alg, mode).Ok? && ValidPath(path) && path in old(fs.files)
                       && EncryptedPath(path) !in old(fs.openForReading)
    ensures r.Ok? ==>
      var req := ParseRequest(keyBase64, alg, mode).value;
      fs.files == old(fs.files)[EncryptedPath(path) := Artifact(c, req, old(rng.Peek(IvLength(req.algorithm))), old(fs.files[path]))]
  {
    var req :- ParseRequest(keyBase64, alg, mode);
    r := EncryptRequest(fs, rng, c, path, req);
  }

  /** The part of EncryptFile after its checks: the IV is generated before any file is opened,
      so it is drawn even when the input is missing. */
  method EncryptRequest(fs: FileSystem, rng: RandomSource, c: Cipher, path: string, req: Request)
    returns (r: Result<()>)
    modifies fs, rng
    ensures fs.openForReading == old(fs.openForReading)
    ensures rng.position == old(rng.position) + IvLength(req.algorithm)
    ensures !ValidPath(path) ==> r == Err(InvalidPath) && fs.files == old(fs.files)
    ensures ValidPath(path) && path !in old(fs.files) ==> r == Err(FileNotFound) && fs.files == old(fs.files)
    ensures ValidPath(path) && path in old(fs.files) && EncryptedPath(path) in old(fs.openForReading) ==>
      r == Err(FileInUse) && fs.files == old(fs.files)
    ensures r.Ok? <==> ValidPath(path) && path in old(fs.files) && EncryptedPath(path) !in old(fs.openForReading)
    ensures r.Ok? ==>
      fs.files == old(fs.files)[EncryptedPath(path) := Artifact(c, req, old(rng.Peek(IvLength(req.algorithm))), old(fs.files[path]))]
  {
    var algorithm := new SymmetricAlgorithm.Create(req.algorithm);
    algorithm.mode := req.mode;
    algorithm.GenerateIV(rng);
    r := WriteEncrypted(fs, c, algorithm, req.key, path);
  }

  /** The file work of EncryptFile, once the IV is chosen: the input is opened for reading, the
      output path created, and the IV followed by the encryption of the input written to it. */
  method WriteEncrypted(fs: FileSystem, c: Cipher, algorithm: SymmetricAlgorithm, key: seq<byte>, path: string)
    returns (r: Result<()>)
    requires algorithm.padding == Pkcs7
    modifies fs
    ensures fs.openForReading == old(fs.openForReading)
    ensures !ValidPath(path) ==> r == Err(InvalidPath) && fs.files == old(fs.files)
    ensures ValidPath(path) && path !in old(fs.files) ==> r == Err(FileNotFound) && fs.files == old(fs.files)
    ensures ValidPath(path) && path in old(fs.files) && EncryptedPath(path) in old(fs.openForReading) ==>
      r == Err(FileInUse) && fs.files == old(fs.files)
    ensures r.Ok? <==> ValidPath(path) && path in old(fs.files) && EncryptedPath(path) !in old(fs.openForReading)
    ensures r.Ok? ==>
      var req := Request(key, algorithm.kind, algorithm.mode);
      fs.files == old(fs.files)[EncryptedPath(path) := Artifact(c, req, algorithm.iv, old(fs.files[path]))]
  {
    var outPath := EncryptedPath(path);
    var input :- fs.OpenRead(path);
    assert input.Remaining() == old(fs.files[path]);
    // The two using blocks release the input stream on every path out of them.
    var created := fs.OpenCreate(outPath);
    if created.Err? {
      r := Err(created.error);
    } else {
      var iv := algorithm.iv;
      fs.Append(outPath, iv);
      fs.Append(outPath, c.encrypt(algorithm.kind, algorithm.mode, algorithm.padding, key, iv, input.Remaining()));
      assert fs.files[outPath] == Artifact(c, Request(key, algorithm.kind, algorithm.mode), iv, old(fs.files[path]));
      r := Ok(());
    }
    fs.CloseRead(path);
    CloseUndoesOpen(old(fs.openForReading), path);
  }

  /** DecryptFile: validates the key text, algorithm and mode, then reads one block of the input
      as the IV and writes the decryption of the rest to the input path with every ".enc"
      removed. */
  method DecryptFile(fs: FileSystem, c: Cipher, path: string, keyBase64: string, alg: string, mode: string)
    returns (r: Result<()>)
    modifies fs
    ensures fs.openForReading == old(fs.openForReading)
    ensures ParseRequest(keyBase64, alg, mode).Err? ==>
      r == Err(ParseRequest(keyBase64, alg, mode).error) && fs.files == old(fs.files)
    ensures ParseRequest(keyBase64, alg, mode).Ok? && !ValidPath(path) ==>
      r == Err(InvalidPath) && fs.files == old(fs.files)
    ensures ParseRequest(keyBase64, alg, mode).Ok? && ValidPath(path) && path !in old(fs.files) ==>
      r == Err(FileNotFound) && fs.files == old(fs.files)
    ensures ParseRequest(keyBase64, alg, mode).Ok? && ValidPath(path) && path in old(fs.files)
            && !ValidPath(DecryptedPath(path)) ==>
      r == Err(InvalidPath) && fs.files == old(fs.files)
    ensures ParseRequest(keyBase64, alg, mode).Ok? && ValidPath(path) && path in old(fs.files)
            && ValidPath(DecryptedPath(path)) && DecryptedPath(path) in old(fs.openForReading) + multiset{path} ==>
      r == Err(FileInUse) && fs.files == old(fs.files)
    ensures ParseRequest(keyBase64, alg, mode).Ok? && ValidPath(path) && path in old(fs.files)
            && ValidPath(DecryptedPath(path)) && DecryptedPath(path) !in old(fs.openForReading) + multiset{path} ==>
      var rec := Recover(c, ParseRequest(keyBase64, alg, mode).value, old(fs.files[path]));
      && r == (if rec.Ok? then Ok(()) else Err(rec.error))
      && DecryptedPath(path) in fs.files
      && fs.files == old(fs.files)[DecryptedPath(path) := fs.files[DecryptedPath(path)]]
      && (rec.Ok? ==> fs.files[DecryptedPath(path)] == rec.value)
      && (rec == Err(EndOfStream) ==> fs.files[DecryptedPath(path)] == [])
  {
    var req :- ParseRequest(keyBase64, alg, mode);
    r := DecryptRequest(fs, c, path, req);
  }

  /** The part of DecryptFile after its checks. */
  method DecryptRequest(fs: FileSystem, c: Cipher, path: string, req: Request) returns (r: Result<()>)
    modifies fs
    ensures fs.openForReading == old(fs.openForReading)
    ensures !ValidPath(path) ==> r == Err(InvalidPath) && fs.files == old(fs.files)
    ensures ValidPath(path) && path !in old(fs.files) ==> r == Err(FileNotFound) && fs.files == old(fs.files)
    ensures ValidPath(path) && path in old(fs.files) && !ValidPath(DecryptedPath(path)) ==>
      r == Err(InvalidPath) && fs.files == old(fs.files)
    ensures ValidPath(path) && path in old(fs.files) && ValidPath(DecryptedPath(path))
            && DecryptedPath(path) in old(fs.openForReading) + multiset{path} ==>
      r == Err(FileInUse) && fs.files == old(fs.files)
    ensures ValidPath(path) && path in old(fs.files) && ValidPath(DecryptedPath(path))
            && DecryptedPath(path) !in old(fs.openForReading) + multiset{path} ==>
      var rec := Recover(c, req, old(fs.files[path]));
      && r == (if rec.Ok? then Ok(()) else Err(rec.error))
      && DecryptedPath(path) in fs.files
      && fs.files == old(fs.files)[DecryptedPath(path) := fs.files[DecryptedPath(path)]]
      && (rec.Ok? ==> fs.files[DecryptedPath(path)] == rec.value)
      && (rec == Err(EndOfStream) ==> fs.files[DecryptedPath(path)] == [])
  {
    var outPath := DecryptedPath(path);
    var input :- fs.OpenRead(path);
    assert input.data == old(fs.files[path]);
    // The two using blocks release the input stream on every path out of them.
    var created := fs.OpenCreate(outPath);
    if created.Err? {
      r := Err(created.error);
    } else {
      var plain := ReadDecrypted(input, c, req);
      if plain.Ok? {
        fs.Append(outPath, plain.value);
        assert [] + plain.value == plain.value;
        r := Ok(());
      } else {
        r := Err(plain.error);
      }
    }
    fs.CloseRead(path);
    CloseUndoesOpen(old(fs.openForReading), path);
  }

  /** The stream work of DecryptFile: one block of the input is read as the IV, then the
      decryptor, set to the requested mode and PKCS #7 padding, turns the rest into plaintext. */
  method ReadDecrypted(input: InputStream, c: Cipher, req: Request) returns (r: Result<seq<byte>>)
    requires input.Valid() && input.position == 0
    modifies input
    ensures r == Recover(c, req, input.data)
  {
    var algorithm := new SymmetricAlgorithm.Create(req.algorithm);
    algorithm.mode := req.mode;
    algorithm.padding := Pkcs7;
    ghost var file := input.data;
    var iv := new byte[BlockSize(algorithm.kind) / 8];
    var complete := input.ReadExactly(iv);
    if !complete {
      r := Err(EndOfStream);
    } else {
      assert iv[..] == file[..IvLength(req.algorithm)] && input.Remaining() == file[IvLength(req.algorithm)..];
      var plain := c.decrypt(algorithm.kind, algorithm.mode, algorithm.padding, req.key, iv[..], input.Remaining());
      if plain.None? {
        r := Err(Cryptographic);
      } else {
        r := Ok(plain.value);
      }
    }
  }

  /** Encrypting a file and then decrypting what was written restores the file's bytes under
      its own name, provided the name holds no ".enc" and the cipher inverts its encryptor for
      the key and the IV the generator is about to hand out. */
  method EncryptThenDecrypt(fs: FileSystem, rng: RandomSource, c: Cipher,
                            path: string, keyBase64: string, alg: string, mode: string)
    returns (encrypted: Result<()>, decrypted: Result<()>)
    requires ParseRequest(keyBase64, alg, mode).Ok?
    requires ValidPath(path) && path in fs.files && fs.openForReading == multiset{}
    requires !Contains(path, Marker)
    requires var req := ParseRequest(keyBase64, alg, mode).value;
      var iv := rng.Peek(IvLength(req.algorithm));
      c.decrypt(req.algorithm, req.mode, Pkcs7, req.key, iv,
                c.encrypt(req.algorithm, req.mode, Pkcs7, req.key, iv, fs.files[path])) == Some(fs.files[path])
    modifies fs, rng
    ensures encrypted.Ok? && decrypted.Ok?
    ensures var req := ParseRequest(keyBase64, alg, mode).value;
      fs.files == old(fs.files)[EncryptedPath(path) := Artifact(c, req, old(rng.Peek(IvLength(req.algorithm))), old(fs.files[path]))]
  {
    ghost var req := ParseRequest(keyBase64, alg, mode).value;
    ghost var iv := rng.Peek(IvLength(req.algorithm));
    ghost var plain := fs.files[path];
    var encPath := EncryptedPath(path);
    encrypted := EncryptFile(fs, rng, c, path, keyBase64, alg, mode);
    assert encrypted.Ok?;
    ghost var written := fs.files;
    assert written == old(fs.files)[encPath := Artifact(c, req, iv, plain)];
    assert fs.openForReading == multiset{};
    NameRoundTrip(path);
    assert DecryptedPath(encPath) == path && path != encPath;
    RecoverArtifact(c, req, iv, plain);
    assert Recover(c, req, written[encPath]) == Ok(plain);
    decrypted := DecryptFile(fs, c, encPath, keyBase64, alg, mode);
    assert decrypted.Ok?;
    assert fs.files == written[path := plain];
    assert written[path] == plain;
    assert written[path := plain] == written;
    assert old(rng.Peek(IvLength(req.algorithm))) == iv && old(fs.files[path]) == plain;
    assert fs.files == old(fs.files)[EncryptedPath(path) := Artifact(c, req, iv, plain)];
  }

  /** GenerateRandomKey: as many random bytes as the upper-cased algorithm name calls for, as
      base64 text, which decodes back to exactly those bytes. */
  method GenerateRandomKey(rng: RandomSource, algorithm: string) returns (r: Result<string>)
    modifies rng
    ensures var n := KeyLengthOf(ToUpper(algorithm));
      && (n.Err? ==> r == Err(UnsupportedAlgorithm) && rng.position == old(rng.position))
      && (n.Ok? ==> (r == Ok(Base64.Encode(old(rng.Peek(n.value))))
                     && rng.position == old(rng.position) + n.value
                     && Base64.Decode(r.value) == Ok(old(rng.Peek(n.value)))
                     && |Base64.Decode(r.value).value| == KeyLength(ParseAlgorithm(ToUpper(algorithm)).value)))
  {
    var lengthBytes :- KeyLengthOf(ToUpper(algorithm));
    var data := new byte[lengthBytes];
    rng.GetBytes(data);
    Base64.DecodeEncode(data[..]);
    r := Ok(Base64.Encode(data[..]));
  }

  /** The salt of password derivation: the UTF-8 bytes of a fixed text, the same on every call. */
  const SaltText: string := "static-salt-for-demo"

  function Salt(): (s: seq<byte>)
    ensures |s| == |SaltText|
  {
    assert IsAscii(SaltText);
    AsciiBytes(SaltText)
  }

  const Iterations: nat := 10000

  /** DeriveKeyFromPassword: PBKDF2 with HMAC-SHA-256, the fixed salt and 10000 iterations,
      producing as many bytes as the algorithm takes, as base64 text. The algorithm name must
      match exactly. Nothing random enters: the result depends on the password and the name
      alone. */
  function DeriveKeyFromPassword(kdf: Pbkdf2, password: string, algorithm: string): (r: Result<string>)
    ensures r.Ok? <==> ParseAlgorithm(algorithm).Ok?
    ensures r.Err? ==> r.error == UnsupportedAlgorithm
    ensures r.Ok? ==>
      var n := KeyLength(ParseAlgorithm(algorithm).value);
      Base64.Decode(r.value) == Ok(kdf(password, Salt(), Iterations, Sha256, n))
      && |Base64.Decode(r.value).value| == n
  {
    match KeyLengthOf(algorithm)
    case Err(e) => Err(e)
    case Ok(n) =>
      var key := kdf(password, Salt(), Iterations, Sha256, n);
      Base64.DecodeEncode(key);
      Ok(Base64.Encode(key))
  }

  /** The derivation accepts the algorithm names only as written: unlike GenerateRandomKey's
      table, it rejects "aes". */
  lemma DerivationNamesAreExact(kdf: Pbkdf2, password: string)
    ensures DeriveKeyFromPassword(kdf, password, "aes") == Err(UnsupportedAlgorithm)
    ensures DeriveKeyFromPassword(kdf, password, "AES").Ok?
  {
  }
}
