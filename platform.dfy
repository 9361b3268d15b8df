/**
 * What the service takes from the platform: the block ciphers and the key-derivation
 * function (as function values the caller supplies), the operating system's random number
 * generator, and files and streams. Only what the service relies on is stated here.
 */
module Platform {
  import opened Octets
  import opened Failures
  import opened Dispatch

  /** Block size in bits of each algorithm, a fact about the library: 128 for AES (FIPS 197),
      64 for DES and 3DES (FIPS 46-3). */
  function BlockSize(a: Algorithm): nat {
    match a
    case Aes => 128
    case Des => 64
    case TripleDes => 64
  }

  /** The length in bytes of an IV, one block. */
  function IvLength(a: Algorithm): (r: nat)
    ensures r * 8 == BlockSize(a)
    ensures r == if a == Aes then 16 else 8
  {
    BlockSize(a) / 8
  }

  /** The transforms of CreateEncryptor(key, iv) and CreateDecryptor(key, iv), applied to a
      whole stream, for an algorithm, mode and padding. Decryption fails (None) when the
      padding it strips is malformed. */
  datatype Cipher = Cipher(
    encrypt: (Algorithm, Mode, Padding, seq<byte>, seq<byte>, seq<byte>) -> seq<byte>,
    decrypt: (Algorithm, Mode, Padding, seq<byte>, seq<byte>, seq<byte>) -> Option<seq<byte>>)

  datatype HashAlgorithm = Md5 | Sha1 | Sha256 | Sha384 | Sha512

  /** PBKDF2 (section 5.2 of RFC 2898) of a password, salt, iteration count and hash: the
      first `n` bytes of the derived key. The password is encoded as UTF-8 inside. */
  type Pbkdf2 = f: (string, seq<byte>, nat, HashAlgorithm, nat) -> seq<byte>
    | forall password, salt, iterations, hash, n :: |f(password, salt, iterations, hash, n)| == n
    witness (password: string, salt: seq<byte>, iterations: nat, hash: HashAlgorithm, n: nat) => seq(n, _ => 0)

  /** The operating system's random number generator, an endless stream of bytes of which the
      first `position` have been handed out. */
  class RandomSource {
    const stream: nat -> byte
    var position: nat

    constructor (stream: nat -> byte)
      ensures this.stream == stream && position == 0
    {
      this.stream := stream;
      position := 0;
    }

    /** The next `n` bytes the generator will hand out. */
    function Peek(n: nat): (r: seq<byte>)
      reads this
      ensures |r| == n
    {
      var from := position;
      seq(n, i requires 0 <= i < n => stream(from + i))
    }

    /** RandomNumberGenerator.GetBytes: fills `data` with the next bytes of the stream. */
    method GetBytes(data: array<byte>)
      modifies this, data
      ensures data[..] == old(Peek(data.Length))
      ensures position == old(position) + data.Length
    {
      for i := 0 to data.Length
        invariant position == old(position)
        invariant forall k :: 0 <= k < i ==> data[k] == stream(position + k)
      {
        data[i] := stream(position + i);
      }
      position := position + data.Length;
    }
  }

  /** A file opened for reading: its bytes and how many of them have been read. */
  class InputStream {
    const data: seq<byte>
    var position: nat

    ghost predicate Valid()
      reads this
    {
      position <= |data|
    }

    constructor (data: seq<byte>)
      ensures this.data == data && position == 0 && Valid()
    {
      this.data := data;
      position := 0;
    }

    /** The bytes not read yet, which CopyTo passes on. */
    function Remaining(): seq<byte>
      reads this
      requires Valid()
    {
      data[position..]
    }

    /** Stream.ReadExactly: fills `buffer` from the stream, or fails with EndOfStream (false)
      when fewer bytes are left, having read all of them. */
    method ReadExactly(buffer: array<byte>) returns (ok: bool)
      requires Valid()
      modifies this, buffer
      ensures Valid()
      ensures ok <==> old(position) + buffer.Length <= |data|
      ensures ok ==> position == old(position) + buffer.Length && buffer[..] == data[old(position)..position]
      ensures !ok ==> position == |data|
    {
      var i := 0;
      while i < buffer.Length && position < |data|
        invariant Valid() && i <= buffer.Length
        invariant position == old(position) + i
        invariant buffer[..i] == data[old(position)..position]
      {
        buffer[i] := data[position];
        assert buffer[..i + 1] == buffer[..i] + [data[position]];
        position := position + 1;
        i := i + 1;
      }
      ok := i == buffer.Length;
    }
  }

  /** Closing a reader takes back what opening it added. */
  lemma CloseUndoesOpen(open: multiset<string>, path: string)
    ensures (open + multiset{path}) - multiset{path} == open
  {
  }

  /** The paths FileStream's constructor accepts: any but the empty one. */
  predicate ValidPath(path: string) {
    path != ""
  }

  /** The files, by path, and the paths currently open for reading (once per open stream). */
  class FileSystem {
    var files: map<string, seq<byte>>
    var openForReading: multiset<string>

    constructor (files: map<string, seq<byte>>)
      ensures this.files == files && openForReading == multiset{}
    {
      this.files := files;
      openForReading := multiset{};
    }

    /** new FileStream(path, FileMode.Open, FileAccess.Read): an empty path is refused before
        the file is looked up. */
    method OpenRead(path: string) returns (r: Result<InputStream>)
      modifies this
      ensures files == old(files)
      ensures r.Ok? <==> ValidPath(path) && path in files
      ensures r.Ok? ==> fresh(r.value) && r.value.Valid() && r.value.data == files[path] && r.value.position == 0
      ensures r.Ok? ==> openForReading == old(openForReading) + multiset{path}
      ensures r.Err? ==> r.error == (if ValidPath(path) then FileNotFound else InvalidPath)
                         && openForReading == old(openForReading)
    {
      if !ValidPath(path) {
        return Err(InvalidPath);
      }
      if path !in files {
        return Err(FileNotFound);
      }
      var stream := new InputStream(files[path]);
      openForReading := openForReading + multiset{path};
      r := Ok(stream);
    }

    /** new FileStream(path, FileMode.Create, FileAccess.Write): the file is created, or emptied
        if it exists. An empty path is refused first; then it fails (FileInUse) while the path
        is open for reading, since a stream opened with FileAccess.Read shares the file with
        readers only. */
    method OpenCreate(path: string) returns (r: Result<()>)
      modifies this
      ensures r.Ok? <==> ValidPath(path) && path !in old(openForReading)
      ensures r.Err? ==> r.error == (if ValidPath(path) then FileInUse else InvalidPath)
      ensures files == if r.Ok? then old(files)[path := []] else old(files)
      ensures openForReading == old(openForReading)
    {
      if !ValidPath(path) {
        r := Err(InvalidPath);
      } else if path in openForReading {
        r := Err(FileInUse);
      } else {
        files := files[path := []];
        r := Ok(());
      }
    }

    /** Writing to a file opened with OpenCreate appends to it. */
    method Append(path: string, bytes: seq<byte>)
      requires path in files
      modifies this
      ensures files == old(files)[path := old(files[path]) + bytes]
      ensures openForReading == old(openForReading)
    {
      files := files[path := files[path] + bytes];
    }

    /** Disposing of a stream opened with OpenRead. */
    method CloseRead(path: string)
      modifies this
      ensures files == old(files)
      ensures openForReading == old(openForReading) - multiset{path}
    {
      openForReading := openForReading - multiset{path};
    }
  }

  /** The library's SymmetricAlgorithm object: the algorithm it was created for, and the mode,
      padding and IV properties the service sets. */
  class SymmetricAlgorithm {
    const kind: Algorithm
    var mode: Mode
    var padding: Padding
    var iv: seq<byte>

    /** Aes.Create(), DES.Create(), TripleDES.Create(): CBC mode and PKCS #7 padding by default;
        no IV is generated yet. */
    constructor Create(kind: Algorithm)
      ensures this.kind == kind && mode == Cbc && padding == Pkcs7 && iv == []
    {
      this.kind := kind;
      mode := Cbc;
      padding := Pkcs7;
      iv := [];
    }

    /** GenerateIV: a fresh IV of one block, drawn from the random number generator. */
    method GenerateIV(rng: RandomSource)
      modifies this`iv, rng
      ensures iv == old(rng.Peek(IvLength(kind)))
      ensures rng.position == old(rng.position) + IvLength(kind)
    {
      var buffer := new byte[BlockSize(kind) / 8];
      rng.GetBytes(buffer);
      iv := buffer[..];
    }
  }
}
