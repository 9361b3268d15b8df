/**
 * The service's lookup tables: which algorithm and block-cipher mode a name selects, and how
 * many key bytes each algorithm takes.
 */
module Dispatch {
  import opened Failures
  import opened Text

  datatype Algorithm = Aes | Des | TripleDes

  datatype Mode = Cbc | Ecb

  /** The padding modes of the platform library; the service uses only PKCS #7. */
  datatype Padding = NoPadding | Pkcs7 | Zeros | AnsiX923 | Iso10126

  /** The one name each algorithm is selected by. */
  function Name(a: Algorithm): string {
    match a
    case Aes => "AES"
    case Des => "DES"
    case TripleDes => "3DES"
  }

  /** The lower-case token each mode is selected by. */
  function ModeName(m: Mode): string {
    match m
    case Cbc => "cbc"
    case Ecb => "ecb"
  }

  /** The algorithm switch of EncryptFile and DecryptFile: the name must be one of the three
      exactly, letter case included. */
  function ParseAlgorithm(name: string): (r: Result<Algorithm>)
    ensures r.Ok? ==> name == Name(r.value)
    ensures r.Err? ==> r.error == UnsupportedAlgorithm && forall a: Algorithm :: name != Name(a)
  {
    if name == "AES" then Ok(Aes)
    else if name == "DES" then Ok(Des)
    else if name == "3DES" then Ok(TripleDes)
    else Err(UnsupportedAlgorithm)
  }

  /** The mode switch of EncryptFile and DecryptFile, applied to the lower-cased token. */
  function ParseMode(token: string): (r: Result<Mode>)
    ensures r.Ok? ==> ToLower(token) == ModeName(r.value)
    ensures r.Err? ==> r.error == InvalidMode && forall m: Mode :: ToLower(token) != ModeName(m)
  {
    var t := ToLower(token);
    if t == "cbc" then Ok(Cbc)
    else if t == "ecb" then Ok(Ecb)
    else Err(InvalidMode)
  }

  /** Key length in bytes: 32 for AES (256 bits), 8 for DES (64 bits), 24 for 3DES (192 bits). */
  function KeyLength(a: Algorithm): nat {
    match a
    case Aes => 32
    case Des => 8
    case TripleDes => 24
  }

  /** The key-length switch of GenerateRandomKey and DeriveKeyFromPassword: it accepts exactly
      the names the algorithm switch accepts, with the length of the algorithm so named. */
  function KeyLengthOf(name: string): (r: Result<nat>)
    ensures r.Ok? <==> ParseAlgorithm(name).Ok?
    ensures r.Ok? ==> r.value == KeyLength(ParseAlgorithm(name).value)
    ensures r.Err? ==> r.error == UnsupportedAlgorithm
  {
    if name == "AES" then Ok(32)
    else if name == "DES" then Ok(8)
    else if name == "3DES" then Ok(24)
    else Err(UnsupportedAlgorithm)
  }

  /** The names are already in upper case, so upper-casing a name selects the same algorithm. */
  lemma NamesAreUpperCase(a: Algorithm)
    ensures ToUpper(Name(a)) == Name(a)
  {
    var n := Name(a);
    assert forall i :: 0 <= i < |n| ==> UpperChar(n[i]) == n[i];
  }

  /** The tokens are already in lower case. */
  lemma TokensAreLowerCase(m: Mode)
    ensures ToLower(ModeName(m)) == ModeName(m)
  {
    var n := ModeName(m);
    assert forall i :: 0 <= i < |n| ==> LowerChar(n[i]) == n[i];
  }

  /** The mode token is matched with letter case ignored, in both directions. */
  lemma ParseModeIgnoresCase(token: string, m: Mode)
    ensures ParseMode(token) == Ok(m) <==> EqualsIgnoringCase(token, ModeName(m))
  {
    TokensAreLowerCase(m);
    ToLowerEqualsIgnoringCase(token, ModeName(m));
  }

  /** Upper-casing first, as GenerateRandomKey does, selects an algorithm exactly when the name
      equals that algorithm's name with letter case ignored. */
  lemma ParseUpperCasedIgnoresCase(name: string, a: Algorithm)
    ensures ParseAlgorithm(ToUpper(name)) == Ok(a) <==> EqualsIgnoringCase(name, Name(a))
  {
    NamesAreUpperCase(a);
    ToUpperEqualsIgnoringCase(name, Name(a));
  }

  /** The two ways of matching names differ: "aes" has a key length only when upper-cased
      first, and "TripleDES" is no algorithm's name either way. */
  lemma NameMatchingDiffers()
    ensures KeyLengthOf("aes").Err? && KeyLengthOf(ToUpper("aes")) == Ok(32)
    ensures ParseAlgorithm("TripleDES").Err? && KeyLengthOf(ToUpper("TripleDES")).Err?
  {
    assert ToUpper("aes") == "AES";
    assert ToUpper("TripleDES") == "TRIPLEDES";
  }

  /** Mode tokens in any letter case are accepted. */
  lemma ModeTokensInAnyCase()
    ensures ParseMode("CBC") == Ok(Cbc) && ParseMode("Ecb") == Ok(Ecb)
    ensures ParseMode("cfb").Err?
  {
    assert ToLower("CBC") == "cbc";
    assert ToLower("Ecb") == "ecb";
    assert ToLower("cfb") == "cfb";
  }
}
