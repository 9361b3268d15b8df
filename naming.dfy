/**
 * Where the service writes its output: encrypting appends the marker ".enc" to the input
 * path; decrypting removes every occurrence of the marker from it.
 */
module Naming {
  import opened Text

  const Marker: string := ".enc"

  /** The output path of EncryptFile: the input path followed by the marker. */
  function EncryptedPath(path: string): (r: string)
    ensures StartsWith(r, path) && r[|path|..] == Marker
  {
    path + Marker
  }

  /** The output path of DecryptFile: the input path with every occurrence of the marker
      removed, wherever it stands, not only at the end. */
  function DecryptedPath(path: string): (r: string)
    ensures |r| <= |path|
  {
    RemoveAll(path, Marker)
  }

  /** The marker cannot begin inside a short text and end in a marker appended to it: the
      marker has no proper prefix that is also its suffix, and its '.' stands only at its
      front. */
  lemma NoOccurrenceAcrossTheSeam(s: string)
    requires 0 < |s| < |Marker|
    ensures !StartsWith(s + Marker, Marker)
  {
    var t := s + Marker;
    assert t[|s|] == '.';
    assert Marker[|s|] != '.';
  }

  /** Appending the marker does not change what removing the markers leaves: the appended
      occurrence is removed, and it merges with nothing before it. */
  lemma {:induction false} RemoveAfterAppend(s: string)
    ensures RemoveAll(s + Marker, Marker) == RemoveAll(s, Marker)
    decreases |s|
  {
    var t := s + Marker;
    if |s| == 0 {
      assert t == Marker;
      assert StartsWith(t, Marker);
      assert t[|Marker|..] == [];
    } else if StartsWith(s, Marker) {
      assert t[..|Marker|] == s[..|Marker|];
      assert t[|Marker|..] == s[|Marker|..] + Marker;
      RemoveAfterAppend(s[|Marker|..]);
    } else {
      if |s| < |Marker| {
        NoOccurrenceAcrossTheSeam(s);
      } else {
        assert t[..|Marker|] == s[..|Marker|];
      }
      assert t[1..] == s[1..] + Marker;
      assert t[0] == s[0];
      RemoveAfterAppend(s[1..]);
    }
  }

  /** The decrypted name of an encrypted name is the decrypted name of the original path. */
  lemma DecryptedOfEncrypted(path: string)
    ensures DecryptedPath(EncryptedPath(path)) == DecryptedPath(path)
  {
    RemoveAfterAppend(path);
  }

  /** Decrypting writes back to the path that was encrypted exactly when that path holds no
      ".enc" anywhere. */
  lemma NameRoundTrip(path: string)
    ensures DecryptedPath(EncryptedPath(path)) == path <==> !Contains(path, Marker)
  {
    DecryptedOfEncrypted(path);
    RemoveAllUnchanged(path, Marker);
  }

  /** The decrypted name is the input path itself exactly when the input path holds no ".enc". */
  lemma DecryptedPathIsInput(path: string)
    ensures DecryptedPath(path) == path <==> !Contains(path, Marker)
  {
    RemoveAllUnchanged(path, Marker);
  }

  /** A marker in the middle of a path is removed as well as the trailing one. */
  lemma InteriorMarkerRemoved()
    ensures DecryptedPath("a.enc.b.enc") == "a.b"
  {
    var s := "a.enc.b.enc";
    assert !StartsWith(s, Marker);
    assert s[1..] == ".enc.b.enc" && StartsWith(s[1..], Marker);
    assert s[1..][4..] == ".b.enc";
    assert ".b.enc"[..4][1] != Marker[1];
    assert ".b.enc"[1..] == "b.enc" && !StartsWith("b.enc", Marker);
    assert "b.enc"[1..] == ".enc" && StartsWith(".enc", Marker);
    assert ".enc"[4..] == "";
  }

  /** Removal does not scan its own result again: taking the marker out of ".e.encnc" joins
      ".e" and "nc" into a new ".enc", which stays. */
  lemma RemovalIsNotRepeated()
    ensures DecryptedPath(".e.encnc") == ".enc"
  {
    var s := ".e.encnc";
    assert s[..4][2] != Marker[2];
    assert s[1..] == "e.encnc" && !StartsWith(s[1..], Marker);
    assert s[1..][1..] == ".encnc" && StartsWith(".encnc", Marker);
    assert ".encnc"[4..] == "nc" && !StartsWith("nc", Marker);
    assert "nc"[1..] == "c" && !StartsWith("c", Marker);
    assert "c"[1..] == "";
  }

  /** A path that is the marker alone has the empty path as its decrypt path. */
  lemma MarkerAloneLeavesNothing()
    ensures DecryptedPath(Marker) == ""
  {
    assert StartsWith(Marker, Marker);
    assert Marker[|Marker|..] == "";
  }
}
