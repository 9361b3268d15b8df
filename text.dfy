/**
 * The string operations the service applies to its text arguments: case mapping of the
 * algorithm and mode names, and ordinal search and removal of a marker in a path.
 */
module Text {

  /** The lower-case form of a character (ASCII letters only). */
  function LowerChar(c: char): char {
    if 'A' <= c <= 'Z' then (c as int - 'A' as int + 'a' as int) as char else c
  }

  /** The upper-case form of a character (ASCII letters only). */
  function UpperChar(c: char): char {
    if 'a' <= c <= 'z' then (c as int - 'a' as int + 'A' as int) as char else c
  }

  /** string.ToLower: every character mapped to lower case. */
  function ToLower(s: string): (r: string)
    ensures |r| == |s|
    ensures forall i :: 0 <= i < |r| ==> !('A' <= r[i] <= 'Z')
    ensures EqualsIgnoringCase(r, s)
  {
    seq(|s|, i requires 0 <= i < |s| => LowerChar(s[i]))
  }

  /** string.ToUpper: every character mapped to upper case. */
  function ToUpper(s: string): (r: string)
    ensures |r| == |s|
    ensures forall i :: 0 <= i < |r| ==> !('a' <= r[i] <= 'z')
    ensures EqualsIgnoringCase(r, s)
  {
    seq(|s|, i requires 0 <= i < |s| => UpperChar(s[i]))
  }

  /** `s` and `t` are the same text when letter case is ignored. */
  predicate EqualsIgnoringCase(s: string, t: string) {
    |s| == |t| && forall i :: 0 <= i < |s| ==> LowerChar(s[i]) == LowerChar(t[i])
  }

  /** Two characters have the same upper-case form exactly when they have the same
      lower-case form. */
  lemma UpperAgreesWithLower(c: char, d: char)
    ensures UpperChar(c) == UpperChar(d) <==> LowerChar(c) == LowerChar(d)
  {
  }

  /** Comparing upper-case forms is comparing while ignoring case. */
  lemma {:induction false} ToUpperEqualsIgnoringCase(s: string, t: string)
    ensures ToUpper(s) == ToUpper(t) <==> EqualsIgnoringCase(s, t)
  {
    if |s| == |t| {
      if ToUpper(s) == ToUpper(t) {
        forall i | 0 <= i < |s| ensures LowerChar(s[i]) == LowerChar(t[i]) {
          assert ToUpper(s)[i] == ToUpper(t)[i];
          UpperAgreesWithLower(s[i], t[i]);
        }
      }
      if EqualsIgnoringCase(s, t) {
        forall i | 0 <= i < |s| ensures ToUpper(s)[i] == ToUpper(t)[i] {
          UpperAgreesWithLower(s[i], t[i]);
        }
      }
    } else {
      assert |ToUpper(s)| != |ToUpper(t)|;
    }
  }

  /** Comparing lower-case forms is comparing while ignoring case. */
  lemma {:induction false} ToLowerEqualsIgnoringCase(s: string, t: string)
    ensures ToLower(s) == ToLower(t) <==> EqualsIgnoringCase(s, t)
  {
    if |s| == |t| && ToLower(s) == ToLower(t) {
      forall i | 0 <= i < |s| ensures LowerChar(s[i]) == LowerChar(t[i]) {
        assert ToLower(s)[i] == ToLower(t)[i];
      }
    }
    if |s| != |t| {
      assert |ToLower(s)| != |ToLower(t)|;
    }
  }

  predicate StartsWith(s: string, p: string) {
    |p| <= |s| && s[..|p|] == p
  }

  /** `p` occurs in `s` at position `i`. */
  predicate OccursAt(s: string, p: string, i: int) {
    0 <= i <= |s| - |p| && s[i..i + |p|] == p
  }

  /** `p` occurs in `s` at some position. */
  predicate Contains(s: string, p: string) {
    exists i | 0 <= i <= |s| - |p| :: OccursAt(s, p, i)
  }

  /** An occurrence is either at the front or further on. */
  lemma ContainsUnfold(s: string, p: string)
    requires |s| > 0
    ensures Contains(s, p) <==> StartsWith(s, p) || Contains(s[1..], p)
  {
    if Contains(s, p) && !StartsWith(s, p) {
      var i :| OccursAt(s, p, i);
      assert OccursAt(s, p, i);
      assert i != 0;
      assert s[1..][i - 1..i - 1 + |p|] == p;
      assert OccursAt(s[1..], p, i - 1);
    }
    if Contains(s[1..], p) {
      var i :| OccursAt(s[1..], p, i);
      assert OccursAt(s[1..], p, i);
      assert s[i + 1..i + 1 + |p|] == p;
      assert OccursAt(s, p, i + 1);
    }
    if StartsWith(s, p) {
      assert OccursAt(s, p, 0);
    }
  }

  /** string.Replace(p, ""), ordinal: scanning from the left, every occurrence of `p` that
      does not overlap one removed before it is removed; the text is not scanned again. */
  function RemoveAll(s: string, p: string): (r: string)
    requires |p| > 0
    ensures |r| <= |s|
    decreases |s|
  {
    if |s| == 0 then s
    else if StartsWith(s, p) then RemoveAll(s[|p|..], p)
    else [s[0]] + RemoveAll(s[1..], p)
  }

  /** Removal changes `s` exactly when `p` occurs in it. */
  lemma {:induction false} RemoveAllUnchanged(s: string, p: string)
    requires |p| > 0
    ensures RemoveAll(s, p) == s <==> !Contains(s, p)
    decreases |s|
  {
    if |s| == 0 {
      assert !Contains(s, p);
    } else {
      ContainsUnfold(s, p);
      if !Contains(s, p) {
        RemoveAllUnchanged(s[1..], p);
        assert [s[0]] + s[1..] == s;
      } else {
        RemoveAllShrinks(s, p);
      }
    }
  }

  /** Removal shortens any text in which `p` occurs. */
  lemma {:induction false} RemoveAllShrinks(s: string, p: string)
    requires |p| > 0 && Contains(s, p)
    ensures |RemoveAll(s, p)| < |s|
    decreases |s|
  {
    var i :| OccursAt(s, p, i);
    assert OccursAt(s, p, i);
    ContainsUnfold(s, p);
    if !StartsWith(s, p) {
      RemoveAllShrinks(s[1..], p);
    }
  }
}
