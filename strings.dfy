/**
 * The byte-level string helpers of the SDK: ASCII-only lower-casing,
 * a naive substring search and the case-insensitive containment test
 * built from the two (mail2sdk.go, `toLower`, `indexSubstring`,
 * `containsIgnoreCase`). Go strings are byte sequences, so a string
 * here is a `seq<byte>`.
 */
module AsciiStrings {

  newtype byte = x: int | 0 <= x < 256

  type Bytes = seq<byte>

  /** A mail domain, identified by its byte string. */
  type Domain = seq<byte>

  /** The bytes of an ASCII string literal. */
  function Ascii(s: string): Bytes
  {
    seq(|s|, i requires 0 <= i < |s| => (s[i] as int % 256) as byte)
  }

  predicate IsAsciiUpper(b: byte)
  {
    'A' as byte <= b <= 'Z' as byte
  }

  /** One byte as `toLower` folds it. */
  function LowerByte(b: byte): byte
  {
    if IsAsciiUpper(b) then b + 32 else b
  }

  /** The string `toLower` builds. */
  function Lower(s: Bytes): (r: Bytes)
    ensures |r| == |s|
    ensures forall i :: 0 <= i < |s| && !IsAsciiUpper(s[i]) ==> r[i] == s[i]
    ensures forall i :: 0 <= i < |r| ==> !IsAsciiUpper(r[i])
  {
    seq(|s|, i requires 0 <= i < |s| => LowerByte(s[i]))
  }

  /** `toLower`: fills a fresh byte buffer position by position. */
  method ToLower(s: Bytes) returns (r: Bytes)
    ensures |r| == |s|
    ensures forall i :: 0 <= i < |s| && IsAsciiUpper(s[i]) ==> r[i] == s[i] + 32
    ensures forall i :: 0 <= i < |s| && !IsAsciiUpper(s[i]) ==> r[i] == s[i]
    ensures r == Lower(s)
  {
    var result := new byte[|s|];
    for i := 0 to |s|
      invariant forall k :: 0 <= k < i ==> result[k] == LowerByte(s[k])
    {
      if 'A' as byte <= s[i] && s[i] <= 'Z' as byte {
        result[i] := s[i] + 32;
      } else {
        result[i] := s[i];
      }
    }
    r := result[..];
  }

  /** No byte of a lowered string is an upper-case ASCII letter. */
  lemma LowerHasNoUpper(s: Bytes)
    ensures forall i :: 0 <= i < |Lower(s)| ==> !IsAsciiUpper(Lower(s)[i])
  {
  }

  /** Lower-casing twice is lower-casing once. */
  lemma LowerIdempotent(s: Bytes)
    ensures Lower(Lower(s)) == Lower(s)
  {
  }

  /** Lower-casing commutes with taking a slice. */
  lemma LowerSlice(s: Bytes, i: int, j: int)
    requires 0 <= i <= j <= |s|
    ensures Lower(s)[i..j] == Lower(s[i..j])
  {
  }

  /** `sub` sits in `s` at position `i`: `s[i:i+len(sub)] == sub`. */
  predicate OccursAt(s: Bytes, sub: Bytes, i: int)
  {
    0 <= i && i + |sub| <= |s| && s[i..i + |sub|] == sub
  }

  predicate Occurs(s: Bytes, sub: Bytes)
  {
    exists i :: 0 <= i <= |s| - |sub| && OccursAt(s, sub, i)
  }

  /**
   * `indexSubstring`: the least position at which `sub` occurs in `s`,
   * or -1 when it occurs nowhere; an empty `sub` is found at 0.
   */
  method IndexSubstring(s: Bytes, sub: Bytes) returns (idx: int)
    ensures -1 <= idx
    ensures idx == -1 <==> !Occurs(s, sub)
    ensures idx >= 0 ==> OccursAt(s, sub, idx)
    ensures forall j :: 0 <= j < idx ==> !OccursAt(s, sub, j)
    ensures |sub| == 0 ==> idx == 0
  {
    if |sub| == 0 {
      assert OccursAt(s, sub, 0);
      return 0;
    }
    var i := 0;
    while i <= |s| - |sub|
      invariant 0 <= i
      invariant |s| >= |sub| ==> i <= |s| - |sub| + 1
      invariant |s| < |sub| ==> i == 0
      invariant forall j :: 0 <= j < i ==> !OccursAt(s, sub, j)
    {
      if s[i..i + |sub|] == sub {
        assert OccursAt(s, sub, i);
        return i;
      }
      i := i + 1;
    }
    return -1;
  }

  /** What `containsIgnoreCase(s, t)` decides: `toLower(t)` occurs in `toLower(s)`. */
  predicate MatchesIgnoreCase(s: Bytes, t: Bytes)
  {
    Occurs(Lower(s), Lower(t))
  }

  /** `containsIgnoreCase`: lowers both strings and searches. */
  method ContainsIgnoreCase(s: Bytes, substr: Bytes) returns (b: bool)
    ensures b <==> MatchesIgnoreCase(s, substr)
    ensures |substr| == 0 ==> b
    ensures b ==> |substr| <= |s|
  {
    var ls := ToLower(s);
    var lsub := ToLower(substr);
    var idx := IndexSubstring(ls, lsub);
    b := |ls| >= |lsub| && idx >= 0;
  }

  /** An exact occurrence is, a fortiori, a case-insensitive one. */
  lemma {:induction false} OccursAtMatches(s: Bytes, t: Bytes, i: int)
    requires OccursAt(s, t, i)
    ensures MatchesIgnoreCase(s, t)
  {
    LowerSlice(s, i, i + |t|);
    assert OccursAt(Lower(s), Lower(t), i);
  }

  /** Matching ignores the case of either side. */
  lemma MatchesIgnoresCase(s: Bytes, t: Bytes)
    ensures MatchesIgnoreCase(s, t) <==> MatchesIgnoreCase(Lower(s), t)
    ensures MatchesIgnoreCase(s, t) <==> MatchesIgnoreCase(s, Lower(t))
  {
    LowerIdempotent(s);
    LowerIdempotent(t);
  }
}
