/** `verify_hash`: the SHA-256 comparison applied to existing and freshly
    downloaded files. The digest itself comes from `calculate_sha256`,
    which reads the file; here it is an input, `None` when reading failed. */
module HashCheck {
  import opened Wrappers
  import opened Text

  /** `verify_hash(filepath, expected)` with `digest` the value
      `calculate_sha256(filepath)` returned. */
  function VerifyHash(expected: string, digest: Option<string>): (ok: bool)
    ensures expected == "" ==> ok
    ensures expected != "" && digest.None? ==> !ok
  {
    if expected == "" then true
    else
      match digest
      case None => false
      case Some(actual) => Lower(actual) == Lower(expected)
  }

  /** Two strings that agree character by character up to ASCII case. */
  predicate SameUpToCase(a: string, b: string) {
    |a| == |b| && forall i :: 0 <= i < |a| ==> LowerChar(a[i]) == LowerChar(b[i])
  }

  /** The comparison is exactly equality up to ASCII case, in both
      directions. */
  lemma VerifyHashIsCaseless(expected: string, actual: string)
    requires expected != ""
    ensures VerifyHash(expected, Some(actual)) <==> SameUpToCase(expected, actual)
  {
    if SameUpToCase(expected, actual) {
      assert Lower(actual) == Lower(expected);
    }
    if VerifyHash(expected, Some(actual)) {
      forall i | 0 <= i < |expected|
        ensures LowerChar(expected[i]) == LowerChar(actual[i])
      {
        assert Lower(expected)[i] == Lower(actual)[i];
      }
    }
  }

  lemma LowerOfUpper(s: string)
    ensures Lower(Upper(s)) == Lower(s)
  {
    forall i | 0 <= i < |s|
      ensures Lower(Upper(s))[i] == Lower(s)[i]
    {
      var c := s[i];
      assert Upper(s)[i] == UpperChar(c);
    }
  }

  /** Writing the expected digest in capitals makes no difference. */
  lemma UpperCaseExpectedAccepted(expected: string, digest: Option<string>)
    ensures VerifyHash(Upper(expected), digest) == VerifyHash(expected, digest)
  {
    LowerOfUpper(expected);
  }

  /** A lower-case hexadecimal digest, as `hexdigest()` returns. */
  predicate IsHexDigest(d: string) {
    |d| == 64 && forall i :: 0 <= i < |d| ==> IsDigit(d[i]) || 'a' <= d[i] <= 'f'
  }

  /** Against a real digest, a non-empty expected value passes exactly when
      its lower-case form is that digest. */
  lemma VerifyAgainstHexDigest(expected: string, d: string)
    requires IsHexDigest(d)
    ensures VerifyHash(expected, Some(d)) <==> expected == "" || Lower(expected) == d
  {
    assert Lower(d) == d;
  }

  /** Only a digest that was actually computed can pass a non-empty
      expected value: an unreadable file never verifies. */
  lemma UnreadableNeverVerifies(expected: string, digest: Option<string>)
    requires VerifyHash(expected, digest)
    ensures expected == "" || (digest.Some? && SameUpToCase(expected, digest.value))
  {
    if expected != "" {
      VerifyHashIsCaseless(expected, digest.value);
    }
  }
}
