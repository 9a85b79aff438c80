/**
 * The version check that download_new_firmware runs on the first chunk:
 * a new version equal to the last invalid one is refused, and only then,
 * unless the check is configured off, a version equal to the running one
 * is skipped.
 */
module VersionGuard {
  import opened OtaTypes
  import opened ImageFormat

  datatype Decision = Proceed | SkipUpToDate | RejectKnownBad

  /**
   * C's `memcmp` over the first `n` bytes: zero when they agree, otherwise the
   * difference of the first pair of bytes that differ (compared as unsigned).
   */
  function Memcmp(a: seq<byte>, b: seq<byte>, n: nat): (d: int)
    requires n <= |a| && n <= |b|
    ensures -255 <= d <= 255
    decreases n
  {
    if n == 0 then 0
    else if a[0] != b[0] then a[0] as int - b[0] as int
    else Memcmp(a[1..], b[1..], n - 1)
  }

  /** `memcmp` reports zero exactly when the two prefixes are equal. */
  lemma {:induction false} MemcmpZeroIffEqual(a: seq<byte>, b: seq<byte>, n: nat)
    requires n <= |a| && n <= |b|
    ensures Memcmp(a, b, n) == 0 <==> a[..n] == b[..n]
    decreases n
  {
    if n > 0 {
      MemcmpZeroIffEqual(a[1..], b[1..], n - 1);
      assert a[..n] == [a[0]] + a[1..][..n - 1];
      assert b[..n] == [b[0]] + b[1..][..n - 1];
      if a[..n] == b[..n] {
        assert a[0] == a[..n][0] == b[..n][0] == b[0];
      }
    }
  }

  /** Two version fields are byte-equal over their whole width iff they are equal. */
  lemma SameVersionIffEqual(a: Version, b: Version)
    ensures Memcmp(a, b, VERSION_LEN) == 0 <==> a == b
  {
    MemcmpZeroIffEqual(a, b, VERSION_LEN);
    assert a[..VERSION_LEN] == a && b[..VERSION_LEN] == b;
  }

  /**
   * The guard as written in the source: the last-invalid comparison first,
   * then (when `versionCheck` holds, i.e. CONFIG_SKIP_VERSION_CHECK is unset)
   * the running-version comparison.
   */
  function Decide(newVersion: Version, running: Version, lastInvalid: Option<Version>, versionCheck: bool): Decision
  {
    if lastInvalid.Some? && Memcmp(lastInvalid.value, newVersion, VERSION_LEN) == 0 then RejectKnownBad
    else if versionCheck && Memcmp(newVersion, running, VERSION_LEN) == 0 then SkipUpToDate
    else Proceed
  }

  /**
   * The guard characterised by equality of version descriptors: rejection
   * exactly for a repeat of the known-bad version, skipping exactly for the
   * running version when the check is on and the version is not known-bad.
   */
  lemma DecideCharacterised(newVersion: Version, running: Version, lastInvalid: Option<Version>, versionCheck: bool)
    ensures Decide(newVersion, running, lastInvalid, versionCheck) == RejectKnownBad
            <==> lastInvalid == Some(newVersion)
    ensures Decide(newVersion, running, lastInvalid, versionCheck) == SkipUpToDate
            <==> lastInvalid != Some(newVersion) && versionCheck && newVersion == running
    ensures Decide(newVersion, running, lastInvalid, versionCheck) == Proceed
            <==> lastInvalid != Some(newVersion) && !(versionCheck && newVersion == running)
  {
    SameVersionIffEqual(newVersion, running);
    if lastInvalid.Some? {
      SameVersionIffEqual(lastInvalid.value, newVersion);
    }
  }

  /** The known-bad check outranks the up-to-date check, whatever runs now. */
  lemma KnownBadOutranksUpToDate(v: Version, running: Version, versionCheck: bool)
    ensures Decide(v, running, Some(v), versionCheck) == RejectKnownBad
  {
    DecideCharacterised(v, running, Some(v), versionCheck);
  }

  /** With the version check configured off, nothing is ever skipped as up to date. */
  lemma NoSkipWithoutVersionCheck(v: Version, running: Version, lastInvalid: Option<Version>)
    ensures Decide(v, running, lastInvalid, false) != SkipUpToDate
  {
  }
}
