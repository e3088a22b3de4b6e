/**
  The compatibility check `initialize` runs before anything else: the Ice
  version the caller was compiled against must be one the library accepts
  (cpp/src/Ice/Initialize.cpp, `checkIceVersion`).

  Versions are integers `AABBPP`: major `AA`, minor `BB`, patch `PP`; a
  patch above 50 marks a beta. The library's own version `ICE_INT_VERSION`
  and the build flag `ICE_IGNORE_VERSION` are parameters here.
 */
module IceVersion {

  datatype Outcome = Accepted | VersionMismatch

  /** C++ `x / 100` on `Ice::Int`: the quotient truncated toward zero. */
  function Quot100(x: int): (q: int)
    ensures -100 < x - 100 * q < 100
    ensures x >= 0 ==> x - 100 * q >= 0
    ensures x <= 0 ==> x - 100 * q <= 0
  {
    if x >= 0 then x / 100 else -((-x) / 100)
  }

  /** C++ `x % 100` on `Ice::Int`: the remainder takes the sign of `x`. */
  function Rem100(x: int): (r: int)
    ensures x == 100 * Quot100(x) + r
    ensures -100 < r < 100
  {
    x - 100 * Quot100(x)
  }

  /** A version whose patch level is above 50 is a beta. */
  predicate IsBeta(v: int)
    ensures IsBeta(v) <==> v >= 0 && v % 100 > 50
  {
    Rem100(v) > 50
  }

  /**
    `checkIceVersion(version)` against a library of version `library`. A
    beta library accepts only itself; a release library accepts callers of
    the same major and minor version that are not betas and whose patch
    level is not above its own. With `ignoreVersion` every caller passes.
   */
  function CheckIceVersion(library: int, version: int, ignoreVersion: bool): (r: Outcome)
    ensures ignoreVersion ==> r == Accepted
    ensures !ignoreVersion && IsBeta(library) ==> (r == Accepted <==> version == library)
  {
    if ignoreVersion then Accepted
    else if IsBeta(library) then
      if library != version then VersionMismatch else Accepted
    else if Quot100(library) != Quot100(version) then VersionMismatch
    else if IsBeta(version) then VersionMismatch
    else if Rem100(version) > Rem100(library) then VersionMismatch
    else Accepted
  }

  /** The integer of version `major.minor.patch`. */
  function VersionNumber(major: nat, minor: nat, patch: nat): (v: nat)
    requires minor < 100 && patch < 100
    ensures v / 10000 == major && (v / 100) % 100 == minor && v % 100 == patch
  {
    major * 10000 + minor * 100 + patch
  }

  /** Truncating and Euclidean division agree on non-negative versions. */
  lemma NonNegativeParts(v: int)
    requires v >= 0
    ensures Quot100(v) == v / 100 && Rem100(v) == v % 100
  {
  }

  /** A library accepts a caller built against the very same version. */
  lemma {:induction false} OwnVersionAccepted(library: int, ignoreVersion: bool)
    ensures CheckIceVersion(library, library, ignoreVersion) == Accepted
  {
  }

  /** A release library rejects every beta caller. */
  lemma BetaCallerRejected(library: int, version: int)
    requires !IsBeta(library) && IsBeta(version)
    ensures CheckIceVersion(library, version, false) == VersionMismatch
  {
  }

  /**
    In components: a release library `a.b.c` accepts exactly the callers
    `a.b.p` with `p <= c`.
   */
  lemma ReleaseAcceptsByComponents(a: nat, b: nat, c: nat, a': nat, b': nat, p: nat)
    requires b < 100 && c <= 50 && b' < 100 && p < 100
    ensures CheckIceVersion(VersionNumber(a, b, c), VersionNumber(a', b', p), false) == Accepted
        <==> a == a' && b == b' && p <= c
  {
    var library, version := VersionNumber(a, b, c), VersionNumber(a', b', p);
    NonNegativeParts(library);
    NonNegativeParts(version);
    assert library / 100 == a * 100 + b;
    assert version / 100 == a' * 100 + b';
  }

  /**
    Over all integers: a release library of version at least 1.00 accepts
    exactly the callers from its own `x.y.0` up to itself.
   */
  lemma ReleaseAcceptsInterval(library: int, version: int)
    requires library >= 100 && !IsBeta(library)
    ensures CheckIceVersion(library, version, false) == Accepted
        <==> library - Rem100(library) <= version <= library
  {
    if CheckIceVersion(library, version, false) == Accepted {
      assert Quot100(version) >= 1;
    }
  }

  /**
    Patch releases are backward compatible: moving a release library up to
    a later patch of the same minor version keeps every caller it accepted.
   */
  lemma PatchUpgradeKeepsCallers(library: int, later: int, version: int)
    requires library >= 100 && !IsBeta(library) && !IsBeta(later)
    requires library <= later && Quot100(later) == Quot100(library)
    requires CheckIceVersion(library, version, false) == Accepted
    ensures CheckIceVersion(later, version, false) == Accepted
  {
    ReleaseAcceptsInterval(library, version);
    ReleaseAcceptsInterval(later, version);
  }
}
