/** Derived record fields (pkg/helpers/package.go). */
module PackageFields {
  import opened Store

  /** A package version is private exactly when its visibility is `private`. */
  function PackagePrivacyStatus(r: Record): (b: bool)
    ensures b <==> r.visibility == "private"
  {
    r.visibility == "private"
  }

  /** The license, with `none` standing in for an empty one. */
  function PackageHasLicense(r: Record): (l: string)
    ensures r.license == "" ==> l == "none"
    ensures r.license != "" ==> l == r.license
    ensures l != ""
  {
    if r.license == "" then "none" else r.license
  }

  /** Storing the reported license back changes nothing more: the report of
      a reported license is the same. */
  lemma LicenseIdempotent(r: Record)
    ensures PackageHasLicense(r.(license := PackageHasLicense(r))) == PackageHasLicense(r)
  {
  }
}
