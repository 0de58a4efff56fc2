/**
 * The release catalog of the LLVM Embedded Toolchain for Arm and the
 * resolution of a (release, Node.js platform) pair to its download URL.
 */
module Llvm {
  import opened Wrappers
  import opened Semver
  import Text

  /** A published release: its identifier and the build tags of its archives. */
  datatype Release = Release(id: string, tags: seq<string>)

  datatype UrlError =
    | UnsupportedPlatform(platform: string, version: string)
    | UnknownVersion(version: string)
    | TagNotPublished(tag: string, version: string)

  const BaseUrl: string := "https://github.com/ARM-software/LLVM-embedded-toolchain-for-Arm/releases/download/"

  /** The release table in declaration order, newest first. */
  const Catalog: seq<Release> := [
    Release("19.1.1", ["Darwin-universal", "Windows-x86_64", "Linux-x86_64"]),
    Release("18.1.3", ["Darwin-universal", "Windows-x86_64", "Linux-x86_64"]),
    Release("17.0.1", ["Darwin", "Windows-x86_64", "Linux-x86_64"]),
    Release("16.0.0", ["Darwin", "Windows-x86_64", "Linux-x86_64"]),
    Release("15.0.2", ["Windows-x86_64", "Linux-x86_64"]),
    Release("14.0.0", ["windows", "linux"]),
    Release("13.0.0", ["windows", "linux"])
  ]

  /** The versions the catalog's identifiers spell, in the same order. */
  const CatalogVersions: seq<Version> := [
    Version(19, 1, 1), Version(18, 1, 3), Version(17, 0, 1), Version(16, 0, 0),
    Version(15, 0, 2), Version(14, 0, 0), Version(13, 0, 0)
  ]

  const DarwinSince: Version := Version(16, 0, 0)
  const GzipUpTo: Version := Version(16, 0, 0)
  const OldNamingUpTo: Version := Version(17, 0, 1)

  /** Whether a `.sha256` file is published next to the release's archives. */
  predicate HasSHA256(release: string) {
    release != "13.0.0" && release != "14.0.0"
  }

  /** The catalog's keys in declaration order. */
  function AvailableVersions(): (vs: seq<string>)
    ensures |vs| == |Catalog|
    ensures forall i :: 0 <= i < |vs| ==> vs[i] == Catalog[i].id
  {
    seq(|Catalog|, i requires 0 <= i < |Catalog| => Catalog[i].id)
  }

  /** The first key of the catalog. */
  function LatestVersion(): (v: string)
    ensures v == AvailableVersions()[0]
    ensures v == "19.1.1"
  {
    Catalog[0].id
  }

  /** `semver.satisfies(release, '>=16.0.0')`: macOS archives exist from 16.0.0 on. */
  predicate HasDarwin(release: string) {
    AtLeast(release, DarwinSince)
  }

  /** The build tags the catalog lists for `version`, if it is a key (`versions[version]`). */
  function Lookup(version: string): (r: Option<seq<string>>)
    ensures r.Some? <==> version in AvailableVersions()
    ensures r.Some? ==> exists i :: 0 <= i < |Catalog| && Catalog[i] == Release(version, r.value)
  {
    LookupInFinds(Catalog, version);
    LookupIn(Catalog, version)
  }

  function LookupIn(cat: seq<Release>, version: string): Option<seq<string>>
  {
    if cat == [] then None
    else if cat[0].id == version then Some(cat[0].tags)
    else LookupIn(cat[1..], version)
  }

  /** The lookup finds exactly the catalog's keys, with the tags listed for them. */
  lemma {:induction false} LookupInFinds(cat: seq<Release>, version: string)
    ensures LookupIn(cat, version).Some? <==> exists i :: 0 <= i < |cat| && cat[i].id == version
    ensures LookupIn(cat, version).Some? ==> exists i :: 0 <= i < |cat| && cat[i] == Release(version, LookupIn(cat, version).value)
  {
    if cat != [] && cat[0].id != version {
      LookupInFinds(cat[1..], version);
      assert forall i :: 0 <= i < |cat| - 1 ==> cat[1..][i] == cat[i + 1];
      if exists i :: 0 <= i < |cat| && cat[i].id == version {
        var i :| 0 <= i < |cat| && cat[i].id == version;
        assert cat[1..][i - 1].id == version;
      }
    }
  }

  /** The catalog build tag for a Node.js platform name, by the naming rules of the release. */
  function BuildTag(version: string, platform: string): (r: Result<string, UrlError>)
    ensures r.Success? <==>
      platform == "linux" || platform == "win32" || (platform == "darwin" && version != "13.0.0" && version != "14.0.0")
    ensures r.Failure? ==> r.error == UnsupportedPlatform(platform, version)
    ensures r.Success? ==> (r.value in ["linux", "windows"] <==> version == "13.0.0" || version == "14.0.0")
  {
    if version == "13.0.0" || version == "14.0.0" then
      if platform == "linux" then Success("linux")
      else if platform == "win32" then Success("windows")
      else Failure(UnsupportedPlatform(platform, version))
    else
      if platform == "darwin" then Success(if AtMost(version, OldNamingUpTo) then "Darwin" else "Darwin-universal")
      else if platform == "linux" then Success("Linux-x86_64")
      else if platform == "win32" then Success("Windows-x86_64")
      else Failure(UnsupportedPlatform(platform, version))
  }

  /** The archive extension: zip on Windows, gzip tar up to 16.0.0, then disk images for macOS and xz tar otherwise. */
  function Extension(version: string, platform: string): (ext: string)
    ensures ext == "zip" <==> platform == "win32"
    ensures ext == "tar.gz" <==> platform != "win32" && AtMost(version, GzipUpTo)
    ensures ext == "dmg" <==> platform == "darwin" && !AtMost(version, GzipUpTo)
    ensures ext == "tar.xz" <==> platform != "win32" && platform != "darwin" && !AtMost(version, GzipUpTo)
  {
    if platform == "win32" then "zip"
    else if AtMost(version, GzipUpTo) then "tar.gz"
    else if platform == "darwin" then "dmg"
    else "tar.xz"
  }

  /** The file-name prefix, renamed after 17.0.1. */
  function Prefix(version: string): string {
    if AtMost(version, OldNamingUpTo) then "LLVMEmbeddedToolchainForArm" else "LLVM-ET-Arm"
  }

  /** The URL of the archive of `version` for `platform`, or why there is none. */
  function DistributionUrl(version: string, platform: string): (r: Result<string, UrlError>)
    ensures r.Success? <==>
      BuildTag(version, platform).Success? && Lookup(version).Some? && BuildTag(version, platform).value in Lookup(version).value
    ensures BuildTag(version, platform).Failure? ==> r == Failure(UnsupportedPlatform(platform, version))
    ensures BuildTag(version, platform).Success? && Lookup(version).None? ==> r == Failure(UnknownVersion(version))
    ensures BuildTag(version, platform).Success? && Lookup(version).Some? && BuildTag(version, platform).value !in Lookup(version).value
      ==> r == Failure(TagNotPublished(BuildTag(version, platform).value, version))
  {
    var tag :- BuildTag(version, platform);
    var tags :- match Lookup(version)
      case None => Failure(UnknownVersion(version))
      case Some(t) => Success(t);
    if tag !in tags then Failure(TagNotPublished(tag, version))
    else Success(BaseUrl + ReleaseDir(version) + ArchiveName(version, tag, Extension(version, platform)))
  }

  /** The directory of a release on the download host. */
  function ReleaseDir(version: string): string {
    "release-" + version + "/"
  }

  /** The archive's file name: `<prefix>-<version>-<tag>.<ext>`. */
  function ArchiveName(version: string, tag: string, ext: string): string {
    Prefix(version) + "-" + version + "-" + tag + "." + ext
  }

  /** The digest in the body of a `.sha256` file: its first space-separated field, trimmed. */
  function DigestFromResponse(text: string): string {
    Text.Trim(Text.FirstField(text, ' '))
  }

  /**
   * The digest read from a body is its first space-separated field with the
   * white space at both ends removed, so it contains no space.
   */
  lemma DigestIsTrimmedField(text: string)
    ensures ' ' !in DigestFromResponse(text)
    ensures Text.Trimmed(Text.FirstField(text, ' '), DigestFromResponse(text))
  {
    DigestHasNoSpace(text);
  }

  lemma DigestHasNoSpace(text: string)
    ensures ' ' !in DigestFromResponse(text)
  {
  }

  // ---------------------------------------------------------------------
  // Properties of the catalog

  /** Each catalog key is the strict spelling of the corresponding version. */
  lemma CatalogParses()
    ensures |CatalogVersions| == |Catalog|
    ensures forall i :: 0 <= i < |Catalog| ==> Parse(Catalog[i].id) == Some(CatalogVersions[i])
    ensures forall i :: 0 <= i < |Catalog| ==> SemVerOf(Catalog[i].id) == Some(CatalogVersions[i])
  {
    forall i | 0 <= i < |Catalog|
      ensures Parse(Catalog[i].id) == Some(CatalogVersions[i])
      ensures SemVerOf(Catalog[i].id) == Some(CatalogVersions[i])
    {
      RenderIsId(i);
      ParseIffRender(Catalog[i].id, CatalogVersions[i]);
      CatalogSemVer(i);
    }
  }

  /** The spelling of a version with a two-digit major and one-digit minor and patch. */
  lemma SpellingOf(a: nat, b: nat, c: nat, s: string)
    requires 10 <= a < 100 && b < 10 && c < 10
    requires s == [DigitChar(a / 10), DigitChar(a % 10), '.', DigitChar(b), '.', DigitChar(c)]
    ensures Render(Version(a, b, c)) == s
  {
    assert Decimal(a) == [DigitChar(a / 10), DigitChar(a % 10)];
  }

  lemma RenderIsId(i: nat)
    requires i < |Catalog|
    ensures Render(CatalogVersions[i]) == Catalog[i].id
  {
    if i == 0 { SpellingOf(19, 1, 1, "19.1.1"); }
    else if i == 1 { SpellingOf(18, 1, 3, "18.1.3"); }
    else if i == 2 { SpellingOf(17, 0, 1, "17.0.1"); }
    else if i == 3 { SpellingOf(16, 0, 0, "16.0.0"); }
    else if i == 4 { SpellingOf(15, 0, 2, "15.0.2"); }
    else if i == 5 { SpellingOf(14, 0, 0, "14.0.0"); }
    else { SpellingOf(13, 0, 0, "13.0.0"); }
  }

  lemma AvailableVersionsInOrder()
    ensures AvailableVersions() == ["19.1.1", "18.1.3", "17.0.1", "16.0.0", "15.0.2", "14.0.0", "13.0.0"]
  {
  }

  lemma StepDown(i: nat)
    requires i + 1 < |Catalog|
    ensures LessEq(CatalogVersions[i + 1], CatalogVersions[i]) && CatalogVersions[i + 1] != CatalogVersions[i]
  {
  }

  lemma {:induction false} Descending(i: nat, j: nat)
    requires i < j < |Catalog|
    ensures LessEq(CatalogVersions[j], CatalogVersions[i]) && CatalogVersions[j] != CatalogVersions[i]
    decreases j - i
  {
    StepDown(j - 1);
    if i < j - 1 {
      Descending(i, j - 1);
      LessEqIsTotalOrder(CatalogVersions[j], CatalogVersions[j - 1], CatalogVersions[i]);
      LessEqIsTotalOrder(CatalogVersions[j - 1], CatalogVersions[j], CatalogVersions[i]);
    }
  }

  /**
   * Declaration order is strictly decreasing version order: no key repeats,
   * and the first key, `LatestVersion()`, is the newest release.
   */
  lemma CatalogNewestFirst()
    ensures forall i, j :: 0 <= i < j < |Catalog| ==>
      AtMost(Catalog[j].id, CatalogVersions[i]) && !AtMost(Catalog[i].id, CatalogVersions[j])
    ensures forall i, j :: 0 <= i < j < |Catalog| ==> Catalog[i].id != Catalog[j].id
    ensures Parse(LatestVersion()) == Some(CatalogVersions[0])
    ensures forall v :: v in AvailableVersions() ==> AtMost(v, CatalogVersions[0])
  {
    CatalogParses();
    forall i, j | 0 <= i < j < |Catalog|
      ensures AtMost(Catalog[j].id, CatalogVersions[i]) && !AtMost(Catalog[i].id, CatalogVersions[j])
      ensures Catalog[i].id != Catalog[j].id
    {
      Descending(i, j);
      LessEqIsTotalOrder(CatalogVersions[i], CatalogVersions[j], CatalogVersions[i]);
    }
    forall v | v in AvailableVersions()
      ensures AtMost(v, CatalogVersions[0])
    {
      var i :| 0 <= i < |Catalog| && AvailableVersions()[i] == v;
      if i > 0 {
        Descending(0, i);
      }
    }
  }

  /** Where each catalog release stands against the version thresholds of the resolver. */
  lemma ThresholdsOverCatalog()
    ensures forall i :: 0 <= i < |Catalog| ==>
      && (AtMost(Catalog[i].id, GzipUpTo) <==> i >= 3)
      && (AtMost(Catalog[i].id, OldNamingUpTo) <==> i >= 2)
      && (HasDarwin(Catalog[i].id) <==> i <= 3)
      && ((Catalog[i].id == "13.0.0" || Catalog[i].id == "14.0.0") <==> i >= 5)
  {
    forall i | 0 <= i < |Catalog|
      ensures AtMost(Catalog[i].id, GzipUpTo) <==> i >= 3
      ensures AtMost(Catalog[i].id, OldNamingUpTo) <==> i >= 2
      ensures HasDarwin(Catalog[i].id) <==> i <= 3
      ensures (Catalog[i].id == "13.0.0" || Catalog[i].id == "14.0.0") <==> i >= 5
    {
      ThresholdsAt(i);
    }
  }

  lemma ThresholdsAt(i: nat)
    requires i < |Catalog|
    ensures AtMost(Catalog[i].id, GzipUpTo) <==> i >= 3
    ensures AtMost(Catalog[i].id, OldNamingUpTo) <==> i >= 2
    ensures HasDarwin(Catalog[i].id) <==> i <= 3
    ensures (Catalog[i].id == "13.0.0" || Catalog[i].id == "14.0.0") <==> i >= 5
  {
    CatalogSemVer(i);
  }

  lemma CatalogSemVer(i: nat)
    requires i < |Catalog|
    ensures SemVerOf(Catalog[i].id) == Some(CatalogVersions[i])
  {
    RenderIsId(i);
    assert InRange(CatalogVersions[i]);
    SemVerOfIffRender(Catalog[i].id, CatalogVersions[i]);
  }

  lemma {:induction false} LookupInFirst(cat: seq<Release>, i: nat)
    requires i < |cat|
    requires forall j :: 0 <= j < i ==> cat[j].id != cat[i].id
    ensures LookupIn(cat, cat[i].id) == Some(cat[i].tags)
  {
    if i > 0 {
      assert forall j :: 0 <= j < i - 1 ==> cat[1..][j] == cat[j + 1];
      LookupInFirst(cat[1..], i - 1);
    }
  }

  lemma LookupOverCatalog()
    ensures forall i :: 0 <= i < |Catalog| ==> Lookup(Catalog[i].id) == Some(Catalog[i].tags)
  {
    CatalogNewestFirst();
    forall i | 0 <= i < |Catalog|
      ensures Lookup(Catalog[i].id) == Some(Catalog[i].tags)
    {
      LookupInFirst(Catalog, i);
    }
  }

  /** Digests are published for every release but the two earliest ones. */
  lemma HasSHA256OverCatalog()
    ensures forall i :: 0 <= i < |Catalog| ==> (HasSHA256(Catalog[i].id) <==> i < |Catalog| - 2)
  {
  }

  /** The version threshold for macOS agrees with the build tags the catalog lists. */
  lemma HasDarwinMatchesTags()
    ensures forall i :: 0 <= i < |Catalog| ==>
      (HasDarwin(Catalog[i].id) <==> "Darwin" in Catalog[i].tags || "Darwin-universal" in Catalog[i].tags)
  {
    forall i | 0 <= i < |Catalog|
      ensures HasDarwin(Catalog[i].id) <==> "Darwin" in Catalog[i].tags || "Darwin-universal" in Catalog[i].tags
    {
      ThresholdsAt(i);
      TagsAt(i);
    }
  }

  /** Which of the build tags the resolver can produce each release lists. */
  lemma TagsAt(i: nat)
    requires i < |Catalog|
    ensures ("Darwin" in Catalog[i].tags) <==> (i == 2 || i == 3)
    ensures ("Darwin-universal" in Catalog[i].tags) <==> i <= 1
    ensures ("Linux-x86_64" in Catalog[i].tags && "Windows-x86_64" in Catalog[i].tags) <==> i <= 4
    ensures ("linux" in Catalog[i].tags && "windows" in Catalog[i].tags) <==> i >= 5
  {
  }

  lemma HasDarwinExamples()
    ensures !HasDarwin("13.0.0") && HasDarwin("16.0.0")
  {
    ThresholdsOverCatalog();
    assert Catalog[6].id == "13.0.0" && Catalog[3].id == "16.0.0";
  }

  /** Extensions and prefixes over the catalog: zip on Windows, gzip tar through 16.0.0, then dmg on macOS and xz tar on Linux; the new prefix after 17.0.1. */
  lemma ExtensionsOverCatalog()
    ensures forall i :: 0 <= i < |Catalog| ==>
      && Extension(Catalog[i].id, "win32") == "zip"
      && Extension(Catalog[i].id, "linux") == (if i >= 3 then "tar.gz" else "tar.xz")
      && Extension(Catalog[i].id, "darwin") == (if i >= 3 then "tar.gz" else "dmg")
    ensures forall i :: 0 <= i < |Catalog| ==>
      Prefix(Catalog[i].id) == if i >= 2 then "LLVMEmbeddedToolchainForArm" else "LLVM-ET-Arm"
  {
    ThresholdsOverCatalog();
  }

  /** On macOS, exactly the releases after 16.0.0 resolve to a disk image. */
  lemma DiskImagesOverCatalog()
    ensures forall i :: 0 <= i < |Catalog| ==>
      (DistributionUrl(Catalog[i].id, "darwin").Success? && Extension(Catalog[i].id, "darwin") == "dmg" <==> i < 3)
  {
    ExtensionsOverCatalog();
    forall i | 0 <= i < |Catalog|
      ensures DistributionUrl(Catalog[i].id, "darwin").Success? <==> i <= 3
    {
      ResolvesAt(i, "darwin");
      ThresholdsAt(i);
    }
  }

  // ---------------------------------------------------------------------
  // Properties of the URL resolver

  /** The platform check comes first: an unsupported platform is reported whatever the version. */
  lemma PlatformCheckedFirst(version: string, platform: string)
    requires platform != "linux" && platform != "win32"
    requires platform != "darwin" || version == "13.0.0" || version == "14.0.0"
    ensures DistributionUrl(version, platform) == Failure(UnsupportedPlatform(platform, version))
  {
  }

  /** An identifier outside the catalog fails as unknown once the platform is supported. */
  lemma UnknownVersionSecond(version: string, platform: string)
    requires version !in AvailableVersions()
    requires platform == "linux" || platform == "win32" || platform == "darwin"
    ensures DistributionUrl(version, platform) == Failure(UnknownVersion(version))
  {
    assert Lookup(version).Some? <==> version in AvailableVersions();
    AvailableVersionsInOrder();
  }

  /** A known release asked for a build it does not publish fails last, naming the missing tag. */
  lemma TagCheckedLast()
    ensures DistributionUrl("15.0.2", "darwin") == Failure(TagNotPublished("Darwin", "15.0.2"))
  {
    Facts15();
  }


  /** A catalog release resolves on Linux and Windows always, and on macOS exactly when `HasDarwin` holds. */
  lemma ResolvesAt(i: nat, platform: string)
    requires i < |Catalog|
    ensures DistributionUrl(Catalog[i].id, platform).Success? <==>
      (platform == "linux" || platform == "win32" || (platform == "darwin" && HasDarwin(Catalog[i].id)))
  {
    ThresholdsAt(i);
    TagsAt(i);
    LookupOverCatalog();
  }

  /**
   * Exactly the catalog's releases resolve, on Linux and Windows always and
   * on macOS exactly when `HasDarwin` holds; every other pair is an error.
   */
  lemma ResolvesExactly(version: string, platform: string)
    ensures DistributionUrl(version, platform).Success? <==>
      version in AvailableVersions() &&
      (platform == "linux" || platform == "win32" || (platform == "darwin" && HasDarwin(version)))
  {
    assert Lookup(version).Some? <==> version in AvailableVersions();
    if version in AvailableVersions() {
      var i :| 0 <= i < |Catalog| && Catalog[i].id == version;
      ResolvesAt(i, platform);
    }
  }

  /** The releases without a published digest resolve only for Linux and Windows, so never to a disk image. */
  lemma UnpublishedNotForMac(version: string, platform: string)
    requires DistributionUrl(version, platform).Success? && !HasSHA256(version)
    ensures platform == "linux" || platform == "win32"
    ensures Extension(version, platform) != "dmg"
  {
    assert BuildTag(version, platform).Success?;
  }

  /** The build tag each platform name maps to, for the two naming schemes. */
  lemma BuildTagRules(version: string)
    ensures version == "13.0.0" || version == "14.0.0" ==>
      BuildTag(version, "linux") == Success("linux") && BuildTag(version, "win32") == Success("windows")
      && BuildTag(version, "darwin").Failure?
    ensures version != "13.0.0" && version != "14.0.0" ==>
      && BuildTag(version, "linux") == Success("Linux-x86_64")
      && BuildTag(version, "win32") == Success("Windows-x86_64")
      && BuildTag(version, "darwin") == Success(if AtMost(version, OldNamingUpTo) then "Darwin" else "Darwin-universal")
  {
  }

  /**
   * A resolved URL is the release's directory under the download host
   * followed by an archive name that ends in the extension the rules give.
   */
  lemma UrlShape(version: string, platform: string)
    requires DistributionUrl(version, platform).Success?
    ensures BuildTag(version, platform).Success?
    ensures DistributionUrl(version, platform).value ==
      BaseUrl + ReleaseDir(version) + ArchiveName(version, BuildTag(version, platform).value, Extension(version, platform))
    ensures Text.StartsWith(DistributionUrl(version, platform).value, BaseUrl + ReleaseDir(version))
    ensures Text.EndsWith(DistributionUrl(version, platform).value, "." + Extension(version, platform))
  {
    var head := BaseUrl + ReleaseDir(version);
    var ext := Extension(version, platform);
    var tag := BuildTag(version, platform).value;
    var name := ArchiveName(version, tag, ext);
    assert DistributionUrl(version, platform).value == head + name;
    assert name == Prefix(version) + "-" + version + "-" + tag + "." + ext;
    AffixesOf(head, Prefix(version) + "-" + version + "-" + tag, ext);
  }

  /** A directory followed by `<stem>.<ext>` starts with the directory and ends in `.<ext>`. */
  lemma AffixesOf(head: string, stem: string, ext: string)
    ensures Text.StartsWith(head + (stem + "." + ext), head)
    ensures Text.EndsWith(head + (stem + "." + ext), "." + ext)
  {
    var name := stem + "." + ext;
    Text.EndsWithConcat(stem, "." + ext);
    Text.EndsWithConcat(head, name);
    EndsWithTransitive(head + name, name, "." + ext);
    Text.StartsWithConcat(head, name);
  }

  lemma EndsWithTransitive(s: string, t: string, u: string)
    requires Text.EndsWith(s, t) && Text.EndsWith(t, u)
    ensures Text.EndsWith(s, u)
  {
    assert s[|s| - |u|..] == t[|t| - |u|..];
  }

  /** The archive of 13.0.0 for Windows, under the old naming. */
  lemma KnownUrlOldWindows()
    ensures DistributionUrl("13.0.0", "win32") ==
      Success(BaseUrl + "release-13.0.0/" + "LLVMEmbeddedToolchainForArm-13.0.0-windows.zip")
  {
    Facts13();
    SpellingOldWindows();
    SpelledOut("LLVMEmbeddedToolchainForArm", "13.0.0", "windows", "zip",
      "release-13.0.0/", "LLVMEmbeddedToolchainForArm-13.0.0-windows.zip");
  }


  /** The archive of 16.0.0 for Windows, under the long build tag. */
  lemma KnownUrlWindows()
    ensures DistributionUrl("16.0.0", "win32") ==
      Success(BaseUrl + "release-16.0.0/" + "LLVMEmbeddedToolchainForArm-16.0.0-Windows-x86_64.zip")
  {
    Facts16();
    SpellingWindows();
    SpelledOut("LLVMEmbeddedToolchainForArm", "16.0.0", "Windows-x86_64", "zip",
      "release-16.0.0/", "LLVMEmbeddedToolchainForArm-16.0.0-Windows-x86_64.zip");
  }


  /** The first macOS archive, 16.0.0, is still a gzip tar. */
  lemma KnownUrlDarwin()
    ensures DistributionUrl("16.0.0", "darwin") ==
      Success(BaseUrl + "release-16.0.0/" + "LLVMEmbeddedToolchainForArm-16.0.0-Darwin.tar.gz")
  {
    Facts16();
    SpellingDarwin();
    SpelledOut("LLVMEmbeddedToolchainForArm", "16.0.0", "Darwin", "tar.gz",
      "release-16.0.0/", "LLVMEmbeddedToolchainForArm-16.0.0-Darwin.tar.gz");
  }


  lemma Facts13()
    ensures BuildTag("13.0.0", "win32") == Success("windows")
    ensures Lookup("13.0.0") == Some(["windows", "linux"])
    ensures Prefix("13.0.0") == "LLVMEmbeddedToolchainForArm"
    ensures Extension("13.0.0", "win32") == "zip"
  {
    ThresholdsAt(6);
    LookupOverCatalog();
    assert Catalog[6].id == "13.0.0";
  }

  lemma Facts15()
    ensures BuildTag("15.0.2", "darwin") == Success("Darwin")
    ensures Lookup("15.0.2") == Some(["Windows-x86_64", "Linux-x86_64"])
  {
    ThresholdsAt(4);
    LookupOverCatalog();
    assert Catalog[4].id == "15.0.2";
  }

  lemma Facts16()
    ensures BuildTag("16.0.0", "darwin") == Success("Darwin")
    ensures BuildTag("16.0.0", "win32") == Success("Windows-x86_64")
    ensures Lookup("16.0.0") == Some(["Darwin", "Windows-x86_64", "Linux-x86_64"])
    ensures Prefix("16.0.0") == "LLVMEmbeddedToolchainForArm"
    ensures Extension("16.0.0", "darwin") == "tar.gz" && Extension("16.0.0", "win32") == "zip"
  {
    ThresholdsAt(3);
    LookupOverCatalog();
    assert Catalog[3].id == "16.0.0";
  }


  lemma SpellingOldWindows()
    ensures "release-" + "13.0.0" + "/" == "release-13.0.0/"
    ensures "LLVMEmbeddedToolchainForArm" + "-" + "13.0.0" + "-" + "windows" + "." + "zip" == "LLVMEmbeddedToolchainForArm-13.0.0-windows.zip"
  {
  }

  lemma SpellingWindows()
    ensures "release-" + "16.0.0" + "/" == "release-16.0.0/"
    ensures "LLVMEmbeddedToolchainForArm" + "-" + "16.0.0" + "-" + "Windows-x86_64" + "." + "zip" == "LLVMEmbeddedToolchainForArm-16.0.0-Windows-x86_64.zip"
  {
  }

  lemma SpellingDarwin()
    ensures "release-" + "16.0.0" + "/" == "release-16.0.0/"
    ensures "LLVMEmbeddedToolchainForArm" + "-" + "16.0.0" + "-" + "Darwin" + "." + "tar.gz" == "LLVMEmbeddedToolchainForArm-16.0.0-Darwin.tar.gz"
  {
  }

  /** Gives the directory and archive name for a prefix, version, tag and extension spelled out in full. */
  lemma SpelledOut(prefix: string, version: string, tag: string, ext: string, dir: string, name: string)
    requires dir == "release-" + version + "/"
    requires name == prefix + "-" + version + "-" + tag + "." + ext
    requires Prefix(version) == prefix
    ensures ReleaseDir(version) == dir && ArchiveName(version, tag, ext) == name
  {
  }

  /**
   * The digest of a file in `sha256sum` format, `<digest> <name>`, or of a
   * bare digest, is the digest itself.
   */
  lemma {:induction false} DigestOfChecksumLine(digest: string, rest: string)
    requires forall i :: 0 <= i < |digest| ==> !Text.IsJsSpace(digest[i])
    requires rest == [] || rest[0] == ' '
    ensures DigestFromResponse(digest + rest) == digest
  {
    FirstFieldOfJoin(digest, ' ', if rest == [] then [] else rest[1..]);
    if rest != [] {
      assert digest + rest == digest + [' '] + rest[1..];
    } else {
      assert ' ' !in digest;
      SplitWhole(digest, ' ');
      assert digest + rest == digest;
      assert Text.FirstField(digest, ' ') == digest by {
        var f := Text.FirstField(digest, ' ');
        assert forall i :: 0 <= i < |digest| ==> digest[i] != ' ';
      }
    }
  }

  /**
   * A bare digest followed by a line terminator (and any other white space
   * that contains no space) is the digest itself.
   */
  lemma DigestOfTerminatedLine(digest: string, eol: string)
    requires forall i :: 0 <= i < |digest| ==> !Text.IsJsSpace(digest[i])
    requires Text.SpaceIn(eol, 0, |eol|) && ' ' !in eol
    ensures DigestFromResponse(digest + eol) == digest
  {
    var line := digest + eol;
    assert ' ' !in line;
    assert Text.FirstField(line, ' ') == line;
    assert Text.SliceAt(line, digest, 0) && Text.SpaceIn(line, |digest|, |line|) by {
      forall k | |digest| <= k < |line| ensures Text.IsJsSpace(line[k]) {
        assert line[k] == eol[k - |digest|];
      }
    }
    assert Text.Trimmed(line, digest);
    Text.TrimmedIsUnique(line, digest, DigestFromResponse(line));
  }

  /** The common case: a SHA-256 digest on a line of its own. */
  lemma DigestOfNewlineTerminated(digest: string)
    requires forall i :: 0 <= i < |digest| ==> !Text.IsJsSpace(digest[i])
    ensures DigestFromResponse(digest + "\n") == digest
    ensures DigestFromResponse(digest + "\r\n") == digest
  {
    var lf, crlf := "\n", "\r\n";
    assert lf[0] == '\n' && crlf[0] == '\r' && crlf[1] == '\n';
    assert Text.SpaceIn(lf, 0, |lf|) && ' ' !in lf;
    assert Text.SpaceIn(crlf, 0, |crlf|) && ' ' !in crlf;
    DigestOfTerminatedLine(digest, lf);
    DigestOfTerminatedLine(digest, crlf);
  }
}
