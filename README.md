# LLVM Embedded Toolchain for Arm setup action, modelled in Dafny

The action installs a release of the LLVM Embedded Toolchain for Arm on a CI
runner and reports where its `clang` lives. This project models its core:

- **The release catalog** (`llvm.dfy`, module `Llvm`):
  - the seven published releases, newest first, each with its build tags;
  - which releases publish a SHA-256 digest and which have a macOS build;
  - how a release and a Node platform name (`linux`, `win32`, `darwin`) become the download URL, or the error that says why there is none;
  - how the digest is read out of a `.sha256` file.
- **Version comparisons** (`semver.dfy`, module `Semver`). Versions are read as strict `MAJOR.MINOR.PATCH` triples ordered lexicographically, within semver's limits on length (256 characters) and on component size (`Number.MAX_SAFE_INTEGER`). The module proves that this parsing and rendering are inverse to each other.
- **String helpers** (`text.dfy`, module `Text`): JavaScript's `startsWith`, `endsWith` and `trim`, and the first field of `split(' ')`.
- **The install pipeline** (`setup.dfy`, module `Setup`):
  - `InstallSpec` is a pure specification of `install`.
  - The class `Installer` holds the cache service's entries, the local files and the list of steps performed. Its methods are proved to follow the specification step by step: resolve the URL, restore from the cache, keep a cached installation only when its recorded digest equals the published one, otherwise download, verify, extract, record the digest and save to the cache.
  - The macOS disk image is not extracted before `install` writes the digest file, and nothing creates the installation directory on that path. So a disk-image install fails writing `sha256.txt` unless some file already lies below the installation directory, for example from a restored cache entry.
  - The network, the SHA-256 computation, the archive extractors and the cache service's failures form an abstract environment (`Env`).
- **Locating `clang`** (`locate.dfy`, module `Locate`):
  - the depth-first directory search, over a tree of entries as `lstat` sees them;
  - a proof that it returns the directory of the first entry with the wanted name in preorder;
  - the platform default of `findClang`.

Where a test and the code disagree, the model follows the code. The test at
`__tests__/main.test.ts:67` expects `16.0.0` as the latest release. The catalog
lists `19.1.1` first, so `LatestVersion()` is `19.1.1`.

## Model

| member | source | states |
|---|---|---|
| Text.Trim | src/llvm.ts:101 | `trim()` returns its input with the white space at both ends removed: a slice with no white space at its ends and only white space before and after it; a string with no white space at its ends is unchanged |
| Text.TrimmedIsUnique | src/llvm.ts:101 | only one string is the input with its end white space removed, so `Trim`'s contract fixes its value |
| Text.FirstField | src/llvm.ts:101 | `split(' ')[0]` contains no separator, is a prefix of the input, and stops at the first separator or at the end |
| Semver.LessEqIsTotalOrder | src/llvm.ts:52 | the version order behind the `<=`/`>=` ranges is reflexive, antisymmetric, transitive and total |
| Semver.ParseNumber | src/llvm.ts:30 | a version component is accepted exactly when it is a non-empty run of digits without a leading zero |
| Semver.Decimal | src/llvm.ts:30 | the spelling of a number is a valid component, and it is `0` exactly for zero |
| Semver.ParseRender | src/llvm.ts:30 | parsing the spelling of any version gives that version back |
| Semver.RenderParse | src/llvm.ts:30 | a string that parses is the spelling of what it parses to |
| Semver.ParseIffRender | src/llvm.ts:30 | a string parses to `v` if and only if it is the spelling of `v` |
| Semver.SemVerOf | src/llvm.ts:30 | a version semver accepts comes from a string of at most 256 characters and has no component above 9007199254740991 |
| Semver.SemVerOfIffRender | src/llvm.ts:30 | semver accepts a string as `v` if and only if it is the spelling of `v` and every component of `v` is at most 9007199254740991 |
| Semver.LimitsRefuse | src/llvm.ts:30 | a string longer than 256 characters, or one with a component above 9007199254740991, satisfies neither `>=` nor `<=` ranges |
| Llvm.AvailableVersions | src/llvm.ts:20-22 | one key per catalog entry, in declaration order |
| Llvm.AvailableVersionsInOrder | src/llvm.ts:6-14 | the keys are 19.1.1, 18.1.3, 17.0.1, 16.0.0, 15.0.2, 14.0.0, 13.0.0 |
| Llvm.LatestVersion | src/llvm.ts:24-27 | the latest version is the first key, `19.1.1` |
| Llvm.CatalogParses | src/llvm.ts:6-14 | every key is a strict `MAJOR.MINOR.PATCH` version that semver accepts |
| Llvm.CatalogNewestFirst | src/llvm.ts:24-27 | the keys are distinct and strictly descending, so the first key is the greatest available version |
| Llvm.Lookup | src/llvm.ts:65-68 | the `hasOwnProperty` lookup succeeds exactly for the available versions and returns that entry's tags |
| Llvm.LookupOverCatalog | src/llvm.ts:68 | `versions[version]` gives each catalog entry its own tags, even though the first matching key wins |
| Llvm.HasSHA256OverCatalog | src/llvm.ts:16-18 | every release except the two oldest publishes a digest |
| Llvm.HasDarwinMatchesTags | src/llvm.ts:29-31 | `hasDarwin` holds exactly for the releases whose tags include a macOS build |
| Llvm.HasDarwinExamples | src/llvm.ts:29-31 | 13.0.0 has no macOS build and 16.0.0 has one |
| Llvm.ThresholdsOverCatalog | src/llvm.ts:72-88 | which catalog entries are at most 16.0.0 (gzip), at most 17.0.1 (old naming), at least 16.0.0 (macOS), or one of the two oldest |
| Llvm.ExtensionsOverCatalog | src/llvm.ts:72-88 | per entry and platform: zip on Windows, tar.gz up to 16.0.0, then dmg on macOS and tar.xz elsewhere; the old file prefix up to 17.0.1 |
| Llvm.BuildTag | src/llvm.ts:37-63 | a build tag exists exactly for linux and win32, and for darwin except on 13.0.0 and 14.0.0; otherwise the error names the platform and version; the lower-case tags are used exactly for 13.0.0 and 14.0.0 |
| Llvm.Extension | src/llvm.ts:72-81 | zip exactly on win32; tar.gz exactly off win32 up to 16.0.0; dmg exactly on darwin after 16.0.0; tar.xz otherwise |
| Llvm.DistributionUrl | src/llvm.ts:33-91 | a URL exists exactly when the platform has a build tag, the version is a key and its entry lists the tag; a platform error comes before an unknown version, which comes before a missing tag; a missing tag fails as `TagNotPublished` with the tag and version |
| Llvm.UnpublishedNotForMac | src/llvm.ts:38-48 | a release without a published digest resolves only on linux and win32, never to a disk image |
| Llvm.DiskImagesOverCatalog | src/llvm.ts:72-81 | on darwin, exactly 17.0.1, 18.1.3 and 19.1.1 resolve to a disk image |
| Llvm.BuildTagRules | src/llvm.ts:37-63 | the build tag per platform for the two oldest releases and for the others, including Darwin vs Darwin-universal |
| Llvm.PlatformCheckedFirst | src/llvm.ts:37-63 | an unsupported platform is rejected before the version is looked up |
| Llvm.UnknownVersionSecond | src/llvm.ts:65-67 | on a supported platform, a version missing from the catalog is rejected as unknown |
| Llvm.TagCheckedLast | src/llvm.ts:68-70 | 15.0.2 on macOS passes the platform and version checks and is rejected because the catalog lists no Darwin build |
| Llvm.ResolvesExactly | src/llvm.ts:33-91 | a URL exists exactly when the version is available and the platform is linux, win32, or darwin with a macOS build |
| Llvm.UrlShape | src/llvm.ts:83-90 | a URL is the base URL, then `release-<version>/`, then `<prefix>-<version>-<tag>.<ext>`, and it ends in `.<ext>` |
| Llvm.KnownUrlOldWindows | __tests__/main.test.ts:55-57 | the expected URL for 13.0.0 on win32 |
| Llvm.KnownUrlWindows | __tests__/main.test.ts:58-60 | the expected URL for 16.0.0 on win32 |
| Llvm.KnownUrlDarwin | __tests__/main.test.ts:61-63 | the expected URL for 16.0.0 on darwin |
| Llvm.DigestIsTrimmedField | src/llvm.ts:101 | the digest read from a `.sha256` body is its first space-separated field with the white space at both ends removed, and contains no space |
| Llvm.DigestOfTerminatedLine | src/llvm.ts:101 | a bare digest followed by white space without a space (a line terminator) yields exactly the digest |
| Llvm.DigestOfNewlineTerminated | src/llvm.ts:101 | a digest followed by `\n` or by `\r\n` yields exactly the digest |
| Llvm.DigestOfChecksumLine | src/llvm.ts:101 | a `sha256sum` line (digest, then a space and the file name) yields exactly the digest |
| Setup.Installer.Install | src/setup.ts:31-111 | `install` returns, leaves cache and files, and performs the steps that `InstallSpec` prescribes from the old state |
| Setup.Installer.Restore | src/setup.ts:42-48 | restore merges the entry saved under exactly the key into the files; a throwing cache service counts as a miss |
| Setup.Installer.RestoreOrDownload | src/setup.ts:42-68 | the cache step follows `CachedSpec`: keep the restored files only when the digest file matches, else download |
| Setup.Installer.DownloadAndExtract | src/setup.ts:70-84 | the download step follows `DownloadSpec`: download, hash, check against the published digest when there is one |
| Setup.Installer.ExtractAndSave | src/setup.ts:86-110 | the extract step follows `ExtractSpec`: pick the extractor by suffix, write `sha256.txt` (which fails for a disk image when the directory is missing), try to save |
| Setup.DispatchBySuffix | src/setup.ts:88-99 | a URL ending in one of the four extensions gets that extension's extractor, even though `.zip` is tested first |
| Setup.DispatchFollowsExtension | src/setup.ts:88-99 | every resolvable URL selects an extractor, so `Can't decompress` is never raised |
| Setup.NothingHappensUnlessResolved | src/setup.ts:35 | without a URL, install fails with the resolver's error and touches nothing; with one, the first step is the cache restore |
| Setup.CacheHitIff | src/setup.ts:49-68 | install succeeds without downloading exactly when a restore succeeds, a digest is published and `sha256.txt` matches it |
| Setup.CacheHitOutcome | src/setup.ts:49-66 | a matching cache returns the install path, keeps the restored files, and only fetches the digest and reads `sha256.txt` |
| Setup.UnpublishedDigestAlwaysDownloads | src/setup.ts:49-84 | for 13.0.0 and 14.0.0, every run downloads and never fetches a digest, and the only possible failure is the download |
| Setup.ExtractionOnlyAfterVerification | src/setup.ts:77-99 | when a digest is published, nothing is extracted unless the downloaded bytes hash to it |
| Setup.MismatchStopsInstall | src/setup.ts:77-84 | a digest mismatch fails with both digests and extracts, writes and saves nothing |
| Setup.FreshInstallRecordsDigest | src/setup.ts:101-110 | a downloading install records its digest in `sha256.txt` and writes it before saving; when the key is new and saving works, the directory is saved under that key |
| Setup.DiskImageNeedsDirectory | src/setup.ts:94-103 | a disk-image install succeeds only where the installation directory holds files once the cache has been restored |
| Setup.FreshDiskImageFails | src/setup.ts:94-103 | with no cache entry and no installation directory, a disk-image install downloads and verifies, then fails writing `sha256.txt`, and leaves cache and files unchanged |
| Setup.CacheEntriesNeverChange | src/setup.ts:104-108 | saving never replaces an existing cache entry and adds at most the install's own key |
| Setup.SaveFaultNotFatal | src/setup.ts:104-108 | a failing save leaves the cache untouched and changes nothing else about the install |
| Setup.RestoreFaultIsMiss | src/setup.ts:42-48 | a failing restore behaves exactly as if the key were absent from the cache |
| Setup.VerifiedDownloadSucceeds | src/setup.ts:31-110 | an archive that downloads and passes the digest check (or needs none) makes the install return the installation path, whether the restored files are kept or replaced; a disk image also needs the installation directory after the restore |
| Setup.CacheRoundTrip | src/setup.ts:49-110 | for a release with a published digest, once a downloading install has been saved under a new key, the next install is served from the cache without downloading |
| Setup.CacheKeysDistinct | src/setup.ts:37 | two resolvable release and platform pairs share a cache key only if they are the same pair |
| Locate.FindIsFirstMatch | src/setup.ts:113-129 | the search returns the directory of the first entry with the name in depth-first listing order, never entering links |
| Locate.FoundIff | src/setup.ts:113-129 | below a non-empty root, something is found exactly when some entry has the name, and the answer is a directory holding one |
| Locate.ExecutableName | src/setup.ts:133 | the executable is `clang.exe` exactly on win32 and `clang` everywhere else |
| Locate.ClangFound | src/setup.ts:131-134 | `findClang` finds a directory exactly when some entry carries the platform's executable name |
| Locate.EmptyPlatformMeansHost | src/setup.ts:132 | an empty platform string falls back to the host platform, as a missing one does |

## Left out

- Network access is a pair of functions in `Env`:
  - `fetch` answers a GET with a body. The redirect that `getSHA256` follows (src/llvm.ts:97-99) is folded into it. An HTTP error page is an ordinary body.
  - `download` gives the archive bytes or fails.
- `getSHA256` is called at two points in `install` (src/setup.ts:52 and src/setup.ts:78). Both calls go through the same `fetch` function, so they see the same body.
- The SHA-256 computation is the abstract function `sha256`. The archive formats are the abstract function `unpack`. Failures of the archive extractors are not modelled. Writing `sha256.txt` fails only where its directory is missing; other write failures (permissions, a full disk) are not modelled.
- `HasDir`: the modelled file system holds only files, so a directory exists only while some file lies below it. An installation directory that exists but is empty therefore counts as missing, and a disk-image install into it fails with `WriteFailed`, where `fs.promises.writeFile` (src/setup.ts:103) would succeed.
- The disk-image extraction (src/setup.ts:13-29) only starts `dmg.mount`; the mount, the copy and the unmount run in callbacks that `install` does not wait for. The model assumes none of them has run when `install` writes `sha256.txt`, so the files hold nothing from the image and nothing has created the installation directory. What the callbacks do afterwards is not modelled: a mount error is logged; `fs.copy` (src/setup.ts:20) is neither awaited nor given a callback, so a copy error is an unhandled rejection; and `dmg.unmount` starts before the copy finishes.
- The cache service is an exact-key map. `install` passes only its primary key, and the modelled restore answers that key or nothing, so the `cacheKeyMatched === cacheKey` test (src/setup.ts:49) never sees a different key. A service that answers some other key is not modelled. A saved entry holds the files below the install path. The service's scoping, versioning and eviction are not modelled.
- `os.homedir()` is `Env.home`, and `process.platform` is the `host` parameter of `FindClang`. `path.join` is modelled as joining with `/`, without normalising `..`, duplicate separators or the Windows separator.
- `semver.satisfies` is modelled for strict `MAJOR.MINOR.PATCH` strings only, with semver's limits: a string longer than 256 characters or a component above 9007199254740991 satisfies no range. semver's lenient forms (a leading `v`, surrounding white space, pre-release and build tags) are left out, and a string that does not parse satisfies no range. All catalog keys are strict.
- Logging (`core.info`, `core.debug`, `core.warning`, `core.error`) has no observable effect in the model.
- The action's entry point, its inputs and adding `clang` to `PATH` are not part of this model. Nor is the `dmg` package's typing.
- In `findRecursive`, the order of directory listings is taken as given. A listing or `lstat` that throws (for example a missing root) is not modelled.
- Locate.FoundIff: stated for a non-empty root only. In the source `readdirSync('')` throws, and a listing that throws is not modelled, so the model's answer for an empty root has no counterpart.
