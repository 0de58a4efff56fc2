/**
 * The install pipeline: resolve the URL, try the cache, accept the cached
 * installation only when its recorded digest matches the published one,
 * otherwise download, verify, extract, record the digest and save to the
 * cache.  The cache service, the file system, the network and the SHA-256
 * computation are an abstract environment.
 */
module Setup {
  import opened Wrappers
  import Llvm
  import Text
  import Semver

  type Path = string
  type Bytes = seq<bv8>
  /** File contents by full path. */
  type Files = map<Path, string>

  const ToolName: string := "llvm-embedded-toolchain-for-arm"
  const SidecarName: string := "sha256.txt"
  /** What the cached digest reads as when `sha256.txt` cannot be read. */
  const MissingSidecar: string := "SHA256 not found in cached installation"

  /** `path.join(dir, name)` for a plain name (no normalisation of `..` or doubled separators). */
  function Join(dir: Path, name: string): Path {
    dir + "/" + name
  }

  function CacheKey(release: string, platform: string): string {
    ToolName + "-" + release + "-" + platform
  }

  datatype ArchiveKind = Zip | TarGz | TarXz | Dmg

  /** The extractor chosen from the URL's suffix, tested in the order `.zip`, `.tar.gz`, `.tar.xz`, `.dmg`. */
  function ArchiveKindOf(url: string): Option<ArchiveKind> {
    if Text.EndsWith(url, ".zip") then Some(Zip)
    else if Text.EndsWith(url, ".tar.gz") then Some(TarGz)
    else if Text.EndsWith(url, ".tar.xz") then Some(TarXz)
    else if Text.EndsWith(url, ".dmg") then Some(Dmg)
    else None
  }

  /** The observable steps of an install, in the order they happen. */
  datatype Effect =
    | RestoreAttempt(key: string)
    | FetchDigest(url: string)
    | ReadSidecar(path: Path)
    | Download(url: string)
    | Extract(kind: ArchiveKind, dest: Path)
    | WriteSidecar(path: Path, digest: string)
    | SaveAttempt(key: string)

  datatype InstallError =
    | Resolve(reason: Llvm.UrlError)
    | DigestUnavailable(url: string)
    | DownloadFailed(url: string)
    | DigestMismatch(downloaded: string, published: string)
    | CannotDecompress(url: string)
    | WriteFailed(path: Path)

  /**
   * The world outside the pipeline.  `fetch` answers an HTTP GET with the
   * body (`None` when the request fails), `download` gives the bytes at a
   * URL, `sha256` digests bytes, and `unpack` gives the files an extractor
   * writes for an archive into a destination.  `restoreFails` and
   * `saveFails` make the cache service throw.
   */
  datatype Env = Env(
    home: Path,
    restoreFails: bool,
    saveFails: bool,
    fetch: string -> Option<string>,
    download: string -> Option<Bytes>,
    sha256: Bytes -> string,
    unpack: (ArchiveKind, Bytes, Path) -> Files)

  /** The cache service's entries (saved files by key) and the local file system. */
  datatype Store = Store(cache: map<string, Files>, files: Files)

  /** What an install returns, the state it leaves and the effects it performed. */
  datatype Outcome = Outcome(result: Result<Path, InstallError>, store: Store, effects: seq<Effect>)

  function InstallPath(env: Env, release: string, platform: string): Path {
    Join(env.home, CacheKey(release, platform))
  }

  /** `getSHA256`: the published digest of the archive at `url`, if the `.sha256` file can be fetched. */
  function PublishedDigest(env: Env, url: string): Option<string> {
    match env.fetch(url + ".sha256")
    case None => None
    case Some(body) => Some(Llvm.DigestFromResponse(body))
  }

  /** The key the cache service reports for a restore: the exact key when an entry exists, nothing when it throws. */
  function RestoreCache(s: Store, env: Env, key: string): Option<string> {
    if !env.restoreFails && key in s.cache then Some(key) else None
  }

  /** The text of the digest file, or the placeholder when it cannot be read. */
  function SidecarText(files: Files, path: Path): string {
    if path in files then files[path] else MissingSidecar
  }

  /** The files saved under a directory: every path below `dir`. */
  function Under(files: Files, dir: Path): Files {
    map p | p in files && Text.StartsWith(p, dir + "/") :: files[p]
  }

  /**
   * Whether a directory exists.  The file system here holds only files, so
   * a directory exists once a file lies below it; the archive extractors
   * create their destination, the disk-image path does not.
   */
  predicate HasDir(files: Files, dir: Path) {
    Under(files, dir) != map[]
  }

  function Prepend(effects: seq<Effect>, o: Outcome): Outcome {
    o.(effects := effects + o.effects)
  }

  /** The specification of `install(release, platform)`. */
  function InstallSpec(s: Store, env: Env, release: string, platform: string): Outcome {
    match Llvm.DistributionUrl(release, platform)
    case Failure(e) => Outcome(Failure(Resolve(e)), s, [])
    case Success(url) =>
      var key := CacheKey(release, platform);
      CachedSpec(s, env, release, url, key, Join(env.home, key))
  }

  /** What checking a restored installation decides, with the steps it took. */
  datatype CacheCheck =
    | Keep(effects: seq<Effect>)
    | Redo(effects: seq<Effect>)
    | Abort(error: InstallError, effects: seq<Effect>)

  /**
   * A restored installation is kept when a digest is published for the
   * release and the recorded digest equals it; a failed digest request
   * ends the install.
   */
  function CheckCached(files: Files, env: Env, release: string, url: string, matched: bool, dest: Path): CacheCheck {
    if matched && Llvm.HasSHA256(release) then
      match PublishedDigest(env, url)
      case None => Abort(DigestUnavailable(url + ".sha256"), [FetchDigest(url + ".sha256")])
      case Some(published) =>
        var sidecar := Join(dest, SidecarName);
        var checked := [FetchDigest(url + ".sha256"), ReadSidecar(sidecar)];
        if SidecarText(files, sidecar) == published then Keep(checked) else Redo(checked)
    else Redo([])
  }

  /** Restore from the cache and keep the restored files when their recorded digest is the published one. */
  function CachedSpec(s: Store, env: Env, release: string, url: string, key: string, dest: Path): Outcome {
    var matched := RestoreCache(s, env, key);
    var s1 := if matched.Some? then s.(files := s.files + s.cache[key]) else s;
    var restored := [RestoreAttempt(key)];
    match CheckCached(s1.files, env, release, url, matched == Some(key), dest)
    case Keep(checked) => Outcome(Success(dest), s1, restored + checked)
    case Abort(e, checked) => Outcome(Failure(e), s1, restored + checked)
    case Redo(checked) => Prepend(restored + checked, DownloadSpec(s1, env, release, url, key, dest))
  }

  /** Whether downloaded bytes may be extracted, with the steps the decision took. */
  datatype Verification = Verified(effects: seq<Effect>) | Rejected(error: InstallError, effects: seq<Effect>)

  /** Bytes are checked against the published digest when the release has one, and accepted unchecked otherwise. */
  function VerifyDigest(env: Env, release: string, url: string, digest: string): Verification {
    if Llvm.HasSHA256(release) then
      match PublishedDigest(env, url)
      case None => Rejected(DigestUnavailable(url + ".sha256"), [FetchDigest(url + ".sha256")])
      case Some(published) =>
        if digest != published then Rejected(DigestMismatch(digest, published), [FetchDigest(url + ".sha256")])
        else Verified([FetchDigest(url + ".sha256")])
    else Verified([])
  }

  /** Download, verify when a digest is published, then extract and save. */
  function DownloadSpec(s: Store, env: Env, release: string, url: string, key: string, dest: Path): Outcome {
    match env.download(url)
    case None => Outcome(Failure(DownloadFailed(url)), s, [Download(url)])
    case Some(bytes) =>
      var digest := env.sha256(bytes);
      match VerifyDigest(env, release, url, digest)
      case Rejected(e, checked) => Outcome(Failure(e), s, [Download(url)] + checked)
      case Verified(checked) => Prepend([Download(url)] + checked, ExtractSpec(s, env, bytes, digest, url, key, dest))
  }

  /**
   * Extract by suffix, record the digest next to the files and try to save
   * them to the cache.  The disk-image copy runs detached, so nothing of it
   * is in the files when the install returns, and nothing creates the
   * destination: writing the digest file fails unless the directory is
   * already there.
   */
  function ExtractSpec(s: Store, env: Env, bytes: Bytes, digest: string, url: string, key: string, dest: Path): Outcome {
    match ArchiveKindOf(url)
    case None => Outcome(Failure(CannotDecompress(url)), s, [])
    case Some(kind) =>
      var sidecar := Join(dest, SidecarName);
      if kind == Dmg && !HasDir(s.files, dest) then Outcome(Failure(WriteFailed(sidecar)), s, [Extract(Dmg, dest)])
      else
      var extracted := if kind == Dmg then s.files else s.files + env.unpack(kind, bytes, dest);
      var files := extracted[sidecar := digest];
      var cache := if env.saveFails || key in s.cache then s.cache else s.cache[key := Under(files, dest)];
      Outcome(Success(dest), Store(cache, files), [Extract(kind, dest), WriteSidecar(sidecar, digest), SaveAttempt(key)])
  }

  lemma ThreeSteps(a: Effect, b: Effect, c: Effect)
    ensures [a] + [b, c] == [a, b, c]
  {
  }

  lemma Associative(a: seq<Effect>, b: seq<Effect>, c: seq<Effect>)
    ensures a + (b + c) == a + b + c
  {
  }

  /** The installer's state: the cache service, the file system and the effects performed so far. */
  class Installer {
    var cache: map<string, Files>
    var files: Files
    var log: seq<Effect>

    function State(): Store
      reads this
    {
      Store(cache, files)
    }

    constructor (cache0: map<string, Files>, files0: Files)
      ensures cache == cache0 && files == files0 && log == []
    {
      cache := cache0;
      files := files0;
      log := [];
    }

    /** `install(release, platform)`: returns the installation directory or fails. */
    method Install(release: string, platform: string, env: Env) returns (r: Result<Path, InstallError>)
      modifies this
      ensures var o := InstallSpec(old(State()), env, release, platform);
        r == o.result && State() == o.store && log == old(log) + o.effects
    {
      var resolved := Llvm.DistributionUrl(release, platform);
      if resolved.Failure? {
        return Failure(Resolve(resolved.error));
      }
      var distUrl := resolved.value;
      var cacheKey := CacheKey(release, platform);
      var installPath := Join(env.home, cacheKey);
      r := RestoreOrDownload(env, release, distUrl, cacheKey, installPath);
    }

    /** Uses the cached installation when its digest file matches the published digest, else downloads. */
    method RestoreOrDownload(env: Env, release: string, url: string, key: string, dest: Path)
      returns (r: Result<Path, InstallError>)
      modifies this
      ensures var o := CachedSpec(old(State()), env, release, url, key, dest);
        r == o.result && State() == o.store && log == old(log) + o.effects
    {
      var cacheKeyMatched := Restore(env, key);
      var restored := [RestoreAttempt(key)];
      var checked: seq<Effect> := [];
      if cacheKeyMatched == Some(key) && Llvm.HasSHA256(release) {
        var distHash := PublishedDigest(env, url);
        if distHash.None? {
          log := log + (restored + [FetchDigest(url + ".sha256")]);
          return Failure(DigestUnavailable(url + ".sha256"));
        }
        var sidecar := Join(dest, SidecarName);
        checked := [FetchDigest(url + ".sha256"), ReadSidecar(sidecar)];
        var cacheSHA256 := MissingSidecar;
        if sidecar in files {
          cacheSHA256 := files[sidecar];
        }
        if cacheSHA256 == distHash.value {
          log := log + (restored + checked);
          return Success(dest);
        }
      }
      ghost var log0 := log;
      ghost var o := DownloadSpec(State(), env, release, url, key, dest);
      log := log + (restored + checked);
      r := DownloadAndExtract(env, release, url, key, dest);
      Associative(log0, restored + checked, o.effects);
    }

    /** Restores the entry saved under exactly `key`; a throwing cache service counts as a miss. */
    method Restore(env: Env, key: string) returns (matched: Option<string>)
      modifies this
      ensures matched == RestoreCache(old(State()), env, key)
      ensures cache == old(cache) && log == old(log)
      ensures files == if matched.Some? then old(files) + old(cache)[key] else old(files)
    {
      matched := None;
      if !env.restoreFails && key in cache {
        files := files + cache[key];
        matched := Some(key);
      }
    }

    /** Downloads the archive, checks it against the published digest when there is one, then extracts it. */
    method DownloadAndExtract(env: Env, release: string, url: string, key: string, dest: Path)
      returns (r: Result<Path, InstallError>)
      modifies this
      ensures var o := DownloadSpec(old(State()), env, release, url, key, dest);
        r == o.result && State() == o.store && log == old(log) + o.effects
    {
      var downloaded := env.download(url);
      if downloaded.None? {
        log := log + [Download(url)];
        return Failure(DownloadFailed(url));
      }
      var downloadHash := env.sha256(downloaded.value);
      var checked: seq<Effect> := [];
      if Llvm.HasSHA256(release) {
        checked := [FetchDigest(url + ".sha256")];
        var distHash := PublishedDigest(env, url);
        if distHash.None? {
          log := log + ([Download(url)] + checked);
          return Failure(DigestUnavailable(url + ".sha256"));
        }
        if downloadHash != distHash.value {
          log := log + ([Download(url)] + checked);
          return Failure(DigestMismatch(downloadHash, distHash.value));
        }
      }
      ghost var o := ExtractSpec(State(), env, downloaded.value, downloadHash, url, key, dest);
      log := log + ([Download(url)] + checked);
      r := ExtractAndSave(env, downloaded.value, downloadHash, url, key, dest);
      Associative(old(log), [Download(url)] + checked, o.effects);
    }

    /** Extracts by suffix, writes the digest file and tries to save the directory to the cache. */
    method ExtractAndSave(env: Env, bytes: Bytes, digest: string, url: string, key: string, dest: Path)
      returns (r: Result<Path, InstallError>)
      modifies this
      ensures var o := ExtractSpec(old(State()), env, bytes, digest, url, key, dest);
        r == o.result && State() == o.store && log == old(log) + o.effects
    {
      var kind := ArchiveKindOf(url);
      if kind.None? {
        return Failure(CannotDecompress(url));
      }
      var sidecar := Join(dest, SidecarName);
      if kind.value == Dmg && Under(files, dest) == map[] {
        log := log + [Extract(Dmg, dest)];
        return Failure(WriteFailed(sidecar));
      }
      if kind.value != Dmg {
        files := files + env.unpack(kind.value, bytes, dest);
      }
      files := files[sidecar := digest];
      log := log + [Extract(kind.value, dest), WriteSidecar(sidecar, digest), SaveAttempt(key)];
      if !env.saveFails && key !in cache {
        cache := cache[key := Under(files, dest)];
      }
      return Success(dest);
    }
  }

  // ---------------------------------------------------------------------
  // Properties of the install pipeline
  // ---------------------------------------------------------------------

  /** Some step extracted an archive. */
  predicate Extracted(effects: seq<Effect>) {
    exists e :: e in effects && e.Extract?
  }

  /** Every entry of `before` survives unchanged in `after`, and `key` is the only one that may be new. */
  predicate GrowsOnlyAt(before: map<string, Files>, after: map<string, Files>, key: string) {
    (forall k :: k in before ==> k in after && after[k] == before[k]) &&
    (forall k :: k in after ==> k in before || k == key)
  }

  /** The extractor named by a distribution's extension. */
  function KindOfExtension(ext: string): ArchiveKind {
    if ext == "zip" then Zip
    else if ext == "tar.gz" then TarGz
    else if ext == "dmg" then Dmg
    else TarXz
  }

  /** A URL ending in one of the four extensions gets that extension's extractor, whatever order the suffixes are tried in. */
  lemma DispatchBySuffix(url: string, ext: string)
    requires ext == "zip" || ext == "tar.gz" || ext == "tar.xz" || ext == "dmg"
    requires Text.EndsWith(url, "." + ext)
    ensures ArchiveKindOf(url) == Some(KindOfExtension(ext))
  {
    if ext == "tar.gz" {
      if Text.EndsWith(url, ".zip") {
        Text.EndsWithBoth(url, ".tar.gz", ".zip");
        assert false;
      }
    } else if ext == "tar.xz" {
      if Text.EndsWith(url, ".zip") {
        Text.EndsWithBoth(url, ".tar.xz", ".zip");
        assert false;
      }
      if Text.EndsWith(url, ".tar.gz") {
        Text.EndsWithBoth(url, ".tar.xz", ".tar.gz");
        assert false;
      }
    } else if ext == "dmg" {
      if Text.EndsWith(url, ".zip") {
        Text.EndsWithBoth(url, ".dmg", ".zip");
        assert false;
      }
      if Text.EndsWith(url, ".tar.gz") {
        Text.EndsWithBoth(url, ".tar.gz", ".dmg");
        assert false;
      }
      if Text.EndsWith(url, ".tar.xz") {
        Text.EndsWithBoth(url, ".tar.xz", ".dmg");
        assert false;
      }
    }
  }

  /** Every distribution URL names an extractor, the one for its extension. */
  lemma DispatchFollowsExtension(release: string, platform: string)
    requires Llvm.DistributionUrl(release, platform).Success?
    ensures ArchiveKindOf(Llvm.DistributionUrl(release, platform).value) ==
      Some(KindOfExtension(Llvm.Extension(release, platform)))
  {
    Llvm.UrlShape(release, platform);
    DispatchBySuffix(Llvm.DistributionUrl(release, platform).value, Llvm.Extension(release, platform));
  }

  // The extract step.

  lemma ExtractFacts(s: Store, env: Env, bytes: Bytes, digest: string, url: string, key: string, dest: Path)
    ensures var o := ExtractSpec(s, env, bytes, digest, url, key, dest);
      GrowsOnlyAt(s.cache, o.store.cache, key) &&
      (ArchiveKindOf(url).None? ==> o == Outcome(Failure(CannotDecompress(url)), s, [])) &&
      (ArchiveKindOf(url) == Some(Dmg) && !HasDir(s.files, dest) ==>
        o == Outcome(Failure(WriteFailed(Join(dest, SidecarName))), s, [Extract(Dmg, dest)])) &&
      (ArchiveKindOf(url).Some? && (ArchiveKindOf(url) != Some(Dmg) || HasDir(s.files, dest)) ==>
        var sidecar := Join(dest, SidecarName);
        o.result == Success(dest) && sidecar in o.store.files && o.store.files[sidecar] == digest &&
        o.effects == [Extract(ArchiveKindOf(url).value, dest), WriteSidecar(sidecar, digest), SaveAttempt(key)] &&
        (!env.saveFails && key !in s.cache ==> key in o.store.cache && o.store.cache[key] == Under(o.store.files, dest)))
  {
  }

  /** The extract step's result, steps and files depend neither on the cache nor on whether saving fails. */
  lemma ExtractIgnoresCache(s: Store, cache: map<string, Files>, env: Env, saveFails: bool,
                            bytes: Bytes, digest: string, url: string, key: string, dest: Path)
    ensures var a := ExtractSpec(s, env, bytes, digest, url, key, dest);
      var b := ExtractSpec(s.(cache := cache), env.(saveFails := saveFails), bytes, digest, url, key, dest);
      a.result == b.result && a.effects == b.effects && a.store.files == b.store.files &&
      (saveFails ==> b.store.cache == cache)
  {
  }

  // The download step.

  lemma DownloadFacts(s: Store, env: Env, release: string, url: string, key: string, dest: Path)
    ensures var o := DownloadSpec(s, env, release, url, key, dest);
      o.effects != [] && o.effects[0] == Download(url) &&
      GrowsOnlyAt(s.cache, o.store.cache, key) &&
      (o.result.Success? ==> o.result.value == dest) &&
      !(o.result.Failure? && o.result.error.Resolve?)
  {
    match env.download(url)
    case None =>
    case Some(bytes) =>
      var digest := env.sha256(bytes);
      if VerifyDigest(env, release, url, digest).Verified? {
        ExtractFacts(s, env, bytes, digest, url, key, dest);
      }
  }

  /** The download step extracts only bytes that passed the digest check. */
  lemma DownloadExtractsVerified(s: Store, env: Env, release: string, url: string, key: string, dest: Path)
    ensures Extracted(DownloadSpec(s, env, release, url, key, dest).effects) ==>
      env.download(url).Some? && VerifyDigest(env, release, url, env.sha256(env.download(url).value)).Verified?
  {
    match env.download(url)
    case None =>
    case Some(bytes) =>
      var digest := env.sha256(bytes);
      var v := VerifyDigest(env, release, url, digest);
      if v.Rejected? {
        VerifySteps(env, release, url, digest);
        var effects := DownloadSpec(s, env, release, url, key, dest).effects;
        assert effects == [Download(url)] + v.effects;
        assert forall x :: x in effects ==> x == Download(url) || x in v.effects;
      }
  }

  /** Verifying bytes at most fetches the published digest. */
  lemma VerifySteps(env: Env, release: string, url: string, digest: string)
    ensures forall x :: x in VerifyDigest(env, release, url, digest).effects ==> x == FetchDigest(url + ".sha256")
  {
  }

  /** Without a published digest the download step fetches no digest and can fail only to download. */
  lemma DownloadUnchecked(s: Store, env: Env, release: string, url: string, key: string, dest: Path)
    requires !Llvm.HasSHA256(release) && ArchiveKindOf(url).Some? && ArchiveKindOf(url) != Some(Dmg)
    ensures var o := DownloadSpec(s, env, release, url, key, dest);
      FetchDigest(url + ".sha256") !in o.effects &&
      (o.result == Success(dest) || o.result == Failure(DownloadFailed(url)))
  {
    match env.download(url)
    case None =>
    case Some(bytes) =>
      ExtractFacts(s, env, bytes, env.sha256(bytes), url, key, dest);
  }

  /** The download step's result, steps and files depend neither on the cache nor on whether the cache service fails. */
  lemma DownloadIgnoresCache(s: Store, cache: map<string, Files>, env: Env, restoreFails: bool, saveFails: bool,
                             release: string, url: string, key: string, dest: Path)
    ensures var a := DownloadSpec(s, env, release, url, key, dest);
      var b := DownloadSpec(s.(cache := cache), env.(restoreFails := restoreFails, saveFails := saveFails), release, url, key, dest);
      a.result == b.result && a.effects == b.effects && a.store.files == b.store.files &&
      (saveFails ==> b.store.cache == cache)
  {
    match env.download(url)
    case None =>
    case Some(bytes) =>
      var other := env.(restoreFails := restoreFails, saveFails := saveFails);
      var digest := env.sha256(bytes);
      VerifyIgnoresCache(env, restoreFails, saveFails, release, url, digest);
      match VerifyDigest(env, release, url, digest)
      case Rejected(_, _) =>
      case Verified(_) =>
        assert ExtractSpec(s.(cache := cache), other, bytes, digest, url, key, dest) ==
          ExtractSpec(s.(cache := cache), env.(saveFails := saveFails), bytes, digest, url, key, dest);
        ExtractIgnoresCache(s, cache, env, saveFails, bytes, digest, url, key, dest);
  }

  lemma VerifyIgnoresCache(env: Env, restoreFails: bool, saveFails: bool, release: string, url: string, digest: string)
    ensures VerifyDigest(env.(restoreFails := restoreFails, saveFails := saveFails), release, url, digest) ==
      VerifyDigest(env, release, url, digest)
  {
    assert PublishedDigest(env.(restoreFails := restoreFails, saveFails := saveFails), url) == PublishedDigest(env, url);
  }

  // The cache step.

  lemma CachedFacts(s: Store, env: Env, release: string, url: string, key: string, dest: Path)
    ensures var o := CachedSpec(s, env, release, url, key, dest);
      o.effects != [] && o.effects[0] == RestoreAttempt(key) &&
      GrowsOnlyAt(s.cache, o.store.cache, key) &&
      !(o.result.Failure? && o.result.error.Resolve?)
  {
    var matched := RestoreCache(s, env, key);
    var s1 := if matched.Some? then s.(files := s.files + s.cache[key]) else s;
    match CheckCached(s1.files, env, release, url, matched == Some(key), dest)
    case Keep(_) =>
    case Abort(_, _) =>
    case Redo(_) =>
      DownloadFacts(s1, env, release, url, key, dest);
  }

  // The whole install.

  /** Without a resolvable URL nothing is touched; with one, the first step is the cache restore. */
  lemma NothingHappensUnlessResolved(s: Store, env: Env, release: string, platform: string)
    ensures var o := InstallSpec(s, env, release, platform);
      (o.effects == [] <==> Llvm.DistributionUrl(release, platform).Failure?) &&
      (o.result.Failure? && o.result.error.Resolve? <==> Llvm.DistributionUrl(release, platform).Failure?) &&
      (Llvm.DistributionUrl(release, platform).Failure? ==> o.store == s) &&
      (Llvm.DistributionUrl(release, platform).Success? ==> o.effects[0] == RestoreAttempt(CacheKey(release, platform)))
  {
    match Llvm.DistributionUrl(release, platform)
    case Failure(_) =>
    case Success(url) =>
      CachedFacts(s, env, release, url, CacheKey(release, platform), InstallPath(env, release, platform));
  }

  /** Saving never replaces an entry, and only the install's own key can be added. */
  lemma CacheEntriesNeverChange(s: Store, env: Env, release: string, platform: string)
    ensures GrowsOnlyAt(s.cache, InstallSpec(s, env, release, platform).store.cache, CacheKey(release, platform))
  {
    match Llvm.DistributionUrl(release, platform)
    case Failure(_) =>
    case Success(url) =>
      CachedFacts(s, env, release, url, CacheKey(release, platform), InstallPath(env, release, platform));
  }

  /** The cached installation is kept exactly when its recorded digest is the published one. */
  predicate CacheMatches(s: Store, env: Env, release: string, platform: string, url: string) {
    var key := CacheKey(release, platform);
    !env.restoreFails && key in s.cache && Llvm.HasSHA256(release) &&
    PublishedDigest(env, url).Some? &&
    SidecarText(s.files + s.cache[key], Join(InstallPath(env, release, platform), SidecarName)) == PublishedDigest(env, url).value
  }

  /** The cache step ends without downloading exactly when the check keeps the restored installation. */
  lemma CachedKeepsIff(s: Store, env: Env, release: string, url: string, key: string, dest: Path)
    ensures var matched := RestoreCache(s, env, key);
      var s1 := if matched.Some? then s.(files := s.files + s.cache[key]) else s;
      var o := CachedSpec(s, env, release, url, key, dest);
      o.result.Success? && Download(url) !in o.effects <==>
        CheckCached(s1.files, env, release, url, matched == Some(key), dest).Keep?
  {
    var matched := RestoreCache(s, env, key);
    var s1 := if matched.Some? then s.(files := s.files + s.cache[key]) else s;
    match CheckCached(s1.files, env, release, url, matched == Some(key), dest)
    case Keep(_) =>
      CheckNeverDownloads(s1.files, env, release, url, matched == Some(key), key, dest);
    case Abort(_, _) =>
    case Redo(checked) =>
      DownloadFacts(s1, env, release, url, key, dest);
      assert CachedSpec(s, env, release, url, key, dest).effects ==
        [RestoreAttempt(key)] + checked + DownloadSpec(s1, env, release, url, key, dest).effects;
  }

  /** An install succeeds without downloading exactly when the cache restores a matching installation. */
  lemma CacheHitIff(s: Store, env: Env, release: string, platform: string, url: string)
    requires Llvm.DistributionUrl(release, platform) == Success(url)
    ensures var o := InstallSpec(s, env, release, platform);
      o.result.Success? && Download(url) !in o.effects <==> CacheMatches(s, env, release, platform, url)
  {
    CachedKeepsIff(s, env, release, url, CacheKey(release, platform), InstallPath(env, release, platform));
  }

  /** A restored installation whose recorded digest is the published one ends the cache step. */
  lemma CachedHit(s: Store, env: Env, release: string, url: string, key: string, dest: Path)
    requires RestoreCache(s, env, key).Some? && Llvm.HasSHA256(release) && PublishedDigest(env, url).Some?
    requires SidecarText(s.files + s.cache[key], Join(dest, SidecarName)) == PublishedDigest(env, url).value
    ensures CachedSpec(s, env, release, url, key, dest) ==
      Outcome(Success(dest), s.(files := s.files + s.cache[key]),
              [RestoreAttempt(key)] + [FetchDigest(url + ".sha256"), ReadSidecar(Join(dest, SidecarName))])
  {
    CheckKeeps(s.files + s.cache[key], env, release, url, dest);
  }

  lemma CheckKeeps(files: Files, env: Env, release: string, url: string, dest: Path)
    requires Llvm.HasSHA256(release) && PublishedDigest(env, url).Some?
    requires SidecarText(files, Join(dest, SidecarName)) == PublishedDigest(env, url).value
    ensures CheckCached(files, env, release, url, true, dest) ==
      Keep([FetchDigest(url + ".sha256"), ReadSidecar(Join(dest, SidecarName))])
  {
  }

  /** A matching cached installation is used as restored, after reading the published digest and the recorded one. */
  lemma CacheHitOutcome(s: Store, env: Env, release: string, platform: string, url: string)
    requires Llvm.DistributionUrl(release, platform) == Success(url)
    requires CacheMatches(s, env, release, platform, url)
    ensures var key := CacheKey(release, platform);
      var dest := InstallPath(env, release, platform);
      InstallSpec(s, env, release, platform) ==
        Outcome(Success(dest), s.(files := s.files + s.cache[key]),
                [RestoreAttempt(key), FetchDigest(url + ".sha256"), ReadSidecar(Join(dest, SidecarName))])
  {
    var key := CacheKey(release, platform);
    var dest := InstallPath(env, release, platform);
    CachedHit(s, env, release, url, key, dest);
    ThreeSteps(RestoreAttempt(key), FetchDigest(url + ".sha256"), ReadSidecar(Join(dest, SidecarName)));
  }

  /** Releases without a published digest are downloaded afresh on every run, cache hit or not. */
  lemma UnpublishedDigestAlwaysDownloads(s: Store, env: Env, release: string, platform: string, url: string)
    requires Llvm.DistributionUrl(release, platform) == Success(url)
    requires !Llvm.HasSHA256(release)
    ensures var o := InstallSpec(s, env, release, platform);
      Download(url) in o.effects && FetchDigest(url + ".sha256") !in o.effects &&
      (o.result == Success(InstallPath(env, release, platform)) || o.result == Failure(DownloadFailed(url)))
  {
    var key := CacheKey(release, platform);
    var dest := InstallPath(env, release, platform);
    var s1 := if RestoreCache(s, env, key).Some? then s.(files := s.files + s.cache[key]) else s;
    DispatchFollowsExtension(release, platform);
    Llvm.UnpublishedNotForMac(release, platform);
    assert KindOfExtension(Llvm.Extension(release, platform)) != Dmg;
    CachedUnpublished(s, env, release, url, key, dest);
    var d := DownloadSpec(s1, env, release, url, key, dest);
    DownloadFacts(s1, env, release, url, key, dest);
    DownloadUnchecked(s1, env, release, url, key, dest);
    assert InstallSpec(s, env, release, platform).effects == [RestoreAttempt(key)] + d.effects;
  }

  /** Without a published digest the cache step goes straight to the download step, whatever was restored. */
  lemma CachedUnpublished(s: Store, env: Env, release: string, url: string, key: string, dest: Path)
    requires !Llvm.HasSHA256(release)
    ensures var s1 := if RestoreCache(s, env, key).Some? then s.(files := s.files + s.cache[key]) else s;
      CachedSpec(s, env, release, url, key, dest) == Prepend([RestoreAttempt(key)], DownloadSpec(s1, env, release, url, key, dest))
  {
    var matched := RestoreCache(s, env, key);
    var s1 := if matched.Some? then s.(files := s.files + s.cache[key]) else s;
    assert CheckCached(s1.files, env, release, url, matched == Some(key), dest) == Redo([]);
    assert [RestoreAttempt(key)] + [] == [RestoreAttempt(key)];
  }

  /** The cache step extracts only bytes that passed the digest check. */
  lemma CachedExtractsVerified(s: Store, env: Env, release: string, url: string, key: string, dest: Path)
    ensures Extracted(CachedSpec(s, env, release, url, key, dest).effects) ==>
      env.download(url).Some? && VerifyDigest(env, release, url, env.sha256(env.download(url).value)).Verified?
  {
    var matched := RestoreCache(s, env, key);
    var s1 := if matched.Some? then s.(files := s.files + s.cache[key]) else s;
    var check := CheckCached(s1.files, env, release, url, matched == Some(key), dest);
    var o := CachedSpec(s, env, release, url, key, dest);
    if check.Redo? {
      var d := DownloadSpec(s1, env, release, url, key, dest);
      DownloadExtractsVerified(s1, env, release, url, key, dest);
      assert o.effects == ([RestoreAttempt(key)] + check.effects) + d.effects;
      assert check.effects == [] || check.effects == [FetchDigest(url + ".sha256"), ReadSidecar(Join(dest, SidecarName))];
    } else {
      assert o.effects == [RestoreAttempt(key)] + check.effects;
      CheckNeverDownloads(s1.files, env, release, url, matched == Some(key), key, dest);
    }
  }

  /** Nothing is extracted unless the downloaded bytes hash to the published digest. */
  lemma ExtractionOnlyAfterVerification(s: Store, env: Env, release: string, platform: string, url: string)
    requires Llvm.DistributionUrl(release, platform) == Success(url)
    requires Llvm.HasSHA256(release)
    ensures Extracted(InstallSpec(s, env, release, platform).effects) ==>
      env.download(url).Some? && PublishedDigest(env, url) == Some(env.sha256(env.download(url).value))
  {
    var o := CachedSpec(s, env, release, url, CacheKey(release, platform), InstallPath(env, release, platform));
    assert InstallSpec(s, env, release, platform) == o;
    if Extracted(o.effects) {
      CachedExtractsVerified(s, env, release, url, CacheKey(release, platform), InstallPath(env, release, platform));
      VerifiedIsPublished(env, release, url, env.sha256(env.download(url).value));
    }
  }

  lemma VerifiedIsPublished(env: Env, release: string, url: string, digest: string)
    requires Llvm.HasSHA256(release) && VerifyDigest(env, release, url, digest).Verified?
    ensures PublishedDigest(env, url) == Some(digest)
  {
  }

  /** Bytes that do not hash to the published digest end the cache step, unless the restored installation is kept. */
  lemma CachedMismatch(s: Store, env: Env, release: string, url: string, key: string, dest: Path, bytes: Bytes)
    requires Llvm.HasSHA256(release) && env.download(url) == Some(bytes)
    requires PublishedDigest(env, url).Some? && env.sha256(bytes) != PublishedDigest(env, url).value
    requires !(RestoreCache(s, env, key).Some? &&
               SidecarText(s.files + s.cache[key], Join(dest, SidecarName)) == PublishedDigest(env, url).value)
    ensures var o := CachedSpec(s, env, release, url, key, dest);
      o.result == Failure(DigestMismatch(env.sha256(bytes), PublishedDigest(env, url).value)) &&
      !Extracted(o.effects) &&
      o.store == (if RestoreCache(s, env, key).Some? then s.(files := s.files + s.cache[key]) else s)
  {
    var matched := RestoreCache(s, env, key);
    var s1 := if matched.Some? then s.(files := s.files + s.cache[key]) else s;
    var check := CheckCached(s1.files, env, release, url, matched == Some(key), dest);
    assert check.Redo?;
    var pre := [RestoreAttempt(key)] + check.effects;
    CheckNeverDownloads(s1.files, env, release, url, matched == Some(key), key, dest);
    var tail := [Download(url), FetchDigest(url + ".sha256")];
    NotExtractedConcat(pre, tail);
    DownloadMismatch(s1, env, release, url, key, dest, bytes);
    assert CachedSpec(s, env, release, url, key, dest) ==
      Outcome(Failure(DigestMismatch(env.sha256(bytes), PublishedDigest(env, url).value)), s1, pre + tail);
  }

  /** Restoring and checking a cached installation neither download nor extract. */
  lemma CheckNeverDownloads(files: Files, env: Env, release: string, url: string, matched: bool, key: string, dest: Path)
    ensures var pre := [RestoreAttempt(key)] + CheckCached(files, env, release, url, matched, dest).effects;
      !Extracted(pre) && Download(url) !in pre
  {
    CheckSteps(files, env, release, url, matched, dest);
    OnlyChecks(key, CheckCached(files, env, release, url, matched, dest).effects, url, dest);
  }

  lemma OnlyChecks(key: string, checked: seq<Effect>, url: string, dest: Path)
    requires forall x :: x in checked ==> x == FetchDigest(url + ".sha256") || x == ReadSidecar(Join(dest, SidecarName))
    ensures !Extracted([RestoreAttempt(key)] + checked) && Download(url) !in [RestoreAttempt(key)] + checked
  {
    var pre := [RestoreAttempt(key)] + checked;
    assert forall x :: x in pre ==> x == RestoreAttempt(key) || x in checked;
  }

  /** Checking a restored installation only fetches the published digest and reads the digest file. */
  lemma CheckSteps(files: Files, env: Env, release: string, url: string, matched: bool, dest: Path)
    ensures forall x :: x in CheckCached(files, env, release, url, matched, dest).effects ==>
      x == FetchDigest(url + ".sha256") || x == ReadSidecar(Join(dest, SidecarName))
  {
    var checked := CheckCached(files, env, release, url, matched, dest).effects;
    if matched && Llvm.HasSHA256(release) {
      if PublishedDigest(env, url).None? {
        assert checked == [FetchDigest(url + ".sha256")];
      } else {
        assert checked == [FetchDigest(url + ".sha256"), ReadSidecar(Join(dest, SidecarName))];
      }
    }
  }

  lemma NotExtractedConcat(a: seq<Effect>, b: seq<Effect>)
    requires !Extracted(a) && !Extracted(b)
    ensures !Extracted(a + b)
  {
  }

  /** Bytes that do not hash to the published digest end the download step. */
  lemma DownloadMismatch(s: Store, env: Env, release: string, url: string, key: string, dest: Path, bytes: Bytes)
    requires Llvm.HasSHA256(release) && env.download(url) == Some(bytes)
    requires PublishedDigest(env, url).Some? && env.sha256(bytes) != PublishedDigest(env, url).value
    ensures DownloadSpec(s, env, release, url, key, dest) ==
      Outcome(Failure(DigestMismatch(env.sha256(bytes), PublishedDigest(env, url).value)), s,
              [Download(url), FetchDigest(url + ".sha256")])
  {
  }

  /** A digest mismatch stops the install before anything is extracted, written or saved. */
  lemma MismatchStopsInstall(s: Store, env: Env, release: string, platform: string, url: string, bytes: Bytes)
    requires Llvm.DistributionUrl(release, platform) == Success(url)
    requires Llvm.HasSHA256(release) && env.download(url) == Some(bytes)
    requires PublishedDigest(env, url).Some? && env.sha256(bytes) != PublishedDigest(env, url).value
    requires !CacheMatches(s, env, release, platform, url)
    ensures var o := InstallSpec(s, env, release, platform);
      var key := CacheKey(release, platform);
      o.result == Failure(DigestMismatch(env.sha256(bytes), PublishedDigest(env, url).value)) &&
      !Extracted(o.effects) && o.store.cache == s.cache &&
      o.store.files == (if RestoreCache(s, env, key).Some? then s.files + s.cache[key] else s.files)
  {
    CachedMismatch(s, env, release, url, CacheKey(release, platform), InstallPath(env, release, platform), bytes);
  }

  /** A fresh install records the digest of what it downloaded, and does so before saving to the cache. */
  lemma FreshInstallRecordsDigest(s: Store, env: Env, release: string, platform: string, url: string)
    requires Llvm.DistributionUrl(release, platform) == Success(url)
    requires InstallSpec(s, env, release, platform).result.Success?
    requires Download(url) in InstallSpec(s, env, release, platform).effects
    ensures env.download(url).Some?
    ensures var o := InstallSpec(s, env, release, platform);
      var key := CacheKey(release, platform);
      var dest := InstallPath(env, release, platform);
      var sidecar := Join(dest, SidecarName);
      var digest := env.sha256(env.download(url).value);
      o.result == Success(dest) && sidecar in o.store.files && o.store.files[sidecar] == digest &&
      |o.effects| >= 3 &&
      o.effects[|o.effects| - 3..] ==
        [Extract(KindOfExtension(Llvm.Extension(release, platform)), dest), WriteSidecar(sidecar, digest), SaveAttempt(key)] &&
      (!env.saveFails && key !in s.cache ==> key in o.store.cache && o.store.cache[key] == Under(o.store.files, dest))
  {
    DispatchFollowsExtension(release, platform);
    CachedFresh(s, env, release, url, CacheKey(release, platform), InstallPath(env, release, platform));
  }

  /** A download step that succeeds ends by extracting, recording the digest and saving. */
  lemma DownloadFresh(s: Store, env: Env, release: string, url: string, key: string, dest: Path)
    requires ArchiveKindOf(url).Some?
    requires DownloadSpec(s, env, release, url, key, dest).result.Success?
    ensures env.download(url).Some?
    ensures var o := DownloadSpec(s, env, release, url, key, dest);
      var sidecar := Join(dest, SidecarName);
      var digest := env.sha256(env.download(url).value);
      o.result == Success(dest) && sidecar in o.store.files && o.store.files[sidecar] == digest &&
      |o.effects| >= 3 &&
      o.effects[|o.effects| - 3..] == [Extract(ArchiveKindOf(url).value, dest), WriteSidecar(sidecar, digest), SaveAttempt(key)] &&
      (!env.saveFails && key !in s.cache ==> key in o.store.cache && o.store.cache[key] == Under(o.store.files, dest))
  {
    assert env.download(url).Some?;
    var bytes := env.download(url).value;
    var digest := env.sha256(bytes);
    var v := VerifyDigest(env, release, url, digest);
    assert v.Verified?;
    var e := ExtractSpec(s, env, bytes, digest, url, key, dest);
    ExtractFacts(s, env, bytes, digest, url, key, dest);
    var o := DownloadSpec(s, env, release, url, key, dest);
    assert o == Prepend([Download(url)] + v.effects, e);
    assert o.effects[|o.effects| - 3..] == e.effects;
  }

  /** A cache step that succeeds after downloading ends by extracting, recording the digest and saving. */
  lemma CachedFresh(s: Store, env: Env, release: string, url: string, key: string, dest: Path)
    requires ArchiveKindOf(url).Some?
    requires CachedSpec(s, env, release, url, key, dest).result.Success?
    requires Download(url) in CachedSpec(s, env, release, url, key, dest).effects
    ensures env.download(url).Some?
    ensures var o := CachedSpec(s, env, release, url, key, dest);
      var sidecar := Join(dest, SidecarName);
      var digest := env.sha256(env.download(url).value);
      o.result == Success(dest) && sidecar in o.store.files && o.store.files[sidecar] == digest &&
      |o.effects| >= 3 &&
      o.effects[|o.effects| - 3..] == [Extract(ArchiveKindOf(url).value, dest), WriteSidecar(sidecar, digest), SaveAttempt(key)] &&
      (!env.saveFails && key !in s.cache ==> key in o.store.cache && o.store.cache[key] == Under(o.store.files, dest))
  {
    var s1 := if RestoreCache(s, env, key).Some? then s.(files := s.files + s.cache[key]) else s;
    var pre := CachedRedoes(s, env, release, url, key, dest);
    var d := DownloadSpec(s1, env, release, url, key, dest);
    DownloadFresh(s1, env, release, url, key, dest);
    SameSuffix(pre, d.effects);
  }

  lemma SameSuffix(pre: seq<Effect>, effects: seq<Effect>)
    requires |effects| >= 3
    ensures (pre + effects)[|pre + effects| - 3..] == effects[|effects| - 3..]
  {
  }

  /** A cache step that succeeds after downloading went on to the download step, after restoring and checking. */
  lemma CachedRedoes(s: Store, env: Env, release: string, url: string, key: string, dest: Path) returns (pre: seq<Effect>)
    requires CachedSpec(s, env, release, url, key, dest).result.Success?
    requires Download(url) in CachedSpec(s, env, release, url, key, dest).effects
    ensures var s1 := if RestoreCache(s, env, key).Some? then s.(files := s.files + s.cache[key]) else s;
      CachedSpec(s, env, release, url, key, dest) == Prepend(pre, DownloadSpec(s1, env, release, url, key, dest))
  {
    var matched := RestoreCache(s, env, key);
    var s1 := if matched.Some? then s.(files := s.files + s.cache[key]) else s;
    var check := CheckCached(s1.files, env, release, url, matched == Some(key), dest);
    CachedKeepsIff(s, env, release, url, key, dest);
    assert check.Redo?;
    pre := [RestoreAttempt(key)] + check.effects;
  }

  /** A failing save loses only the cache entry: the result, the files and the steps are those of a good save. */
  lemma SaveFaultNotFatal(s: Store, env: Env, release: string, platform: string)
    ensures var good := InstallSpec(s, env, release, platform);
      var bad := InstallSpec(s, env.(saveFails := true), release, platform);
      bad.result == good.result && bad.effects == good.effects && bad.store.files == good.store.files &&
      bad.store.cache == s.cache
  {
    match Llvm.DistributionUrl(release, platform)
    case Failure(_) =>
    case Success(url) =>
      CachedSaveFault(s, env, release, url, CacheKey(release, platform), InstallPath(env, release, platform));
  }

  /** The cache check reads no part of the environment that concerns saving. */
  lemma CheckIgnoresSave(files: Files, env: Env, release: string, url: string, matched: bool, dest: Path)
    ensures CheckCached(files, env.(saveFails := true), release, url, matched, dest) ==
      CheckCached(files, env, release, url, matched, dest)
  {
    assert PublishedDigest(env.(saveFails := true), url) == PublishedDigest(env, url);
  }

  /** A failing save changes nothing about the cache step except that the cache keeps its entries. */
  lemma CachedSaveFault(s: Store, env: Env, release: string, url: string, key: string, dest: Path)
    ensures var good := CachedSpec(s, env, release, url, key, dest);
      var bad := CachedSpec(s, env.(saveFails := true), release, url, key, dest);
      bad.result == good.result && bad.effects == good.effects && bad.store.files == good.store.files &&
      bad.store.cache == s.cache
  {
    var bad := env.(saveFails := true);
    var matched := RestoreCache(s, env, key);
    assert RestoreCache(s, bad, key) == matched;
    var s1 := if matched.Some? then s.(files := s.files + s.cache[key]) else s;
    var check := CheckCached(s1.files, env, release, url, matched == Some(key), dest);
    CheckIgnoresSave(s1.files, env, release, url, matched == Some(key), dest);
    if check.Redo? {
      assert env.(restoreFails := env.restoreFails, saveFails := true) == bad;
      assert s1.(cache := s1.cache) == s1;
      DownloadIgnoresCache(s1, s1.cache, env, env.restoreFails, true, release, url, key, dest);
      var a := DownloadSpec(s1, env, release, url, key, dest);
      var b := DownloadSpec(s1, bad, release, url, key, dest);
      assert CachedSpec(s, env, release, url, key, dest).effects == ([RestoreAttempt(key)] + check.effects) + a.effects;
      assert CachedSpec(s, bad, release, url, key, dest).effects == ([RestoreAttempt(key)] + check.effects) + b.effects;
    }
  }

  /** A failing restore behaves as a cache miss. */
  lemma RestoreFaultIsMiss(s: Store, env: Env, release: string, platform: string)
    ensures var key := CacheKey(release, platform);
      var faulty := InstallSpec(s, env.(restoreFails := true), release, platform);
      var miss := InstallSpec(s.(cache := s.cache - {key}), env, release, platform);
      faulty.result == miss.result && faulty.effects == miss.effects && faulty.store.files == miss.store.files
  {
    match Llvm.DistributionUrl(release, platform)
    case Failure(_) =>
    case Success(url) =>
      var key := CacheKey(release, platform);
      var dest := InstallPath(env, release, platform);
      DownloadIgnoresCache(s.(cache := s.cache - {key}), s.cache, env, true, env.saveFails, release, url, key, dest);
  }

  /**
   * A disk-image install succeeds only where the installation directory
   * already exists once the cache has been restored: nothing else creates it
   * before the digest file is written.
   */
  lemma DiskImageNeedsDirectory(s: Store, env: Env, release: string, platform: string, url: string)
    requires Llvm.DistributionUrl(release, platform) == Success(url)
    requires Llvm.Extension(release, platform) == "dmg"
    ensures var key := CacheKey(release, platform);
      var restored := if RestoreCache(s, env, key).Some? then s.files + s.cache[key] else s.files;
      InstallSpec(s, env, release, platform).result.Success? ==> HasDir(restored, InstallPath(env, release, platform))
  {
    DispatchFollowsExtension(release, platform);
    CachedDiskImage(s, env, release, url, CacheKey(release, platform), InstallPath(env, release, platform));
  }

  lemma CachedDiskImage(s: Store, env: Env, release: string, url: string, key: string, dest: Path)
    requires ArchiveKindOf(url) == Some(Dmg)
    ensures var restored := if RestoreCache(s, env, key).Some? then s.files + s.cache[key] else s.files;
      CachedSpec(s, env, release, url, key, dest).result.Success? ==> HasDir(restored, dest)
  {
    var matched := RestoreCache(s, env, key);
    var s1 := if matched.Some? then s.(files := s.files + s.cache[key]) else s;
    var check := CheckCached(s1.files, env, release, url, matched == Some(key), dest);
    if check.Keep? {
      KeptHasSidecar(s1.files, env, release, url, matched == Some(key), dest);
    } else if check.Redo? {
      DownloadDiskImage(s1, env, release, url, key, dest);
    }
  }

  /** A kept installation has its digest file: the placeholder text contains a space, a published digest never does. */
  lemma KeptHasSidecar(files: Files, env: Env, release: string, url: string, matched: bool, dest: Path)
    requires CheckCached(files, env, release, url, matched, dest).Keep?
    ensures HasDir(files, dest)
  {
    KeptMatches(files, env, release, url, matched, dest);
    PublishedHasNoSpace(env, url);
    SidecarPresent(files, Join(dest, SidecarName), PublishedDigest(env, url).value);
    SidecarBelow(files, dest);
  }

  lemma KeptMatches(files: Files, env: Env, release: string, url: string, matched: bool, dest: Path)
    requires CheckCached(files, env, release, url, matched, dest).Keep?
    ensures PublishedDigest(env, url).Some?
    ensures SidecarText(files, Join(dest, SidecarName)) == PublishedDigest(env, url).value
  {
  }

  lemma PublishedHasNoSpace(env: Env, url: string)
    requires PublishedDigest(env, url).Some?
    ensures ' ' !in PublishedDigest(env, url).value
  {
    var body := env.fetch(url + ".sha256").value;
    assert PublishedDigest(env, url) == Some(Llvm.DigestFromResponse(body));
    Llvm.DigestHasNoSpace(body);
  }

  /** A digest file whose text is a published digest exists: the placeholder contains a space, a published digest never does. */
  lemma SidecarPresent(files: Files, sidecar: Path, digest: string)
    requires ' ' !in digest && SidecarText(files, sidecar) == digest
    ensures sidecar in files
  {
    assert MissingSidecar[6] == ' ';
  }

  lemma SidecarBelow(files: Files, dest: Path)
    requires Join(dest, SidecarName) in files
    ensures HasDir(files, dest)
  {
    Text.StartsWithConcat(dest + "/", SidecarName);
    assert Join(dest, SidecarName) in Under(files, dest);
  }

  lemma DownloadDiskImage(s: Store, env: Env, release: string, url: string, key: string, dest: Path)
    requires ArchiveKindOf(url) == Some(Dmg)
    ensures DownloadSpec(s, env, release, url, key, dest).result.Success? ==> HasDir(s.files, dest)
  {
    match env.download(url)
    case None =>
    case Some(bytes) =>
      ExtractFacts(s, env, bytes, env.sha256(bytes), url, key, dest);
  }

  /**
   * On a machine without the installation directory and without a cache
   * entry, a disk-image install downloads and verifies the archive and then
   * fails writing the digest file, leaving the cache and the files as they were.
   */
  lemma FreshDiskImageFails(s: Store, env: Env, release: string, platform: string, url: string)
    requires Llvm.DistributionUrl(release, platform) == Success(url)
    requires Llvm.Extension(release, platform) == "dmg"
    requires RestoreCache(s, env, CacheKey(release, platform)).None?
    requires !HasDir(s.files, InstallPath(env, release, platform))
    requires env.download(url).Some?
    requires VerifyDigest(env, release, url, env.sha256(env.download(url).value)).Verified?
    ensures var o := InstallSpec(s, env, release, platform);
      o.result == Failure(WriteFailed(Join(InstallPath(env, release, platform), SidecarName))) &&
      o.store == s && Download(url) in o.effects
  {
    var key := CacheKey(release, platform);
    var dest := InstallPath(env, release, platform);
    var bytes := env.download(url).value;
    DispatchFollowsExtension(release, platform);
    assert CheckCached(s.files, env, release, url, false, dest) == Redo([]);
    ExtractFacts(s, env, bytes, env.sha256(bytes), url, key, dest);
  }

  /**
   * The normal path succeeds: when the archive downloads and passes the
   * digest check, an install returns the installation path, whether the
   * restored files are kept or replaced.  A disk image needs the
   * installation directory to exist once the cache has been restored.
   */
  lemma VerifiedDownloadSucceeds(s: Store, env: Env, release: string, platform: string, url: string)
    requires Llvm.DistributionUrl(release, platform) == Success(url)
    requires env.download(url).Some?
    requires VerifyDigest(env, release, url, env.sha256(env.download(url).value)).Verified?
    requires var key := CacheKey(release, platform);
      var restored := if RestoreCache(s, env, key).Some? then s.files + s.cache[key] else s.files;
      Llvm.Extension(release, platform) != "dmg" || HasDir(restored, InstallPath(env, release, platform))
    ensures InstallSpec(s, env, release, platform).result == Success(InstallPath(env, release, platform))
  {
    var key := CacheKey(release, platform);
    var dest := InstallPath(env, release, platform);
    DispatchFollowsExtension(release, platform);
    assert InstallSpec(s, env, release, platform) == CachedSpec(s, env, release, url, key, dest);
    CachedVerifiedSucceeds(s, env, release, url, key, dest);
  }

  /** A verified download ends the cache step successfully, and so does a kept installation. */
  lemma CachedVerifiedSucceeds(s: Store, env: Env, release: string, url: string, key: string, dest: Path)
    requires ArchiveKindOf(url).Some?
    requires env.download(url).Some?
    requires VerifyDigest(env, release, url, env.sha256(env.download(url).value)).Verified?
    requires var restored := if RestoreCache(s, env, key).Some? then s.files + s.cache[key] else s.files;
      ArchiveKindOf(url) != Some(Dmg) || HasDir(restored, dest)
    ensures CachedSpec(s, env, release, url, key, dest).result == Success(dest)
  {
    var matched := RestoreCache(s, env, key);
    var s1 := if matched.Some? then s.(files := s.files + s.cache[key]) else s;
    if CheckCached(s1.files, env, release, url, matched == Some(key), dest).Redo? {
      DownloadVerifiedSucceeds(s1, env, release, url, key, dest);
    }
  }

  lemma DownloadVerifiedSucceeds(s: Store, env: Env, release: string, url: string, key: string, dest: Path)
    requires ArchiveKindOf(url).Some? && (ArchiveKindOf(url) != Some(Dmg) || HasDir(s.files, dest))
    requires env.download(url).Some?
    requires VerifyDigest(env, release, url, env.sha256(env.download(url).value)).Verified?
    ensures DownloadSpec(s, env, release, url, key, dest).result == Success(dest)
  {
    var bytes := env.download(url).value;
    ExtractFacts(s, env, bytes, env.sha256(bytes), url, key, dest);
  }

  /** What one run saves, the next run restores and accepts without downloading. */
  lemma CacheRoundTrip(s: Store, env: Env, release: string, platform: string, url: string)
    requires Llvm.DistributionUrl(release, platform) == Success(url)
    requires Llvm.HasSHA256(release) && !env.restoreFails && !env.saveFails
    requires CacheKey(release, platform) !in s.cache
    requires InstallSpec(s, env, release, platform).result.Success?
    ensures var second := InstallSpec(InstallSpec(s, env, release, platform).store, env, release, platform);
      second.result == Success(InstallPath(env, release, platform)) && Download(url) !in second.effects
  {
    var key := CacheKey(release, platform);
    var dest := InstallPath(env, release, platform);
    var sidecar := Join(dest, SidecarName);
    var first := InstallSpec(s, env, release, platform);
    CacheHitIff(s, env, release, platform, url);
    FreshInstallRecordsDigest(s, env, release, platform, url);
    assert first.effects[|first.effects| - 3] in first.effects;
    ExtractionOnlyAfterVerification(s, env, release, platform, url);
    SavedInstallHits(first.store, env, release, platform, url, env.sha256(env.download(url).value));
  }

  /** A store whose cache entry holds the installation with the published digest serves the next install. */
  lemma SavedInstallHits(s: Store, env: Env, release: string, platform: string, url: string, digest: string)
    requires Llvm.DistributionUrl(release, platform) == Success(url)
    requires Llvm.HasSHA256(release) && !env.restoreFails && PublishedDigest(env, url) == Some(digest)
    requires var key := CacheKey(release, platform);
      var sidecar := Join(InstallPath(env, release, platform), SidecarName);
      key in s.cache && s.cache[key] == Under(s.files, InstallPath(env, release, platform)) &&
      sidecar in s.files && s.files[sidecar] == digest
    ensures var o := InstallSpec(s, env, release, platform);
      o.result == Success(InstallPath(env, release, platform)) && Download(url) !in o.effects
  {
    var key := CacheKey(release, platform);
    var dest := InstallPath(env, release, platform);
    var sidecar := Join(dest, SidecarName);
    Text.StartsWithConcat(dest + "/", SidecarName);
    assert sidecar in Under(s.files, dest);
    assert SidecarText(s.files + s.cache[key], sidecar) == digest;
    CachedHit(s, env, release, url, key, dest);
    assert InstallSpec(s, env, release, platform) == CachedSpec(s, env, release, url, key, dest);
    HitDownloadsNothing(key, url, sidecar);
  }

  lemma HitDownloadsNothing(key: string, url: string, sidecar: Path)
    ensures Download(url) !in [RestoreAttempt(key)] + [FetchDigest(url + ".sha256"), ReadSidecar(sidecar)]
  {
    assert [RestoreAttempt(key)] + [FetchDigest(url + ".sha256"), ReadSidecar(sidecar)] ==
      [RestoreAttempt(key), FetchDigest(url + ".sha256"), ReadSidecar(sidecar)];
  }

  /** A resolvable release is a plain `MAJOR.MINOR.PATCH` string, so it has no dash. */
  lemma ResolvedReleaseHasNoDash(release: string, platform: string)
    requires Llvm.DistributionUrl(release, platform).Success?
    ensures '-' !in release
  {
    Llvm.ResolvesExactly(release, platform);
    var i :| 0 <= i < |Llvm.Catalog| && Llvm.Catalog[i].id == release;
    Llvm.RenderIsId(i);
    var v := Llvm.CatalogVersions[i];
    Semver.NoSeparatorInNumber(Semver.Decimal(v.major), '-');
    Semver.NoSeparatorInNumber(Semver.Decimal(v.minor), '-');
    Semver.NoSeparatorInNumber(Semver.Decimal(v.patch), '-');
  }

  /** Two dash-free releases joined to any platforms after a common head give different keys unless both parts agree. */
  lemma KeyPartsAgree(head: string, r1: string, p1: string, r2: string, p2: string)
    requires '-' !in r1 && '-' !in r2
    requires head + r1 + "-" + p1 == head + r2 + "-" + p2
    ensures r1 == r2 && p1 == p2
  {
    assert (head + r1 + "-" + p1)[|head|..] == r1 + "-" + p1;
    assert (head + r2 + "-" + p2)[|head|..] == r2 + "-" + p2;
    Semver.FirstFieldOfJoin(r1, '-', p1);
    Semver.FirstFieldOfJoin(r2, '-', p2);
    assert (r1 + "-" + p1)[|r1| + 1..] == p1;
    assert (r2 + "-" + p2)[|r2| + 1..] == p2;
  }

  /** Different releases or platforms never share a cache entry. */
  lemma CacheKeysDistinct(r1: string, p1: string, r2: string, p2: string)
    requires Llvm.DistributionUrl(r1, p1).Success? && Llvm.DistributionUrl(r2, p2).Success?
    requires CacheKey(r1, p1) == CacheKey(r2, p2)
    ensures r1 == r2 && p1 == p2
  {
    ResolvedReleaseHasNoDash(r1, p1);
    ResolvedReleaseHasNoDash(r2, p2);
    KeyPartsAgree(ToolName + "-", r1, p1, r2, p2);
  }
}
