// The update check (src/updater.rs): the release tag is normalised into a
// version label, compared with the running version, and when it is newer
// the download for the current platform is picked from the release assets.
// The HTTP fetch and the semver crate are passed in: the fetched release as
// a value, version parsing as a function and its order as a relation.
module Updater {
  import opened Wrappers
  import Text

  datatype GithubAsset = GithubAsset(name: string, browserDownloadUrl: string)

  datatype GithubRelease = GithubRelease(tagName: string, htmlUrl: string, assets: seq<GithubAsset>)

  datatype UpdateCheck =
    | UpToDate(latestVersion: string)
    | UpdateAvailable(latestVersion: string, downloadUrl: string)

  datatype Platform = MacOs | Windows | Linux | OtherPlatform

  function StripPrefix(s: string, p: string): (r: Option<string>)
    ensures r.Some? <==> Text.StartsWith(s, p)
    ensures r.Some? ==> s == p + r.value
  {
    if Text.StartsWith(s, p) then
      assert s == s[..|p|] + s[|p|..];
      Some(s[|p|..])
    else None
  }

  predicate IsV(c: char)
  {
    c == 'v' || c == 'V'
  }

  /** `trim_start_matches(['v', 'V'])`: every leading `v` or `V` dropped. */
  function TrimLeadingV(s: string): (r: string)
    ensures |r| <= |s| && r == s[|s| - |r|..]
    ensures r != [] ==> !IsV(r[0])
    ensures forall i :: 0 <= i < |s| - |r| ==> IsV(s[i])
  {
    if s != [] && IsV(s[0]) then TrimLeadingV(s[1..]) else s
  }

  /** `normalize_version_label`: trimmed, without a `refs/tags/` prefix,
      trimmed again, without leading `v`/`V`. */
  function NormalizeVersionLabel(raw: string): (r: string)
    ensures |r| <= |raw|
    ensures r != [] ==> !IsV(r[0]) && !Text.IsWhitespace(r[|r| - 1])
  {
    var trimmed := Text.Trim(raw);
    var noRef := Text.Trim(match StripPrefix(trimmed, "refs/tags/") case Some(rest) => rest case None => trimmed);
    var r := TrimLeadingV(noRef);
    assert r != [] ==> r[|r| - 1] == noRef[|noRef| - 1];
    r
  }

  lemma TrimUntrimmed(s: string)
    requires s != [] && !Text.IsWhitespace(s[0]) && !Text.IsWhitespace(s[|s| - 1])
    ensures Text.Trim(s) == s
  {
  }

  /** An already normal label is kept. */
  lemma NormalLabelKept(s: string)
    requires s != [] && !IsV(s[0]) && !Text.IsWhitespace(s[0]) && !Text.IsWhitespace(s[|s| - 1])
    requires !Text.StartsWith(s, "refs/tags/")
    ensures NormalizeVersionLabel(s) == s
  {
    TrimUntrimmed(s);
  }

  /** A `v` or `V` in front of a normal label is dropped. */
  lemma LeadingVDropped(t: string)
    requires |t| >= 2 && IsV(t[0]) && !IsV(t[1]) && !Text.IsWhitespace(t[|t| - 1])
    ensures NormalizeVersionLabel(t) == t[1..]
  {
    TrimUntrimmed(t);
    assert !Text.StartsWith(t, "refs/tags/") by { assert t[0] != 'r'; }
  }

  /** The label tests of src/updater.rs. */
  lemma NormalizeLowerV()
    ensures NormalizeVersionLabel("v0.3.0") == "0.3.0"
  {
    LeadingVDropped("v0.3.0");
  }

  lemma NormalizeUpperV()
    ensures NormalizeVersionLabel("V1.2.3") == "1.2.3"
  {
    LeadingVDropped("V1.2.3");
  }

  lemma NormalizePlain()
    ensures NormalizeVersionLabel("0.4.0") == "0.4.0"
  {
    assert "0.4.0"[0] != 'r';
    NormalLabelKept("0.4.0");
  }

  /** A tag reference loses its `refs/tags/` prefix and the `v` after it. */
  lemma RefTagDropped(t: string)
    requires |t| >= 12 && t[..10] == "refs/tags/" && IsV(t[10]) && !IsV(t[11]) && !Text.IsWhitespace(t[|t| - 1])
    ensures NormalizeVersionLabel(t) == t[11..]
  {
    TrimUntrimmed(t);
    assert StripPrefix(t, "refs/tags/") == Some(t[10..]);
    TrimUntrimmed(t[10..]);
    assert TrimLeadingV(t[10..]) == t[10..][1..];
    assert t[10..][1..] == t[11..];
  }

  lemma NormalizeRefTag()
    ensures NormalizeVersionLabel("refs/tags/v2.0.1") == "2.0.1"
  {
    RefTagDropped("refs/tags/v2.0.1");
  }

  function Lower(name: string): string
  {
    Text.ToAsciiLowercase(name)
  }

  /** `is_macos_dmg`. */
  predicate IsMacosDmg(name: string)
  {
    var n := Lower(name);
    (Text.StartsWith(n, "macos-") || Text.Contains(n, "macos")) && Text.EndsWith(n, ".dmg")
  }

  /** `is_macos_app_zip`. */
  predicate IsMacosAppZip(name: string)
  {
    var n := Lower(name);
    (Text.StartsWith(n, "macos-") || Text.Contains(n, "macos")) && Text.EndsWith(n, ".app.zip")
  }

  /** `is_windows_installer`. */
  predicate IsWindowsInstaller(name: string)
  {
    var n := Lower(name);
    (Text.StartsWith(n, "windows-") || Text.Contains(n, "windows")) && Text.EndsWith(n, ".exe")
  }

  /** `is_linux_installer`. */
  predicate IsLinuxInstaller(name: string)
  {
    var n := Lower(name);
    Text.EndsWith(n, ".appimage") || Text.EndsWith(n, ".deb") || Text.EndsWith(n, ".rpm") || Text.EndsWith(n, ".tar.gz")
  }

  /** The `starts_with("x-")` test adds nothing to `contains("x")`. */
  lemma PrefixTestRedundant(n: string, x: string)
    ensures Text.StartsWith(n, x + "-") || Text.Contains(n, x) <==> Text.Contains(n, x)
  {
    if Text.StartsWith(n, x + "-") {
      Text.StartsWithPrefix(n, x, "-");
      Text.StartsWithContains(n, x);
    }
  }

  lemma AssetPredicatesSimplified(name: string)
    ensures IsMacosDmg(name) <==> Text.Contains(Lower(name), "macos") && Text.EndsWith(Lower(name), ".dmg")
    ensures IsMacosAppZip(name) <==> Text.Contains(Lower(name), "macos") && Text.EndsWith(Lower(name), ".app.zip")
    ensures IsWindowsInstaller(name) <==> Text.Contains(Lower(name), "windows") && Text.EndsWith(Lower(name), ".exe")
  {
    PrefixTestRedundant(Lower(name), "macos");
    PrefixTestRedundant(Lower(name), "windows");
  }

  /** The predicates ignore letter case. */
  lemma AssetPredicatesIgnoreCase(name: string)
    ensures IsMacosDmg(Lower(name)) == IsMacosDmg(name)
    ensures IsMacosAppZip(Lower(name)) == IsMacosAppZip(name)
    ensures IsWindowsInstaller(Lower(name)) == IsWindowsInstaller(name)
    ensures IsLinuxInstaller(Lower(name)) == IsLinuxInstaller(name)
  {
    Text.LowercaseIdempotent(name);
  }

  /** `Iterator::find` over the assets by name. */
  function FindAsset(assets: seq<GithubAsset>, p: string -> bool): (r: Option<GithubAsset>)
    ensures r.Some? ==> r.value in assets && p(r.value.name)
    ensures r.Some? ==> exists i :: 0 <= i < |assets| && assets[i] == r.value
                          && forall j :: 0 <= j < i ==> !p(assets[j].name)
    ensures r.None? <==> forall i :: 0 <= i < |assets| ==> !p(assets[i].name)
  {
    if assets == [] then None
    else if p(assets[0].name) then Some(assets[0])
    else
      var r := FindAsset(assets[1..], p);
      if r.Some? then
        var i :| 0 <= i < |assets[1..]| && assets[1..][i] == r.value
                 && forall j :: 0 <= j < i ==> !p(assets[1..][j].name);
        assert assets[i + 1] == r.value;
        r
      else r
  }

  /** `select_macos_asset`: the first disk image, else the first zipped app. */
  function SelectMacosAsset(assets: seq<GithubAsset>): (r: Option<GithubAsset>)
    ensures FindAsset(assets, IsMacosDmg).Some? ==> r == FindAsset(assets, IsMacosDmg)
    ensures FindAsset(assets, IsMacosDmg).None? ==> r == FindAsset(assets, IsMacosAppZip)
    ensures r.Some? ==> r.value in assets && (IsMacosDmg(r.value.name) || IsMacosAppZip(r.value.name))
  {
    match FindAsset(assets, IsMacosDmg)
    case Some(a) => Some(a)
    case None => FindAsset(assets, IsMacosAppZip)
  }

  function SelectWindowsAsset(assets: seq<GithubAsset>): (r: Option<GithubAsset>)
    ensures r.Some? ==> r.value in assets && IsWindowsInstaller(r.value.name)
    ensures r.None? <==> forall a :: a in assets ==> !IsWindowsInstaller(a.name)
  {
    FindAsset(assets, IsWindowsInstaller)
  }

  function SelectLinuxAsset(assets: seq<GithubAsset>): (r: Option<GithubAsset>)
    ensures r.Some? ==> r.value in assets && IsLinuxInstaller(r.value.name)
    ensures r.None? <==> forall a :: a in assets ==> !IsLinuxInstaller(a.name)
  {
    FindAsset(assets, IsLinuxInstaller)
  }

  /** `select_asset_for_current_platform`. */
  function SelectAssetForPlatform(platform: Platform, assets: seq<GithubAsset>): (r: Option<GithubAsset>)
    ensures platform == OtherPlatform ==> r.None?
    ensures r.Some? ==> r.value in assets
  {
    match platform
    case MacOs => SelectMacosAsset(assets)
    case Windows => SelectWindowsAsset(assets)
    case Linux => SelectLinuxAsset(assets)
    case OtherPlatform => None
  }

  /** The asset list of the selection test. */
  const TEST_ASSETS: seq<GithubAsset> := [
    GithubAsset("macos-kPDF_0.3.1_aarch64.dmg", "https://example.com/macos.dmg"),
    GithubAsset("windows-kpdf_0.3.1_x64-setup.exe", "https://example.com/windows.exe"),
    GithubAsset("kpdf_0.3.1_amd64.deb", "https://example.com/linux.deb")]

  lemma DmgByName(name: string)
    requires Text.StartsWith(name, "macos-") && Text.EndsWith(name, ".dmg")
    ensures IsMacosDmg(name)
  {
    Text.StartsWithLowercase(name, "macos-");
    Text.EndsWithLowercase(name, ".dmg");
  }

  lemma ExeByName(name: string)
    requires Text.StartsWith(name, "windows-") && Text.EndsWith(name, ".exe")
    ensures IsWindowsInstaller(name)
  {
    Text.StartsWithLowercase(name, "windows-");
    Text.EndsWithLowercase(name, ".exe");
  }

  lemma MacosTestAssetFound()
    ensures SelectMacosAsset(TEST_ASSETS).Some?
  {
    var mac := TEST_ASSETS[0].name;
    assert mac[..6] == "macos-";
    assert mac[|mac| - 4..] == ".dmg";
    DmgByName(mac);
  }

  lemma WindowsTestAssetFound()
    ensures SelectWindowsAsset(TEST_ASSETS).Some?
  {
    var win := TEST_ASSETS[1].name;
    assert win[..8] == "windows-";
    assert win[|win| - 4..] == ".exe";
    ExeByName(win);
  }

  lemma LinuxTestAssetFound()
    ensures SelectLinuxAsset(TEST_ASSETS).Some?
  {
    var deb := TEST_ASSETS[2].name;
    assert deb[|deb| - 4..] == ".deb";
    Text.EndsWithLowercase(deb, ".deb");
    assert IsLinuxInstaller(TEST_ASSETS[2].name);
  }

  /** `check_for_updates` after the fetch: `parse` is `semver::Version::parse`
      and `le` its order. A failed fetch or an unparsable version is an
      error. */
  function CheckForUpdates<V>(currentVersion: string, fetched: Result<GithubRelease>,
                              parse: string -> Option<V>, le: (V, V) -> bool, platform: Platform): (r: Result<UpdateCheck>)
    ensures fetched.Err? ==> r.Err?
    ensures fetched.Ok? ==>
      var latest := NormalizeVersionLabel(fetched.value.tagName);
      var current := NormalizeVersionLabel(currentVersion);
      && (r.Ok? <==> parse(latest).Some? && parse(current).Some?)
      && (r.Ok? ==> r.value.latestVersion == latest)
      && (r.Ok? ==> (r.value.UpToDate? <==> le(parse(latest).value, parse(current).value)))
      && (r.Ok? && r.value.UpdateAvailable? ==>
            match SelectAssetForPlatform(platform, fetched.value.assets)
            case Some(a) => r.value.downloadUrl == a.browserDownloadUrl
            case None => r.value.downloadUrl == fetched.value.htmlUrl)
  {
    match fetched
    case Err(e) => Err(e)
    case Ok(release) =>
      var latest := NormalizeVersionLabel(release.tagName);
      match parse(latest)
      case None => Err("invalid version: " + latest)
      case Some(latestSemver) =>
        var current := NormalizeVersionLabel(currentVersion);
        match parse(current)
        case None => Err("invalid version: " + current)
        case Some(currentSemver) =>
          if le(latestSemver, currentSemver) then Ok(UpToDate(latest))
          else
            var url := match SelectAssetForPlatform(platform, release.assets)
                       case Some(a) => a.browserDownloadUrl
                       case None => release.htmlUrl;
            Ok(UpdateAvailable(latest, url))
  }
}
