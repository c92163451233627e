/**
 * Whether a mod's required content is on disk: every test file of every
 * required package resolves to an existing file. The host's path
 * resolution and file-system check are parameters.
 */
module Installation {
  import opened Manifests

  /** `files.All(f => File.Exists(Platform.ResolvePath(f)))`. */
  function AllFilesExist(files: seq<string>, resolvePath: string -> string, fileExists: string -> bool): (r: bool)
    ensures r <==> forall k :: 0 <= k < |files| ==> fileExists(resolvePath(files[k]))
  {
    if files == [] then true
    else fileExists(resolvePath(files[0])) && AllFilesExist(files[1..], resolvePath, fileExists)
  }

  /** `packages.Where(p => p.Required).All(p => <all its test files exist>)`. */
  function RequiredPackagesPresent(packages: seq<ContentPackage>, resolvePath: string -> string, fileExists: string -> bool): (r: bool)
    ensures r <==> forall i, k ::
      0 <= i < |packages| && packages[i].required && 0 <= k < |packages[i].testFiles| ==>
        fileExists(resolvePath(packages[i].testFiles[k]))
  {
    if packages == [] then true
    else if !packages[0].required then RequiredPackagesPresent(packages[1..], resolvePath, fileExists)
    else AllFilesExist(packages[0].testFiles, resolvePath, fileExists)
         && RequiredPackagesPresent(packages[1..], resolvePath, fileExists)
  }

  /** The browser's own `IsModInstalled`, on the mod's content manifest. */
  predicate ContentInstalled(content: ModContent, resolvePath: string -> string, fileExists: string -> bool) {
    RequiredPackagesPresent(content.packages, resolvePath, fileExists)
  }

  /** One missing test file of a required package makes the mod count as not installed. */
  lemma MissingRequiredFile(content: ModContent, resolvePath: string -> string, fileExists: string -> bool, i: nat, k: nat)
    requires i < |content.packages| && content.packages[i].required
    requires k < |content.packages[i].testFiles| && !fileExists(resolvePath(content.packages[i].testFiles[k]))
    ensures !ContentInstalled(content, resolvePath, fileExists)
  {
  }

  /** Optional packages never matter: adding one changes nothing. */
  lemma OptionalPackageIgnored(content: ModContent, p: ContentPackage, resolvePath: string -> string, fileExists: string -> bool)
    requires !p.required
    ensures ContentInstalled(ModContent(content.packages + [p]), resolvePath, fileExists)
        == ContentInstalled(content, resolvePath, fileExists)
  {
    var ps := content.packages + [p];
    assert forall i :: 0 <= i < |content.packages| ==> ps[i] == content.packages[i];
  }
}
