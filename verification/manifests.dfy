/**
 * The values the mod browser reads from the host: mod manifests, the
 * artwork files in a mod's package, and the content manifest derived
 * from a mod.
 */
module Manifests {
  import opened Wrappers

  /**
   * What reading an artwork file from a mod package and decoding it as a
   * bitmap yields: either the picture's pixel size, or a failure (file
   * missing from the package, stream error, undecodable bytes).
   */
  datatype ImageFile = Unreadable | Picture(width: int, height: int)

  /**
   * A mod manifest: its identity, its metadata (author and description
   * may be null) and the two artwork files its package holds.
   */
  datatype Manifest = Manifest(
    id: string,
    title: string,
    author: Option<string>,
    description: Option<string>,
    version: string,
    hidden: bool,
    preview: ImageFile,   // package file "preview.png"
    logo: ImageFile       // package file "logo.png"
  )

  /** One content package of a mod, with the files whose presence proves it is installed. */
  datatype ContentPackage = ContentPackage(name: string, required: bool, testFiles: seq<string>)

  /** The content manifest of a mod: its packages in dictionary enumeration order. */
  datatype ModContent = ModContent(packages: seq<ContentPackage>)
}
