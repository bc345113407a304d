/** The scanner's configuration constants. */
module Config {

  /** Directory names the local walk never descends into. */
  const ExcludedDirectories: seq<string> := ["node_modules", "dist", "build"]

  /** The file-name suffixes the local walk hands to the classifier. */
  const FileExtensions: seq<string> := [".js", ".ts", ".tsx", ".html"]
}
