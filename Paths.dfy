/**
 * Paths and the file system as the scanners see them. A path is the sequence of
 * its components from the file-system root; the file system itself is an oracle.
 */
module Paths {
  import opened Strings

  /** An absolute path as its components: `/notes/img/a.png` is `["notes", "img", "a.png"]`. */
  type Path = seq<string>

  /** `str(path)`. */
  function PathText(p: Path): string
  {
    "/" + Join("/", p)
  }

  /** `path.name`: the last component, empty for the root. */
  function Name(p: Path): string
  {
    if p == [] then "" else p[|p| - 1]
  }

  /** `path.parent`: the root is its own parent. */
  function Parent(p: Path): Path
  {
    if p == [] then [] else p[..|p| - 1]
  }

  /**
   * What the program asks of the file system: `(directory / text).resolve()`, which
   * joins a `src` text onto a directory and normalises it, and `Path.is_file()`.
   */
  datatype FileSystem = FileSystem(resolve: (Path, string) -> Path, isFile: Path -> bool)
}
