/** The records of the linker: one per document, the walk's entries and the errors. */
module Records {
  import opened Wrappers
  import opened Paths
  import opened NoteTypes

  /** `FileData`: one exported document. */
  datatype FileData = FileData(
    noteType: NoteType,
    pathFull: Path,                // the original absolute path
    pathRel: Path,                 // relative to the input directory, extension removed: the key
    pathSlug: Path,                // destination path, with extension
    name: string,                  // file name without extension, never slugified
    assets: Option<seq<string>>,   // bare file names of the bound media
    assetsDir: Option<Path>,       // absolute path of the `.assets` directory
    contents: string,              // the rewritten body
    createdAt: string,             // pre-formatted timestamps
    modifiedAt: string)

  /** One entry of the directory walk, with the timestamps of a file already formatted. */
  datatype Entry =
    | DirEntry(path: Path)
    | FileEntry(path: Path, createdAt: string, modifiedAt: string)

  /** The failures of a run; each names the path involved and, for a body, the matched text. */
  datatype Error =
    | NotUnderInputDir(path: Path)
    | MissingFileName(path: Path)
    | MissingExtension(path: Path)
    | AssetWithoutNote(path: Path)
    | AssetDirWithoutNote(path: Path)
    | Unreadable(path: Path)
    | CraftBlockLink(path: Path, text: string)
    | UnresolvedWikiLink(path: Path, text: string)
    | InvalidDayLink(path: Path, text: string)
    | InvalidImageLink(path: Path, text: string)
    | InvalidCodeFence(path: Path, text: string)
}
