/**
  `CraftDocs`, the object that drives the export: it is created for an input
  directory, fills its directory set and its map of documents from the
  entries of the directory walk (`process_files`), then rewrites the body of
  every document (`format_markdown`). Each method is proved against the
  functions of `Indexing` and `Rewrite`, which state what one step does.
*/
module CraftFiles {
  import opened Wrappers
  import opened Text
  import opened Paths
  import opened Records
  import opened Splice
  import opened Patterns
  import opened Rewrite
  import opened Indexing
  import opened DirWalk

  /** A step of the walk either moved the index to its result or failed and left the index alone. */
  predicate Applied(res: Result<Index, Error>, before: Index, after: Index, r: Outcome<Error>) {
    match res
    case Success(next) => after == next && r == Pass
    case Failure(e) => after == before && r == Fail(e)
  }

  /** One document of `format_markdown`: its text is read from `path_full`, then rewritten. */
  function Formatted(files: map<Path, FileData>, inputDirName: string, libs: Collaborators,
                     bodies: map<Path, string>, fd: FileData): (r: Result<string, Error>)
    ensures r.Failure? ==> r.error.path == fd.pathFull
    ensures fd.pathFull !in bodies <==> r == Failure(Unreadable(fd.pathFull))
  {
    if fd.pathFull in bodies then RewriteBody(files, inputDirName, libs, fd, bodies[fd.pathFull])
    else Failure(Unreadable(fd.pathFull))
  }

  /**
    The whole walk of an input directory holding one note and its `.assets`
    directory with one media file, in either listing order: from an empty
    index it indexes the note, moves it into the directory and binds the
    media to it.
  */
  lemma ExportNoteWithAssets(libs: Collaborators, inputDir: Path, stem: string, base: string, ext: string,
                             c: string, m: string, c2: string, m2: string, dirFirst: bool)
    requires IsName(stem) && IsName(base) && '.' !in ext && '/' !in ext
    requires ext != MdExt && ext != BinExt && ext != PngExt
    ensures var fname := base + "." + ext;
      var (after, out) := Run(libs, inputDir, Index({}, map[]),
                              WalkRoot(inputDir, NoteListing(stem, fname, c, m, c2, m2, dirFirst)));
      && out == Pass
      && after.directories == {}
      && after.files.Keys == {[stem]}
      && after.files[[stem]].pathFull == inputDir + [stem + ".md"]
      && after.files[[stem]].pathSlug == IndexSlug(SlugPath(libs, [stem]))
      && after.files[[stem]].assets == Some([fname])
      && after.files[[stem]].assetsDir == Some(inputDir + [stem + ".assets"])
  {
    var fname := base + "." + ext;
    var idx := Index({}, map[]);
    var dirs: Path := [];
    assert inputDir + dirs == inputDir;
    NoteListingWalk(inputDir, stem, fname, c, m, c2, m2, dirFirst);
    var w := NoteWalk(inputDir, dirs, stem, fname, c, m, c2, m2);
    assert Contents(inputDir, NoteListing(stem, fname, c, m, c2, m2, dirFirst)) == w;
    assert Step(libs, inputDir, idx, DirEntry(inputDir)) == Success(idx);
    RunStep(libs, inputDir, idx, DirEntry(inputDir), w);
    NoteWithAssets(libs, inputDir, idx, dirs, stem, base, ext, c, m, c2, m2);
    assert dirs + [stem] == [stem];
  }

  class CraftDocs {
    const inputDir: Path
    const inputDirName: string
    const libs: Collaborators
    var directories: set<Path>
    var files: map<Path, FileData>

    /** The fields the walk fills in. */
    function State(): Index
      reads this
    {
      Index(directories, files)
    }

    /** `CraftDocs::new`: the input directory's own name, and nothing indexed yet. */
    constructor (inputDir: Path, libs: Collaborators)
      ensures this.inputDir == inputDir && this.libs == libs
      ensures inputDirName == FileName(inputDir).GetOr("")
      ensures directories == {} && files == map[]
    {
      this.inputDir := inputDir;
      this.inputDirName := FileName(inputDir).GetOr("");
      this.libs := libs;
      directories := {};
      files := map[];
    }

    /** `process_files`: every entry in walk order; the first failing entry stops the walk. */
    method ProcessFiles(entries: seq<Entry>) returns (r: Outcome<Error>)
      modifies this
      ensures (State(), r) == Run(libs, inputDir, old(State()), entries)
    {
      var i := 0;
      assert entries[0..] == entries;
      while i < |entries|
        invariant 0 <= i <= |entries|
        invariant Run(libs, inputDir, old(State()), entries) == Run(libs, inputDir, State(), entries[i..])
      {
        var e := entries[i];
        var before := State();
        assert entries[i..] == [e] + entries[i + 1..];
        var out := Visit(e);
        if out.Fail? {
          RunStopsAtFailure(libs, inputDir, before, e, entries[i + 1..]);
          return out;
        }
        RunStep(libs, inputDir, before, e, entries[i + 1..]);
        i := i + 1;
      }
      return Pass;
    }

    /** One entry of the walk: the input directory itself and `.DS_Store` files are skipped. */
    method Visit(e: Entry) returns (r: Outcome<Error>)
      modifies this
      ensures Applied(Step(libs, inputDir, old(State()), e), old(State()), State(), r)
    {
      match e {
        case DirEntry(p) =>
          if p == inputDir {
            return Pass;
          }
          r := SetDirectory(p);
        case FileEntry(p, createdAt, modifiedAt) =>
          match FileName(p) {
            case None =>
              return Fail(MissingFileName(p));
            case Some(n) =>
              if n == DsStore {
                return Pass;
              }
              r := SetFile(p, createdAt, modifiedAt);
          }
      }
    }

    /** `set_directory`. */
    method SetDirectory(full: Path) returns (r: Outcome<Error>)
      modifies this
      ensures Applied(Indexing.SetDirectory(inputDir, old(State()), full), old(State()), State(), r)
    {
      var rel := StripPrefix(full, inputDir);
      if rel.None? {
        return Fail(NotUnderInputDir(full));
      }
      var ext := Extension(full);
      if ext.Some? {
        if ext.value == AssetsDirExt {
          r := SetAssetDir(rel.value);
          return;
        }
        return Pass;
      }
      directories := directories + {rel.value};
      return Pass;
    }

    /** `set_file`. */
    method SetFile(full: Path, createdAt: string, modifiedAt: string) returns (r: Outcome<Error>)
      modifies this
      ensures Applied(Indexing.SetFile(libs, inputDir, old(State()), full, createdAt, modifiedAt),
                      old(State()), State(), r)
    {
      var ext := Extension(full);
      if ext.None? {
        return Fail(MissingExtension(full));
      }
      if ext.value != MdExt {
        r := SetAssetOnFile(full, ext.value);
        return;
      }
      var fd := NewFileData(libs, inputDir, full, createdAt, modifiedAt);
      if fd.Failure? {
        return Fail(fd.error);
      }
      files := files[fd.value.pathRel := fd.value];
      return Pass;
    }

    /** `set_asset_on_file`. */
    method SetAssetOnFile(asset: Path, ext: string) returns (r: Outcome<Error>)
      modifies this
      ensures Applied(Indexing.SetAssetOnFile(inputDir, old(State()), asset, ext), old(State()), State(), r)
    {
      if ext == BinExt {
        return Pass;
      }
      var fname := FileName(asset);
      if fname.None? {
        return Fail(MissingFileName(asset));
      }
      if ext == PngExt && !Contains(fname.value, BinPreview) {
        return Pass;
      }
      var key := OwnerKey(inputDir, asset);
      if key.None? {
        return Fail(NotUnderInputDir(SetExtension(Pop(asset), "")));
      }
      if key.value !in files {
        return Fail(AssetWithoutNote(asset));
      }
      var fd := files[key.value];
      match fd.assets {
        case Some(a) => fd := fd.(assets := Some(a + [fname.value]));
        case None => fd := fd.(assets := Some([fname.value]));
      }
      files := files[key.value := fd];
      return Pass;
    }

    /** `set_asset_dir`. */
    method SetAssetDir(rel: Path) returns (r: Outcome<Error>)
      modifies this
      ensures Applied(Indexing.SetAssetDir(inputDir, old(State()), rel), old(State()), State(), r)
    {
      var key := SetExtension(rel, "");
      if key !in files {
        return Fail(AssetDirWithoutNote(key));
      }
      var fd := files[key];
      var slug := SetExtension(fd.pathSlug, "");
      slug := Push(slug, IndexName);
      slug := SetExtension(slug, MdExt);
      files := files[key := fd.(pathSlug := slug, assetsDir := Some(Join(inputDir, rel)))];
      return Pass;
    }

    /**
      One turn of `format_markdown`'s loop: the craft-link check, the first
      H1 and the frontmatter, then the four `replace_all` passes, each on the
      result of the one before. Links are resolved against `files`.
    */
    method FormatDocument(fd: FileData, raw: string) returns (r: Result<string, Error>)
      ensures r == RewriteBody(files, inputDirName, libs, fd, raw)
    {
      var link := CraftBlockLinkIn(raw);
      if link.Some? {
        return Failure(CraftBlockLink(fd.pathFull, link.value));
      }
      var buffer := Prefixed(fd, raw);
      var w := ReplaceAll(buffer, AllMatches(WikiLink, buffer, 0), WikiRep(files, inputDirName, libs));
      if w.Failure? {
        return Failure(UnresolvedWikiLink(fd.pathFull, w.error));
      }
      buffer := w.value;
      var d := ReplaceAll(buffer, AllMatches(DayLink, buffer, 0), ReplaceDayLink);
      if d.Failure? {
        return Failure(InvalidDayLink(fd.pathFull, d.error));
      }
      buffer := d.value;
      var i := ReplaceAll(buffer, AllMatches(ImgAssetLink, buffer, 0), ReplaceImgAssetLink);
      if i.Failure? {
        return Failure(InvalidImageLink(fd.pathFull, i.error));
      }
      buffer := i.value;
      var c := ReplaceAll(buffer, AllMatches(CodeBlockOther, buffer, 0), ReplaceCodeBlockOther);
      if c.Failure? {
        return Failure(InvalidCodeFence(fd.pathFull, c.error));
      }
      return Success(c.value);
    }

    /**
      `format_markdown`: every document is rewritten on a copy of `files`,
      which replaces `files` only when all of them succeed. The documents are
      visited in an unspecified order, so a failure reports the error of some
      failing document.
    */
    method FormatMarkdown(bodies: map<Path, string>) returns (r: Outcome<Error>)
      modifies this
      ensures directories == old(directories)
      ensures r.Pass? <==>
        forall k :: k in old(files) ==> Formatted(old(files), inputDirName, libs, bodies, old(files)[k]).Success?
      ensures r.Pass? ==> files.Keys == old(files).Keys
      ensures r.Pass? ==> forall k :: k in files ==>
        files[k] == old(files)[k].(contents := Formatted(old(files), inputDirName, libs, bodies, old(files)[k]).value)
      ensures r.Fail? ==> files == old(files)
      ensures r.Fail? ==>
        exists k :: k in old(files) && Formatted(old(files), inputDirName, libs, bodies, old(files)[k]) == Failure(r.error)
    {
      var snapshot := files;
      var out := files;
      var todo := files.Keys;
      while todo != {}
        invariant snapshot == old(files) && files == snapshot && directories == old(directories)
        invariant todo <= snapshot.Keys && out.Keys == snapshot.Keys
        invariant forall k :: k in todo ==> out[k] == snapshot[k]
        invariant forall k :: k in snapshot && k !in todo ==>
          Formatted(snapshot, inputDirName, libs, bodies, snapshot[k]).Success? &&
          out[k] == snapshot[k].(contents := Formatted(snapshot, inputDirName, libs, bodies, snapshot[k]).value)
        decreases todo
      {
        var k :| k in todo;
        var fd := out[k];
        if fd.pathFull !in bodies {
          return Fail(Unreadable(fd.pathFull));
        }
        var body := FormatDocument(fd, bodies[fd.pathFull]);
        if body.Failure? {
          return Fail(body.error);
        }
        out := out[k := fd.(contents := body.value)];
        todo := todo - {k};
      }
      files := out;
      return Pass;
    }
  }
}
