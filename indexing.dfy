/**
  How `CraftDocs::process_files` builds its index from the entries of the
  directory walk: directories, one `FileData` per markdown note keyed by its
  relative path without extension, media bound to the note whose `.assets`
  directory holds them. Each step is a function from the index before to the
  index after, or an error; a failing step changes nothing.
*/
module Indexing {
  import opened Wrappers
  import opened Text
  import opened Paths
  import opened NoteTypes
  import opened Records

  const AssetsDirExt: string := "assets"
  const MdExt: string := "md"
  const BinExt: string := "bin"
  const PngExt: string := "png"
  const BinPreview: string := "_bin_preview"
  const DsStore: string := ".DS_Store"
  const IndexName: string := "index"

  /** The fields of `CraftDocs` that the walk fills in. */
  datatype Index = Index(directories: set<Path>, files: map<Path, FileData>)

  /** The key of the note owning an asset file: its directory, without extension, relative to the input directory. */
  function OwnerKey(inputDir: Path, asset: Path): (r: Option<Path>)
    ensures r.Some? ==> inputDir + r.value == SetExtension(Pop(asset), "")
    ensures r.None? ==> !(|inputDir| <= |Pop(asset)| && SetExtension(Pop(asset), "")[..|inputDir|] == inputDir)
  {
    StripPrefix(SetExtension(Pop(asset), ""), inputDir)
  }

  /** Append a file name to the assets of a note, creating the list on the first one. */
  function WithAsset(fd: FileData, name: string): (r: FileData)
    ensures r.assets.Some? && |r.assets.value| > 0 && r.assets.value[|r.assets.value| - 1] == name
    ensures r.assets.value[..|r.assets.value| - 1] == fd.assets.GetOr([])
    ensures r == fd.(assets := r.assets)
  {
    match fd.assets
    case None => fd.(assets := Some([name]))
    case Some(a) => fd.(assets := Some(a + [name]))
  }

  /** Media that `set_asset_on_file` binds to a note: named, not `.bin`, and a PNG only when it is a `_bin_preview`. */
  predicate Attached(asset: Path, ext: string) {
    ext != BinExt && FileName(asset).Some? && (ext != PngExt || Contains(FileName(asset).value, BinPreview))
  }

  /**
    `set_asset_on_file`: `.bin` files and previews other than `_bin_preview`
    PNGs are skipped; any other media is appended to the assets of the note
    that owns its directory, which must already be indexed.
  */
  function SetAssetOnFile(inputDir: Path, idx: Index, asset: Path, ext: string): (r: Result<Index, Error>)
    ensures r.Success? ==> r.value.directories == idx.directories && r.value.files.Keys == idx.files.Keys
    ensures r.Failure? ==> r.error.MissingFileName? || r.error.NotUnderInputDir? || r.error.AssetWithoutNote?
    ensures ext != BinExt && FileName(asset).None? ==> r == Failure(MissingFileName(asset))
    ensures Attached(asset, ext) && OwnerKey(inputDir, asset).None? ==>
      r == Failure(NotUnderInputDir(SetExtension(Pop(asset), "")))
    ensures Attached(asset, ext) && OwnerKey(inputDir, asset).Some? ==>
      var key := OwnerKey(inputDir, asset).value;
      && (r.Success? <==> key in idx.files)
      && (r.Success? ==> r.value.files == idx.files[key := WithAsset(idx.files[key], FileName(asset).value)])
      && (r.Failure? ==> r.error == AssetWithoutNote(asset))
  {
    if ext == BinExt then Success(idx)
    else
      match FileName(asset)
      case None => Failure(MissingFileName(asset))
      case Some(fname) =>
        if ext == PngExt && !Contains(fname, BinPreview) then Success(idx)
        else
          match OwnerKey(inputDir, asset)
          case None => Failure(NotUnderInputDir(SetExtension(Pop(asset), "")))
          case Some(key) =>
            if key in idx.files then Success(idx.(files := idx.files[key := WithAsset(idx.files[key], fname)]))
            else Failure(AssetWithoutNote(asset))
  }

  /** `FileData::try_from` followed by `set_paths`, with the timestamps already formatted. */
  function NewFileData(libs: Collaborators, inputDir: Path, full: Path, createdAt: string, modifiedAt: string)
    : (r: Result<FileData, Error>)
    ensures r.Success? <==> FileName(SetExtension(full, "")).Some? && StripPrefix(full, inputDir).Some?
    ensures r.Success? ==> r.value.pathFull == full && full == inputDir + StripPrefix(full, inputDir).value
    ensures r.Success? ==> r.value.pathRel == SetExtension(StripPrefix(full, inputDir).value, "")
    ensures r.Success? ==> r.value.pathSlug == SlugPath(libs, r.value.pathRel)
    ensures r.Success? ==> Some(r.value.name) == FileName(SetExtension(full, ""))
    ensures r.Success? ==> r.value.noteType == Classify(r.value.name)
    ensures r.Success? ==> r.value.assets.None? && r.value.assetsDir.None? && r.value.contents == ""
  {
    match FileName(SetExtension(full, ""))
    case None => Failure(MissingFileName(full))
    case Some(name) =>
      match StripPrefix(full, inputDir)
      case None => Failure(NotUnderInputDir(full))
      case Some(rel0) =>
        var rel := SetExtension(rel0, "");
        Success(FileData(Classify(name), full, rel, SlugPath(libs, rel), name, None, None, "", createdAt, modifiedAt))
  }

  /** `set_file`: a markdown note is indexed under its key, any other file is an asset. */
  function SetFile(libs: Collaborators, inputDir: Path, idx: Index, full: Path, createdAt: string, modifiedAt: string)
    : (r: Result<Index, Error>)
    ensures r.Success? ==> r.value.directories == idx.directories && idx.files.Keys <= r.value.files.Keys
    ensures r.Success? && Extension(full) == Some(MdExt) ==>
      StripPrefix(full, inputDir).Some? &&
      r.value.files.Keys == idx.files.Keys + {SetExtension(StripPrefix(full, inputDir).value, "")}
    ensures Extension(full).None? ==> r == Failure(MissingExtension(full))
  {
    match Extension(full)
    case None => Failure(MissingExtension(full))
    case Some(ext) =>
      if ext != MdExt then SetAssetOnFile(inputDir, idx, full, ext)
      else
        var fd :- NewFileData(libs, inputDir, full, createdAt, modifiedAt);
        Success(idx.(files := idx.files[fd.pathRel := fd]))
  }

  /** The slug of a note with an assets directory: `dir/name.md` becomes `dir/name/index.md`. */
  function IndexSlug(slug: Path): Path {
    SetExtension(Push(SetExtension(slug, ""), IndexName), MdExt)
  }

  /** `set_asset_dir`: the note named like the directory moves into it and records it. */
  function SetAssetDir(inputDir: Path, idx: Index, rel: Path): (r: Result<Index, Error>)
    ensures r.Success? <==> SetExtension(rel, "") in idx.files
    ensures r.Success? ==> r.value.directories == idx.directories && r.value.files.Keys == idx.files.Keys
    ensures r.Failure? ==> r.error == AssetDirWithoutNote(SetExtension(rel, ""))
  {
    var key := SetExtension(rel, "");
    if key in idx.files then
      var fd := idx.files[key];
      Success(idx.(files := idx.files[key := fd.(pathSlug := IndexSlug(fd.pathSlug),
                                                assetsDir := Some(Join(inputDir, rel)))]))
    else Failure(AssetDirWithoutNote(key))
  }

  /** `set_directory`: plain directories are recorded, `.assets` ones bound to their note, others ignored. */
  function SetDirectory(inputDir: Path, idx: Index, full: Path): (r: Result<Index, Error>)
    ensures r.Success? ==> r.value.files.Keys == idx.files.Keys && idx.directories <= r.value.directories
    ensures r.Success? ==>
      StripPrefix(full, inputDir).Some? && r.value.directories <= idx.directories + {StripPrefix(full, inputDir).value}
    ensures r.Failure? ==> r.error.NotUnderInputDir? || r.error.AssetDirWithoutNote?
  {
    match StripPrefix(full, inputDir)
    case None => Failure(NotUnderInputDir(full))
    case Some(rel) =>
      match Extension(full)
      case Some(ext) => if ext == AssetsDirExt then SetAssetDir(inputDir, idx, rel) else Success(idx)
      case None => Success(idx.(directories := idx.directories + {rel}))
  }

  /** One iteration of `process_files`: the input directory itself and `.DS_Store` files are skipped. */
  function Step(libs: Collaborators, inputDir: Path, idx: Index, e: Entry): (r: Result<Index, Error>)
    ensures r.Success? ==> idx.directories <= r.value.directories && idx.files.Keys <= r.value.files.Keys
    ensures r.Success? && e.FileEntry? ==> r.value.directories == idx.directories
    ensures r.Success? && e.DirEntry? ==> r.value.files.Keys == idx.files.Keys
  {
    match e
    case DirEntry(p) => if p == inputDir then Success(idx) else SetDirectory(inputDir, idx, p)
    case FileEntry(p, createdAt, modifiedAt) =>
      match FileName(p)
      case None => Failure(MissingFileName(p))
      case Some(n) => if n == DsStore then Success(idx) else SetFile(libs, inputDir, idx, p, createdAt, modifiedAt)
  }

  /** `process_files`: the index reached and the outcome; the first failing entry stops the walk. */
  function Run(libs: Collaborators, inputDir: Path, idx: Index, entries: seq<Entry>): (r: (Index, Outcome<Error>))
    ensures idx.directories <= r.0.directories && idx.files.Keys <= r.0.files.Keys
    ensures (forall k :: 0 <= k < |entries| ==> entries[k].FileEntry?) ==> r.0.directories == idx.directories
    decreases |entries|
  {
    if |entries| == 0 then (idx, Pass)
    else
      match Step(libs, inputDir, idx, entries[0])
      case Failure(e) => (idx, Fail(e))
      case Success(next) => Run(libs, inputDir, next, entries[1..])
  }

  // ---------------------------------------------------------------------------
  // Properties of the steps

  /** Running two walks one after the other is running their concatenation. */
  lemma {:induction false} RunAppend(libs: Collaborators, inputDir: Path, idx: Index, a: seq<Entry>, b: seq<Entry>)
    ensures Run(libs, inputDir, idx, a + b) ==
      var (mid, out) := Run(libs, inputDir, idx, a);
      if out.Pass? then Run(libs, inputDir, mid, b) else (mid, out)
    decreases |a|
  {
    if |a| == 0 {
      assert a + b == b;
    } else {
      assert (a + b)[0] == a[0] && (a + b)[1..] == a[1..] + b;
      match Step(libs, inputDir, idx, a[0])
      case Failure(e) =>
      case Success(next) => RunAppend(libs, inputDir, next, a[1..], b);
    }
  }

  /** A succeeding step hands its index to the rest of the walk. */
  lemma RunStep(libs: Collaborators, inputDir: Path, idx: Index, e: Entry, rest: seq<Entry>)
    requires Step(libs, inputDir, idx, e).Success?
    ensures Run(libs, inputDir, idx, [e] + rest) == Run(libs, inputDir, Step(libs, inputDir, idx, e).value, rest)
  {
    assert ([e] + rest)[0] == e && ([e] + rest)[1..] == rest;
  }

  /** A failing step leaves the index as it was: the walk stops with the index of the last good step. */
  lemma RunStopsAtFailure(libs: Collaborators, inputDir: Path, idx: Index, e: Entry, rest: seq<Entry>)
    requires Step(libs, inputDir, idx, e).Failure?
    ensures Run(libs, inputDir, idx, [e] + rest) == (idx, Fail(Step(libs, inputDir, idx, e).error))
  {
    assert ([e] + rest)[0] == e;
  }

  /** The note of an assets directory moves into it: `dir/name.md` becomes `dir/name/index.md`. */
  lemma IndexSlugShape(slug: Path)
    requires FileName(slug).Some?
    ensures IndexSlug(slug) == SetExtension(slug, "") + ["index.md"]
    ensures |IndexSlug(slug)| == |slug| + 1
    ensures FileName(IndexSlug(slug)) == Some("index.md") && Extension(IndexSlug(slug)) == Some(MdExt)
  {
    var base := SetExtension(slug, "");
    IndexNameParses();
    var pushed := base + [IndexName];
    assert Push(base, IndexName) == pushed;
    IndexNameFile(base);
  }

  lemma IndexNameParses()
    ensures ParsePath(IndexName) == [IndexName]
  {
    assert Split(IndexName) == [IndexName] by { assert FirstIndex(IndexName, '/') == None; }
    assert NonEmpty([IndexName]) == [IndexName] by { assert |[IndexName][1..]| == 0; }
  }

  /** `index` with the extension `md`. */
  lemma IndexNameFile(base: Path)
    ensures SetExtension(base + [IndexName], MdExt) == base + ["index.md"]
    ensures FileName(base + ["index.md"]) == Some("index.md") && Extension(base + ["index.md"]) == Some(MdExt)
  {
    var pushed := base + [IndexName];
    assert FileName(pushed) == Some(IndexName);
    assert SplitAtDot(IndexName).0 == IndexName by {
      forall k | 0 <= k < |IndexName| ensures !At(IndexName, k, ".") {
        assert IndexName[k..k + 1] == [IndexName[k]];
      }
    }
    assert IndexName + ("." + MdExt) == "index.md";
    assert "index" + "." + "md" == "index.md";
    SetExtensionDotted(base, "index", "md");
  }

  /** Binary files and previews other than those of binary files are never bound to a note. */
  lemma SkippedMedia(inputDir: Path, idx: Index, asset: Path, ext: string)
    requires ext == BinExt || (ext == PngExt && FileName(asset).Some? && !Contains(FileName(asset).value, BinPreview))
    ensures SetAssetOnFile(inputDir, idx, asset, ext) == Success(idx)
  {
  }

  /** Media that would be attached, a `_bin_preview` PNG included, fails when its note is not indexed yet. */
  lemma OrphanAsset(inputDir: Path, idx: Index, asset: Path, ext: string)
    requires Attached(asset, ext)
    requires OwnerKey(inputDir, asset).Some? && OwnerKey(inputDir, asset).value !in idx.files
    ensures SetAssetOnFile(inputDir, idx, asset, ext) == Failure(AssetWithoutNote(asset))
  {
  }

  /** Binding an assets directory changes the owning note's slug and assets directory, and nothing else. */
  lemma AssetDirChangesOnlyItsNote(inputDir: Path, idx: Index, rel: Path)
    ensures SetAssetDir(inputDir, idx, rel).Success? <==> SetExtension(rel, "") in idx.files
    ensures SetAssetDir(inputDir, idx, rel).Success? ==>
      var key := SetExtension(rel, "");
      var after := SetAssetDir(inputDir, idx, rel).value;
      && after.directories == idx.directories
      && after.files.Keys == idx.files.Keys
      && (forall k :: k in idx.files && k != key ==> after.files[k] == idx.files[k])
      && after.files[key] == idx.files[key].(pathSlug := after.files[key].pathSlug, assetsDir := Some(Join(inputDir, rel)))
      && after.files[key].pathSlug == IndexSlug(idx.files[key].pathSlug)
  {
  }

  // ---------------------------------------------------------------------------
  // A note with an assets directory, in walk order

  function NotePath(inputDir: Path, dirs: Path, stem: string): Path {
    inputDir + dirs + [stem + ".md"]
  }

  function AssetsDirPath(inputDir: Path, dirs: Path, stem: string): Path {
    inputDir + dirs + [stem + ".assets"]
  }

  /** The `FileData` that indexing `dir/stem.md` creates. */
  function NewNote(libs: Collaborators, inputDir: Path, dirs: Path, stem: string, createdAt: string, modifiedAt: string)
    : FileData
  {
    FileData(Classify(stem), NotePath(inputDir, dirs, stem), dirs + [stem], SlugPath(libs, dirs + [stem]), stem,
             None, None, "", createdAt, modifiedAt)
  }

  /** A note `dirs/stem.md` is indexed under `dirs/stem`, named `stem`, and classified by its name. */
  lemma NoteStep(libs: Collaborators, inputDir: Path, idx: Index, dirs: Path, stem: string, c: string, m: string)
    requires AllNames(dirs) && IsName(stem)
    ensures Step(libs, inputDir, idx, FileEntry(NotePath(inputDir, dirs, stem), c, m)) ==
      Success(idx.(files := idx.files[dirs + [stem] := NewNote(libs, inputDir, dirs, stem, c, m)]))
  {
    var full := NotePath(inputDir, dirs, stem);
    NotePathFacts(inputDir, dirs, stem);
    assert NewFileData(libs, inputDir, full, c, m) == Success(NewNote(libs, inputDir, dirs, stem, c, m));
  }

  /** The path of a note: its name, its extension, its key. */
  lemma NotePathFacts(inputDir: Path, dirs: Path, stem: string)
    requires IsName(stem)
    ensures var full := NotePath(inputDir, dirs, stem);
      && FileName(full) == Some(stem + ".md") && stem + ".md" != DsStore
      && Extension(full) == Some(MdExt)
      && FileName(SetExtension(full, "")) == Some(stem)
      && StripPrefix(full, inputDir) == Some(dirs + [stem + ".md"])
      && SetExtension(dirs + [stem + ".md"], "") == dirs + [stem]
  {
    var n := stem + ".md";
    var full := (inputDir + dirs) + [n];
    assert full == NotePath(inputDir, dirs, stem);
    MarkdownName(inputDir + dirs, stem);
    MarkdownName(dirs, stem);
    assert n[|n| - 1] == 'd' && DsStore[|DsStore| - 1] == 'e';
    assert FileName((inputDir + dirs) + [stem]) == Some(stem);
    assert full[..|inputDir|] == inputDir && full[|inputDir|..] == dirs + [n];
  }

  lemma MarkdownName(dir: Path, stem: string)
    requires IsName(stem)
    ensures FileName(dir + [stem + ".md"]) == Some(stem + ".md")
    ensures Extension(dir + [stem + ".md"]) == Some(MdExt)
    ensures SetExtension(dir + [stem + ".md"], "") == dir + [stem]
  {
    assert stem + "." + MdExt == stem + ".md";
    SetExtensionDotted(dir, stem, MdExt);
  }

  /** The directory `dirs/stem.assets` binds to the note `dirs/stem`. */
  lemma AssetDirStep(libs: Collaborators, inputDir: Path, idx: Index, dirs: Path, stem: string)
    requires AllNames(dirs) && IsName(stem) && dirs + [stem] in idx.files
    ensures var key := dirs + [stem];
      var dir := AssetsDirPath(inputDir, dirs, stem);
      var fd := idx.files[key];
      Step(libs, inputDir, idx, DirEntry(dir)) ==
        Success(idx.(files := idx.files[key := fd.(pathSlug := IndexSlug(fd.pathSlug), assetsDir := Some(dir))]))
  {
    var n := stem + "." + AssetsDirExt;
    assert n == stem + ".assets";
    var dir := (inputDir + dirs) + [n];
    assert dir == AssetsDirPath(inputDir, dirs, stem);
    SetExtensionDotted(inputDir + dirs, stem, AssetsDirExt);
    var rel := dirs + [n];
    assert dir[..|inputDir|] == inputDir && dir[|inputDir|..] == rel;
    SetExtensionDotted(dirs, stem, AssetsDirExt);
    assert rel[0] != Root by {
      if |dirs| > 0 { assert IsName(dirs[0]) && dirs[0] == rel[0]; } else { assert rel[0] == n; }
    }
    assert Join(inputDir, rel) == dir;
  }

  /** A directory `dirs/name` whose name has no dot is recorded among the directories. */
  lemma PlainDirStep(libs: Collaborators, inputDir: Path, idx: Index, dirs: Path, name: string)
    requires IsName(name) && '.' !in name
    ensures Step(libs, inputDir, idx, DirEntry(inputDir + dirs + [name])) ==
      Success(idx.(directories := idx.directories + {dirs + [name]}))
  {
    var dir := (inputDir + dirs) + [name];
    UndottedName(inputDir + dirs, name);
    assert dir[..|inputDir|] == inputDir && dir[|inputDir|..] == dirs + [name];
  }

  /** A directory `dirs/stem.ext` with an extension other than `assets` leaves the index as it is. */
  lemma OtherExtDirIgnored(libs: Collaborators, inputDir: Path, idx: Index, dirs: Path, stem: string, ext: string)
    requires IsName(stem) && '.' !in ext && '/' !in ext && ext != AssetsDirExt
    ensures Step(libs, inputDir, idx, DirEntry(inputDir + dirs + [stem + "." + ext])) == Success(idx)
  {
    var dir := (inputDir + dirs) + [stem + "." + ext];
    SetExtensionDotted(inputDir + dirs, stem, ext);
    assert dir[..|inputDir|] == inputDir;
  }

  /** `.DS_Store` has no extension: its only dot is its first character. */
  lemma DsStoreHasNoExtension()
    ensures SplitAtDot(DsStore).1 == None
  {
    assert At(DsStore, 0, ".");
    forall k | 0 < k <= |DsStore| - 1 ensures !At(DsStore, k, ".") {
      assert DsStore[k..k + 1] == [DsStore[k]];
    }
    assert LastAt(DsStore, ".", 0, |DsStore| - 1) == Some(0);
  }

  /**
    A media file `dirs/stem.assets/base.ext` is appended to the assets of the note `dirs/stem`,
    whatever its extension other than `md` and `bin`, a PNG only when it is a `_bin_preview`.
  */
  lemma AssetStep(libs: Collaborators, inputDir: Path, idx: Index, dirs: Path, stem: string,
                  base: string, ext: string, c: string, m: string)
    requires AllNames(dirs) && IsName(stem) && IsName(base) && '.' !in ext && '/' !in ext
    requires ext != MdExt && ext != BinExt && (ext != PngExt || Contains(base + "." + ext, BinPreview))
    requires dirs + [stem] in idx.files
    ensures var key := dirs + [stem];
      var fname := base + "." + ext;
      Step(libs, inputDir, idx, FileEntry(AssetsDirPath(inputDir, dirs, stem) + [fname], c, m)) ==
        Success(idx.(files := idx.files[key := WithAsset(idx.files[key], fname)]))
  {
    AssetPathFacts(inputDir, dirs, stem, base, ext);
  }

  /** The preview `dirs/stem.assets/name_bin_preview.png` is attached to the note `dirs/stem` like any other media. */
  lemma BinPreviewStep(libs: Collaborators, inputDir: Path, idx: Index, dirs: Path, stem: string,
                       name: string, c: string, m: string)
    requires AllNames(dirs) && IsName(stem) && IsName(name + BinPreview)
    requires dirs + [stem] in idx.files
    ensures var key := dirs + [stem];
      var fname := name + BinPreview + ".png";
      Step(libs, inputDir, idx, FileEntry(AssetsDirPath(inputDir, dirs, stem) + [fname], c, m)) ==
        Success(idx.(files := idx.files[key := WithAsset(idx.files[key], fname)]))
  {
    var fname := (name + BinPreview) + "." + PngExt;
    assert fname == name + BinPreview + ".png";
    assert At(fname, |name|, BinPreview) by {
      assert fname[|name|..|name| + |BinPreview|] == BinPreview;
    }
    AssetStep(libs, inputDir, idx, dirs, stem, name + BinPreview, PngExt, c, m);
  }

  /** The path of a media file in an assets directory: its name, its extension, the key of its note. */
  lemma AssetPathFacts(inputDir: Path, dirs: Path, stem: string, base: string, ext: string)
    requires IsName(stem) && IsName(base) && '.' !in ext && '/' !in ext
    ensures var a := AssetsDirPath(inputDir, dirs, stem) + [base + "." + ext];
      && FileName(a) == Some(base + "." + ext) && base + "." + ext != DsStore
      && Extension(a) == Some(ext)
      && OwnerKey(inputDir, a) == Some(dirs + [stem])
  {
    var dir := AssetsDirPath(inputDir, dirs, stem);
    var fname := base + "." + ext;
    var a := dir + [fname];
    SetExtensionDotted(dir, base, ext);
    NotDsStore(base, ext);
    assert Pop(a) == dir;
    var n := stem + "." + AssetsDirExt;
    assert n == stem + ".assets";
    assert dir == (inputDir + dirs) + [n];
    SetExtensionDotted(inputDir + dirs, stem, AssetsDirExt);
    var owner := (inputDir + dirs) + [stem];
    assert owner[..|inputDir|] == inputDir && owner[|inputDir|..] == dirs + [stem];
  }

  /** The owner key drops whatever extension the parent directory has, not only `assets`. */
  lemma OwnerKeyAnyExtension(inputDir: Path, dirs: Path, stem: string, dirExt: string, fname: string)
    requires IsName(stem) && '.' !in dirExt && '/' !in dirExt && IsName(fname)
    ensures OwnerKey(inputDir, inputDir + dirs + [stem + "." + dirExt, fname]) == Some(dirs + [stem])
  {
    var d := (inputDir + dirs) + [stem + "." + dirExt];
    assert inputDir + dirs + [stem + "." + dirExt, fname] == d + [fname];
    assert Pop(d + [fname]) == d;
    SetExtensionDotted(inputDir + dirs, stem, dirExt);
    var owner := (inputDir + dirs) + [stem];
    assert owner[..|inputDir|] == inputDir && owner[|inputDir|..] == dirs + [stem];
  }

  /** A name with an extension is not `.DS_Store`, which has none. */
  lemma NotDsStore(base: string, ext: string)
    requires |base| > 0 && '.' !in ext
    ensures base + "." + ext != DsStore
  {
    SplitDotted(base, ext);
    DsStoreHasNoExtension();
  }

  /** The walk of a note `dirs/stem.md`, its directory `dirs/stem.assets` and one media file in it. */
  function NoteWalk(inputDir: Path, dirs: Path, stem: string, fname: string, c: string, m: string,
                    c2: string, m2: string): seq<Entry>
  {
    var dir := AssetsDirPath(inputDir, dirs, stem);
    [FileEntry(NotePath(inputDir, dirs, stem), c, m), DirEntry(dir), FileEntry(dir + [fname], c2, m2)]
  }

  lemma NoteWalkRun(libs: Collaborators, inputDir: Path, idx: Index, dirs: Path, stem: string,
                    base: string, ext: string, c: string, m: string, c2: string, m2: string)
    requires AllNames(dirs) && IsName(stem) && IsName(base) && '.' !in ext && '/' !in ext
    requires ext != MdExt && ext != BinExt && ext != PngExt
    ensures var note := NewNote(libs, inputDir, dirs, stem, c, m);
      var bound := note.(pathSlug := IndexSlug(note.pathSlug), assets := Some([base + "." + ext]),
                         assetsDir := Some(AssetsDirPath(inputDir, dirs, stem)));
      Run(libs, inputDir, idx, NoteWalk(inputDir, dirs, stem, base + "." + ext, c, m, c2, m2)) ==
        (idx.(files := idx.files[dirs + [stem] := bound]), Pass)
  {
    var key := dirs + [stem];
    var dir := AssetsDirPath(inputDir, dirs, stem);
    var fname := base + "." + ext;
    var e1, e2, e3 := FileEntry(NotePath(inputDir, dirs, stem), c, m), DirEntry(dir), FileEntry(dir + [fname], c2, m2);
    var note := NewNote(libs, inputDir, dirs, stem, c, m);
    var moved := note.(pathSlug := IndexSlug(note.pathSlug), assetsDir := Some(dir));
    var bound := moved.(assets := Some([fname]));
    var i1 := idx.(files := idx.files[key := note]);
    var i2 := idx.(files := idx.files[key := moved]);
    var i3 := idx.(files := idx.files[key := bound]);
    NoteThenAssetDir(libs, inputDir, idx, dirs, stem, c, m);
    AssetStep(libs, inputDir, i2, dirs, stem, base, ext, c2, m2);
    assert WithAsset(moved, fname) == bound;
    Overwrite(idx, key, moved, bound);
    RunThree(libs, inputDir, idx, i1, i2, i3, e1, e2, e3);
    assert NoteWalk(inputDir, dirs, stem, fname, c, m, c2, m2) == [e1, e2, e3];
  }

  /** The first two steps of the walk: the note, then its assets directory. */
  lemma NoteThenAssetDir(libs: Collaborators, inputDir: Path, idx: Index, dirs: Path, stem: string, c: string, m: string)
    requires AllNames(dirs) && IsName(stem)
    ensures var key := dirs + [stem];
      var dir := AssetsDirPath(inputDir, dirs, stem);
      var note := NewNote(libs, inputDir, dirs, stem, c, m);
      var i1 := idx.(files := idx.files[key := note]);
      && Step(libs, inputDir, idx, FileEntry(NotePath(inputDir, dirs, stem), c, m)) == Success(i1)
      && Step(libs, inputDir, i1, DirEntry(dir)) ==
         Success(idx.(files := idx.files[key := note.(pathSlug := IndexSlug(note.pathSlug), assetsDir := Some(dir))]))
  {
    var key := dirs + [stem];
    var note := NewNote(libs, inputDir, dirs, stem, c, m);
    NoteStep(libs, inputDir, idx, dirs, stem, c, m);
    var i1 := idx.(files := idx.files[key := note]);
    AssetDirStep(libs, inputDir, i1, dirs, stem);
    Overwrite(idx, key, note, note.(pathSlug := IndexSlug(note.pathSlug), assetsDir := Some(AssetsDirPath(inputDir, dirs, stem))));
  }

  // Solver helper, not a property of the model: writing a key twice keeps the
  // second value, proved apart so that the step definitions are not in scope.
  lemma Overwrite(idx: Index, key: Path, a: FileData, b: FileData)
    ensures idx.(files := idx.files[key := a]).(files := idx.files[key := a][key := b]) ==
      idx.(files := idx.files[key := b])
  {
    assert idx.files[key := a][key := b] == idx.files[key := b];
  }

  /** Three succeeding steps in a row. */
  lemma RunThree(libs: Collaborators, inputDir: Path, i0: Index, i1: Index, i2: Index, i3: Index,
                 e1: Entry, e2: Entry, e3: Entry)
    requires Step(libs, inputDir, i0, e1) == Success(i1)
    requires Step(libs, inputDir, i1, e2) == Success(i2)
    requires Step(libs, inputDir, i2, e3) == Success(i3)
    ensures Run(libs, inputDir, i0, [e1, e2, e3]) == (i3, Pass)
  {
    assert [e1, e2, e3] == [e1] + ([e2] + ([e3] + []));
    RunStep(libs, inputDir, i0, e1, [e2] + ([e3] + []));
    RunStep(libs, inputDir, i1, e2, [e3] + []);
    RunStep(libs, inputDir, i2, e3, []);
  }

  /**
    The walk yields a note before its sibling assets directory and that
    directory's media: the note is indexed, moves into the directory, and lists
    the media by file name; nothing else in the index changes.
  */
  lemma NoteWithAssets(libs: Collaborators, inputDir: Path, idx: Index, dirs: Path, stem: string,
                       base: string, ext: string, c: string, m: string, c2: string, m2: string)
    requires AllNames(dirs) && IsName(stem) && IsName(base) && '.' !in ext && '/' !in ext
    requires ext != MdExt && ext != BinExt && ext != PngExt
    ensures var key := dirs + [stem];
      var fname := base + "." + ext;
      var (after, out) := Run(libs, inputDir, idx, NoteWalk(inputDir, dirs, stem, fname, c, m, c2, m2));
      && out == Pass
      && after.directories == idx.directories
      && after.files.Keys == idx.files.Keys + {key}
      && after.files[key].pathFull == NotePath(inputDir, dirs, stem)
      && after.files[key].name == stem && after.files[key].noteType == Classify(stem)
      && after.files[key].pathSlug == IndexSlug(SlugPath(libs, key))
      && after.files[key].assets == Some([fname])
      && after.files[key].assetsDir == Some(AssetsDirPath(inputDir, dirs, stem))
      && forall k :: k in idx.files && k != key ==> after.files[k] == idx.files[k]
  {
    NoteWalkRun(libs, inputDir, idx, dirs, stem, base, ext, c, m, c2, m2);
  }
}
