/**
  The order in which `process_files` sees the input directory:
  `WalkDir::new(input_dir).sort_by_key(files_first_cmp)`, a pre-order walk
  that yields the input directory itself first and, inside every directory,
  its files (key 0) before its sub-directories (key 2), each group in the
  order the directory lists it (the sort is stable). The file system is a
  tree of `Node`s; timestamps are already formatted.
*/
module DirWalk {
  import opened Paths
  import opened Records

  datatype Node =
    | File(name: string, createdAt: string, modifiedAt: string)
    | Dir(name: string, children: seq<Node>)

  /** The entries of one node inside the directory `parent`. */
  function WalkNode(parent: Path, n: Node): (r: seq<Entry>)
    ensures |r| > 0 && r[0].path == parent + [n.name]
    decreases n
  {
    match n
    case File(name, c, m) => [FileEntry(parent + [name], c, m)]
    case Dir(name, children) =>
      [DirEntry(parent + [name])] + Files(parent + [name], children) + Subdirs(parent + [name], children)
  }

  /** The files among `ns`, in listing order. */
  function Files(dir: Path, ns: seq<Node>): seq<Entry>
    decreases ns
  {
    if |ns| == 0 then []
    else
      match ns[0]
      case File(name, c, m) => [FileEntry(dir + [name], c, m)] + Files(dir, ns[1..])
      case Dir(_, _) => Files(dir, ns[1..])
  }

  /** The walks of the directories among `ns`, in listing order. */
  function Subdirs(dir: Path, ns: seq<Node>): seq<Entry>
    decreases ns
  {
    if |ns| == 0 then []
    else
      match ns[0]
      case File(_, _, _) => Subdirs(dir, ns[1..])
      case Dir(_, _) => WalkNode(dir, ns[0]) + Subdirs(dir, ns[1..])
  }

  /** The contents of a directory, files first. */
  function Contents(dir: Path, ns: seq<Node>): seq<Entry> {
    Files(dir, ns) + Subdirs(dir, ns)
  }

  /** The whole walk: the input directory, then its contents. */
  function WalkRoot(inputDir: Path, ns: seq<Node>): seq<Entry> {
    [DirEntry(inputDir)] + Contents(inputDir, ns)
  }

  /** `e1` comes before `e2` in the walk `w`. */
  predicate Before(w: seq<Entry>, e1: Entry, e2: Entry) {
    exists a, b :: 0 <= a < b < |w| && w[a] == e1 && w[b] == e2
  }

  // ---------------------------------------------------------------------------
  // Properties of the walk

  /** Every entry of a node's walk lies strictly below `parent`. */
  lemma {:induction false} WalkNodeUnder(parent: Path, n: Node)
    ensures forall e :: e in WalkNode(parent, n) ==> |e.path| > |parent| && e.path[..|parent|] == parent
    decreases n
  {
    match n
    case File(name, c, m) =>
      assert (parent + [name])[..|parent|] == parent;
    case Dir(name, children) =>
      var d := parent + [name];
      assert d[..|parent|] == parent;
      FilesUnder(d, children);
      SubdirsUnder(d, children);
      forall e | e in WalkNode(parent, n)
        ensures |e.path| > |parent| && e.path[..|parent|] == parent
      {
        if e != DirEntry(d) {
          assert e in Files(d, children) + Subdirs(d, children);
          assert e.path[..|d|][..|parent|] == e.path[..|parent|];
        }
      }
  }

  lemma {:induction false} FilesUnder(dir: Path, ns: seq<Node>)
    ensures forall e :: e in Files(dir, ns) ==> e.FileEntry? && |e.path| == |dir| + 1 && e.path[..|dir|] == dir
    decreases ns
  {
    if |ns| > 0 {
      FilesUnder(dir, ns[1..]);
      assert (dir + [ns[0].name])[..|dir|] == dir;
    }
  }

  lemma {:induction false} SubdirsUnder(dir: Path, ns: seq<Node>)
    ensures forall e :: e in Subdirs(dir, ns) ==> |e.path| > |dir| && e.path[..|dir|] == dir
    decreases ns
  {
    if |ns| > 0 {
      SubdirsUnder(dir, ns[1..]);
      if ns[0].Dir? {
        WalkNodeUnder(dir, ns[0]);
      }
    }
  }

  /** Every entry of the whole walk other than the first is strictly inside the input directory. */
  lemma WalkRootUnder(inputDir: Path, ns: seq<Node>)
    ensures WalkRoot(inputDir, ns)[0] == DirEntry(inputDir)
    ensures forall e :: e in Contents(inputDir, ns) ==> |e.path| > |inputDir| && e.path[..|inputDir|] == inputDir
  {
    FilesUnder(inputDir, ns);
    SubdirsUnder(inputDir, ns);
  }

  /** A file listed in `ns` is among its files. */
  lemma {:induction false} FileListed(dir: Path, ns: seq<Node>, i: nat)
    requires i < |ns| && ns[i].File?
    ensures FileEntry(dir + [ns[i].name], ns[i].createdAt, ns[i].modifiedAt) in Files(dir, ns)
    decreases i
  {
    if i > 0 {
      FileListed(dir, ns[1..], i - 1);
    }
  }

  /** The walk of a directory listed in `ns` is part of its sub-directory walks. */
  lemma {:induction false} SubdirListed(dir: Path, ns: seq<Node>, j: nat)
    requires j < |ns| && ns[j].Dir?
    ensures forall e :: e in WalkNode(dir, ns[j]) ==> e in Subdirs(dir, ns)
    decreases j
  {
    if j > 0 {
      SubdirListed(dir, ns[1..], j - 1);
    }
  }

  /**
    Files first: in a directory, every file comes before everything under
    any of its sub-directories, whatever the listing order. This is what
    lets a note be indexed before the media of its `.assets` directory.
  */
  lemma FileBeforeSubdir(dir: Path, ns: seq<Node>, i: nat, j: nat, e: Entry)
    requires i < |ns| && ns[i].File? && j < |ns| && ns[j].Dir?
    requires e in WalkNode(dir, ns[j])
    ensures Before(Contents(dir, ns), FileEntry(dir + [ns[i].name], ns[i].createdAt, ns[i].modifiedAt), e)
  {
    var f := Files(dir, ns);
    var s := Subdirs(dir, ns);
    var fe := FileEntry(dir + [ns[i].name], ns[i].createdAt, ns[i].modifiedAt);
    FileListed(dir, ns, i);
    SubdirListed(dir, ns, j);
    var a :| 0 <= a < |f| && f[a] == fe;
    var b :| 0 <= b < |s| && s[b] == e;
    var w := Contents(dir, ns);
    assert w[a] == fe && w[|f| + b] == e;
  }

  /** A directory holding a note `stem.md` and its `stem.assets` directory with one media file. */
  function NoteListing(stem: string, fname: string, c: string, m: string, c2: string, m2: string,
                       dirFirst: bool): seq<Node>
  {
    var note := File(stem + ".md", c, m);
    var assets := Dir(stem + ".assets", [File(fname, c2, m2)]);
    if dirFirst then [assets, note] else [note, assets]
  }

  /** Whichever way the directory lists them, the note is walked first, then its directory, then the media. */
  lemma NoteListingWalk(dir: Path, stem: string, fname: string, c: string, m: string, c2: string, m2: string,
                        dirFirst: bool)
    ensures Contents(dir, NoteListing(stem, fname, c, m, c2, m2, dirFirst)) ==
      [FileEntry(dir + [stem + ".md"], c, m), DirEntry(dir + [stem + ".assets"]),
       FileEntry(dir + [stem + ".assets"] + [fname], c2, m2)]
  {
    var ns := NoteListing(stem, fname, c, m, c2, m2, dirFirst);
    var d := dir + [stem + ".assets"];
    var media: seq<Node> := [File(fname, c2, m2)];
    assert Files(d, media) == [FileEntry(d + [fname], c2, m2)] by {
      assert media[1..] == [];
    }
    assert Subdirs(d, media) == [] by {
      assert media[1..] == [];
    }
    var assets := Dir(stem + ".assets", media);
    var walked := WalkNode(dir, assets);
    assert walked == [DirEntry(d), FileEntry(d + [fname], c2, m2)];
    var fe := FileEntry(dir + [stem + ".md"], c, m);
    assert ns[1..][1..] == [];
    assert Files(dir, ns[1..][1..]) == [] && Subdirs(dir, ns[1..][1..]) == [];
    if dirFirst {
      assert Files(dir, ns[1..]) == [fe] && Subdirs(dir, ns[1..]) == [];
      assert Files(dir, ns) == [fe] && Subdirs(dir, ns) == walked;
    } else {
      assert Files(dir, ns[1..]) == [] && Subdirs(dir, ns[1..]) == walked;
      assert Files(dir, ns) == [fe] && Subdirs(dir, ns) == walked;
    }
  }
}
