/**
  Paths as sequences of components, with the parts of Rust's `Path`/`PathBuf`
  that the linker relies on: `file_name`, `extension`, `set_extension`, `pop`,
  `strip_prefix`, `join`, `push` of a string, and the display of a relative path.
  An absolute path starts with the root component "/".
*/
module Paths {
  import opened Wrappers
  import opened Text

  type Path = seq<string>

  const Root: string := "/"

  /** A normal path component: what `file_name` can return. */
  predicate IsName(c: string) {
    |c| > 0 && '/' !in c && c != "." && c != ".."
  }

  predicate AllNames(p: Path) {
    forall k :: 0 <= k < |p| ==> IsName(p[k])
  }

  /** `Path::file_name`: the last component, unless the path is empty, the root, "." or "..". */
  function FileName(p: Path): (r: Option<string>)
    ensures r.Some? ==> |p| > 0 && r.value == p[|p| - 1] && |r.value| > 0
  {
    if |p| == 0 || p[|p| - 1] in {"", Root, ".", ".."} then None else Some(p[|p| - 1])
  }

  /** Rust's `rsplit_file_at_dot`: a name splits at its last dot unless that dot is its first character. */
  function SplitAtDot(name: string): (string, Option<string>) {
    match LastAt(name, ".", 0, |name| - 1)
    case None => (name, None)
    case Some(i) => if i == 0 then (name, None) else (name[..i], Some(name[i + 1..]))
  }

  function Stem(name: string): string {
    SplitAtDot(name).0
  }

  /** `Path::extension`. */
  function Extension(p: Path): Option<string> {
    match FileName(p)
    case None => None
    case Some(n) => SplitAtDot(n).1
  }

  /** `PathBuf::set_extension`: replace the file name by its stem, plus `.ext` when `ext` is not empty. */
  function SetExtension(p: Path, ext: string): (r: Path)
    ensures |r| == |p|
  {
    match FileName(p)
    case None => p
    case Some(n) => p[..|p| - 1] + [Stem(n) + (if ext == "" then "" else "." + ext)]
  }

  /** `PathBuf::pop`: drop the last component, unless the path is empty or the root. */
  function Pop(p: Path): Path {
    if |p| == 0 || p == [Root] then p else p[..|p| - 1]
  }

  /** `Path::strip_prefix`, comparing component by component. */
  function StripPrefix(p: Path, base: Path): (r: Option<Path>)
    ensures r.Some? <==> |base| <= |p| && p[..|base|] == base
    ensures r.Some? ==> p == base + r.value
  {
    if |base| <= |p| && p[..|base|] == base then Some(p[|base|..]) else None
  }

  /** `Path::join`: an absolute right-hand side replaces the base. */
  function Join(base: Path, rel: Path): Path {
    if |rel| > 0 && rel[0] == Root then rel else base + rel
  }

  /** The pieces of `s` between slashes. */
  function Split(s: string): (r: seq<string>)
    ensures |r| > 0
    decreases |s|
  {
    match FirstIndex(s, '/')
    case None => [s]
    case Some(k) => [s[..k]] + Split(s[k + 1..])
  }

  /** The pieces that are not empty, in order. */
  function NonEmpty(ps: seq<string>): (r: seq<string>)
    ensures |r| <= |ps|
    ensures forall k :: 0 <= k < |r| ==> r[k] != "" && r[k] in ps
  {
    if |ps| == 0 then []
    else if ps[0] == "" then NonEmpty(ps[1..])
    else [ps[0]] + NonEmpty(ps[1..])
  }

  /** `PathBuf::from(&str)`: empty pieces vanish; a `.` piece is kept, not normalised away as `components()` would. */
  function ParsePath(s: string): Path {
    (if |s| > 0 && s[0] == '/' then [Root] else []) + NonEmpty(Split(s))
  }

  /** `PathBuf::push(&str)`: an absolute string replaces the path, a relative one is appended. */
  function Push(p: Path, s: string): Path {
    if |s| > 0 && s[0] == '/' then ParsePath(s) else p + ParsePath(s)
  }

  /** `collect::<PathBuf>()` over strings: push them one after another. */
  function Collect(parts: seq<string>): Path
    decreases |parts|
  {
    if |parts| == 0 then [] else Push(Collect(parts[..|parts| - 1]), parts[|parts| - 1])
  }

  /** The names of a relative path separated by "/", as `display()` prints it. */
  function Joined(p: Path): string
    decreases |p|
  {
    if |p| == 0 then "" else if |p| == 1 then p[0] else p[0] + "/" + Joined(p[1..])
  }

  // ---------------------------------------------------------------------------
  // Foreign collaborators, left uninterpreted.

  /**
    `slug::slugify`, the grapheme segmentation of `unicode_segmentation` and the
    emoji test `emojis::get(g).is_some()`. Nothing is assumed about them.
  */
  datatype Collaborators = Collaborators(
    slugify: string -> string,
    graphemes: string -> seq<string>,
    isEmoji: string -> bool)

  function ConcatNonEmoji(libs: Collaborators, gs: seq<string>): string
    decreases |gs|
  {
    if |gs| == 0 then ""
    else (if libs.isEmoji(gs[0]) then "" else gs[0]) + ConcatNonEmoji(libs, gs[1..])
  }

  /** `strip_emoji` on one component: keep the graphemes that are not emoji. */
  function StripEmojiComponent(libs: Collaborators, c: string): string {
    ConcatNonEmoji(libs, libs.graphemes(c))
  }

  function MapStrip(libs: Collaborators, p: Path): (r: seq<string>)
    ensures |r| == |p| && forall k :: 0 <= k < |p| ==> r[k] == StripEmojiComponent(libs, p[k])
  {
    seq(|p|, k requires 0 <= k < |p| => StripEmojiComponent(libs, p[k]))
  }

  function MapSlugify(libs: Collaborators, p: Path): (r: seq<string>)
    ensures |r| == |p| && forall k :: 0 <= k < |p| ==> r[k] == libs.slugify(p[k])
  {
    seq(|p|, k requires 0 <= k < |p| => libs.slugify(p[k]))
  }

  /** `strip_emoji`: per-component emoji removal, collected back into a path. */
  function StripEmoji(libs: Collaborators, p: Path): Path {
    Collect(MapStrip(libs, p))
  }

  /** `slugify_path`: per-component slugify, collected back into a path. */
  function SlugifyPath(libs: Collaborators, p: Path): Path {
    Collect(MapSlugify(libs, p))
  }

  /** The `path_slug` that `FileData::set_paths` derives from `path_rel`. */
  function SlugPath(libs: Collaborators, rel: Path): Path {
    SetExtension(SlugifyPath(libs, StripEmoji(libs, rel)), "md")
  }

  // ---------------------------------------------------------------------------
  // Lemmas

  lemma {:induction false} SplitJoined(p: Path)
    requires |p| > 0 && forall k :: 0 <= k < |p| ==> |p[k]| > 0 && '/' !in p[k]
    ensures Split(Joined(p)) == p
    decreases |p|
  {
    if |p| > 1 {
      SplitAfterName(p[0], Joined(p[1..]));
      SplitJoined(p[1..]);
    }
  }

  /** A piece without a slash, then a slash, splits off first. */
  lemma SplitAfterName(a: string, b: string)
    requires '/' !in a
    ensures Split(a + "/" + b) == [a] + Split(b)
  {
    var s := a + "/" + b;
    assert s[|a|] == '/';
    assert s[..|a|] == a;
    assert FirstIndex(s, '/') == Some(|a|);
    assert s[|a| + 1..] == b;
  }

  lemma {:induction false} NonEmptyOfNonEmpty(ps: seq<string>)
    requires forall k :: 0 <= k < |ps| ==> ps[k] != ""
    ensures NonEmpty(ps) == ps
    decreases |ps|
  {
    if |ps| > 0 {
      NonEmptyOfNonEmpty(ps[1..]);
    }
  }

  /** Displaying a relative path of names and parsing the text back gives the same path. */
  lemma ParseJoined(p: Path)
    requires AllNames(p)
    ensures ParsePath(Joined(p)) == p
  {
    if |p| == 0 {
      assert Split("") == [""] by { assert FirstIndex("", '/') == None; }
      assert NonEmpty([""]) == [];
    } else {
      SplitJoined(p);
      NonEmptyOfNonEmpty(p);
      JoinedStartsWith(p);
      assert p[0][0] != '/' by { assert p[0][0] in p[0]; }
      assert ParsePath(Joined(p)) == [] + NonEmpty(Split(Joined(p)));
    }
  }

  lemma JoinedStartsWith(p: Path)
    requires |p| > 0 && |p[0]| > 0
    ensures |Joined(p)| > 0 && Joined(p)[0] == p[0][0]
  {
    if |p| > 1 {
      assert Joined(p) == p[0] + ("/" + Joined(p[1..]));
    }
  }

  /** Collecting strings that are names or empty keeps the names, in order, and drops the empty ones. */
  lemma {:induction false} CollectNames(parts: seq<string>)
    requires forall k :: 0 <= k < |parts| ==> parts[k] == "" || IsName(parts[k])
    ensures Collect(parts) == NonEmpty(parts)
    decreases |parts|
  {
    if |parts| > 0 {
      var init, last := parts[..|parts| - 1], parts[|parts| - 1];
      assert parts == init + [last];
      CollectNames(init);
      NonEmptyAppend(init, last);
      if last != "" {
        assert last[0] != '/' by { assert last[0] in last; }
        assert Split(last) == [last] by {
          assert FirstIndex(last, '/') == None;
        }
        var one: seq<string> := [last];
        assert NonEmpty(one) == one by {
          assert |one[1..]| == 0;
        }
        assert ParsePath(last) == [last];
      } else {
        assert Split(last) == [""];
      }
    }
  }

  lemma {:induction false} NonEmptyAppend(ps: seq<string>, x: string)
    ensures NonEmpty(ps + [x]) == NonEmpty(ps) + (if x == "" then [] else [x])
    decreases |ps|
  {
    if |ps| == 0 {
      assert ps + [x] == [x];
      assert |[x][1..]| == 0;
    } else {
      assert (ps + [x])[1..] == ps[1..] + [x];
      NonEmptyAppend(ps[1..], x);
    }
  }

  /** Setting the extension `md` on a path with a file name yields a path whose extension is `md`. */
  lemma SetExtensionMd(p: Path)
    requires FileName(p).Some?
    ensures Extension(SetExtension(p, "md")) == Some("md")
  {
    var n := FileName(p).value;
    var stem := Stem(n);
    StemNonEmpty(n);
    var last := stem + "." + "md";
    assert stem + ("." + "md") == last;
    SplitDotted(stem, "md");
    var q := SetExtension(p, "md");
    assert q == p[..|p| - 1] + [last];
    assert |last| > 2 && q[|q| - 1] == last;
    assert FileName(q) == Some(last);
  }

  lemma StemNonEmpty(n: string)
    requires |n| > 0
    ensures |Stem(n)| > 0
  {
  }

  /** Whenever the slugified path is not empty, the slug path carries the extension `md`. */
  lemma SlugPathHasMdExtension(libs: Collaborators, rel: Path)
    requires FileName(SlugifyPath(libs, StripEmoji(libs, rel))).Some?
    ensures Extension(SlugPath(libs, rel)) == Some("md")
  {
    SetExtensionMd(SlugifyPath(libs, StripEmoji(libs, rel)));
  }

  /**
    When every component survives emoji removal and slugify as a name, the slug
    path keeps the shape of `rel`: component `k` is `slugify(strip_emoji(rel[k]))`,
    except that the last one has its extension replaced by `md`.
  */
  lemma SlugPathComponents(libs: Collaborators, rel: Path)
    requires |rel| > 0
    requires forall k :: 0 <= k < |rel| ==> IsName(StripEmojiComponent(libs, rel[k]))
    requires forall k :: 0 <= k < |rel| ==> IsName(libs.slugify(StripEmojiComponent(libs, rel[k])))
    ensures |SlugPath(libs, rel)| == |rel|
    ensures forall k :: 0 <= k < |rel| - 1 ==>
      SlugPath(libs, rel)[k] == libs.slugify(StripEmojiComponent(libs, rel[k]))
    ensures SlugPath(libs, rel)[|rel| - 1] ==
      Stem(libs.slugify(StripEmojiComponent(libs, rel[|rel| - 1]))) + ".md"
  {
    var slugged := SlugifiedNames(libs, rel);
    SetExtensionOfNames(slugged);
    var sp := SlugPath(libs, rel);
    assert sp == slugged[..|slugged| - 1] + [Stem(slugged[|slugged| - 1]) + ".md"];
    forall k | 0 <= k < |rel| - 1
      ensures sp[k] == libs.slugify(StripEmojiComponent(libs, rel[k]))
    {
      assert sp[k] == slugged[k];
    }
  }

  /** When every component survives as a name, both collects keep every component. */
  lemma SlugifiedNames(libs: Collaborators, rel: Path) returns (slugged: Path)
    requires forall k :: 0 <= k < |rel| ==> IsName(StripEmojiComponent(libs, rel[k]))
    requires forall k :: 0 <= k < |rel| ==> IsName(libs.slugify(StripEmojiComponent(libs, rel[k])))
    ensures slugged == SlugifyPath(libs, StripEmoji(libs, rel)) && AllNames(slugged) && |slugged| == |rel|
    ensures forall k :: 0 <= k < |rel| ==> slugged[k] == libs.slugify(StripEmojiComponent(libs, rel[k]))
  {
    var stripped := MapStrip(libs, rel);
    CollectAllNames(stripped);
    slugged := MapSlugify(libs, stripped);
    CollectAllNames(slugged);
  }

  /**
    `strip_emoji`: when each component strips to a name or to nothing, the
    result holds the stripped components that are not empty, in order; when
    none strips to nothing, component `k` is `rel[k]` without its emoji.
  */
  lemma StripEmojiCollects(libs: Collaborators, p: Path)
    requires forall k :: 0 <= k < |p| ==>
      StripEmojiComponent(libs, p[k]) == "" || IsName(StripEmojiComponent(libs, p[k]))
    ensures StripEmoji(libs, p) == NonEmpty(MapStrip(libs, p))
    ensures |StripEmoji(libs, p)| <= |p|
    ensures forall c :: c in StripEmoji(libs, p) ==>
      c != "" && exists k :: 0 <= k < |p| && c == StripEmojiComponent(libs, p[k])
    ensures (forall k :: 0 <= k < |p| ==> StripEmojiComponent(libs, p[k]) != "") ==>
      |StripEmoji(libs, p)| == |p| && forall k :: 0 <= k < |p| ==> StripEmoji(libs, p)[k] == StripEmojiComponent(libs, p[k])
  {
    var parts := MapStrip(libs, p);
    CollectNames(parts);
    forall c | c in StripEmoji(libs, p)
      ensures c != "" && exists k :: 0 <= k < |p| && c == StripEmojiComponent(libs, p[k])
    {
      var k :| 0 <= k < |parts| && parts[k] == c;
    }
    if forall k :: 0 <= k < |p| ==> StripEmojiComponent(libs, p[k]) != "" {
      NonEmptyOfNonEmpty(parts);
    }
  }

  /**
    `slugify_path`: when each component slugifies to a name or to nothing, the
    result holds the slugs that are not empty, in order; when none is empty,
    component `k` is the slug of `p[k]`.
  */
  lemma SlugifyPathCollects(libs: Collaborators, p: Path)
    requires forall k :: 0 <= k < |p| ==> libs.slugify(p[k]) == "" || IsName(libs.slugify(p[k]))
    ensures SlugifyPath(libs, p) == NonEmpty(MapSlugify(libs, p))
    ensures |SlugifyPath(libs, p)| <= |p|
    ensures forall c :: c in SlugifyPath(libs, p) ==>
      c != "" && exists k :: 0 <= k < |p| && c == libs.slugify(p[k])
    ensures (forall k :: 0 <= k < |p| ==> libs.slugify(p[k]) != "") ==>
      |SlugifyPath(libs, p)| == |p| && forall k :: 0 <= k < |p| ==> SlugifyPath(libs, p)[k] == libs.slugify(p[k])
  {
    var parts := MapSlugify(libs, p);
    CollectNames(parts);
    forall c | c in SlugifyPath(libs, p)
      ensures c != "" && exists k :: 0 <= k < |p| && c == libs.slugify(p[k])
    {
      var k :| 0 <= k < |parts| && parts[k] == c;
    }
    if forall k :: 0 <= k < |p| ==> libs.slugify(p[k]) != "" {
      NonEmptyOfNonEmpty(parts);
    }
  }

  lemma CollectAllNames(parts: seq<string>)
    requires AllNames(parts)
    ensures Collect(parts) == parts
  {
    CollectNames(parts);
    NonEmptyOfNonEmpty(parts);
  }

  lemma SetExtensionOfNames(p: Path)
    requires |p| > 0 && AllNames(p)
    ensures SetExtension(p, "md") == p[..|p| - 1] + [Stem(p[|p| - 1]) + ".md"]
  {
    assert IsName(p[|p| - 1]);
    assert "." + "md" == ".md";
  }

  /** A name `stem.ext` whose extension has no dot splits into `stem` and `ext`. */
  lemma SplitDotted(stem: string, ext: string)
    requires |stem| > 0 && '.' !in ext
    ensures SplitAtDot(stem + "." + ext) == (stem, Some(ext))
  {
    var n := stem + "." + ext;
    assert n[|stem|..|stem| + 1] == ".";
    assert At(n, |stem|, ".");
    forall k | |stem| < k <= |n| - 1 ensures !At(n, k, ".") {
      assert n[k..k + 1] == [ext[k - |stem| - 1]];
    }
    assert n[..|stem|] == stem && n[|stem| + 1..] == ext;
  }

  /** The key of `dir/stem.ext`: the extension is gone, the directories stay. */
  /** A name without a dot has no extension. */
  lemma UndottedName(dir: Path, name: string)
    requires IsName(name) && '.' !in name
    ensures FileName(dir + [name]) == Some(name)
    ensures Extension(dir + [name]) == None
  {
    forall k | 0 <= k <= |name| - 1 ensures !At(name, k, ".") {
      assert name[k..k + 1] == [name[k]];
    }
  }

  lemma SetExtensionDotted(dir: Path, stem: string, ext: string)
    requires IsName(stem) && '.' !in ext && '/' !in ext
    ensures SetExtension(dir + [stem + "." + ext], "") == dir + [stem]
    ensures FileName(dir + [stem + "." + ext]) == Some(stem + "." + ext)
    ensures Extension(dir + [stem + "." + ext]) == Some(ext)
  {
    var n := stem + "." + ext;
    SplitDotted(stem, ext);
    assert n[0] == stem[0];
    assert n != "" && n != Root && n != "." && n != "..";
    var p := dir + [n];
    assert p[|p| - 1] == n && p[..|p| - 1] == dir;
    assert FileName(p) == Some(n);
    assert Stem(n) == stem && stem + "" == stem;
  }
}
