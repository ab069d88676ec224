# craft-to-zola in Dafny: the Craft export indexer and Markdown rewriter

This project models `src/craft_files.rs`, the core of a tool that turns a
Markdown export of a Craft workspace into content for the Zola static site
generator. The Rust source drives `CraftDocs` in two phases, and the model
proves properties of both.

- **Indexing (`process_files`).** The tool walks the export directory, files
  before sub-directories. Each Markdown note becomes a `FileData` record,
  keyed by its path relative to the input directory without the `.md`
  extension. Each note gets a slugified `path_slug` for its Zola link.
  - A directory `X.assets` binds to the note `X`. The note moves to
    `X/index.md` and records the directory.
  - A media file inside `X.assets` is appended to note `X`'s asset list.
    Exceptions: `.bin` files, and `.png` previews other than `_bin_preview`
    ones, are skipped.
  - Every other directory is recorded in a set.
- **Rewriting (`format_markdown`).** Every note body is read and rewritten, in
  this order:
  1. A body that links into a private Craft block (`craftdocs://open`) is
     rejected.
  2. The first H1 is dropped.
  3. YAML frontmatter is prepended: name, dates, weight and note-type emoji.
  4. Four `replace_all` passes run:
     - `[[wiki links]]` become Zola internal links. A block id is removed
       first; a header anchor is slugified.
     - `[desc](day://yyyy.mm.dd)` links become the short date, e.g.
       `[Sun, Dec 3 '23](javascript:;)`.
     - `![name](X.assets/file)` image links lose the directory.
     - ```` ```other ```` fences become plain fences.

  Any failure stops the whole rewrite and leaves the index unchanged.

## The model, module by module

- `Wrappers`: `Option`, `Result` and `Outcome`.
- `Text`: substring search and containment.
- `Paths`: a path is a sequence of components. It gives the `std::path`
  operations the code relies on, with Rust's rules:
  - `file_name`, `extension` and `set_extension`, where the stem is split at
    the last dot that is not the first character;
  - `pop`, `strip_prefix` and `join`;
  - `PathBuf::from(&str)` and `push`, where empty pieces vanish and an
    absolute string replaces the path;
  - `collect`.

  `Paths` also gives `strip_emoji`, `slugify_path` and the slug path of
  `set_paths`. `slugify`, grapheme segmentation and the emoji lookup come
  from other crates. They are left uninterpreted, as fields of a
  `Collaborators` value.
- `NoteTypes`: classification of a name by the first tree/plant glyph it
  contains, with weights and emoji.
- `Records`: `FileData`, the walk's `Entry` values and the error cases.
- `Patterns`: each regular expression of the file is a `Pattern`.
  - `Matches(p, t)` decides whether the whole text `t` is one match.
  - `FindFrom` and `AllMatches` give the leftmost match, preferring the
    longest, and then the successive non-overlapping matches.
  - Every pattern here is unanchored and is a greedy `.*` before a fixed
    suffix, a lazy run of bracket-free characters, or fixed-length. For all
    of these, leftmost-first (the regex crate) and leftmost-longest agree.
  - `RE_FIRST_H1` is anchored and is modelled separately.
- `Splice`: the specification of `replace_all`, and the method
  `ReplaceAll`, which is its loop with the `last_match` cursor.
- `Dates`: the Gregorian calendar; `Date::parse` on `yyyy.mm.dd`; the weekday
  (day 0 = 0000-01-01, a Saturday); the short format.
- `Rewrite`: the four replacements, `make_zola_link`, the passes and the whole
  per-document pipeline, as functions and lemmas.
- `Indexing`: each step of the walk as a function from an `Index`
  (directories and files) to a new one or an error. `Run` applies the entries
  in order and stops at the first failure.
- `DirWalk`: the order `WalkDir` with the files-first sort key produces, over
  a tree of `Node`s.
- `CraftFiles`: the class `CraftDocs`.
  - Its fields are updated in place, as in Rust.
  - Each method is proved to agree with the function of `Indexing` or
    `Rewrite` that specifies it.
  - `FormatMarkdown` works on a copy and commits it only when every document
    succeeds.

Where the code's own comments differ from what the code does, the model
follows the code:

- **Weekday and year.** The comments beside the day link format
  (`src/craft_files.rs:744` and `:763`) show the 3rd of January 2023 as
  `Mon, Jan 3 2023` and `Monday, Jan 3 2023`. The format at lines 745-746
  takes the weekday from the date and writes the year as its last two
  digits, unpadded. That day was a Tuesday, so the code writes
  `Tue, Jan 3 '23` (`Dates.CommentDate`); the year 2005 comes out as `'5`
  (`Dates.FormatUnpadded`).
- **Owner key.** The comment at line 435 says the `assets` extension is
  removed from the directory. The call `set_extension("")` at line 439
  removes whatever extension the directory has (`Indexing.OwnerKeyAnyExtension`).

Points where the code does something easy to overlook:

- **Link text.** The weekday of a day link comes from the date, not from the
  link text: `[Mon, Dec 3](day://2023.12.03)` becomes `Sun, Dec 3 '23`,
  since 2023-12-03 is a Sunday (`Dates.KnownWeekdays`,
  `Rewrite.DayLinkExample`).
- **Other directories.** Only a directory without an extension is recorded
  (`Indexing.PlainDirStep`). One with an extension other than `assets` is
  neither recorded nor bound (`Indexing.OtherExtDirIgnored`).
- **Greedy matches.** Two day links on one line form a single greedy match,
  which becomes the second link's date (`Rewrite.DayLinksOnOneLine`). Two
  asset image links on one line also form one match: only the second loses
  its directory (`Rewrite.ImgLinksOnOneLine`).

## Model

| member | source | states |
|---|---|---|
| NoteTypes.Classify | src/craft_files.rs:143-156 | a name is classified iff it holds one of the three glyphs, and then the glyph of its type occurs in it |
| NoteTypes.FromIndex | src/craft_files.rs:131-141 | indexes 0, 1 and 2 give the types of the priority table in order; every larger index gives no type |
| NoteTypes.ToWeight | src/craft_files.rs:106-113 | the weight is a digit '1' to '4', and '4' exactly for a note without type |
| NoteTypes.AsEmoji | src/craft_files.rs:115-122 | the emoji is a space exactly for a note without type; otherwise it is the glyph the priority table pairs with the type |
| NoteTypes.ClassifyPriority | src/craft_files.rs:143-156 | a name is evergreen iff it contains the evergreen glyph; potted iff it has the potted glyph and not the evergreen one; seedling iff only the seedling glyph of the three; unclassified iff none |
| NoteTypes.ClassifyIsFirstMarked | src/craft_files.rs:143-156 | classification equals an independent search of the priority table (evergreen, potted, seedling) in order |
| NoteTypes.EmojiOccursInName | src/craft_files.rs:115-122 | the emoji of a classified name occurs in that name; an unclassified name's emoji is a space |
| NoteTypes.WeightInvertsFromIndex | src/craft_files.rs:105-141 | weights are '1'..'4' and `from(usize)` of the weight's offset gives the note type back |
| NoteTypes.FromIndexWeight | src/craft_files.rs:131-141 | `from(n)` has weight '1' + n for n < 3 and '4' for every larger n |
| Paths.FileName | src/craft_files.rs:238-246 | a file name is the last, non-empty component of a non-empty path |
| Paths.StripPrefix | src/craft_files.rs:69-71 | succeeds iff the base is a component prefix, and then the path is the base followed by the result |
| Paths.SetExtension | src/craft_files.rs:211 | keeps the number of components |
| Paths.SplitDotted | src/craft_files.rs:211 | `stem.ext` splits into its stem and extension when the stem is not empty |
| Paths.SetExtensionDotted | src/craft_files.rs:211 | for `dir/stem.ext`: the file name, the extension, and `set_extension("")` giving `dir/stem` |
| Paths.SetExtensionMd | src/craft_files.rs:226 | a path with a file name has extension `md` after `set_extension("md")` |
| Paths.NonEmpty | src/craft_files.rs:80 | the pieces kept are the non-empty ones of the input, never more than it has |
| Paths.StripEmojiCollects | src/craft_files.rs:84-93 | when each component strips to a name or to nothing, `strip_emoji` keeps the non-empty stripped components in order and drops the empty ones; when none is empty, component `k` is component `k` without its emoji |
| Paths.SlugifyPathCollects | src/craft_files.rs:76-81 | when each slug is a name or empty, `slugify_path` keeps the non-empty slugs in order and drops the empty ones; when none is empty, component `k` is the slug of component `k` |
| Paths.UndottedName | src/craft_files.rs:354 | a name without a dot has no extension |
| Paths.CollectNames | src/craft_files.rs:80 | collecting strings into a path drops empty ones and keeps real names in order |
| Paths.SlugPathHasMdExtension | src/craft_files.rs:207-232 | a slug path whose slugified components are not all empty ends in `.md` |
| Paths.SlugPathComponents | src/craft_files.rs:207-232 | the slug path keeps the number of components; each is the slug of the emoji-stripped component; the last gets `.md` |
| Paths.SplitJoined | src/craft_files.rs:812 | splitting the displayed path at `/` gives its components back |
| Paths.ParseJoined | src/craft_files.rs:806 | displaying a path of names and parsing the text back as a `PathBuf` gives the same path |
| Patterns.Matches | src/craft_files.rs:17-54 | no pattern matches the empty text |
| Patterns.FindFrom | src/craft_files.rs:667 | the match found lies after the cursor; no match starts earlier; none from the same start is longer; none exists when nothing is found |
| Patterns.AllMatches | src/craft_files.rs:667 | the matches `captures_iter` yields are ordered, disjoint and each a whole match |
| Patterns.NoMatchBetween | src/craft_files.rs:667 | no match is skipped: every match text starts inside one of the yielded matches |
| Patterns.WholeMatch | src/craft_files.rs:667 | a text that is a match is found as one match covering all of it |
| Patterns.FindIffOccurs | src/craft_files.rs:561 | the search finds something iff the pattern occurs somewhere, and yields nothing iff it does not |
| Splice.ReplaceAll | src/craft_files.rs:659-682 | the loop returns exactly the splice of the replacements into the haystack, or the first replacement's error |
| Splice.SpliceFirstError | src/craft_files.rs:659-682 | the result fails iff some replacement fails, and then with the error of the first failing one |
| Splice.SpliceIdentity | src/craft_files.rs:659-682 | replacing every match by its own text leaves the haystack as it was |
| Splice.SpliceSingle | src/craft_files.rs:659-682 | one match: the text before, the replacement, then the text after; or its error |
| Splice.SpliceNoMatches | src/craft_files.rs:679-681 | with no matches the haystack is returned unchanged |
| Splice.SpliceStep | src/craft_files.rs:667-677 | one turn of the loop: copy up to the match, append the replacement, move the cursor past the match |
| Dates.ParseDate | src/craft_files.rs:742-752 | a parsed date is a valid Gregorian date |
| Dates.ParsePadded | src/craft_files.rs:742-752 | parsing the `yyyy.mm.dd` form of any valid date of a four-digit year gives that date |
| Dates.PaddedDate | src/craft_files.rs:742 | the `yyyy.mm.dd` form has the shape the day link pattern accepts |
| Dates.Weekday | src/craft_files.rs:745-746 | the weekday is one of seven |
| Dates.WeekdayOfNextDay | src/craft_files.rs:745-746 | the weekday of the next day is the following weekday |
| Dates.NextWeekday | src/craft_files.rs:745-746 | the day after any day number falls on the next weekday, Sunday wrapping round to Monday |
| Dates.NextDayNumber | src/craft_files.rs:745-746 | the next day of a valid date is valid and one day number later |
| Dates.KnownWeekdays | src/craft_files.rs:745-746 | 2000-01-01 is a Saturday, 2023-12-03 a Sunday, 2024-02-29 a Thursday |
| Dates.DigitsOfNatToString | src/craft_files.rs:745-746 | the unpadded decimal form of a number reads back as that number |
| Dates.NatToStringUnpadded | src/craft_files.rs:745-746 | no leading zero except for zero itself; one digit below 10, two below 100 |
| Dates.FormatShortFields | src/craft_files.rs:745-746 | the short form is a three-letter weekday, a three-letter month, the unpadded day and the last two digits of the year, each number reading back as its value |
| Dates.FormatUnpadded | src/craft_files.rs:745-746 | 2005-01-13 is a Thursday and is written `Thu, Jan 13 '5` |
| Dates.CommentDate | src/craft_files.rs:744-746 | 2023-01-03, the date of the comments beside the format, is a Tuesday and is written `Tue, Jan 3 '23` |
| Dates.FormatExample | src/craft_files.rs:742-764 | 2023-12-03 is written `2023.12.03` and formatted `Sun, Dec 3 '23` |
| Indexing.OwnerKey | src/craft_files.rs:429-440 | a key is found iff the parent directory without extension lies under the input directory, and then it is that directory relative to the input directory |
| Indexing.OwnerKeyAnyExtension | src/craft_files.rs:433-440 | the key of `dirs/stem.ext/file` is `dirs/stem` whatever the extension `ext` |
| Indexing.SetAssetOnFile | src/craft_files.rs:389-467 | a successful step keeps the directories and the set of keys; it fails only for a missing file name, an owner outside the input directory or an owner not indexed; for media it attaches (not `.bin`, a `.png` only when a `_bin_preview`) it succeeds iff the owner note is indexed, and then only that note changes, gaining the file name at the end of its assets |
| Indexing.SetFile | src/craft_files.rs:367-387 | a successful step keeps the directories and loses no key; a note adds exactly its relative path without extension; a file without extension fails |
| Indexing.SetAssetDir | src/craft_files.rs:469-507 | succeeds iff the note named like the directory is indexed, keeping directories and keys; otherwise fails naming that note's key |
| Indexing.SetDirectory | src/craft_files.rs:352-365 | keeps the keys; adds at most the directory's relative path to the directories; fails only outside the input directory or for an assets directory without note |
| Indexing.Step | src/craft_files.rs:328-347 | a successful entry loses no directory and no key; a file leaves the directories as they are and a directory leaves the keys |
| Indexing.Run | src/craft_files.rs:325-350 | the walk loses no directory and no key, and a walk of files only adds no directory |
| Indexing.PlainDirStep | src/craft_files.rs:352-365 | the entry `dirs/name`, a name without dot, adds `dirs/name` to the directories and changes nothing else |
| Indexing.OtherExtDirIgnored | src/craft_files.rs:352-365 | the entry `dirs/stem.ext` with an extension other than `assets` leaves the index unchanged |
| Indexing.WithAsset | src/craft_files.rs:453-457 | the asset list becomes the old list (or none) followed by the file name, nothing else changes |
| Indexing.NewFileData | src/craft_files.rs:207-272 | succeeds iff the path without extension has a file name and lies under the input directory; records full path, relative key, slug path, name, note type, and no assets |
| Indexing.RunAppend | src/craft_files.rs:325-350 | walking two lists of entries is walking the first, then, if it passed, the second from where it stopped |
| Indexing.RunStep | src/craft_files.rs:328-347 | a successful entry moves the walk on to the index it produced |
| Indexing.RunStopsAtFailure | src/craft_files.rs:328-347 | a failing entry ends the walk with its error and the index as it was before it |
| Indexing.IndexSlugShape | src/craft_files.rs:488-492 | the note of an assets directory moves from `dir/name.md` to `dir/name/index.md` |
| Indexing.SkippedMedia | src/craft_files.rs:389-419 | `.bin` files and `.png` files that are not bin previews leave the index unchanged |
| Indexing.OrphanAsset | src/craft_files.rs:413-466 | media it attaches, a `_bin_preview` PNG included, fails with that media's path when its owner note is not indexed |
| Indexing.AssetDirChangesOnlyItsNote | src/craft_files.rs:469-507 | binding an assets directory succeeds iff its note exists; then only that note's slug and assets directory change |
| Indexing.NoteStep | src/craft_files.rs:367-387 | the entry `dir/stem.md` adds the note under key `dir/stem`, with its full path, name, note type and slug path |
| Indexing.AssetDirStep | src/craft_files.rs:352-365 | the entry `dir/stem.assets` moves note `dir/stem` to its index slug and records the directory |
| Indexing.AssetStep | src/craft_files.rs:389-466 | for an extension other than `md` and `bin`, and `png` only for a `_bin_preview`, the entry `dir/stem.assets/base.ext` appends `base.ext` to note `dir/stem` and changes nothing else |
| Indexing.BinPreviewStep | src/craft_files.rs:389-466 | the preview `dir/stem.assets/name_bin_preview.png` is appended to note `dir/stem` like any other media |
| Indexing.DsStoreHasNoExtension | src/craft_files.rs:343 | `.DS_Store` has no extension, since its only dot is its first character |
| Indexing.NoteWalkRun | src/craft_files.rs:325-350 | the note, its assets directory and one media file, walked in order, give the note bound to both and nothing else changed |
| Indexing.NoteWithAssets | src/craft_files.rs:325-507 | after that walk: same directories, one key more, the note at `dir/stem/index.md` with the media and the directory, other notes unchanged |
| DirWalk.WalkNode | src/craft_files.rs:326-327 | a node's walk starts with the node itself |
| DirWalk.WalkNodeUnder | src/craft_files.rs:326-327 | every entry of a node's walk lies strictly below the parent directory |
| DirWalk.FilesUnder | src/craft_files.rs:326-327 | the files of a directory are file entries directly inside it |
| DirWalk.SubdirsUnder | src/craft_files.rs:326-327 | the walks of sub-directories lie strictly below the directory |
| DirWalk.WalkRootUnder | src/craft_files.rs:326-327 | the walk starts with the input directory; every other entry lies inside it |
| DirWalk.FileListed | src/craft_files.rs:326-327 | every listed file is among the directory's files |
| DirWalk.SubdirListed | src/craft_files.rs:326-327 | every listed sub-directory's walk is part of the directory's walk |
| DirWalk.FileBeforeSubdir | src/craft_files.rs:326 | files first: every file comes before everything under any sibling directory, whatever the listing order |
| DirWalk.NoteListingWalk | src/craft_files.rs:326 | a note and its assets directory are walked note, directory, media, in either listing order |
| Rewrite.Frontmatter | src/craft_files.rs:580-596 | the frontmatter opens with `---` on a line of its own and closes with one |
| Rewrite.RemoveFirstH1 | src/craft_files.rs:576 | the result is a suffix of the body; it differs iff the body starts with `#` and has a newline, and then exactly the first line is dropped |
| Rewrite.ZolaLink | src/craft_files.rs:805-816 | a link exists iff the key names an indexed document |
| Rewrite.ReplaceWikiLink | src/craft_files.rs:684-724 | a failure reports the text of the whole match |
| Rewrite.WikiLinkResolves | src/craft_files.rs:684-724 | `[[c]]` links to the document its key names, with its header anchor, and fails iff there is none |
| Rewrite.WikiLinkPlain | src/craft_files.rs:684-724 | `[[key]]` becomes `[name](@/input-dir/slug)` for an indexed key and fails otherwise |
| Rewrite.WikiLinkToBlock | src/craft_files.rs:693-697 | `[[key#^uuid]]` drops the block id and links to the document under `key` |
| Rewrite.WikiLinkToHeading | src/craft_files.rs:699-712 | `[[key#heading]]` links to the document under `key` followed by `#` and the slugified heading |
| Rewrite.HeadingLinkName | src/craft_files.rs:699-712 | `key#heading` has no block id and splits into the key and the slugified anchor |
| Rewrite.NoBlockId | src/craft_files.rs:696 | removing the block id from text without `#^` changes nothing |
| Rewrite.BlockIdRemoved | src/craft_files.rs:696 | the first block id is removed and the text around it is kept |
| Rewrite.SplitHeader | src/craft_files.rs:706-712 | without an anchor the name is kept whole; with one, the name is shorter and the anchor starts with `#` |
| Rewrite.WikiLinkToBlockAndHeading | src/craft_files.rs:693-712 | `[[key#^uuid#heading]]` drops the block id and links to the document under `key` at the slugified heading |
| Rewrite.NoAnchorWithoutHash | src/craft_files.rs:706-712 | a name without `#` has no header anchor |
| Rewrite.HeaderSplit | src/craft_files.rs:706-712 | one line `key#header` splits at its `#`, the header slugified |
| Rewrite.ReplaceDayLink | src/craft_files.rs:730-767 | a failure reports the text of the whole match |
| Rewrite.DayLinkRewrite | src/craft_files.rs:730-767 | a day link is a match; it becomes `[short date](javascript:;)` for an existing date and fails otherwise; its description is discarded |
| Rewrite.DayLinkOfDate | src/craft_files.rs:730-767 | the link to any valid date becomes that date's short form |
| Rewrite.DayLinkExample | src/craft_files.rs:730-767 | `[Mon, Dec 3](day://2023.12.03)` becomes `[Sun, Dec 3 '23](javascript:;)` |
| Rewrite.DayLinkInvalid | src/craft_files.rs:747-752 | a link to 2023-02-29 fails with the link's text |
| Rewrite.DayLinkFails | src/craft_files.rs:747-752 | a day link fails only when its date does not exist |
| Rewrite.DayLinkDependsOnDate | src/craft_files.rs:730-767 | two day links with the same date are replaced alike |
| Rewrite.DayLinksJoin | src/craft_files.rs:49-50 | two day links side by side form one match, found as one span, carrying the second date |
| Rewrite.SameDateReplaced | src/craft_files.rs:612-622 | the day pass over one day link gives the replacement of any link with the same date |
| Rewrite.DayLinksOnOneLine | src/craft_files.rs:612-622 | two day links on one line become the second link's short date |
| Rewrite.ReplaceImgAssetLink | src/craft_files.rs:769-795 | a failure reports the text of the whole match |
| Rewrite.ImgAssetsFound | src/craft_files.rs:51-52 | the greedy `.*\.assets/` ends where the file name starts |
| Rewrite.ImgNameFound | src/craft_files.rs:51-52 | the greedy `name` group ends at the `](` before the directory |
| Rewrite.ImgLinkMatches | src/craft_files.rs:51-52 | `![name](dir.assets/file)` is a match of the image pattern |
| Rewrite.ImgLinkRewrite | src/craft_files.rs:769-795 | `![name](dir.assets/file)` becomes `![name](file)` |
| Rewrite.ImgLinksJoin | src/craft_files.rs:51-52 | two image links side by side read as one whose name runs to the second link's `](` |
| Rewrite.ImgLinksOnOneLine | src/craft_files.rs:629-639 | on one line, only the second of two image links loses its directory; the first is kept as written |
| Rewrite.ImgLinkExample | src/craft_files.rs:769-795 | `![pic](Notes On Something.assets/pic.jpeg)` becomes `![pic](pic.jpeg)` |
| Rewrite.CraftBlockLinkIn | src/craft_files.rs:561 | a craft link is reported iff one occurs, and what is reported is a match |
| Rewrite.WikiPass | src/craft_files.rs:599-609 | a failure names the document and an unresolvable wiki link of the body |
| Rewrite.DayPass | src/craft_files.rs:612-622 | a failure names the document and a day link whose date does not exist |
| Rewrite.ImagePass | src/craft_files.rs:629-639 | a failure is an image-link error of the document |
| Rewrite.CodeFencePass | src/craft_files.rs:641-645 | a failure is a code-fence error of the document |
| Rewrite.ImagePassSucceeds | src/craft_files.rs:769-795 | the image pass never fails |
| Rewrite.CodeFencePassSucceeds | src/craft_files.rs:797-803 | the code fence pass never fails |
| Rewrite.CodeFenceRewritten | src/craft_files.rs:797-803 | the fence ```` ```other ```` becomes ```` ``` ```` |
| Rewrite.CodeFenceInText | src/craft_files.rs:641-645 | in text with no other backtick, the ```` ```other ```` fence is replaced and everything around it kept |
| Rewrite.FenceFoundAt | src/craft_files.rs:54 | where no other character is a backtick, the ```` ```other ```` fence is the first match and nothing matches after it |
| Rewrite.NoFenceIn | src/craft_files.rs:54 | no fence match starts at a character that is not a backtick |
| Rewrite.RewriteBody | src/craft_files.rs:553-645 | every failure names the document's full path and is not a read error |
| Rewrite.CraftLinksRejected | src/craft_files.rs:561-572 | a body fails with a craft-link error iff it contains a craft link, naming the document and the link |
| Rewrite.RewriteErrors | src/craft_files.rs:599-645 | wiki errors carry an unresolvable link; day errors carry a nonexistent date; image and fence errors never happen |
| Rewrite.PlainBodyKept | src/craft_files.rs:553-645 | a body with nothing to rewrite becomes the frontmatter followed by the body without its first H1 |
| Rewrite.ReplaceEveryError | src/craft_files.rs:659-682 | a failing pass reports a match its replacement rejects |
| Rewrite.ReplaceEverySucceeds | src/craft_files.rs:659-682 | a replacement that accepts every match makes the pass succeed |
| Rewrite.ReplaceEveryAbsent | src/craft_files.rs:659-682 | a pattern that does not occur leaves the text unchanged |
| Rewrite.ReplaceEveryWhole | src/craft_files.rs:659-682 | a text that is one match is replaced as a whole |
| CraftFiles.Formatted | src/craft_files.rs:553 | a document fails with a read error iff its text is missing; every failure names the document |
| CraftFiles.ExportNoteWithAssets | src/craft_files.rs:325-350 | the walk of an input directory with one note, its assets directory and one media file indexes that note at `stem/index.md` with the media and the directory, in either listing order |
| CraftFiles.CraftDocs.constructor | src/craft_files.rs:314-323 | the input directory, its file name (or empty), and empty collections |
| CraftFiles.CraftDocs.ProcessFiles | src/craft_files.rs:325-350 | the new fields and the outcome are exactly `Run` over the entries from the old fields |
| CraftFiles.CraftDocs.Visit | src/craft_files.rs:330-347 | one entry updates the fields as `Step` says, or fails and changes nothing |
| CraftFiles.CraftDocs.SetDirectory | src/craft_files.rs:352-365 | the fields become `Indexing.SetDirectory`'s result, or stay unchanged on its error |
| CraftFiles.CraftDocs.SetFile | src/craft_files.rs:367-387 | the fields become `Indexing.SetFile`'s result, or stay unchanged on its error |
| CraftFiles.CraftDocs.SetAssetOnFile | src/craft_files.rs:389-467 | the fields become `Indexing.SetAssetOnFile`'s result, or stay unchanged on its error |
| CraftFiles.CraftDocs.SetAssetDir | src/craft_files.rs:469-507 | the fields become `Indexing.SetAssetDir`'s result, or stay unchanged on its error |
| CraftFiles.CraftDocs.FormatDocument | src/craft_files.rs:553-645 | the rewritten body is exactly `RewriteBody` of the document against the current index |
| CraftFiles.CraftDocs.FormatMarkdown | src/craft_files.rs:550-651 | passes iff every document rewrites; then every document gets its rewritten body and nothing else changes; on failure the files are unchanged and the error is that of some failing document |

## Left out

- The file system is outside the model.
  - `WalkDir` and its I/O errors: the walk's entries, or the tree of `Node`s they come from, are parameters.
  - `metadata`, `created` and `modified`, with their RFC 3339 formatting: timestamps arrive as already formatted strings.
  - `read_to_string`: the bodies are a map from full path to text; a missing entry is the read error.
- `slugify` (the slug crate), `graphemes` (unicode-segmentation) and `emojis::get` are uninterpreted functions. Nothing is assumed about them.
- `\d` in the day link pattern is an ASCII digit. The regex crate's Unicode `\d` also accepts other decimal digits; `Date::parse` would reject those.
- `to_str()` failures on non-UTF-8 names cannot occur, since names are strings.
- `println!` diagnostics before the two `bail!`s are not modelled. The error value is.
- The "missing capture group" errors of `replace_wiki_link`, `replace_day_link` and `replace_img_asset_link` are not modelled. Every match has those groups, so the errors cannot occur.
- The error for a date that parses but cannot be formatted is not modelled. It cannot occur for the years a four-digit field allows.
- Assets are recorded as file names (strings), not as one-component `PathBuf`s.
- `CraftDocs.constructor` takes the `Collaborators` value as an extra parameter.
- Paths are sequences of components with no `.` or `..` normalisation. That is also how `components()` sees the paths the walk yields. A wiki-link key such as `a/./b` keeps its `.` piece, so it does not find the note `a/b` that Rust's path equality would find.
- The `Directory` struct (lines 275-282) is declared but never used by the core.
- `src/zola_files.rs` and `src/main.rs` are not part of this model.
- `CraftFiles.CraftDocs.FormatMarkdown`: the order of a `HashMap` iteration is a nondeterministic choice. So on failure the contract names some failing document, not the first in Rust's order.
- `Paths.SlugPathHasMdExtension`: requires that slugification leaves a file name. When every component slugifies to nothing, `set_extension` on the empty path is a no-op.
