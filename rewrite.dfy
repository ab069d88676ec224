/**
  The transformation `CraftDocs::format_markdown` applies to the body of one
  document: reject links into private Craft blocks, drop the first H1 line,
  prepend the Zola frontmatter, then rewrite wiki links, day links, links to
  images in `.assets` directories and `other` code fences, in that order.
  Each replacement reports the matched text when it fails.
*/
module Rewrite {
  import opened Wrappers
  import opened Text
  import opened Paths
  import opened NoteTypes
  import opened Splice
  import opened Patterns
  import opened Dates
  import opened Records

  /** `RE_FIRST_H1.replace(buffer, "")`: the anchored `^\#(.*)\n` drops a leading header line. */
  function RemoveFirstH1(s: string): (r: string)
    ensures |r| <= |s| && r == s[|s| - |r|..]
    ensures r != s <==> |s| > 0 && s[0] == '#' && '\n' in s
    ensures r != s ==> s[|s| - |r| - 1] == '\n' && '\n' !in s[..|s| - |r| - 1]
  {
    if |s| > 0 && s[0] == '#' then
      match FirstIndex(s, '\n')
      case None => s
      case Some(k) => s[k + 1..]
    else s
  }

  /** The TOML-less YAML frontmatter Zola reads: title, dates, weight and the note type glyph. */
  function Frontmatter(fd: FileData): (r: string)
    ensures |r| > 9 && r[..4] == "---\n" && r[|r| - 5..] == "\n---\n"
  {
    "---\ntitle: \"" + fd.name + "\"\ndate: " + fd.createdAt + "\nupdated: " + fd.modifiedAt
      + "\nweight: " + [ToWeight(fd.noteType)] + "\nextra:\n  note_type: " + [AsEmoji(fd.noteType)]
      + "\n---\n"
  }

  /** `replace_all(re, haystack, rep)` with the matches `captures_iter` yields. */
  function ReplaceEvery(p: Pattern, h: string, rep: string -> Result<string, string>): Result<string, string> {
    Splice.Splice(h, AllMatches(p, h, 0), rep)
  }

  // ---------------------------------------------------------------------------
  // The replacements, each given the text of one match

  /** The header anchor of a wiki link name: its `link_name` and the slugified `#header`, if any. */
  function SplitHeader(libs: Collaborators, link: string): (r: (string, Option<string>))
    ensures r.1.None? ==> r.0 == link
    ensures r.1.Some? ==> |r.0| < |link| && |r.1.value| > 0 && r.1.value[0] == '#'
  {
    match FindFrom(HeaderAnchor, link, 0)
    case None => (link, None)
    case Some(sp) =>
      var m := link[sp.start..sp.end];
      var i := AnchorAt(m).value;
      (m[..i], Some("#" + libs.slugify(m[i + 1..])))
  }

  /** The Markdown link `[name](@/input-dir-slug/path-slug#anchor)` to the document stored under `k`. */
  function ZolaTarget(files: map<Path, FileData>, inputDirName: string, libs: Collaborators,
                      k: Path, anchor: string): string
    requires k in files
  {
    "[" + files[k].name + "](@/" + libs.slugify(inputDirName) + "/" + Joined(files[k].pathSlug) + anchor + ")"
  }

  /** `make_zola_link`: a Zola internal link to the document stored under `key`, if there is one. */
  function ZolaLink(files: map<Path, FileData>, inputDirName: string, libs: Collaborators,
                    key: string, header: Option<string>): (r: Option<string>)
    ensures r.Some? <==> ParsePath(key) in files
  {
    var k := ParsePath(key);
    if k in files then Some(ZolaTarget(files, inputDirName, libs, k, header.GetOr(""))) else None
  }

  /** `replace_wiki_link`: drop the block id, split the header anchor, look the key up. */
  function ReplaceWikiLink(files: map<Path, FileData>, inputDirName: string, libs: Collaborators,
                           t: string): (r: Result<string, string>)
    ensures r.Failure? ==> r.error == t
  {
    if !Matches(WikiLink, t) then Failure(t)
    else
      var link := RemoveFirst(UuidV4, t[2..|t| - 2]);
      var (key, header) := SplitHeader(libs, link);
      match ZolaLink(files, inputDirName, libs, key, header)
      case None => Failure(t)
      case Some(z) => Success(z)
  }

  /** A day link whose `yyyy.mm.dd` names no calendar date, such as the 30th of February. */
  predicate InvalidDate(t: string) {
    Matches(DayLink, t) && ParseDate(t[|t| - 11..|t| - 1]).None?
  }

  /** `replace_day_link`: the date of a `day://` link in its short form, and no target. */
  function ReplaceDayLink(t: string): (r: Result<string, string>)
    ensures r.Failure? ==> r.error == t
  {
    if !Matches(DayLink, t) then Failure(t)
    else
      match ParseDate(t[|t| - 11..|t| - 1])
      case None => Failure(t)
      case Some(d) => Success("[" + FormatShort(d) + "](javascript:;)")
  }

  /** `replace_img_asset_link`: keep the `name` and the `file_name`, drop the `.assets` directory. */
  function ReplaceImgAssetLink(t: string): (r: Result<string, string>)
    ensures r.Failure? ==> r.error == t
  {
    if !Matches(ImgAssetLink, t) then Failure(t)
    else
      var a := ImgAssetsAt(t).value;
      var j := ImgNameEnd(t, a).value;
      Success("![" + t[2..j] + "](" + t[a + 8..|t| - 1] + ")")
  }

  /** `replace_all_code_block_other`: a fence with syntax `other` becomes a plain fence. */
  function ReplaceCodeBlockOther(t: string): Result<string, string> {
    Success("```")
  }

  // ---------------------------------------------------------------------------
  // The whole body

  /** The first link into a private Craft block, if the raw body has one. */
  function CraftBlockLinkIn(raw: string): (r: Option<string>)
    ensures r.Some? <==> Occurs(CraftdocsLink, raw)
    ensures r.Some? ==> Matches(CraftdocsLink, r.value)
  {
    FindIffOccurs(CraftdocsLink, raw);
    match FindFrom(CraftdocsLink, raw, 0)
    case None => None
    case Some(sp) => Some(raw[sp.start..sp.end])
  }

  /** The body after the first H1 removal, behind its frontmatter. */
  function Prefixed(fd: FileData, raw: string): string {
    Frontmatter(fd) + RemoveFirstH1(raw)
  }

  /** `replace_wiki_link` against a fixed index, as the closure `replace_all` is given. */
  function WikiRep(files: map<Path, FileData>, inputDirName: string, libs: Collaborators)
    : string -> Result<string, string>
  {
    t => ReplaceWikiLink(files, inputDirName, libs, t)
  }

  /** The wiki link pass; a failure names the document and quotes the unresolved link. */
  function WikiPass(files: map<Path, FileData>, inputDirName: string, libs: Collaborators,
                    path: Path, h: string): (r: Result<string, Error>)
    ensures r.Failure? ==>
      r.error.UnresolvedWikiLink? && r.error.path == path
      && Matches(WikiLink, r.error.text) && ReplaceWikiLink(files, inputDirName, libs, r.error.text).Failure?
  {
    var rep := WikiRep(files, inputDirName, libs);
    ReplaceEveryError(WikiLink, h, rep);
    match ReplaceEvery(WikiLink, h, rep)
    case Success(v) => Success(v)
    case Failure(t) => Failure(UnresolvedWikiLink(path, t))
  }

  /** The day link pass; a failure names the document and quotes the link whose date does not exist. */
  function DayPass(path: Path, h: string): (r: Result<string, Error>)
    ensures r.Failure? ==>
      r.error.InvalidDayLink? && r.error.path == path
      && InvalidDate(r.error.text)
  {
    ReplaceEveryError(DayLink, h, ReplaceDayLink);
    match ReplaceEvery(DayLink, h, ReplaceDayLink)
    case Success(v) => Success(v)
    case Failure(t) =>
      DayLinkFails(t);
      Failure(InvalidDayLink(path, t))
  }

  /** A day link is rejected only for its date. */
  lemma DayLinkFails(t: string)
    requires Matches(DayLink, t) && ReplaceDayLink(t).Failure?
    ensures InvalidDate(t)
  {
  }

  /** The image link pass. */
  function ImagePass(path: Path, h: string): (r: Result<string, Error>)
    ensures r.Failure? ==> r.error.InvalidImageLink? && r.error.path == path
  {
    match ReplaceEvery(ImgAssetLink, h, ReplaceImgAssetLink)
    case Success(v) => Success(v)
    case Failure(t) => Failure(InvalidImageLink(path, t))
  }

  /** The code fence pass. */
  function CodeFencePass(path: Path, h: string): (r: Result<string, Error>)
    ensures r.Failure? ==> r.error.InvalidCodeFence? && r.error.path == path
  {
    match ReplaceEvery(CodeBlockOther, h, ReplaceCodeBlockOther)
    case Success(v) => Success(v)
    case Failure(t) => Failure(InvalidCodeFence(path, t))
  }

  /** The body of one iteration of `format_markdown`'s loop, given the text read from `path_full`. */
  function RewriteBody(files: map<Path, FileData>, inputDirName: string, libs: Collaborators,
                       fd: FileData, raw: string): (r: Result<string, Error>)
    ensures r.Failure? ==> r.error.path == fd.pathFull && !r.error.Unreadable?
  {
    match CraftBlockLinkIn(raw)
    case Some(link) => Failure(CraftBlockLink(fd.pathFull, link))
    case None =>
      var w :- WikiPass(files, inputDirName, libs, fd.pathFull, Prefixed(fd, raw));
      var d :- DayPass(fd.pathFull, w);
      var i :- ImagePass(fd.pathFull, d);
      CodeFencePass(fd.pathFull, i)
  }

  // ---------------------------------------------------------------------------
  // The replacement loop with the three kinds of replacement

  /** Where every replacement reports its own text, a failing pass names one match, whose replacement failed. */
  lemma ReplaceEveryError(p: Pattern, h: string, rep: string -> Result<string, string>)
    requires forall t :: rep(t).Failure? ==> rep(t).error == t
    ensures ReplaceEvery(p, h, rep).Failure? ==>
      Matches(p, ReplaceEvery(p, h, rep).error) && rep(ReplaceEvery(p, h, rep).error).Failure?
  {
    var spans := AllMatches(p, h, 0);
    SpliceFirstError(h, spans, rep, 0);
  }

  /** A replacement that succeeds on every match text makes the whole pass succeed. */
  lemma ReplaceEverySucceeds(p: Pattern, h: string, rep: string -> Result<string, string>)
    requires forall t :: Matches(p, t) ==> rep(t).Success?
    ensures ReplaceEvery(p, h, rep).Success?
  {
    var spans := AllMatches(p, h, 0);
    SpliceFirstError(h, spans, rep, 0);
  }

  /** A pattern that does not occur leaves the text as it is. */
  lemma ReplaceEveryAbsent(p: Pattern, h: string, rep: string -> Result<string, string>)
    requires !Occurs(p, h)
    ensures ReplaceEvery(p, h, rep) == Success(h)
  {
    FindIffOccurs(p, h);
    SpliceNoMatches(h, rep);
  }

  /** A text that is a match as a whole is replaced as a whole. */
  lemma ReplaceEveryWhole(p: Pattern, t: string, rep: string -> Result<string, string>)
    requires Matches(p, t)
    ensures AllMatches(p, t, 0) == [Span(0, |t|)]
    ensures ReplaceEvery(p, t, rep) == rep(t)
  {
    WholeMatch(p, t);
    SpliceSingle(t, Span(0, |t|), rep);
    assert Matched(t, Span(0, |t|)) == t;
    if rep(t).Success? {
      var x := rep(t).value;
      assert t[..0] + x + t[|t|..] == x;
    }
  }

  /** A match text of the image pattern always has both of its groups, so the image pass never fails. */
  lemma ImagePassSucceeds(h: string)
    ensures ReplaceEvery(ImgAssetLink, h, ReplaceImgAssetLink).Success?
  {
    ReplaceEverySucceeds(ImgAssetLink, h, ReplaceImgAssetLink);
  }

  /** The code fence pass never fails. */
  lemma CodeFencePassSucceeds(h: string)
    ensures ReplaceEvery(CodeBlockOther, h, ReplaceCodeBlockOther).Success?
  {
    ReplaceEverySucceeds(CodeBlockOther, h, ReplaceCodeBlockOther);
  }

  /** A fence that opens an `other` block loses its language tag. */
  lemma CodeFenceRewritten(path: Path)
    ensures CodeFencePass(path, FenceOther) == Success("```")
  {
    ReplaceEveryWhole(CodeBlockOther, FenceOther, ReplaceCodeBlockOther);
  }

  /** Inside text without other backticks, the `other` fence is the one match and only it is rewritten. */
  lemma CodeFenceInText(path: Path, pre: string, post: string)
    requires '`' !in pre && '`' !in post
    ensures CodeFencePass(path, pre + FenceOther + post) == Success(pre + "```" + post)
  {
    var s := pre + FenceOther + post;
    var n := |pre|;
    var sp := Span(n, n + 8);
    FencePlaced(pre, post);
    FenceTail(pre, post);
    FenceFoundAt(s, n);
    AllMatchesCons(CodeBlockOther, s, 0);
    assert AllMatches(CodeBlockOther, s, 0) == [sp];
    SpliceSingle(s, sp, ReplaceCodeBlockOther);
    assert s[..n] == pre && s[n + 8..] == post;
  }

  /** The only fence of a text whose other characters are not backticks is the first and last match. */
  lemma FenceFoundAt(s: string, n: nat)
    requires n + 8 <= |s| && s[n..n + 8] == FenceOther
    requires forall j :: 0 <= j < n ==> s[j] != '`'
    requires forall j :: n + 3 <= j < |s| ==> s[j] != '`'
    ensures FindFrom(CodeBlockOther, s, 0) == Some(Span(n, n + 8))
    ensures FindFrom(CodeBlockOther, s, n + 8).None?
  {
    NoFenceIn(s, 0, n);
    FirstMatchNoLater(CodeBlockOther, s, 0, n, n + 8);
    var sp := FindFrom(CodeBlockOther, s, 0).value;
    assert sp.start == n;
    assert s[sp.start..sp.end] == FenceOther;
    NoFenceIn(s, n + 3, |s|);
  }

  /** The fence sits right after `pre`, which has no backtick. */
  lemma FencePlaced(pre: string, post: string)
    requires '`' !in pre
    ensures var s := pre + FenceOther + post;
      && s[|pre|..|pre| + 8] == FenceOther && forall j :: 0 <= j < |pre| ==> s[j] != '`'
  {
    var s := pre + FenceOther + post;
    assert forall j :: 0 <= j < |pre| ==> s[j] == pre[j];
  }

  /** After its three backticks, a fence followed by backtick-free text has no backtick. */
  lemma FenceTail(pre: string, post: string)
    requires '`' !in post
    ensures var s := pre + FenceOther + post;
      forall j :: |pre| + 3 <= j < |s| ==> s[j] != '`'
  {
    var s := pre + FenceOther + post;
    var n := |pre|;
    forall j | n + 3 <= j < |s| ensures s[j] != '`' {
      if j < n + 8 {
        assert s[j] == FenceOther[j - n];
      } else {
        assert s[j] == post[j - n - 8];
      }
    }
  }

  /** A match of the fence pattern starts with a backtick, so none starts where there is none. */
  lemma NoFenceIn(s: string, lo: nat, hi: nat)
    requires lo <= hi <= |s| && forall j :: lo <= j < hi ==> s[j] != '`'
    ensures forall i, k :: lo <= i < hi && i < k <= |s| ==> !Matches(CodeBlockOther, s[i..k])
  {
    forall i, k | lo <= i < hi && i < k <= |s| ensures !Matches(CodeBlockOther, s[i..k]) {
      assert s[i..k][0] == s[i];
    }
  }

  // ---------------------------------------------------------------------------
  // The whole body

  /** A body is rejected for a Craft block link exactly when it has one, and the error quotes that link. */
  lemma CraftLinksRejected(files: map<Path, FileData>, inputDirName: string, libs: Collaborators,
                           fd: FileData, raw: string)
    ensures var r := RewriteBody(files, inputDirName, libs, fd, raw);
      Occurs(CraftdocsLink, raw) <==> r.Failure? && r.error.CraftBlockLink?
    ensures var r := RewriteBody(files, inputDirName, libs, fd, raw);
      r.Failure? && r.error.CraftBlockLink? ==> r.error.path == fd.pathFull && Matches(CraftdocsLink, r.error.text)
  {
    if CraftBlockLinkIn(raw).None? {
      var w := WikiPass(files, inputDirName, libs, fd.pathFull, Prefixed(fd, raw));
      if w.Success? {
        var d := DayPass(fd.pathFull, w.value);
        if d.Success? {
          var i := ImagePass(fd.pathFull, d.value);
        }
      }
    }
  }

  /**
    A failing body quotes the offending match: a wiki link whose key is not
    under `files`, or a day link whose date does not exist. The image and code
    fence passes never fail.
  */
  lemma RewriteErrors(files: map<Path, FileData>, inputDirName: string, libs: Collaborators,
                      fd: FileData, raw: string)
    ensures var r := RewriteBody(files, inputDirName, libs, fd, raw);
      r.Failure? && r.error.UnresolvedWikiLink? ==>
        Matches(WikiLink, r.error.text) && ReplaceWikiLink(files, inputDirName, libs, r.error.text).Failure?
    ensures var r := RewriteBody(files, inputDirName, libs, fd, raw);
      r.Failure? && r.error.InvalidDayLink? ==>
        InvalidDate(r.error.text)
    ensures var r := RewriteBody(files, inputDirName, libs, fd, raw);
      r.Failure? ==> !r.error.InvalidImageLink? && !r.error.InvalidCodeFence?
  {
    if CraftBlockLinkIn(raw).None? {
      var w := WikiPass(files, inputDirName, libs, fd.pathFull, Prefixed(fd, raw));
      if w.Success? {
        var d := DayPass(fd.pathFull, w.value);
        if d.Success? {
          ImagePassSucceeds(d.value);
          CodeFencePassSucceeds(ImagePass(fd.pathFull, d.value).value);
        }
      }
    }
  }

  /** A body without links of any kind is only given its frontmatter, in place of its first H1 line. */
  lemma PlainBodyKept(files: map<Path, FileData>, inputDirName: string, libs: Collaborators,
                      fd: FileData, raw: string)
    requires !Occurs(CraftdocsLink, raw)
    requires var b := Prefixed(fd, raw);
      !Occurs(WikiLink, b) && !Occurs(DayLink, b) && !Occurs(ImgAssetLink, b) && !Occurs(CodeBlockOther, b)
    ensures RewriteBody(files, inputDirName, libs, fd, raw) == Success(Frontmatter(fd) + RemoveFirstH1(raw))
  {
    var b := Prefixed(fd, raw);
    FindIffOccurs(CraftdocsLink, raw);
    ReplaceEveryAbsent(WikiLink, b, WikiRep(files, inputDirName, libs));
    ReplaceEveryAbsent(DayLink, b, ReplaceDayLink);
    ReplaceEveryAbsent(ImgAssetLink, b, ReplaceImgAssetLink);
    ReplaceEveryAbsent(CodeBlockOther, b, ReplaceCodeBlockOther);
  }

  // ---------------------------------------------------------------------------
  // Wiki links

  /** A match of the block id pattern starts with `#^`, so text without that pair has none. */
  lemma NoBlockId(s: string)
    requires forall j :: 0 <= j < |s| - 1 && s[j] == '#' ==> s[j + 1] != '^'
    ensures RemoveFirst(UuidV4, s) == s
  {
    forall i, k | 0 <= i < k <= |s| ensures !Matches(UuidV4, s[i..k]) {
      if k - i == 38 {
        assert s[i..k][0] == s[i] && s[i..k][1] == s[i + 1];
      }
    }
    FindIffOccurs(UuidV4, s);
  }

  /** The block id after a hash-free prefix is the first one, and it is cut out. */
  lemma BlockIdRemoved(pre: string, id: string, post: string)
    requires '#' !in pre && IsBlockIdText(id)
    ensures RemoveFirst(UuidV4, pre + id + post) == pre + post
  {
    var s := pre + id + post;
    assert s[|pre|..|pre| + 38] == id;
    assert FindFrom(UuidV4, s, 0).Some?;
    var v := FindFrom(UuidV4, s, 0).value;
    assert s[v.start..v.end][0] == s[v.start] == '#';
    assert forall j :: 0 <= j < |pre| ==> s[j] == pre[j];
    assert v.start == |pre|;
    assert v.end == |pre| + 38;
    assert s[..|pre|] == pre && s[|pre| + 38..] == post;
  }

  /** A block id has no brackets. */
  lemma BlockIdIsLinkText(id: string)
    requires IsBlockIdText(id)
    ensures LinkText(id)
  {
    forall j | 0 <= j < 38 ensures id[j] != '[' && id[j] != ']' { }
  }

  /** A match of the header anchor pattern has a `#`. */
  lemma AnchorHasHash(t: string)
    requires '#' !in t
    ensures !Matches(HeaderAnchor, t)
  {
    forall j | 0 <= j && j + 1 <= |t| ensures !At(t, j, "#") {
      assert t[j..j + 1] == [t[j]];
    }
  }

  /** Text without a `#` has no header anchor. */
  lemma NoAnchorWithoutHash(libs: Collaborators, s: string)
    requires '#' !in s
    ensures SplitHeader(libs, s) == (s, None)
  {
    forall i, k | 0 <= i < k <= |s| ensures !Matches(HeaderAnchor, s[i..k]) {
      assert forall j :: 0 <= j < k - i ==> s[i..k][j] == s[i + j];
      AnchorHasHash(s[i..k]);
    }
    FindIffOccurs(HeaderAnchor, s);
  }

  /** One line `key#header` splits at its only `#`; the header is slugified. */
  lemma HeaderSplit(libs: Collaborators, key: string, h: string)
    requires |key| > 0 && |h| > 0 && NoNewline(key) && NoNewline(h) && '#' !in h
    ensures SplitHeader(libs, key + "#" + h) == (key, Some("#" + libs.slugify(h)))
  {
    var link := key + "#" + h;
    var i := |key|;
    assert link[i..i + 1] == "#";
    assert At(link, i, "#");
    forall k | i < k <= |link| - 2 ensures !At(link, k, "#") {
      assert link[k..k + 1] == [h[k - i - 1]];
    }
    assert AnchorAt(link) == Some(i);
    assert NoNewline(link);
    WholeMatch(HeaderAnchor, link);
    assert link[0..|link|] == link;
    assert link[..i] == key && link[i + 1..] == h;
  }

  /** Wiki link text that is a match: no brackets inside the double brackets. */
  predicate LinkText(s: string) {
    '[' !in s && ']' !in s
  }

  /** `[[c]]` is a match whose name is `c`; its key and header decide the link. */
  lemma WikiLinkResolves(files: map<Path, FileData>, inputDirName: string, libs: Collaborators,
                         c: string, key: string, header: Option<string>)
    requires |c| > 0 && LinkText(c)
    requires SplitHeader(libs, RemoveFirst(UuidV4, c)) == (key, header)
    ensures var t := "[[" + c + "]]";
      var k := ParsePath(key);
      ReplaceWikiLink(files, inputDirName, libs, t) ==
        if k in files then
          Success(ZolaTarget(files, inputDirName, libs, k, header.GetOr("")))
        else Failure(t)
  {
    var t := "[[" + c + "]]";
    assert t[..2] == "[[" && t[|t| - 2..] == "]]";
    assert forall k :: 2 <= k < |t| - 2 ==> t[k] == c[k - 2];
    assert Matches(WikiLink, t);
    assert t[2..|t| - 2] == c;
  }

  /** `[[key]]` links to the document under `key`, and fails when there is none. */
  lemma WikiLinkPlain(files: map<Path, FileData>, inputDirName: string, libs: Collaborators, key: string)
    requires |key| > 0 && LinkText(key) && '#' !in key
    ensures var t := "[[" + key + "]]";
      var k := ParsePath(key);
      ReplaceWikiLink(files, inputDirName, libs, t) ==
        if k in files then
          Success(ZolaTarget(files, inputDirName, libs, k, ""))
        else Failure(t)
  {
    NoBlockId(key);
    NoAnchorWithoutHash(libs, key);
    WikiLinkResolves(files, inputDirName, libs, key, key, None);
  }

  /** `[[key#^block-id]]`: the block id is dropped and the link goes to the document under `key`. */
  lemma WikiLinkToBlock(files: map<Path, FileData>, inputDirName: string, libs: Collaborators,
                        key: string, id: string)
    requires LinkText(key) && '#' !in key && IsBlockIdText(id)
    ensures var t := "[[" + key + id + "]]";
      var k := ParsePath(key);
      ReplaceWikiLink(files, inputDirName, libs, t) ==
        if k in files then
          Success(ZolaTarget(files, inputDirName, libs, k, ""))
        else Failure(t)
  {
    var c := key + id;
    BlockIdIsLinkText(id);
    assert LinkText(c);
    BlockIdRemoved(key, id, "");
    assert key + id + "" == c && key + "" == key;
    NoAnchorWithoutHash(libs, key);
    Bracketed2(key, id);
    WikiLinkResolves(files, inputDirName, libs, c, key, None);
  }

  /** The name `key#heading` has no block id and splits at its only `#`. */
  lemma HeadingLinkName(libs: Collaborators, key: string, h: string)
    requires |key| > 0 && |h| > 0 && h[0] != '^'
    requires NoNewline(key) && NoNewline(h) && '#' !in key && '#' !in h
    ensures SplitHeader(libs, RemoveFirst(UuidV4, key + "#" + h)) == (key, Some("#" + libs.slugify(h)))
  {
    var c := key + "#" + h;
    assert forall j :: 0 <= j < |key| ==> c[j] == key[j];
    assert forall j :: 0 <= j < |h| ==> c[|key| + 1 + j] == h[j];
    forall j | 0 <= j < |c| - 1 && c[j] == '#' ensures c[j + 1] != '^' {
      assert j == |key|;
      assert c[j + 1] == h[0];
    }
    NoBlockId(c);
    HeaderSplit(libs, key, h);
  }

  /** `[[key#heading]]` links to the document under `key`, at the slugified heading. */
  lemma WikiLinkToHeading(files: map<Path, FileData>, inputDirName: string, libs: Collaborators,
                          key: string, h: string)
    requires |key| > 0 && |h| > 0 && h[0] != '^'
    requires LinkText(key) && LinkText(h) && NoNewline(key) && NoNewline(h) && '#' !in key && '#' !in h
    ensures var t := "[[" + key + "#" + h + "]]";
      var k := ParsePath(key);
      ReplaceWikiLink(files, inputDirName, libs, t) ==
        if k in files then
          Success(ZolaTarget(files, inputDirName, libs, k, "#" + libs.slugify(h)))
        else Failure(t)
  {
    var c := key + "#" + h;
    assert LinkText(c);
    HeadingLinkName(libs, key, h);
    var header := "#" + libs.slugify(h);
    Bracketed3(key, "#", h);
    WikiLinkResolves(files, inputDirName, libs, c, key, Some(header));
  }

  /** `[[key#^block-id#heading]]`: the block id is dropped, and the link goes to the slugified heading of `key`. */
  lemma WikiLinkToBlockAndHeading(files: map<Path, FileData>, inputDirName: string, libs: Collaborators,
                                  key: string, id: string, h: string)
    requires |key| > 0 && |h| > 0 && IsBlockIdText(id)
    requires LinkText(key) && LinkText(h) && NoNewline(key) && NoNewline(h) && '#' !in key && '#' !in h
    ensures var t := "[[" + key + id + "#" + h + "]]";
      var k := ParsePath(key);
      ReplaceWikiLink(files, inputDirName, libs, t) ==
        if k in files then
          Success(ZolaTarget(files, inputDirName, libs, k, "#" + libs.slugify(h)))
        else Failure(t)
  {
    var c := key + id + "#" + h;
    BlockIdIsLinkText(id);
    assert LinkText(c);
    BlockIdRemoved(key, id, "#" + h);
    assert key + id + ("#" + h) == c && key + ("#" + h) == key + "#" + h;
    HeaderSplit(libs, key, h);
    Bracketed4(key, id, "#", h);
    WikiLinkResolves(files, inputDirName, libs, c, key, Some("#" + libs.slugify(h)));
  }

  // Solver helpers, not properties of the model: the text of a wiki link
  // regrouped, proved apart so that the link definitions are not in scope.
  lemma Bracketed2(a: string, b: string)
    ensures "[[" + a + b + "]]" == "[[" + (a + b) + "]]"
  {
  }

  lemma Bracketed3(a: string, b: string, c: string)
    ensures "[[" + a + b + c + "]]" == "[[" + (a + b + c) + "]]"
  {
  }

  lemma Bracketed4(a: string, b: string, c: string, d: string)
    ensures "[[" + a + b + c + d + "]]" == "[[" + (a + b + c + d) + "]]"
  {
  }

  // ---------------------------------------------------------------------------
  // Day links

  /** The text of a day link `[desc](day://date)`. */
  function DayLinkText(desc: string, date: string): string {
    "[" + desc + DayScheme + date + ")"
  }

  /** A day link keeps nothing of its description: it becomes its date in short form, or fails when the date does not exist. */
  lemma DayLinkRewrite(desc: string, date: string)
    requires NoNewline(desc) && IsDateText(date)
    ensures Matches(DayLink, DayLinkText(desc, date))
    ensures ReplaceDayLink(DayLinkText(desc, date)) ==
      match ParseDate(date)
      case None => Failure(DayLinkText(desc, date))
      case Some(d) => Success("[" + FormatShort(d) + "](javascript:;)")
  {
    var t := DayLinkText(desc, date);
    assert t[|t| - 19..|t| - 11] == DayScheme;
    assert t[|t| - 11..|t| - 1] == date;
    assert forall j :: 0 <= j < 10 ==> date[j] != '\n';
    assert NoNewline(t);
  }

  /** A day link to an existing day, written as an export writes it, becomes that day in short form. */
  lemma DayLinkOfDate(desc: string, d: Date)
    requires NoNewline(desc) && d.year < 10000 && IsValidDate(d)
    ensures ReplaceDayLink(DayLinkText(desc, PaddedDate(d))) == Success("[" + FormatShort(d) + "](javascript:;)")
  {
    ParsePadded(d);
    DayLinkRewrite(desc, PaddedDate(d));
  }

  /**
    The example of the documentation, `[Mon, Dec 3](day://2023.12.03)`; the
    date text is `PaddedDate(Date(2023, 12, 3))` and the short form of the day
    is "Sun, Dec 3 '23" (`Dates.FormatExample`): 3 December 2023 is a Sunday.
  */
  lemma DayLinkExample()
    ensures ReplaceDayLink(DayLinkText("Mon, Dec 3", PaddedDate(Date(2023, 12, 3)))) ==
      Success("[" + FormatShort(Date(2023, 12, 3)) + "](javascript:;)")
  {
    DayLinkOfDate("Mon, Dec 3", Date(2023, 12, 3));
  }

  /** A day that does not exist is reported with the whole link. */
  lemma DayLinkInvalid()
    ensures ReplaceDayLink(DayLinkText("x", "2023.02.29")) == Failure(DayLinkText("x", "2023.02.29"))
  {
    FieldValues("2023.02.29");
    assert ParseDate("2023.02.29").None?;
    DayLinkRewrite("x", "2023.02.29");
  }

  /** Two day links on one line form one match of the day link pattern, found as one span. */
  lemma DayLinksJoin(l1: string, l2: string)
    requires Matches(DayLink, l1) && Matches(DayLink, l2)
    ensures Matches(DayLink, l1 + l2)
    ensures AllMatches(DayLink, l1 + l2, 0) == [Span(0, |l1 + l2|)]
    ensures var t := l1 + l2; t[|t| - 11..|t| - 1] == l2[|l2| - 11..|l2| - 1]
  {
    var t := l1 + l2;
    assert t[|t| - 19..|t| - 11] == l2[|l2| - 19..|l2| - 11];
    assert t[|t| - 11..|t| - 1] == l2[|l2| - 11..|l2| - 1];
    assert t[0] == l1[0] && t[|t| - 1] == l2[|l2| - 1];
    WholeMatch(DayLink, t);
  }

  /** The replacement of a day link depends on its date alone. */
  lemma DayLinkDependsOnDate(t1: string, t2: string)
    requires Matches(DayLink, t1) && Matches(DayLink, t2)
    requires t1[|t1| - 11..|t1| - 1] == t2[|t2| - 11..|t2| - 1]
    ensures ReplaceDayLink(t1).Success? <==> ReplaceDayLink(t2).Success?
    ensures ReplaceDayLink(t1).Success? ==> ReplaceDayLink(t1) == ReplaceDayLink(t2)
  {
  }

  /** A day link whose date is that of `l2` is replaced as `l2` is. */
  lemma SameDateReplaced(t: string, l2: string)
    requires Matches(DayLink, t) && Matches(DayLink, l2)
    requires t[|t| - 11..|t| - 1] == l2[|l2| - 11..|l2| - 1]
    ensures ReplaceEvery(DayLink, t, ReplaceDayLink) ==
      if ReplaceDayLink(l2).Success? then ReplaceDayLink(l2) else Failure(t)
  {
    ReplaceEveryWhole(DayLink, t, ReplaceDayLink);
    DayLinkDependsOnDate(t, l2);
  }

  /** Two day links on one line are one greedy match: the line becomes the second link's day. */
  lemma DayLinksOnOneLine(l1: string, l2: string)
    requires Matches(DayLink, l1) && Matches(DayLink, l2)
    ensures ReplaceEvery(DayLink, l1 + l2, ReplaceDayLink) ==
      if ReplaceDayLink(l2).Success? then ReplaceDayLink(l2) else Failure(l1 + l2)
  {
    DayLinksJoin(l1, l2);
    SameDateReplaced(l1 + l2, l2);
  }

  // ---------------------------------------------------------------------------
  // Image links

  /** The text of an image link `![name](dir.assets/file)`. */
  function ImgLinkText(name: string, dir: string, file: string): string {
    "![" + name + LinkOpen + dir + AssetsSegment + file + ")"
  }

  /** The `.assets/` of an image link is found where the file name starts. */
  lemma ImgAssetsFound(name: string, dir: string, file: string)
    requires '/' !in file
    ensures var t := ImgLinkText(name, dir, file);
      ImgAssetsAt(t) == Some(4 + |name| + |dir|)
  {
    var t := ImgLinkText(name, dir, file);
    var p := "![" + name + LinkOpen + dir;
    var a := |p|;
    assert t == p + AssetsSegment + (file + ")");
    assert t[a..a + 8] == AssetsSegment;
    assert At(t, a, AssetsSegment);
    forall k | a < k <= |t| - 9 ensures !At(t, k, AssetsSegment) {
      assert t[k + 7] == file[k + 7 - a - 8];
      assert t[k..k + 8][7] == t[k + 7];
    }
  }

  /** The `](` after the name is the last one before the `.assets/`. */
  lemma ImgNameFound(name: string, dir: string, file: string)
    requires ']' !in dir
    ensures var t := ImgLinkText(name, dir, file);
      ImgNameEnd(t, 4 + |name| + |dir|) == Some(2 + |name|)
  {
    var t := ImgLinkText(name, dir, file);
    var j := 2 + |name|;
    var p := "![" + name;
    assert t == p + LinkOpen + dir + (AssetsSegment + file + ")");
    assert t[j..j + 2] == LinkOpen;
    assert At(t, j, LinkOpen);
    forall k | j < k <= j + |dir| ensures !At(t, k, LinkOpen) {
      if k == j + 1 {
        assert t[k] == '(';
      } else {
        assert t[k] == dir[k - j - 2];
      }
      assert t[k..k + 2][0] == t[k];
    }
  }

  /** An image in an `.assets` directory keeps its name and loses the directory. */
  lemma ImgLinkRewrite(name: string, dir: string, file: string)
    requires NoNewline(name) && NoNewline(dir) && NoNewline(file) && ']' !in dir && '/' !in file
    ensures Matches(ImgAssetLink, ImgLinkText(name, dir, file))
    ensures ReplaceImgAssetLink(ImgLinkText(name, dir, file)) == Success("![" + name + "](" + file + ")")
  {
    var t := ImgLinkText(name, dir, file);
    ImgLinkMatches(name, dir, file);
    ImgAssetsFound(name, dir, file);
    ImgNameFound(name, dir, file);
    ImgLinkParts(name, dir, file);
    var a := ImgAssetsAt(t).value;
    var j := ImgNameEnd(t, a).value;
    assert t[2..j] == name && t[a + 8..|t| - 1] == file;
  }

  /**
    Two image links on one line are one greedy match, whose name runs up to the
    second link's `](`: only the second link loses its directory, and the first
    is kept as it was written.
  */
  lemma ImgLinksOnOneLine(n1: string, d1: string, f1: string, n2: string, d2: string, f2: string)
    requires NoNewline(n1) && NoNewline(d1) && NoNewline(f1)
    requires NoNewline(n2) && NoNewline(d2) && NoNewline(f2) && ']' !in d2 && '/' !in f2
    ensures ReplaceEvery(ImgAssetLink, ImgLinkText(n1, d1, f1) + ImgLinkText(n2, d2, f2), ReplaceImgAssetLink) ==
      Success(ImgLinkText(n1, d1, f1) + "![" + n2 + "](" + f2 + ")")
  {
    var name := n1 + LinkOpen + d1 + AssetsSegment + f1 + ")![" + n2;
    ImgLinksJoin(n1, d1, f1, n2, d2, f2);
    ImgLinkRewrite(name, d2, f2);
    ReplaceEveryWhole(ImgAssetLink, ImgLinkText(name, d2, f2), ReplaceImgAssetLink);
  }

  /** Two image links side by side read as one whose name ends where the second's starts. */
  lemma ImgLinksJoin(n1: string, d1: string, f1: string, n2: string, d2: string, f2: string)
    requires NoNewline(n1) && NoNewline(d1) && NoNewline(f1) && NoNewline(n2)
    ensures var name := n1 + LinkOpen + d1 + AssetsSegment + f1 + ")![" + n2;
      && NoNewline(name)
      && ImgLinkText(n1, d1, f1) + ImgLinkText(n2, d2, f2) == ImgLinkText(name, d2, f2)
      && "![" + name + "](" + f2 + ")" == ImgLinkText(n1, d1, f1) + "![" + n2 + "](" + f2 + ")"
  {
    var name := n1 + LinkOpen + d1 + AssetsSegment + f1 + ")![" + n2;
    var l1 := ImgLinkText(n1, d1, f1);
    assert "![" + name == l1 + "![" + n2;
    assert ImgLinkText(name, d2, f2) == ("![" + name) + (LinkOpen + d2 + AssetsSegment + f2 + ")");
    assert ImgLinkText(n2, d2, f2) == "![" + n2 + (LinkOpen + d2 + AssetsSegment + f2 + ")");
  }

  /** The image link text is a match of the image pattern. */
  lemma ImgLinkMatches(name: string, dir: string, file: string)
    requires NoNewline(name) && NoNewline(dir) && NoNewline(file) && ']' !in dir && '/' !in file
    ensures Matches(ImgAssetLink, ImgLinkText(name, dir, file))
  {
    var t := ImgLinkText(name, dir, file);
    ImgAssetsFound(name, dir, file);
    ImgNameFound(name, dir, file);
    assert t[..2] == "![";
    assert NoNewline(t);
  }

  /** The name and the file name sit where the replacement takes them from. */
  lemma ImgLinkParts(name: string, dir: string, file: string)
    ensures var t := ImgLinkText(name, dir, file);
      var a := 4 + |name| + |dir|;
      t[2..2 + |name|] == name && t[a + 8..|t| - 1] == file
  {
  }

  /** The example of the documentation, `![pic](Notes On Something.assets/pic.jpeg)`. */
  lemma ImgLinkExample()
    ensures ReplaceImgAssetLink(ImgLinkText("pic", "Notes On Something", "pic.jpeg")) ==
      Success("![" + "pic" + "](" + "pic.jpeg" + ")")
  {
    ImgLinkRewrite("pic", "Notes On Something", "pic.jpeg");
  }
}
