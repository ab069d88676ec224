/**
  The regular expressions of the linker, each as a decidable shape of a whole
  match text, and the search that `Regex::captures_iter`, `captures` and
  `replace` perform: leftmost start, and from there the longest match.

  None of the patterns has an anchor or a look-around, so whether `s[i..j]` is
  a match depends on that text alone. For each of them Rust's leftmost-first
  choice among the matches at the leftmost start is the longest one: `.*`
  groups are greedy and followed by a literal suffix that ends the match,
  the wiki link's lazy `+?` runs over bracket-free characters so that its end
  is forced, and the block id and code fence patterns have a fixed length.
*/
module Patterns {
  import opened Wrappers
  import opened Text
  import opened Splice

  datatype Pattern =
    | CraftdocsLink   // \[.*\]\((craftdocs:\/\/open.*)\)
    | WikiLink        // \[\[(?<link_name>[^\[\]]+?)\]\]
    | UuidV4          // \#\^ 8 - 4 -4 3 - [89ABab] 3 - 12
    | HeaderAnchor    // (?<link_name>.+)(\#(?<header>.+))
    | DayLink         // \[(?<desc>.*)\]\((?<day_url>day:\/\/(?<date>\d{4}\.\d{2}\.\d{2}))\)
    | ImgAssetLink    // \!\[(?<name>.*)?\]\((.*\.assets\/)(?<file_name>.*)\)
    | CodeBlockOther  // ```other

  const CraftdocsOpen: string := "](craftdocs://open"
  const DayScheme: string := "](day://"
  const AssetsSegment: string := ".assets/"
  const LinkOpen: string := "]("
  const FenceOther: string := "```other"

  /** `.` of the regex dialect: any character but a line feed. */
  predicate NoNewline(t: string) {
    '\n' !in t
  }

  predicate IsAsciiDigit(c: char) {
    '0' <= c <= '9'
  }

  predicate IsAsciiAlnum(c: char) {
    IsAsciiDigit(c) || 'A' <= c <= 'Z' || 'a' <= c <= 'z'
  }

  predicate AlnumRun(t: string, lo: int, hi: int)
    requires 0 <= lo <= hi <= |t|
  {
    forall k :: lo <= k < hi ==> IsAsciiAlnum(t[k])
  }

  /** `\d{4}\.\d{2}\.\d{2}`. */
  predicate IsDateText(d: string) {
    && |d| == 10
    && IsAsciiDigit(d[0]) && IsAsciiDigit(d[1]) && IsAsciiDigit(d[2]) && IsAsciiDigit(d[3])
    && d[4] == '.' && IsAsciiDigit(d[5]) && IsAsciiDigit(d[6])
    && d[7] == '.' && IsAsciiDigit(d[8]) && IsAsciiDigit(d[9])
  }

  /** `#^` followed by a block id shaped like a version-4 UUID: 38 characters in all. */
  predicate IsBlockIdText(t: string) {
    && |t| == 38
    && t[0] == '#' && t[1] == '^'
    && AlnumRun(t, 2, 10) && t[10] == '-'
    && AlnumRun(t, 11, 15) && t[15] == '-'
    && t[16] == '4' && AlnumRun(t, 17, 20) && t[20] == '-'
    && t[21] in "89ABab" && AlnumRun(t, 22, 25) && t[25] == '-'
    && AlnumRun(t, 26, 38)
  }

  /** The last `.assets/` of an image link that still leaves room for the closing parenthesis. */
  function ImgAssetsAt(t: string): Option<int> {
    LastAt(t, AssetsSegment, 4, |t| - 9)
  }

  /** The end of the greedy `name` group: the last `](` before the chosen `.assets/`. */
  function ImgNameEnd(t: string, a: int): Option<int> {
    LastAt(t, LinkOpen, 2, a - 2)
  }

  /** The last `#` of a header anchor with at least one character on each side. */
  function AnchorAt(t: string): Option<int> {
    LastAt(t, "#", 1, |t| - 2)
  }

  /** The whole of `t` is a match of `p`. */
  predicate Matches(p: Pattern, t: string)
    ensures Matches(p, t) ==> |t| > 0
  {
    match p
    case CraftdocsLink =>
      && |t| >= 20 && NoNewline(t) && t[0] == '[' && t[|t| - 1] == ')'
      && LastAt(t, CraftdocsOpen, 1, |t| - 19).Some?
    case WikiLink =>
      && |t| >= 5 && t[..2] == "[[" && t[|t| - 2..] == "]]"
      && forall k :: 2 <= k < |t| - 2 ==> t[k] != '[' && t[k] != ']'
    case UuidV4 =>
      IsBlockIdText(t)
    case HeaderAnchor =>
      NoNewline(t) && AnchorAt(t).Some?
    case DayLink =>
      && |t| >= 20 && NoNewline(t) && t[0] == '[' && t[|t| - 1] == ')'
      && t[|t| - 19..|t| - 11] == DayScheme && IsDateText(t[|t| - 11..|t| - 1])
    case ImgAssetLink =>
      && |t| >= 13 && NoNewline(t) && t[..2] == "![" && t[|t| - 1] == ')'
      && ImgAssetsAt(t).Some? && ImgNameEnd(t, ImgAssetsAt(t).value).Some?
    case CodeBlockOther =>
      t == FenceOther
  }

  /** The largest `k` in `(i, j]` such that `s[i..k]` is a match. */
  function LongestAt(p: Pattern, s: string, i: nat, j: nat): (r: Option<nat>)
    requires i <= j <= |s|
    ensures r.Some? ==> i < r.value <= j && Matches(p, s[i..r.value])
    ensures r.Some? ==> forall k :: r.value < k <= j ==> !Matches(p, s[i..k])
    ensures r.None? ==> forall k :: i < k <= j ==> !Matches(p, s[i..k])
    decreases j - i
  {
    if j == i then None
    else if Matches(p, s[i..j]) then Some(j)
    else LongestAt(p, s, i, j - 1)
  }

  /** The leftmost match starting at or after `from`, and the longest one there. */
  function FindFrom(p: Pattern, s: string, from: nat): (r: Option<Span>)
    requires from <= |s|
    ensures r.Some? ==> from <= r.value.start < r.value.end <= |s|
    ensures r.Some? ==> Matches(p, s[r.value.start..r.value.end])
    ensures r.Some? ==> forall i, k :: from <= i < r.value.start && i < k <= |s| ==> !Matches(p, s[i..k])
    ensures r.Some? ==> forall k :: r.value.end < k <= |s| ==> !Matches(p, s[r.value.start..k])
    ensures r.None? ==> forall i, k :: from <= i < k <= |s| ==> !Matches(p, s[i..k])
    decreases |s| - from
  {
    if from == |s| then None
    else
      match LongestAt(p, s, from, |s|)
      case Some(k) => Some(Span(from, k))
      case None =>
        var r := FindFrom(p, s, from + 1);
        SkipStart(p, s, from, r);
        r
  }

  /** No match starts at `from`, so the search from `from + 1` is the search from `from`. */
  lemma SkipStart(p: Pattern, s: string, from: nat, r: Option<Span>)
    requires from < |s|
    requires forall k :: from < k <= |s| ==> !Matches(p, s[from..k])
    requires r.Some? ==> forall i, k :: from + 1 <= i < r.value.start && i < k <= |s| ==> !Matches(p, s[i..k])
    requires r.None? ==> forall i, k :: from + 1 <= i < k <= |s| ==> !Matches(p, s[i..k])
    ensures r.Some? ==> forall i, k :: from <= i < r.value.start && i < k <= |s| ==> !Matches(p, s[i..k])
    ensures r.None? ==> forall i, k :: from <= i < k <= |s| ==> !Matches(p, s[i..k])
  {
  }

  /** `captures_iter`: every next search starts where the previous match ended. */
  function AllMatches(p: Pattern, s: string, from: nat): (r: seq<Span>)
    requires from <= |s|
    ensures OrderedFrom(s, r, from)
    ensures forall k :: 0 <= k < |r| ==> r[k].start < r[k].end && Matches(p, Matched(s, r[k]))
    decreases |s| - from
  {
    match FindFrom(p, s, from)
    case None => []
    case Some(sp) =>
      var rest := AllMatches(p, s, sp.end);
      MatchesCons(p, s, from, sp, rest);
      [sp] + rest
  }

  /** A match followed by the matches after it forms the matches from `from`. */
  lemma MatchesCons(p: Pattern, s: string, from: nat, sp: Span, rest: seq<Span>)
    requires from <= sp.start < sp.end <= |s| && Matches(p, Matched(s, sp))
    requires OrderedFrom(s, rest, sp.end)
    requires forall k :: 0 <= k < |rest| ==> rest[k].start < rest[k].end && Matches(p, Matched(s, rest[k]))
    ensures OrderedFrom(s, [sp] + rest, from)
    ensures forall k :: 0 <= k < |[sp] + rest| ==>
      ([sp] + rest)[k].start < ([sp] + rest)[k].end && Matches(p, Matched(s, ([sp] + rest)[k]))
  {
    assert forall k :: 0 <= k < |rest| ==> ([sp] + rest)[k + 1] == rest[k];
  }

  /** `Regex::replace(s, "")`: drop the first match, if any. */
  function RemoveFirst(p: Pattern, s: string): string {
    match FindFrom(p, s, 0)
    case None => s
    case Some(sp) => s[..sp.start] + s[sp.end..]
  }

  // ---------------------------------------------------------------------------
  // Properties of the search

  /** No match is skipped: every match text is either one of the spans or overlaps one that starts no later. */
  lemma {:induction false} NoMatchBetween(p: Pattern, s: string, from: nat, i: nat, k: nat)
    requires from <= i < k <= |s| && Matches(p, s[i..k])
    ensures var r := AllMatches(p, s, from);
      exists m :: 0 <= m < |r| && r[m].start <= i < r[m].end
    decreases |s| - from
  {
    FirstMatchNoLater(p, s, from, i, k);
    var sp := FindFrom(p, s, from).value;
    AllMatchesCons(p, s, from);
    var rest := AllMatches(p, s, sp.end);
    if i >= sp.end {
      NoMatchBetween(p, s, sp.end, i, k);
      var m :| 0 <= m < |rest| && rest[m].start <= i < rest[m].end;
      assert ([sp] + rest)[m + 1] == rest[m];
    } else {
      assert ([sp] + rest)[0] == sp;
    }
  }

  /** A match at `i` means the search from `from` finds one that starts no later. */
  lemma FirstMatchNoLater(p: Pattern, s: string, from: nat, i: nat, k: nat)
    requires from <= i < k <= |s| && Matches(p, s[i..k])
    ensures FindFrom(p, s, from).Some? && FindFrom(p, s, from).value.start <= i
  {
  }

  /** The matches from `from` are the first one and the matches after it. */
  lemma AllMatchesCons(p: Pattern, s: string, from: nat)
    requires from <= |s| && FindFrom(p, s, from).Some?
    ensures FindFrom(p, s, from).value.end <= |s|
    ensures AllMatches(p, s, from) == [FindFrom(p, s, from).value] + AllMatches(p, s, FindFrom(p, s, from).value.end)
  {
  }

  /** A haystack that is a match as a whole is found as one single span. */
  lemma WholeMatch(p: Pattern, s: string)
    requires Matches(p, s)
    ensures FindFrom(p, s, 0) == Some(Span(0, |s|))
    ensures AllMatches(p, s, 0) == [Span(0, |s|)]
  {
    assert s[0..|s|] == s;
    assert FindFrom(p, s, |s|) == None;
  }

  /** Some part of `s` is a match of `p`. */
  predicate Occurs(p: Pattern, s: string) {
    exists i, k | 0 <= i < k <= |s| :: Matches(p, s[i..k])
  }

  /** The search finds something exactly when the pattern occurs, and then every match is replaced. */
  lemma FindIffOccurs(p: Pattern, s: string)
    ensures FindFrom(p, s, 0).Some? <==> Occurs(p, s)
    ensures !Occurs(p, s) <==> AllMatches(p, s, 0) == []
  {
    if Occurs(p, s) {
      var i, k :| 0 <= i < k <= |s| && Matches(p, s[i..k]);
      NoMatchBetween(p, s, 0, i, k);
    }
  }
}
