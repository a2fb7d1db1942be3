/**
 * The presentation listing endpoint (`GET` in app/api/presentations/route.ts).
 *
 * The handler reads the presentations directory, keeps the `.md` files,
 * parses each into frontmatter and body, and answers one summary per file:
 * the slug (the file name without `.md`), a title (the frontmatter title, or
 * one made from the slug), the author and date from the frontmatter, and an
 * excerpt (the first line of the body that is neither blank, a heading nor a
 * rule, cut at 150 characters).  The summaries are then sorted newest first.
 *
 * The directory listing and the parsed files are inputs: `Listing` stands for
 * what `fs.existsSync` and `fs.readdirSync` report, and `read` maps each file
 * name that could be read and parsed to what `gray-matter` returned for it.
 */
module PresentationList {
  import opened Text

  /** The frontmatter fields the listing uses.  A title or author is `None`
      when the key is missing, and may be the empty string otherwise (the
      title's fallback tests truthiness with `IsTruthy`); a date is `None`
      when missing or falsy, and otherwise the timestamp
      `new Date(date).getTime()` gives. */
  datatype Frontmatter = Frontmatter(title: Option<string>, author: Option<string>, date: Option<int>)

  /** One file as parsed: its frontmatter (`data`) and its body (`content`). */
  datatype ParsedFile = ParsedFile(data: Frontmatter, content: string)

  /** One entry of the answer. */
  datatype Summary = Summary(slug: string, title: string, author: Option<string>, date: Option<int>, excerpt: string)

  /** The presentations directory: absent, present but not listable, or its file names. */
  datatype Listing = NoDirectory | Unreadable | Directory(names: seq<string>)

  /** The JSON answer: the summaries, or the 500 "Failed to load presentations". */
  datatype Response = Listed(summaries: seq<Summary>) | LoadFailed

  const MarkdownSuffix := ".md"
  const ExcerptLimit := 150
  const Ellipsis := "..."

  predicate IsMarkdownFile(name: string) {
    EndsWith(name, MarkdownSuffix)
  }

  /** `files.filter(file => file.endsWith('.md'))`: every kept name is a
      markdown file, and each markdown file is kept as often as it is listed. */
  function MarkdownFiles(names: seq<string>): (r: seq<string>)
    ensures forall i :: 0 <= i < |r| ==> IsMarkdownFile(r[i])
    ensures forall n :: multiset(r)[n] == if IsMarkdownFile(n) then multiset(names)[n] else 0
  {
    if names == [] then []
    else
      assert names == [names[0]] + names[1..];
      var rest := MarkdownFiles(names[1..]);
      if IsMarkdownFile(names[0]) then [names[0]] + rest else rest
  }

  /** The filter keeps the listing order: filtering a concatenation is
      concatenating the filtered parts. */
  lemma {:induction false} MarkdownFilesAppend(a: seq<string>, b: seq<string>)
    ensures MarkdownFiles(a + b) == MarkdownFiles(a) + MarkdownFiles(b)
    decreases |a|
  {
    if a != [] {
      var ab := a + b;
      assert ab[0] == a[0] && ab[1..] == a[1..] + b;
      MarkdownFilesAppend(a[1..], b);
      if IsMarkdownFile(a[0]) {
        calc {
          MarkdownFiles(ab);
          [a[0]] + MarkdownFiles(a[1..] + b);
          [a[0]] + (MarkdownFiles(a[1..]) + MarkdownFiles(b));
          ([a[0]] + MarkdownFiles(a[1..])) + MarkdownFiles(b);
        }
      }
    } else {
      assert a + b == b;
    }
  }

  /** A single name is kept exactly when it is a markdown file. */
  lemma MarkdownFilesSingle(n: string)
    ensures MarkdownFiles([n]) == if IsMarkdownFile(n) then [n] else []
  {
    assert [n][1..] == [];
  }

  /** `file.replace(/\.md$/, '')`: the name without its final `.md`, so that
      appending `.md` gives the file name back; other names are unchanged. */
  function SlugOf(file: string): (slug: string)
    ensures IsMarkdownFile(file) ==> slug + MarkdownSuffix == file
    ensures !IsMarkdownFile(file) ==> slug == file
  {
    if IsMarkdownFile(file) then file[..|file| - |MarkdownSuffix|] else file
  }

  /** The test `find` applies to each line: not blank once trimmed (by the
      contract of `Trim`, the same as not blank, as `ExcerptLineIffTrimmed`
      states), and, on the untrimmed line, no leading `#` and no leading
      `---`. */
  predicate IsExcerptLine(line: string) {
    !IsBlank(line) && !StartsWith(line, "#") && !StartsWith(line, "---")
  }

  /** The test, stated with `trim` as the source writes it. */
  lemma ExcerptLineIffTrimmed(line: string)
    ensures IsExcerptLine(line) <==> Trim(line) != "" && !StartsWith(line, "#") && !StartsWith(line, "---")
  {
  }

  /** `lines.find(...)`, as an index: the first line passing the test. */
  function FirstExcerptLine(lines: seq<string>): (r: Option<nat>)
    ensures r.Some? ==> r.value < |lines| && IsExcerptLine(lines[r.value])
    ensures r.Some? ==> forall j :: 0 <= j < r.value ==> !IsExcerptLine(lines[j])
    ensures r.None? ==> forall j :: 0 <= j < |lines| ==> !IsExcerptLine(lines[j])
  {
    if lines == [] then None
    else if IsExcerptLine(lines[0]) then Some(0)
    else match FirstExcerptLine(lines[1..])
      case None => None
      case Some(k) => Some(k + 1)
  }

  /** `line.substring(0, 150)` followed by `...` when that prefix is 150
      characters long: a line of exactly 150 characters gets the marker too. */
  function Shorten(line: string): (r: string)
    ensures |line| < ExcerptLimit ==> r == line
    ensures |line| >= ExcerptLimit ==> r == line[..ExcerptLimit] + Ellipsis
    ensures |r| <= ExcerptLimit + |Ellipsis|
  {
    var cut := line[..if |line| < ExcerptLimit then |line| else ExcerptLimit];
    cut + (if |cut| >= ExcerptLimit then Ellipsis else "")
  }

  /** The excerpt of a body: the shortened first qualifying line of
      `content.split('\n')`, or the empty string when no line qualifies. */
  function Excerpt(content: string): (r: string)
    ensures |r| <= ExcerptLimit + |Ellipsis|
    ensures var lines := Split(content, '\n');
      forall i :: 0 <= i < |lines| && IsExcerptLine(lines[i]) && (forall j :: 0 <= j < i ==> !IsExcerptLine(lines[j]))
        ==> r == Shorten(lines[i])
    ensures var lines := Split(content, '\n');
      r == "" <==> forall j :: 0 <= j < |lines| ==> !IsExcerptLine(lines[j])
  {
    var lines := Split(content, '\n');
    match FirstExcerptLine(lines)
    case None =>
      assert forall j :: 0 <= j < |lines| ==> !IsExcerptLine(lines[j]);
      ""
    case Some(i) =>
      var r := Shorten(lines[i]);
      assert (r == "") <==> forall j :: 0 <= j < |lines| ==> !IsExcerptLine(lines[j]) by {
        assert lines[i] != [];
        assert IsExcerptLine(lines[i]);
      }
      assert forall k :: 0 <= k < |lines| && IsExcerptLine(lines[k]) && (forall j :: 0 <= j < k ==> !IsExcerptLine(lines[j])) ==> k == i;
      r
  }

  /** `\w` of a JavaScript regular expression without the `u` flag. */
  predicate IsWordChar(c: char) {
    'a' <= c <= 'z' || 'A' <= c <= 'Z' || '0' <= c <= '9' || c == '_'
  }

  /** `toUpperCase` on a `\w` character: only `a`..`z` change. */
  function ToUpper(c: char): (u: char)
    ensures 'a' <= c <= 'z' ==> 'A' <= u <= 'Z' && u as int == c as int - 32
    ensures !('a' <= c <= 'z') ==> u == c
  {
    if 'a' <= c <= 'z' then (c as int - 32) as char else c
  }

  /** Index `i` is where `/\b\w/` matches: a word character at the start of
      the string or after a non-word character. */
  predicate StartsWord(s: string, i: int)
    requires 0 <= i < |s|
  {
    IsWordChar(s[i]) && (i == 0 || !IsWordChar(s[i - 1]))
  }

  /** `s.replace(/-/g, ' ')`. */
  function ReplaceHyphens(s: string): (r: string)
    ensures |r| == |s|
    ensures forall i :: 0 <= i < |s| ==> r[i] == if s[i] == '-' then ' ' else s[i]
  {
    if s == [] then [] else [if s[0] == '-' then ' ' else s[0]] + ReplaceHyphens(s[1..])
  }

  /** Whether the character before index `i` is a word character, where
      `afterWord` stands for the one before the start. */
  predicate AfterWordChar(s: string, i: int, afterWord: bool)
    requires 0 <= i <= |s|
  {
    if i == 0 then afterWord else IsWordChar(s[i - 1])
  }

  /** `s.replace(/\b\w/g, l => l.toUpperCase())`, scanning from a point where
      the previous character was (`afterWord`) or was not a word character. */
  function CapitalizeWords(s: string, afterWord: bool): (r: string)
    ensures |r| == |s|
    ensures forall i :: 0 <= i < |s| ==>
      r[i] == if IsWordChar(s[i]) && !AfterWordChar(s, i, afterWord) then ToUpper(s[i]) else s[i]
  {
    if s == [] then []
    else
      var rest := CapitalizeWords(s[1..], IsWordChar(s[0]));
      var r := [if IsWordChar(s[0]) && !afterWord then ToUpper(s[0]) else s[0]] + rest;
      assert forall i :: 0 < i < |s| ==>
        r[i] == rest[i - 1] && s[i] == s[1..][i - 1] && AfterWordChar(s, i, afterWord) == AfterWordChar(s[1..], i - 1, IsWordChar(s[0]));
      r
  }

  /** The title made from a slug: hyphens become spaces and the first
      character of every run of word characters is upper-cased; nothing
      else changes, so the length is the slug's and no hyphen is left. */
  function TitleFromSlug(slug: string): (r: string)
    ensures |r| == |slug|
    ensures '-' !in r
    ensures forall i :: 0 <= i < |slug| ==>
      r[i] == if slug[i] == '-' then ' ' else if StartsWord(slug, i) then ToUpper(slug[i]) else slug[i]
  {
    var spaced := ReplaceHyphens(slug);
    var r := CapitalizeWords(spaced, false);
    CapitalizeSpacedAt(slug, spaced, r);
    r
  }

  lemma CapitalizeSpacedAt(slug: string, spaced: string, r: string)
    requires spaced == ReplaceHyphens(slug) && r == CapitalizeWords(spaced, false)
    ensures |r| == |slug|
    ensures forall i :: 0 <= i < |slug| ==>
      r[i] == if slug[i] == '-' then ' ' else if StartsWord(slug, i) then ToUpper(slug[i]) else slug[i]
    ensures forall i :: 0 <= i < |r| ==> r[i] != '-'
  {
    forall i | 0 <= i < |slug|
      ensures r[i] == if slug[i] == '-' then ' ' else if StartsWord(slug, i) then ToUpper(slug[i]) else slug[i]
    {
      assert IsWordChar(spaced[i]) <==> IsWordChar(slug[i]);
      if i > 0 {
        assert IsWordChar(spaced[i - 1]) <==> IsWordChar(slug[i - 1]);
      }
    }
  }

  /** A string is truthy in JavaScript when it is present and not empty. */
  predicate IsTruthy(s: Option<string>) {
    s.Some? && s.value != ""
  }

  /** The summary of one file (the `map` callback).  The slug gives back the
      name with `.md`; the title is the frontmatter title when truthy and
      otherwise the title made from the slug, of the slug's length and
      without hyphens;
      author and date are passed through; the excerpt is at most 153 long. */
  function Summarise(file: string, parsed: ParsedFile): (s: Summary)
    ensures s.slug == SlugOf(file)
    ensures IsMarkdownFile(file) ==> s.slug + MarkdownSuffix == file
    ensures IsTruthy(parsed.data.title) ==> s.title == parsed.data.title.value
    ensures !IsTruthy(parsed.data.title) ==> s.title == TitleFromSlug(s.slug)
    ensures !IsTruthy(parsed.data.title) ==> |s.title| == |s.slug| && '-' !in s.title
    ensures s.author == parsed.data.author && s.date == parsed.data.date
    ensures s.excerpt == Excerpt(parsed.content) && |s.excerpt| <= ExcerptLimit + |Ellipsis|
  {
    var slug := SlugOf(file);
    Summary(slug,
            if IsTruthy(parsed.data.title) then parsed.data.title.value else TitleFromSlug(slug),
            parsed.data.author,
            parsed.data.date,
            Excerpt(parsed.content))
  }

  /** The sort comparator: 0 unless both summaries have a date, and then
      negative exactly when `a` is the later one, so later dates come first. */
  function CompareByDate(a: Summary, b: Summary): (r: int)
    ensures a.date.None? || b.date.None? ==> r == 0
    ensures a.date.Some? && b.date.Some? ==> (r < 0 <==> a.date.value > b.date.value)
    ensures a.date.Some? && b.date.Some? ==> (r == 0 <==> a.date.value == b.date.value)
  {
    if a.date.Some? && b.date.Some? then b.date.value - a.date.value else 0
  }

  /** Inserts `x` before the first element it does not compare greater than. */
  function InsertByDate(x: Summary, sorted: seq<Summary>): (r: seq<Summary>)
    ensures multiset(r) == multiset{x} + multiset(sorted)
  {
    if sorted == [] || CompareByDate(x, sorted[0]) <= 0 then [x] + sorted
    else
      assert sorted == [sorted[0]] + sorted[1..];
      [sorted[0]] + InsertByDate(x, sorted[1..])
  }

  /** `Array.prototype.sort` with `CompareByDate`, as a stable insertion
      sort: the answer is a permutation of the summaries. */
  function SortByDate(s: seq<Summary>): (r: seq<Summary>)
    ensures multiset(r) == multiset(s)
  {
    if s == [] then []
    else
      assert s == [s[0]] + s[1..];
      InsertByDate(s[0], SortByDate(s[1..]))
  }

  predicate AllDated(s: seq<Summary>) {
    forall i :: 0 <= i < |s| ==> s[i].date.Some?
  }

  /** Every summary has a date and no date is later than one before it. */
  predicate NewestFirst(s: seq<Summary>) {
    AllDated(s) && forall i, j :: 0 <= i < j < |s| ==> s[i].date.value >= s[j].date.value
  }

  /** Any two summaries that both have a date have the same one, so the
      comparator is always 0: at most one summary is dated, or all dated
      summaries share a date. */
  predicate DatesAgree(s: seq<Summary>) {
    forall i, j :: 0 <= i < j < |s| ==> s[i].date.None? || s[j].date.None? || s[i].date == s[j].date
  }

  /** The summaries of `s` whose date is `d`, in their order in `s`. */
  function WithDate(s: seq<Summary>, d: Option<int>): seq<Summary> {
    if s == [] then []
    else (if s[0].date == d then [s[0]] else []) + WithDate(s[1..], d)
  }

  lemma {:induction false} WithDateAppend(a: seq<Summary>, b: seq<Summary>, d: Option<int>)
    ensures WithDate(a + b, d) == WithDate(a, d) + WithDate(b, d)
    decreases |a|
  {
    if a == [] {
      assert a + b == b;
    } else {
      assert (a + b)[0] == a[0] && (a + b)[1..] == a[1..] + b;
      WithDateAppend(a[1..], b, d);
    }
  }

  /** An insertion step passes only summaries dated strictly later than the
      one inserted, so among equal dates the inserted one comes first. */
  lemma {:induction false} InsertByDateStable(x: Summary, t: seq<Summary>, d: Option<int>)
    ensures WithDate(InsertByDate(x, t), d) == (if x.date == d then [x] else []) + WithDate(t, d)
    decreases |t|
  {
    var own := if x.date == d then [x] else [];
    if t == [] || CompareByDate(x, t[0]) <= 0 {
      assert WithDate(InsertByDate(x, t), d) == own + WithDate(t, d) by {
        assert InsertByDate(x, t) == [x] + t;
        WithDateAppend([x], t, d);
        WithDateSingle(x, d);
      }
    } else {
      InsertByDateStable(x, t[1..], d);
      assert InsertByDate(x, t) == [t[0]] + InsertByDate(x, t[1..]);
      assert t == [t[0]] + t[1..];
      PassOverStable(x, t[0], InsertByDate(x, t[1..]), t[1..], d);
    }
  }

  /** The step of `InsertByDateStable` where `x` is carried past `y`, whose
      date differs from its own: if `rest` is `tail` with `x` inserted, as
      far as date `d` is concerned, so is `[y] + rest` for `[y] + tail`. */
  lemma PassOverStable(x: Summary, y: Summary, rest: seq<Summary>, tail: seq<Summary>, d: Option<int>)
    requires y.date != x.date
    requires WithDate(rest, d) == (if x.date == d then [x] else []) + WithDate(tail, d)
    ensures WithDate([y] + rest, d) == (if x.date == d then [x] else []) + WithDate([y] + tail, d)
  {
    WithDateAppend([y], rest, d);
    WithDateAppend([y], tail, d);
    WithDateSingle(y, d);
  }

  lemma WithDateSingle(x: Summary, d: Option<int>)
    ensures WithDate([x], d) == if x.date == d then [x] else []
  {
    assert [x][1..] == [];
  }

  /** The model's sort is stable among equal dates: the summaries with any
      one date keep the order they had in the input.  `Array.prototype.sort`
      promises this only for a consistent comparator, which `CompareByDate`
      is when every summary is dated or when the dates agree. */
  lemma {:induction false} SortByDateStable(s: seq<Summary>, d: Option<int>)
    ensures WithDate(SortByDate(s), d) == WithDate(s, d)
  {
    if s != [] {
      SortByDateStable(s[1..], d);
      InsertByDateStable(s[0], SortByDate(s[1..]), d);
    }
  }

  lemma {:induction false} InsertByDateNewestFirst(x: Summary, t: seq<Summary>)
    requires x.date.Some? && NewestFirst(t)
    ensures NewestFirst(InsertByDate(x, t))
    decreases |t|
  {
    var r := InsertByDate(x, t);
    if t == [] || CompareByDate(x, t[0]) <= 0 {
      assert r == [x] + t;
      assert forall j :: 0 < j < |r| ==> r[j] == t[j - 1];
    } else {
      var rest := InsertByDate(x, t[1..]);
      InsertByDateNewestFirst(x, t[1..]);
      assert r == [t[0]] + rest;
      forall j | 0 <= j < |rest|
        ensures t[0].date.value >= rest[j].date.value
      {
        assert rest[j] in multiset(rest);
        assert rest[j] == x || rest[j] in multiset(t[1..]);
        if rest[j] != x {
          var k :| 0 <= k < |t[1..]| && t[1..][k] == rest[j];
          assert t[k + 1] == rest[j];
        }
      }
    }
  }

  /** When every summary is dated, the sorted answer is newest first. */
  lemma {:induction false} SortByDateNewestFirst(s: seq<Summary>)
    requires AllDated(s)
    ensures NewestFirst(SortByDate(s))
  {
    if s != [] {
      SortByDateNewestFirst(s[1..]);
      InsertByDateNewestFirst(s[0], SortByDate(s[1..]));
    }
  }

  /** When the comparator always answers 0, the sort keeps the listing order. */
  lemma {:induction false} SortByDateKeepsOrderWhenDatesAgree(s: seq<Summary>)
    requires DatesAgree(s)
    ensures SortByDate(s) == s
  {
    if s != [] {
      assert DatesAgree(s[1..]) by {
        forall i, j | 0 <= i < j < |s[1..]|
          ensures s[1..][i].date.None? || s[1..][j].date.None? || s[1..][i].date == s[1..][j].date
        {
          assert s[1..][i] == s[i + 1] && s[1..][j] == s[j + 1];
        }
      }
      var t := s[1..];
      SortByDateKeepsOrderWhenDatesAgree(t);
      assert SortByDate(s) == InsertByDate(s[0], t);
      assert InsertByDate(s[0], t) == [s[0]] + t by {
        if t != [] {
          assert CompareByDate(s[0], t[0]) == 0 by {
            assert t[0] == s[1];
          }
        }
      }
      assert s == [s[0]] + t;
    }
  }

  /** One summary per file, in the order of `files`. */
  function SummariseAll(files: seq<string>, read: map<string, ParsedFile>): (r: seq<Summary>)
    requires forall i :: 0 <= i < |files| ==> files[i] in read
    ensures |r| == |files|
    ensures forall i :: 0 <= i < |files| ==> r[i] == Summarise(files[i], read[files[i]])
  {
    if files == [] then [] else [Summarise(files[0], read[files[0]])] + SummariseAll(files[1..], read)
  }

  /** Every markdown file was read and parsed. */
  predicate AllRead(files: seq<string>, read: map<string, ParsedFile>) {
    forall i :: 0 <= i < |files| ==> files[i] in read
  }

  /** The `GET` handler.  A missing directory answers an empty list, not an
      error; an unlistable directory answers the load failure; otherwise the
      answer is the load failure when a markdown file cannot be read, and
      else a permutation of the summaries of the markdown files. */
  function ListPresentations(listing: Listing, read: map<string, ParsedFile>): (r: Response)
    ensures listing.NoDirectory? ==> r == Listed([])
    ensures listing.Unreadable? ==> r == LoadFailed
    ensures listing.Directory? && r.Listed? ==>
      AllRead(MarkdownFiles(listing.names), read) &&
      multiset(r.summaries) == multiset(SummariseAll(MarkdownFiles(listing.names), read))
  {
    match listing
    case NoDirectory => Listed([])
    case Unreadable => LoadFailed
    case Directory(names) =>
      var files := MarkdownFiles(names);
      if AllRead(files, read) then Listed(SortByDate(SummariseAll(files, read))) else LoadFailed
  }

  /** The listing fails exactly when some listed markdown file has no parsed
      content to summarise. */
  lemma ListPresentationsFailsIffUnread(names: seq<string>, read: map<string, ParsedFile>)
    ensures ListPresentations(Directory(names), read) == LoadFailed <==>
      exists n :: n in names && IsMarkdownFile(n) && n !in read
  {
    var files := MarkdownFiles(names);
    if !AllRead(files, read) {
      var i :| 0 <= i < |files| && files[i] !in read;
      assert multiset(files)[files[i]] > 0;
    } else {
      forall n | n in names && IsMarkdownFile(n) ensures n in read {
        assert multiset(files)[n] > 0;
        assert n in files;
      }
    }
  }

  /** Every listed summary belongs to a markdown file of the directory:
      its slug with `.md` is a listed name, and its excerpt is at most 153
      characters long. */
  lemma ListPresentationsSummaries(names: seq<string>, read: map<string, ParsedFile>)
    requires ListPresentations(Directory(names), read).Listed?
    ensures var r := ListPresentations(Directory(names), read).summaries;
      |r| == |MarkdownFiles(names)| &&
      forall k :: 0 <= k < |r| ==>
        r[k].slug + MarkdownSuffix in names && |r[k].excerpt| <= ExcerptLimit + |Ellipsis|
  {
    var files := MarkdownFiles(names);
    var all := SummariseAll(files, read);
    var r := ListPresentations(Directory(names), read).summaries;
    assert |r| == |multiset(r)| == |multiset(all)| == |all|;
    forall k | 0 <= k < |r|
      ensures r[k].slug + MarkdownSuffix in names && |r[k].excerpt| <= ExcerptLimit + |Ellipsis|
    {
      assert r[k] in multiset(all);
      var m :| 0 <= m < |all| && all[m] == r[k];
      assert files[m] in multiset(files);
      assert multiset(names)[files[m]] > 0;
    }
  }

  /** The order of a listed answer: newest first when every summary is
      dated, summaries with the same date in the order of the directory
      listing (in the model's stable sort; a JavaScript engine keeps it only
      in the two consistent cases), and exactly the listing order when all
      dated summaries share one date. */
  lemma ListPresentationsOrder(names: seq<string>, read: map<string, ParsedFile>)
    requires ListPresentations(Directory(names), read).Listed?
    ensures var all := SummariseAll(MarkdownFiles(names), read);
      var r := ListPresentations(Directory(names), read).summaries;
      && (AllDated(all) ==> NewestFirst(r))
      && (forall d :: WithDate(r, d) == WithDate(all, d))
      && (DatesAgree(all) ==> r == all)
  {
    var all := SummariseAll(MarkdownFiles(names), read);
    forall d ensures WithDate(SortByDate(all), d) == WithDate(all, d) {
      SortByDateStable(all, d);
    }
    if AllDated(all) {
      SortByDateNewestFirst(all);
    }
    if DatesAgree(all) {
      SortByDateKeepsOrderWhenDatesAgree(all);
    }
  }

  /** The title made from the slug of `my-talk.md`. */
  lemma TitleFromSlugExample()
    ensures TitleFromSlug("my-talk") == "My Talk"
  {
  }
}
