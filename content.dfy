/** The content kinds (`Content.kt`): a file with its bytes and its type as the
    `file -I` command reports it, a directory listing rendered as an HTML page,
    and no content at all. The filesystem and the `file` command are seen
    through a `Disk` value; the listing is given as a snapshot of entries. */
module Contents {
  import opened Results
  import opened Text
  import opened Utf8

  /** An entry of a directory snapshot: the path as `toString()` prints it, and
      whether `Files.isDirectory` holds for it. */
  datatype Entry = Entry(path: string, isDirectory: bool)

  /** `Path.fileName`: the last `/`-separated name of the path. */
  function FileName(path: string): (r: string)
    ensures '/' !in r
  {
    var parts := Split(path, '/');
    parts[|parts| - 1]
  }

  /** The file name is all the text after the last `/`: the path ends with it,
      and it is either the whole path or preceded by a `/` (and, by the
      contract of `FileName`, holds no `/` itself). */
  lemma FileNameIsSuffix(path: string)
    ensures EndsWith(path, FileName(path))
    ensures |FileName(path)| == |path| || path[|path| - |FileName(path)| - 1] == '/'
  {
    SplitJoin(path, '/');
    JoinEndsWithLast(Split(path, '/'), ['/']);
  }

  lemma {:induction false} JoinEndsWithLast(parts: seq<string>, sep: string)
    requires |parts| >= 1
    ensures EndsWith(Join(parts, sep), parts[|parts| - 1])
    ensures |parts| == 1 ==> Join(parts, sep) == parts[0]
    ensures |parts| > 1 ==>
              var whole, last := Join(parts, sep), parts[|parts| - 1];
              |last| + |sep| <= |whole| && whole[|whole| - |last| - |sep|..|whole| - |last|] == sep
  {
    if |parts| > 1 {
      JoinEndsWithLast(parts[1..], sep);
      var tail := Join(parts[1..], sep);
      var last := parts[|parts| - 1];
      var whole := parts[0] + sep + tail;
      assert whole[|whole| - |tail|..] == tail;
      assert whole[|whole| - |last|..] == tail[|tail| - |last|..];
      if |parts| == 2 {
        assert tail == last;
        assert whole[|whole| - |last| - |sep|..|whole| - |last|] == sep;
      } else {
        assert whole[|whole| - |last| - |sep|..|whole| - |last|]
            == tail[|tail| - |last| - |sep|..|tail| - |last|];
      }
    }
  }

  // ---------------------------------------------------------------------------
  // The listing order

  /** The comparator of `DirectoryListing`: `compareByDescending` on being a
      directory, so directories come first, then `compareBy` the file name. */
  predicate EntryLe(a: Entry, b: Entry) {
    if a.isDirectory != b.isDirectory then a.isDirectory else LexLe(FileName(a.path), FileName(b.path))
  }

  lemma EntryTotal(a: Entry, b: Entry)
    ensures EntryLe(a, b) || EntryLe(b, a)
  {
    LexTotal(FileName(a.path), FileName(b.path));
  }

  lemma EntryTransitive(a: Entry, b: Entry, c: Entry)
    requires EntryLe(a, b) && EntryLe(b, c)
    ensures EntryLe(a, c)
  {
    if a.isDirectory == b.isDirectory == c.isDirectory {
      LexTransitive(FileName(a.path), FileName(b.path), FileName(c.path));
    }
  }

  predicate Sorted(s: seq<Entry>) {
    forall i, j :: 0 <= i < j < |s| ==> EntryLe(s[i], s[j])
  }

  /** Puts `e` before the first entry it does not come after. */
  function Insert(e: Entry, s: seq<Entry>): (r: seq<Entry>)
    ensures multiset(r) == multiset(s) + multiset{e}
  {
    if s == [] then [e]
    else if EntryLe(e, s[0]) then [e] + s
    else
      assert s == [s[0]] + s[1..];
      [s[0]] + Insert(e, s[1..])
  }

  /** `files.sortedWith(comparator)`, as an insertion sort. */
  function SortEntries(s: seq<Entry>): (r: seq<Entry>)
    ensures multiset(r) == multiset(s)
  {
    if s == [] then []
    else
      assert s == [s[0]] + s[1..];
      Insert(s[0], SortEntries(s[1..]))
  }

  lemma {:induction false} InsertSorted(e: Entry, s: seq<Entry>)
    requires Sorted(s)
    ensures Sorted(Insert(e, s))
  {
    if s != [] && !EntryLe(e, s[0]) {
      var tail := s[1..];
      assert Sorted(tail) by {
        forall i, j | 0 <= i < j < |tail| ensures EntryLe(tail[i], tail[j]) {
          assert tail[i] == s[i + 1] && tail[j] == s[j + 1];
        }
      }
      InsertSorted(e, tail);
      InsertAfterHead(e, s);
    } else if s != [] {
      InsertAtHead(e, s);
    }
  }

  /** An entry that comes after the head is inserted into the tail, which keeps
      the head first. */
  lemma InsertAfterHead(e: Entry, s: seq<Entry>)
    requires Sorted(s) && s != [] && !EntryLe(e, s[0]) && Sorted(Insert(e, s[1..]))
    ensures Sorted(Insert(e, s))
  {
    EntryTotal(e, s[0]);
    var tail := s[1..];
    var rest := Insert(e, tail);
    forall x | x in rest ensures EntryLe(s[0], x) {
      assert x in multiset(rest);
      if x != e {
        assert x in multiset(tail);
        var k :| 0 <= k < |tail| && tail[k] == x;
        assert s[k + 1] == x;
      }
    }
    SortedCons(s[0], rest);
  }

  /** An entry that does not come after the head goes before it. */
  lemma InsertAtHead(e: Entry, s: seq<Entry>)
    requires Sorted(s) && s != [] && EntryLe(e, s[0])
    ensures Sorted(Insert(e, s))
  {
    forall x | x in s ensures EntryLe(e, x) {
      var k :| 0 <= k < |s| && s[k] == x;
      if k > 0 { EntryTransitive(e, s[0], x); }
    }
    SortedCons(e, s);
  }

  /** An entry that comes before all of a sorted sequence can lead it. */
  lemma SortedCons(e: Entry, s: seq<Entry>)
    requires Sorted(s) && forall x :: x in s ==> EntryLe(e, x)
    ensures Sorted([e] + s)
  {
    var r := [e] + s;
    forall i, j | 0 <= i < j < |r| ensures EntryLe(r[i], r[j]) {
      assert r[j] == s[j - 1];
      if i > 0 { assert r[i] == s[i - 1]; }
    }
  }

  /** The sorted listing is in listing order and holds exactly the snapshot's
      entries, each as often as in the snapshot. */
  lemma {:induction false} SortEntriesSorted(s: seq<Entry>)
    ensures Sorted(SortEntries(s))
    ensures multiset(SortEntries(s)) == multiset(s)
  {
    if s != [] {
      SortEntriesSorted(s[1..]);
      InsertSorted(s[0], SortEntries(s[1..]));
    }
  }

  /** In the sorted listing every directory comes before every other entry, and
      entries of the same kind are in ascending order of file name. */
  lemma ListingOrder(s: seq<Entry>)
    ensures var r := SortEntries(s);
            && (forall i, j :: 0 <= i < j < |r| && r[j].isDirectory ==> r[i].isDirectory)
            && (forall i, j :: 0 <= i < j < |r| && r[i].isDirectory == r[j].isDirectory ==>
                  LexLe(FileName(r[i].path), FileName(r[j].path)))
  {
    SortEntriesSorted(s);
  }

  // ---------------------------------------------------------------------------
  // The listing page

  /** `toHtmlListItem`: a link to the file name, in bold. */
  function ListItem(e: Entry): string {
    "<li><a href=\"" + FileName(e.path) + "\"><b>" + FileName(e.path) + "</b></a></li>"
  }

  /** `joinToString(separator = "") { it.toHtmlListItem() }`. */
  function Items(es: seq<Entry>): string {
    Join(seq(|es|, i requires 0 <= i < |es| => ListItem(es[i])), "")
  }

  /** The items are one list item per entry, in the entries' order. */
  lemma ItemsCons(e: Entry, es: seq<Entry>)
    ensures Items([e] + es) == ListItem(e) + Items(es)
  {
    var parts := seq(|[e] + es|, i requires 0 <= i < |[e] + es| => ListItem(([e] + es)[i]));
    assert parts[1..] == seq(|es|, i requires 0 <= i < |es| => ListItem(es[i]));
  }

  lemma ItemsEmpty()
    ensures Items([]) == ""
  {
  }

  /** No file name of the entries holds a line break. */
  predicate NamesWithoutBreaks(es: seq<Entry>) {
    forall k :: 0 <= k < |es| ==> NoLineBreak(FileName(es[k].path))
  }

  /** Without line breaks in the file names the items hold no line break. */
  lemma {:induction false} ItemsNoLineBreak(es: seq<Entry>)
    requires NamesWithoutBreaks(es)
    ensures NoLineBreak(Items(es))
  {
    if es != [] {
      assert NamesWithoutBreaks(es[1..]) by {
        forall k | 0 <= k < |es[1..]| ensures NoLineBreak(FileName(es[1..][k].path)) {
          assert es[1..][k] == es[k + 1];
        }
      }
      ItemsNoLineBreak(es[1..]);
      ItemsCons(es[0], es[1..]);
      assert [es[0]] + es[1..] == es;
      ListItemNoLineBreak(es[0]);
      NoLineBreakConcat(ListItem(es[0]), Items(es[1..]));
    }
  }

  lemma ListItemNoLineBreak(e: Entry)
    requires NoLineBreak(FileName(e.path))
    ensures NoLineBreak(ListItem(e))
  {
    var n := FileName(e.path);
    var pre, mid, post := "<li><a href=\"", "\"><b>", "</b></a></li>";
    assert NoLineBreak(pre) && NoLineBreak(mid) && NoLineBreak(post);
    NoLineBreakConcat(pre, n);
    NoLineBreakConcat(pre + n, mid);
    NoLineBreakConcat(pre + n + mid, n);
    NoLineBreakConcat(pre + n + mid + n, post);
  }

  /** The margin of the page template, the whitespace before each `|`. */
  const MARGIN: string := "          "
  const CLOSING_INDENT: string := "        "
  const DOCTYPE: string := "<!DOCTYPE html>"
  const BODY_OPEN: string := "<body>"
  const LIST_OPEN: string := "   <ul>"
  const ITEMS_INDENT: string := "      "
  const LIST_CLOSE: string := "   </ul>"
  const BODY_CLOSE: string := "</body>"

  /** The seven lines of the raw string literal of `listFiles`: the items sit
      inside the fourth line. */
  function TemplateLines(items: string): seq<string> {
    [DOCTYPE, MARGIN + "|" + BODY_OPEN, MARGIN + "|" + LIST_OPEN, MARGIN + "|" + ITEMS_INDENT + items,
     MARGIN + "|" + LIST_CLOSE, MARGIN + "|" + BODY_CLOSE, CLOSING_INDENT]
  }

  /** The raw string literal of `listFiles`, before `trimMargin`: its lines
      separated by line feeds. */
  function PageSource(items: string): string {
    Join(TemplateLines(items), "\n")
  }

  /** `listFiles` before the UTF-8 encoding. */
  function ListingText(files: seq<Entry>): string {
    TrimMargin(PageSource(Items(SortEntries(files))))
  }

  /** With file names free of line breaks, the page is the fixed template with
      the sorted items on the fourth line: the margins are cut, the blank last
      line is dropped and the lines are joined by `\n`. */
  lemma ListingPage(files: seq<Entry>)
    requires NamesWithoutBreaks(files)
    ensures ListingText(files)
            == "<!DOCTYPE html>\n<body>\n   <ul>\n      " + Items(SortEntries(files)) + "\n   </ul>\n</body>"
  {
    var r := SortEntries(files);
    SortedNoLineBreak(files);
    ItemsNoLineBreak(r);
    PageTrim(Items(r));
  }

  /** Sorting keeps the file names, so it keeps them free of line breaks. */
  lemma SortedNoLineBreak(files: seq<Entry>)
    requires NamesWithoutBreaks(files)
    ensures NamesWithoutBreaks(SortEntries(files))
  {
    var r := SortEntries(files);
    forall k | 0 <= k < |r| ensures NoLineBreak(FileName(r[k].path)) {
      assert r[k] in multiset(files);
      var j :| 0 <= j < |files| && files[j] == r[k];
    }
  }

  lemma PageTrim(items: string)
    requires NoLineBreak(items)
    ensures TrimMargin(PageSource(items))
            == "<!DOCTYPE html>\n<body>\n   <ul>\n      " + items + "\n   </ul>\n</body>"
  {
    PageLines(items);
    PageKept(items);
    JoinSix([DOCTYPE] + MiddleTexts(items), "\n");
    PageText(items);
  }

  lemma PageText(items: string)
    ensures DOCTYPE + "\n" + BODY_OPEN + "\n" + LIST_OPEN + "\n" + (ITEMS_INDENT + items) + "\n" + LIST_CLOSE + "\n" + BODY_CLOSE
            == "<!DOCTYPE html>\n<body>\n   <ul>\n      " + items + "\n   </ul>\n</body>"
  {
    PageHeadText();
    PageTailText();
    var head, tail := DOCTYPE + "\n" + BODY_OPEN + "\n" + LIST_OPEN + "\n" + ITEMS_INDENT, "\n" + LIST_CLOSE + "\n" + BODY_CLOSE;
    assert DOCTYPE + "\n" + BODY_OPEN + "\n" + LIST_OPEN + "\n" + (ITEMS_INDENT + items) + "\n" + LIST_CLOSE + "\n" + BODY_CLOSE
        == head + items + tail;
  }

  lemma PageHeadText()
    ensures DOCTYPE + "\n" + BODY_OPEN + "\n" + LIST_OPEN + "\n" + ITEMS_INDENT == "<!DOCTYPE html>\n<body>\n   <ul>\n      "
  {
  }

  lemma PageTailText()
    ensures "\n" + LIST_CLOSE + "\n" + BODY_CLOSE == "\n   </ul>\n</body>"
  {
  }
  lemma JoinSix(parts: seq<string>, sep: string)
    requires |parts| == 6
    ensures Join(parts, sep) == parts[0] + sep + parts[1] + sep + parts[2] + sep + parts[3] + sep + parts[4] + sep + parts[5]
  {
    assert parts[1..][1..] == parts[2..];
    assert parts[2..][1..] == parts[3..];
    assert parts[3..][1..] == parts[4..];
    assert parts[4..][1..] == parts[5..];
    assert Join(parts[5..], sep) == parts[5];
    assert Join(parts[4..], sep) == parts[4] + sep + Join(parts[5..], sep);
    assert Join(parts[3..], sep) == parts[3] + sep + Join(parts[4..], sep);
    assert Join(parts[2..], sep) == parts[2] + sep + Join(parts[3..], sep);
    assert Join(parts[1..], sep) == parts[1] + sep + Join(parts[2..], sep);
  }

  /** The template reads back as its seven lines. */
  lemma PageLines(items: string)
    requires NoLineBreak(items)
    ensures Lines(PageSource(items)) == TemplateLines(items)
  {
    var ls := TemplateLines(items);
    assert NoLineBreak(MARGIN + "|" + ITEMS_INDENT);
    NoLineBreakConcat(MARGIN + "|" + ITEMS_INDENT, items);
    assert NoLineBreak(ls[0]) && NoLineBreak(ls[1]) && NoLineBreak(ls[2]) && NoLineBreak(ls[4])
        && NoLineBreak(ls[5]) && NoLineBreak(ls[6]);
    LinesOfJoin(ls);
  }

  /** Lines without breaks, joined by line feeds, read back as themselves. */
  lemma {:induction false} LinesOfJoin(ls: seq<string>)
    requires |ls| >= 1 && forall k :: 0 <= k < |ls| ==> NoLineBreak(ls[k])
    ensures Lines(Join(ls, "\n")) == ls
  {
    if |ls| == 1 {
      LinesSingle(ls[0]);
    } else {
      LinesOfJoin(ls[1..]);
      LinesCons(ls[0], "\n", Join(ls[1..], "\n"));
      assert ls == [ls[0]] + ls[1..];
    }
  }

  /** The texts of the five middle lines after their margins. */
  function MiddleTexts(items: string): seq<string> {
    [BODY_OPEN, LIST_OPEN, ITEMS_INDENT + items, LIST_CLOSE, BODY_CLOSE]
  }

  /** `trimMargin` keeps the first line, cuts the margin of the five middle
      lines and drops the blank last line. */
  lemma PageKept(items: string)
    ensures KeptLines(TemplateLines(items), 0) == [DOCTYPE] + MiddleTexts(items)
  {
    var ls := TemplateLines(items);
    TemplateShape(items);
    KeptMiddle(ls, MARGIN, MiddleTexts(items), 1);
    FirstLineKept(ls);
  }

  /** A first line that starts with neither whitespace nor `|` is kept whole. */
  lemma FirstLineKept(ls: seq<string>)
    requires |ls| >= 2 && ls[0] != [] && !IsWhitespace(ls[0][0]) && ls[0][0] != '|'
    ensures KeptLines(ls, 0) == [ls[0]] + KeptLines(ls, 1)
  {
    assert FirstNonWhitespace(ls[0]) == Some(0);
    assert ls[0][0..] == ls[0];
  }

  /** The middle lines of the template are margin, `|` and text; the last is blank. */
  lemma TemplateShape(items: string)
    ensures var ls, texts := TemplateLines(items), MiddleTexts(items);
            && |ls| == |texts| + 2 && IsBlank(MARGIN) && IsBlank(ls[|ls| - 1])
            && ls[0] != [] && !IsWhitespace(ls[0][0]) && ls[0][0] != '|' 
            && forall k :: 0 <= k < |texts| ==> ls[k + 1] == MARGIN + "|" + texts[k]
  {
    var ls, texts := TemplateLines(items), MiddleTexts(items);
    assert IsBlank(MARGIN) && IsBlank(CLOSING_INDENT) && DOCTYPE[0] == '<';
    assert ls[3] == MARGIN + "|" + texts[2] by { assert ls[3] == MARGIN + "|" + ITEMS_INDENT + items; }
  }

  /** From line `i` on, `trimMargin` keeps the text after the margin of each
      middle line and drops the blank last line. */
  lemma {:induction false} KeptMiddle(ls: seq<string>, w: string, texts: seq<string>, i: nat)
    requires IsBlank(w) && |ls| == |texts| + 2 && IsBlank(ls[|ls| - 1])
    requires forall k :: 0 <= k < |texts| ==> ls[k + 1] == w + "|" + texts[k]
    requires 1 <= i <= |ls| - 1
    ensures KeptLines(ls, i) == texts[i - 1..]
    decreases |ls| - i
  {
    if i < |ls| - 1 {
      KeptMiddle(ls, w, texts, i + 1);
      MarginCut(w, texts[i - 1]);
      assert texts[i - 1..] == [texts[i - 1]] + texts[i..];
    }
  }

  /** A line of blank margin, `|` and text is cut to the text. */
  lemma MarginCut(w: string, text: string)
    requires IsBlank(w)
    ensures CutMargin(w + "|" + text) == Some(text)
  {
    var line := w + "|" + text;
    FirstNonWhitespaceAfterBlank(w, "|" + text);
    assert line == w + ("|" + text);
    assert line[|w|..] == "|" + text;
    assert line[|w| + 1..] == text;
  }

  lemma {:induction false} FirstNonWhitespaceAfterBlank(w: string, s: string)
    requires IsBlank(w) && s != [] && !IsWhitespace(s[0])
    ensures FirstNonWhitespace(w + s) == Some(|w|)
  {
    if w != [] {
      FirstNonWhitespaceAfterBlank(w[1..], s);
      assert (w + s)[1..] == w[1..] + s;
    } else {
      assert w + s == s;
    }
  }

  // ---------------------------------------------------------------------------
  // The content kinds

  const FALLBACK_CONTENT_TYPE: string := "binary/octet-stream"
  const LISTING_CONTENT_TYPE: string := "text/html; charset=UTF-8"

  /** What became of `file -I <path>`: it exited with a value and printed an
      output, it had not exited when `waitFor` gave up (so `exitValue()`
      throws), or it could not be started. */
  datatype CommandOutcome = Exited(exitValue: int, output: string) | StillRunning | NotStarted

  /** The filesystem as `FileContent` sees it: `Files.exists`,
      `Files.readAllBytes` (`None` where it throws: a directory, a missing or
      unreadable file), and the outcome of running `file -I` on a path. */
  datatype Disk = Disk(isPresent: string -> bool, read: string -> Option<seq<byte>>, fileCommand: string -> CommandOutcome)

  datatype Content = FileContent(contentType: string, bytes: seq<byte>) | DirectoryListing(files: seq<Entry>) | NoContent

  /** The exceptions: the `IllegalStateException` of `getContentType` for a path
      that does not exist, the `IOException` of `readAllBytes` for a path it
      cannot read, and the `IllegalStateException` of `type()` of `NoContent`. */
  datatype ContentError = MissingPath | ReadFailed | NoContentType

  /** The parse of the output of `file -I`: the trimmed text after the first `:`
      up to the next one, or `None` when there is no `:` (the out-of-bounds
      `[1]`, caught) or that text is blank. */
  function ParseFileOutput(output: string): (r: Option<string>)
    ensures var parts := Split(output, ':');
            && (r.None? <==> |parts| < 2 || IsBlank(Trim(parts[1])))
            && (r.Some? ==> r.value == Trim(parts[1]) && r.value != [])
  {
    var parts := Split(output, ':');
    SplitHasSecondPart(output, ':');
    if |parts| < 2 then None
    else
      var mimeType := Trim(parts[1]);
      TrimEmptyIffBlank(parts[1]);
      if IsBlank(mimeType) then None else Some(mimeType)
  }

  /** `executeFileCommand`: the parsed output of a run that exited with 0, and
      `None` for any other outcome. */
  function ExecuteFileCommand(outcome: CommandOutcome): (r: Option<string>)
    ensures r.Some? <==> outcome.Exited? && outcome.exitValue == 0 && ParseFileOutput(outcome.output).Some?
    ensures r.Some? ==> r == ParseFileOutput(outcome.output)
  {
    match outcome
    case Exited(exitValue, output) => if exitValue != 0 then None else ParseFileOutput(output)
    case StillRunning => None
    case NotStarted => None
  }

  /** `getContentType`: a path that does not exist fails; otherwise the type the
      command reports, or `binary/octet-stream`. */
  function GetContentType(disk: Disk, path: string): (r: Result<string, ContentError>)
    ensures r.Err? <==> !disk.isPresent(path)
    ensures r.Ok? ==> r.value != []
    ensures r.Ok? && r.value != FALLBACK_CONTENT_TYPE ==> ExecuteFileCommand(disk.fileCommand(path)) == Some(r.value)
    ensures r.Ok? && ExecuteFileCommand(disk.fileCommand(path)).None? ==> r.value == FALLBACK_CONTENT_TYPE
  {
    if !disk.isPresent(path) then Err(MissingPath)
    else Ok(ExecuteFileCommand(disk.fileCommand(path)).GetOr(FALLBACK_CONTENT_TYPE))
  }

  /** `FileContent(path)`: the type is taken first, then the bytes. */
  function FileContentOf(disk: Disk, path: string): (r: Result<Content, ContentError>)
    ensures r == Err(MissingPath) <==> !disk.isPresent(path)
    ensures r == Err(ReadFailed) <==> disk.isPresent(path) && disk.read(path).None?
    ensures r.Ok? <==> disk.isPresent(path) && disk.read(path).Some?
    ensures r.Ok? ==> r.value == FileContent(GetContentType(disk, path).value, disk.read(path).value)
  {
    match GetContentType(disk, path)
    case Err(e) => Err(e)
    case Ok(t) =>
      match disk.read(path)
      case None => Err(ReadFailed)
      case Some(bytes) => Ok(FileContent(t, bytes))
  }

  /** `asByteArray()`. */
  function AsByteArray(c: Content): seq<byte> {
    match c
    case FileContent(_, bytes) => bytes
    case DirectoryListing(files) => Encode(ListingText(files))
    case NoContent => []
  }

  /** `type()`. */
  function Type(c: Content): (r: Result<string, ContentError>)
    ensures r.Err? <==> c.NoContent?
    ensures c.DirectoryListing? ==> r == Ok(LISTING_CONTENT_TYPE)
    ensures c.FileContent? ==> r == Ok(c.contentType)
  {
    match c
    case FileContent(t, _) => Ok(t)
    case DirectoryListing(_) => Ok(LISTING_CONTENT_TYPE)
    case NoContent => Err(NoContentType)
  }

  /** `length()`: the default counts the bytes; `NoContent` overrides it with 0,
      which is its byte count as well. */
  function Length(c: Content): (r: nat)
    ensures r == |AsByteArray(c)|
    ensures c.NoContent? ==> r == 0
  {
    if c.NoContent? then 0 else |AsByteArray(c)|
  }

  /** The fallback is used exactly when the command gives nothing: a non-zero
      exit, no exit yet, no start, no `:` in the output, or a blank type. */
  lemma FallbackIff(disk: Disk, path: string)
    requires disk.isPresent(path)
    ensures var outcome := disk.fileCommand(path);
            GetContentType(disk, path) == Ok(FALLBACK_CONTENT_TYPE)
            <==> (|| !outcome.Exited? || outcome.exitValue != 0 || ParseFileOutput(outcome.output).None?
                  || ParseFileOutput(outcome.output) == Some(FALLBACK_CONTENT_TYPE))
  {
  }

  /** The usual output `<path>: <type>` of a colon-free path gives the type,
      however it is padded. */
  lemma FileOutputType(path: string, mimeType: string, padding: string, trailer: string)
    requires ':' !in path && ':' !in mimeType && ':' !in padding
    requires IsBlank(padding) && IsBlank(trailer)
    requires mimeType != [] && !IsWhitespace(mimeType[0]) && !IsWhitespace(mimeType[|mimeType| - 1])
    ensures ParseFileOutput(path + ":" + padding + mimeType + trailer) == Some(mimeType)
  {
    var rest := padding + mimeType + trailer;
    assert path + ":" + padding + mimeType + trailer == path + [':'] + rest;
    BlankHasNoColon(trailer);
    SecondPart(path, rest);
    TrimPadded(padding, mimeType, trailer);
    assert !IsBlank(mimeType) by { assert !IsWhitespace(mimeType[0]); }
  }

  lemma BlankHasNoColon(w: string)
    requires IsBlank(w)
    ensures ':' !in w
  {
    forall i | 0 <= i < |w| ensures w[i] != ':' {
      assert IsWhitespace(w[i]);
    }
  }

  /** Of `a:b` with no colon in either, the second part is `b`. */
  lemma SecondPart(a: string, b: string)
    requires ':' !in a && ':' !in b
    ensures Split(a + [':'] + b, ':') == [a, b]
  {
    SplitCons(a, b, ':');
    SplitNone(b, ':');
  }

  lemma TrimPadded(padding: string, s: string, trailer: string)
    requires IsBlank(padding) && IsBlank(trailer)
    requires s != [] && !IsWhitespace(s[0]) && !IsWhitespace(s[|s| - 1])
    ensures Trim(padding + s + trailer) == s
  {
    assert padding + s + trailer == padding + (s + trailer);
    TrimAfterBlank(padding, s + trailer);
    TrimBeforeBlank(s, trailer);
    TrimNoOp(s);
  }

  lemma TrimBeforeBlank(s: string, w: string)
    requires IsBlank(w) && s != [] && !IsWhitespace(s[0])
    ensures Trim(s + w) == Trim(s)
  {
    assert TrimStart(s + w) == s + w;
    assert TrimStart(s) == s;
    TrimEndBeforeBlank(s, w);
  }

  lemma {:induction false} TrimEndBeforeBlank(s: string, w: string)
    requires IsBlank(w)
    ensures TrimEnd(s + w) == TrimEnd(s)
  {
    if w != [] {
      var w' := w[..|w| - 1];
      assert (s + w)[..|s + w| - 1] == s + w';
      TrimEndBeforeBlank(s, w');
    } else {
      assert s + w == s;
    }
  }

  /** A path holding a colon splits early: the text after its first colon, not
      the type, is taken. */
  lemma ColonInPath(dir: string, name: string, mimeType: string)
    requires ':' !in dir && ':' !in name && name != [] && !IsWhitespace(name[0]) && !IsWhitespace(name[|name| - 1])
    ensures ParseFileOutput(dir + ":" + name + ": " + mimeType) == Some(name)
  {
    var rest := name + [':'] + (" " + mimeType);
    assert dir + ":" + name + ": " + mimeType == dir + [':'] + rest;
    SplitCons(dir, rest, ':');
    SplitCons(name, " " + mimeType, ':');
    TrimNoOp(name);
  }

  /** `NoContent` has no bytes, length 0, and asking for its type fails. */
  lemma NoContentIsEmpty()
    ensures AsByteArray(NoContent) == [] && Length(NoContent) == 0 && Type(NoContent) == Err(NoContentType)
  {
  }

  /** A listing's bytes are the UTF-8 of its page, and its length counts them. */
  lemma ListingBytes(files: seq<Entry>)
    requires NamesWithoutBreaks(files)
    ensures AsByteArray(DirectoryListing(files))
            == Encode("<!DOCTYPE html>\n<body>\n   <ul>\n      " + Items(SortEntries(files)) + "\n   </ul>\n</body>")
    ensures Length(DirectoryListing(files)) == |AsByteArray(DirectoryListing(files))|
    ensures Type(DirectoryListing(files)) == Ok(LISTING_CONTENT_TYPE)
  {
    ListingPage(files);
  }
}
