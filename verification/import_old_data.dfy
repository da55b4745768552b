/** The import script (dailynews-next/scripts/import-old-data.js): it copies the
    static site's days into the database, one catalogue entry at a time, and
    counts the articles of each day by its `### ` headings. The Markdown files
    are an input (a function from the date to the file's text, or nothing when
    it cannot be read). */
module ImportOldData {
  import opened Common
  import opened NewsStore

  // ---------------------------------------------------------------------------
  // extractNewsCount

  /** The characters after which a multiline `^` matches: line feed, carriage
      return, and the line and paragraph separators U+2028 and U+2029. */
  predicate IsLineTerminator(c: char) {
    c == '\n' || c == '\r' || c as int == 0x2028 || c as int == 0x2029
  }

  predicate NoLineTerminator(s: string) {
    forall i :: 0 <= i < |s| ==> !IsLineTerminator(s[i])
  }

  const Heading: string := "### "

  /** `/^### /m` matches at `p`: `### ` starts there, at the start of the text
      or right after a line terminator. */
  predicate HeadingAt(s: string, p: nat) {
    && p + |Heading| <= |s| && s[p..p + |Heading|] == Heading
    && (p == 0 || IsLineTerminator(s[p - 1]))
  }

  /** The matches at `from` or later. */
  function HeadingsFrom(s: string, from: nat): nat
    decreases |s| - from
  {
    if from >= |s| then 0 else (if HeadingAt(s, from) then 1 else 0) + HeadingsFrom(s, from + 1)
  }

  /** `extractNewsCount`: the number of matches of `/^### /gm`. Two matches can
      never overlap (a match needs a line terminator or the start of the text
      right before it, and `### ` holds no line terminator), so the global
      match finds every position where `HeadingAt` holds; none gives 0. */
  function ExtractNewsCount(content: string): nat {
    HeadingsFrom(content, 0)
  }

  /** A break between two pieces of text: the first ends a line or the second
      starts with a line break (or one of them is empty). */
  predicate Separated(x: string, y: string) {
    || x == [] || y == []
    || IsLineTerminator(x[|x| - 1])
    || IsLineTerminator(y[0])
  }

  lemma HeadingAtPrefix(x: string, y: string, p: nat)
    requires Separated(x, y) && p < |x|
    ensures HeadingAt(x + y, p) <==> HeadingAt(x, p)
  {
    var s := x + y;
    if p + |Heading| <= |x| {
      assert s[p..p + |Heading|] == x[p..p + |Heading|];
    } else if p + |Heading| <= |s| {
      // the window holds both the last character of `x` and the first of `y`
      var w := s[p..p + |Heading|];
      assert w[|x| - 1 - p] == x[|x| - 1];
      assert w[|x| - p] == y[0];
    }
  }

  lemma HeadingAtSuffix(x: string, y: string, q: nat)
    requires Separated(x, y) && q < |y|
    ensures HeadingAt(x + y, |x| + q) <==> HeadingAt(y, q)
  {
    var s := x + y;
    if |x| + q + |Heading| <= |s| {
      assert s[|x| + q..|x| + q + |Heading|] == y[q..q + |Heading|];
    }
    if q > 0 {
      assert s[|x| + q - 1] == y[q - 1];
    } else if x != [] && !IsLineTerminator(x[|x| - 1]) {
      assert IsLineTerminator(y[0]);
    }
  }

  lemma {:induction false} HeadingsFromSuffix(x: string, y: string, q: nat)
    requires Separated(x, y) && q <= |y|
    ensures HeadingsFrom(x + y, |x| + q) == HeadingsFrom(y, q)
    decreases |y| - q
  {
    if q < |y| {
      HeadingAtSuffix(x, y, q);
      HeadingsFromSuffix(x, y, q + 1);
    }
  }

  lemma {:induction false} HeadingsFromPrefix(x: string, y: string, p: nat)
    requires Separated(x, y) && p <= |x|
    ensures HeadingsFrom(x + y, p) == HeadingsFrom(x, p) + HeadingsFrom(y, 0)
    decreases |x| - p
  {
    if p < |x| {
      HeadingAtPrefix(x, y, p);
      HeadingsFromPrefix(x, y, p + 1);
    } else {
      HeadingsFromSuffix(x, y, 0);
    }
  }

  /** Counting is additive across a line break: the headings of two pieces
      joined where a line ends are those of the first plus those of the second. */
  lemma CountAdditive(x: string, y: string)
    requires Separated(x, y)
    ensures ExtractNewsCount(x + y) == ExtractNewsCount(x) + ExtractNewsCount(y)
  {
    HeadingsFromPrefix(x, y, 0);
  }

  /** Within one line, the only possible heading is at its start. */
  lemma {:induction false} SingleLineCount(s: string, from: nat)
    requires NoLineTerminator(s) && 1 <= from
    ensures HeadingsFrom(s, from) == 0
    decreases |s| - from
  {
    if from < |s| {
      assert !IsLineTerminator(s[from - 1]);
      SingleLineCount(s, from + 1);
    }
  }

  /** A text of one line counts 1 when it starts with `### ` and 0 otherwise. */
  lemma OneLine(s: string)
    requires NoLineTerminator(s)
    ensures ExtractNewsCount(s) == (if HeadingAt(s, 0) then 1 else 0)
  {
    if s != [] {
      SingleLineCount(s, 1);
    }
  }

  // ---------------------------------------------------------------------------
  // importData

  /** `!content`: a file that could not be read or is empty. */
  predicate Readable(file: Option<string>) {
    file.Some? && file.value != ""
  }

  /** How one catalogue entry is counted, given the rows at that point. */
  function StepVerdict(rows: map<string, Article>, item: CatalogueItem, files: string -> Option<string>): Verdict {
    if item.date in rows then Skipped
    else if !Readable(files(item.date)) then Failed
    else Succeeded
  }

  /** The rows after one catalogue entry: an entry counted a success inserts
      its summary, the file's text and the file's heading count. */
  function StepRows(rows: map<string, Article>, item: CatalogueItem, files: string -> Option<string>): map<string, Article> {
    if StepVerdict(rows, item, files) == Succeeded then
      var content := files(item.date).value;
      rows[item.date := Article(item.abstractText, content, ExtractNewsCount(content))]
    else rows
  }

  /** The rows after the entries of `catalogue`, in order. */
  function ImportRows(rows: map<string, Article>, catalogue: seq<CatalogueItem>, files: string -> Option<string>): map<string, Article> {
    if catalogue == [] then rows
    else StepRows(ImportRows(rows, catalogue[..|catalogue| - 1], files), catalogue[|catalogue| - 1], files)
  }

  /** The counters after the entries of `catalogue`. */
  function ImportTally(rows: map<string, Article>, catalogue: seq<CatalogueItem>, files: string -> Option<string>): Tally {
    if catalogue == [] then Tally(0, 0, 0)
    else
      var before := catalogue[..|catalogue| - 1];
      Count(ImportTally(rows, before, files),
        StepVerdict(ImportRows(rows, before, files), catalogue[|catalogue| - 1], files))
  }

  /** `importData`: for each entry, skip a date the table has, fail on a file
      that cannot be read, and otherwise insert the day. An insert the table
      refuses counts as a failure, as the `catch` does. */
  method ImportData(table: Table, catalogue: seq<CatalogueItem>, files: string -> Option<string>)
    returns (tally: Tally)
    modifies table
    ensures table.rows == ImportRows(old(table.rows), catalogue, files)
    ensures tally == ImportTally(old(table.rows), catalogue, files)
  {
    ghost var rows0 := table.rows;
    tally := Tally(0, 0, 0);
    for i := 0 to |catalogue|
      invariant table.rows == ImportRows(rows0, catalogue[..i], files)
      invariant tally == ImportTally(rows0, catalogue[..i], files)
    {
      assert catalogue[..i + 1][..i] == catalogue[..i];
      var item := catalogue[i];
      if table.Exists(item.date) {
        tally := tally.(skip := tally.skip + 1);
        continue;
      }
      var content := files(item.date);
      if !Readable(content) {
        tally := tally.(fail := tally.fail + 1);
        continue;
      }
      var newsCount := ExtractNewsCount(content.value);
      var r := table.Insert(item.date, item.abstractText, content.value, newsCount);
      if r.Ok? {
        tally := tally.(success := tally.success + 1);
      } else {
        tally := tally.(fail := tally.fail + 1);
      }
    }
    assert catalogue[..|catalogue|] == catalogue;
  }

  /** Each entry moves exactly one counter. */
  lemma {:induction false} ImportTotal(rows: map<string, Article>, catalogue: seq<CatalogueItem>, files: string -> Option<string>)
    ensures ImportTally(rows, catalogue, files).Total() == |catalogue|
  {
    if catalogue != [] {
      ImportTotal(rows, catalogue[..|catalogue| - 1], files);
    }
  }

  /** Some entry before position `i` has the same date as entry `i`. */
  predicate SeenBefore(catalogue: seq<CatalogueItem>, i: nat)
    requires i < |catalogue|
  {
    exists j :: 0 <= j < i && catalogue[j].date == catalogue[i].date
  }

  /** The import never changes a row that was there before; it adds a row for
      a date exactly when some entry has that date and its file can be read;
      and the row added holds the summary of the FIRST entry with that date,
      the file's text and its heading count. */
  lemma {:induction false} ImportRowsSpec(rows: map<string, Article>, catalogue: seq<CatalogueItem>, files: string -> Option<string>, d: string)
    ensures var after := ImportRows(rows, catalogue, files);
      && (d in rows ==> d in after && after[d] == rows[d])
      && (d !in rows ==> (d in after <==> FirstWithDate(catalogue, d) < |catalogue| && Readable(files(d))))
      && (d !in rows && d in after ==>
            after[d] == Article(catalogue[FirstWithDate(catalogue, d)].abstractText, files(d).value,
                                ExtractNewsCount(files(d).value)))
  {
    if catalogue != [] {
      var n := |catalogue| - 1;
      var before := catalogue[..n];
      ImportRowsSpec(rows, before, files, d);
      FirstWithDateOfPrefix(catalogue, n, d);
    }
  }

  /** The counter entry `i` moves: skipped when the table already had its date
      or an earlier entry with the same date was imported, failed when its file
      cannot be read, imported otherwise. So of several entries with one date,
      only the first can be imported and the later ones are skipped. */
  lemma StepVerdictSpec(rows: map<string, Article>, catalogue: seq<CatalogueItem>, files: string -> Option<string>, i: nat)
    requires i < |catalogue|
    ensures var d := catalogue[i].date;
      StepVerdict(ImportRows(rows, catalogue[..i], files), catalogue[i], files)
      == if d in rows then Skipped
         else if !Readable(files(d)) then Failed
         else if SeenBefore(catalogue, i) then Skipped
         else Succeeded
  {
    var d := catalogue[i].date;
    ImportRowsSpec(rows, catalogue[..i], files, d);
    var k := FirstWithDate(catalogue[..i], d);
    FirstWithDateOfPrefix(catalogue, i, d);
    if SeenBefore(catalogue, i) {
      var j :| 0 <= j < i && catalogue[j].date == d;
      assert catalogue[..i][j].date == d;
    }
  }
}
