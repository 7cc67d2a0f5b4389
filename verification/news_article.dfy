/** The news-article header parser, in both copies the repository keeps:
    app/utils/parse_news.py (`App`) and src/parse_news.py (`Src`). An
    article file is a header of labelled lines (`TITLE: ...`), blank lines
    and short stray lines such as a lone date, followed by the body. The
    label pattern and `strip` are implemented here; `dateutil`'s parser is
    an oracle (`Parsers`). */
module NewsArticle {
  import opened Common
  import opened Text
  import OrderedDict

  datatype Variant = App | Src

  /** The two `dateutil.parser.parse` calls: the labelled PUBLISHED value
      (fuzzy, ignoring time zones) and a short stray line (fuzzy). */
  type CalendarDate = d: Date | ValidDate(d) witness Date(1, 1, 1)

  datatype Parsers = Parsers(published: string -> Option<CalendarDate>, stray: string -> Option<CalendarDate>)

  /** One article entry; every text column starts as "NULL". */
  datatype Article = Article(
    id: int, source: string, title: string, author: string,
    publishDate: string, location: string, content: string)

  const Null: string := "NULL"

  /** Why `read_article` raises. */
  datatype Failure =
    | BadStem         // `int(article_path.stem)`: ValueError
    | MissingPattern  // `globals.NEWS_LABEL_PATTERN`: AttributeError

  /** The CSV columns; only the id column's name differs. */
  function Columns(v: Variant): seq<string> {
    [IdColumn(v), "source", "title", "author", "publish_date", "location", "content"]
  }

  function IdColumn(v: Variant): string {
    match v
    case App => "id"
    case Src => "articleID"
  }

  datatype Cell = Str(s: string) | Int(i: int)

  /** The entry as the dict `read_article` returns. */
  function AsDict(v: Variant, a: Article): OrderedDict.Dict<string, Cell> {
    [(IdColumn(v), Int(a.id)), ("source", Str(a.source)), ("title", Str(a.title)),
     ("author", Str(a.author)), ("publish_date", Str(a.publishDate)),
     ("location", Str(a.location)), ("content", Str(a.content))]
  }

  /** The dict's keys are exactly the variant's columns, in order, each
      once. */
  lemma AsDictColumns(v: Variant, a: Article)
    ensures OrderedDict.Keys(AsDict(v, a)) == Columns(v)
    ensures OrderedDict.UniqueKeys(AsDict(v, a))
    ensures OrderedDict.Get(AsDict(v, a), IdColumn(v)) == Some(Int(a.id))
  {
    AsDictKeys(v, a);
    ColumnsDistinct(v);
    AsDictId(v, a);
  }

  lemma AsDictKeys(v: Variant, a: Article)
    ensures OrderedDict.Keys(AsDict(v, a)) == Columns(v)
  {
    var ks := OrderedDict.Keys(AsDict(v, a));
    assert |ks| == |Columns(v)|;
    assert forall i :: 0 <= i < |ks| ==> ks[i] == Columns(v)[i];
  }

  lemma ColumnsDistinct(v: Variant)
    ensures OrderedDict.Distinct(Columns(v))
  {
    var cs := Columns(v);
    assert forall i :: 1 <= i < |cs| ==> cs[i] == ["source", "title", "author", "publish_date", "location", "content"][i - 1];
  }

  lemma AsDictId(v: Variant, a: Article)
    ensures OrderedDict.Get(AsDict(v, a), IdColumn(v)) == Some(Int(a.id))
  {
    assert AsDict(v, a)[0] == (IdColumn(v), Int(a.id));
  }

  // The label pattern `^(SOURCE|TITLE|PUBLISHED|AUTHOR|LOCATION|CONTENT)\s*:\s*(.+)`
  // with IGNORECASE.

  datatype Label = Source | Title | Published | Author | Location | ContentLabel

  function LabelName(l: Label): (name: string)
    ensures 0 < |name| && forall i :: 0 <= i < |name| ==> IsUpper(name[i])
  {
    match l
    case Source => "SOURCE"
    case Title => "TITLE"
    case Published => "PUBLISHED"
    case Author => "AUTHOR"
    case Location => "LOCATION"
    case ContentLabel => "CONTENT"
  }

  /** The alternatives in the pattern's order. */
  const Labels: seq<Label> := [Source, Title, Published, Author, Location, ContentLabel]

  predicate IsUpper(c: char) {
    'A' <= c <= 'Z'
  }

  /** `c` matches the upper-case letter `u` ignoring case. */
  predicate FoldsTo(c: char, u: char)
    requires IsUpper(u)
  {
    c == u || c == (u as int + 32) as char
  }

  /** `s` starts with `name` ignoring case. */
  predicate CasePrefix(name: string, s: string)
    requires forall i :: 0 <= i < |name| ==> IsUpper(name[i])
  {
    |name| <= |s| && forall i :: 0 <= i < |name| ==> FoldsTo(s[i], name[i])
  }

  function FirstLabel(line: string, ls: seq<Label>): (r: Option<Label>)
    ensures r.Some? ==> r.value in ls && CasePrefix(LabelName(r.value), line)
    ensures r.None? ==> forall l :: l in ls ==> !CasePrefix(LabelName(l), line)
    decreases |ls|
  {
    if |ls| == 0 then None
    else if CasePrefix(LabelName(ls[0]), line) then Some(ls[0])
    else FirstLabel(line, ls[1..])
  }

  /** The text up to the first newline. */
  function TakeLine(s: string): (r: string)
    ensures r <= s && '\n' !in r
    ensures |r| < |s| ==> s[|r|] == '\n'
    decreases |s|
  {
    if |s| == 0 || s[0] == '\n' then [] else [s[0]] + TakeLine(s[1..])
  }

  /** Where `(.+)` starts after the colon: the greedy `\s*` takes every
      leading space if something follows; otherwise it gives back to the
      last character that is not a newline. No such character: no match. */
  function ValueStart(after: string): (k: Option<nat>)
    ensures k.Some? ==> k.value < |after| && after[k.value] != '\n' && AllSpace(after[..k.value])
  {
    var n := LeadingSpaces(after);
    if n < |after| then Some(n) else LastNonNewline(after, n)
  }

  function LastNonNewline(s: string, n: nat): (k: Option<nat>)
    requires n <= |s| && AllSpace(s[..n])
    ensures k.Some? ==> k.value < n && s[k.value] != '\n' && AllSpace(s[..k.value])
    decreases n
  {
    if n == 0 then None
    else if s[n - 1] != '\n' then
      assert s[..n - 1] == s[..n][..n - 1];
      Some(n - 1)
    else
      assert s[..n - 1] == s[..n][..n - 1];
      LastNonNewline(s, n - 1)
  }

  /** `NEWS_LABEL_PATTERN.match(line)`: the label and group 2, unstripped. */
  function MatchLabel(line: string): (r: Option<(Label, string)>)
    ensures r.Some? ==> CasePrefix(LabelName(r.value.0), line) && '\n' !in r.value.1
  {
    match FirstLabel(line, Labels)
    case None => None
    case Some(l) =>
      match AfterLabel(line[|LabelName(l)|..])
      case None => None
      case Some(value) => Some((l, value))
  }

  /** `\s*:\s*(.+)` after the label: group 2, if it matches. */
  function AfterLabel(rest: string): (r: Option<string>)
    ensures r.Some? ==> '\n' !in r.value
  {
    var n := LeadingSpaces(rest);
    if n < |rest| && rest[n] == ':' then
      var after := rest[n + 1..];
      match ValueStart(after)
      case None => None
      case Some(k) => Some(TakeLine(after[k..]))
    else None
  }

  /** A header line as written: a label in any case, spaces, a colon,
      spaces, and a value that starts with a non-space and has no newline. */
  function HeaderLine(written: string, sp1: string, sp2: string, value: string): string {
    written + (sp1 + ([':'] + (sp2 + (value + "\n"))))
  }

  lemma DropPrefix(p: string, x: string)
    ensures (p + x)[|p|..] == x
  {
  }

  /** Reading a header line back gives its label and value. */
  lemma {:induction false} MatchHeaderLine(l: Label, written: string, sp1: string, sp2: string, value: string)
    requires |written| == |LabelName(l)| && CasePrefix(LabelName(l), written)
    requires AllSpace(sp1) && AllSpace(sp2)
    requires |value| > 0 && !IsSpace(value[0]) && '\n' !in value
    ensures MatchLabel(HeaderLine(written, sp1, sp2, value)) == Some((l, value))
  {
    var line := HeaderLine(written, sp1, sp2, value);
    var tail := sp1 + ([':'] + (sp2 + (value + "\n")));
    assert line == written + tail;
    assert CasePrefix(LabelName(l), line) by {
      assert forall i :: 0 <= i < |written| ==> line[i] == written[i];
    }
    FirstLabelUnique(l, line);
    DropPrefix(written, tail);
    AfterLabelReads(sp1, sp2, value);
  }

  lemma {:induction false} AfterLabelReads(sp1: string, sp2: string, value: string)
    requires AllSpace(sp1) && AllSpace(sp2)
    requires |value| > 0 && !IsSpace(value[0]) && '\n' !in value
    ensures AfterLabel(sp1 + ([':'] + (sp2 + (value + "\n")))) == Some(value)
  {
    var rest := sp1 + ([':'] + (sp2 + (value + "\n")));
    SpacesThen(sp1, [':'] + (sp2 + (value + "\n")));
    DropPrefix(sp1 + [':'], sp2 + (value + "\n"));
    assert rest == (sp1 + [':']) + (sp2 + (value + "\n"));
    var after := rest[|sp1| + 1..];
    assert after == sp2 + (value + "\n");
    SpacesThen(sp2, value + "\n");
    DropPrefix(sp2, value + "\n");
    TakeLineStops(value);
  }

  lemma {:induction false} SpacesThen(sp: string, x: string)
    requires AllSpace(sp) && |x| > 0 && !IsSpace(x[0])
    ensures LeadingSpaces(sp + x) == |sp|
    ensures (sp + x)[|sp|] == x[0]
    decreases |sp|
  {
    if |sp| > 0 {
      assert (sp + x)[1..] == sp[1..] + x;
      SpacesThen(sp[1..], x);
    }
  }

  lemma {:induction false} TakeLineStops(value: string)
    requires '\n' !in value
    ensures TakeLine(value + "\n") == value
    decreases |value|
  {
    if |value| > 0 {
      assert (value + "\n")[1..] == value[1..] + "\n";
      TakeLineStops(value[1..]);
    }
  }

  /** The six labels differ in their first letter, so a line starts with at
      most one of them. */
  lemma FirstLabelUnique(l: Label, line: string)
    requires CasePrefix(LabelName(l), line)
    ensures FirstLabel(line, Labels) == Some(l)
  {
    assert forall m :: m in Labels && m != l ==> LabelName(m)[0] != LabelName(l)[0];
  }

  // parse_line

  /** ISO `%Y-%m-%d` of a calendar date. */
  function Digit(n: int): (c: char)
    requires 0 <= n < 10
    ensures IsDigit(c) && DigitValue(c) == n
  {
    ('0' as int + n) as char
  }

  function IsoDate(d: CalendarDate): (r: string)
    ensures |r| == 10 && r[4] == '-' && r[7] == '-'
  {
    var y := d.year;
    [Digit(y / 1000), Digit(y / 100 % 10), Digit(y / 10 % 10), Digit(y % 10), '-',
     Digit(d.month / 10), Digit(d.month % 10), '-',
     Digit(d.day / 10), Digit(d.day % 10)]
  }

  function DigitValue(c: char): int {
    c as int - '0' as int
  }

  /** Reading `YYYY-MM-DD` back. */
  function ReadIsoDate(s: string): Option<Date> {
    if |s| == 10 && s[4] == '-' && s[7] == '-'
       && forall i :: 0 <= i < 10 && i != 4 && i != 7 ==> IsDigit(s[i])
    then
      Some(Date(((DigitValue(s[0]) * 10 + DigitValue(s[1])) * 10 + DigitValue(s[2])) * 10 + DigitValue(s[3]),
                DigitValue(s[5]) * 10 + DigitValue(s[6]),
                DigitValue(s[8]) * 10 + DigitValue(s[9])))
    else None
  }

  lemma IsoDateRoundTrip(d: CalendarDate)
    ensures ReadIsoDate(IsoDate(d)) == Some(d)
  {
    var r := IsoDate(d);
    assert forall i :: 0 <= i < 10 && i != 4 && i != 7 ==> IsDigit(r[i]);
    FourDigits(d.year);
    TwoDigits(d.month);
    TwoDigits(d.day);
  }

  lemma FourDigits(y: int)
    requires 0 <= y < 10000
    ensures y == ((y / 1000 * 10 + y / 100 % 10) * 10 + y / 10 % 10) * 10 + y % 10
  {
    var t, h := y / 10, y / 100;
    assert y == t * 10 + y % 10;
    assert t == h * 10 + t % 10 && t % 10 == y / 10 % 10;
    assert h == y / 1000 * 10 + h % 10 && h % 10 == y / 100 % 10 by {
      assert h == t / 10 && y / 1000 == h / 10;
    }
  }

  lemma TwoDigits(n: int)
    requires 0 <= n < 100
    ensures n == n / 10 * 10 + n % 10
  {
  }

  /** What a labelled line does to the entry. */
  function ApplyLabel(p: Parsers, l: Label, value: string, e: Article): (r: Article)
    ensures r.id == e.id && r.content == e.content
  {
    match l
    case Source => e.(source := value)
    case Title => e.(title := value)
    case Published =>
      (match p.published(value)
       case Some(d) => e.(publishDate := IsoDate(d))
       case None => if e.author == [] then e.(author := value) else e)
    case Location => e.(location := value)
    case Author => e.(author := value)
    case ContentLabel => e
  }

  /** A line that starts the body: unlabelled, not blank, 30 characters or
      more counting its newline. */
  predicate IsContentLine(line: string) {
    MatchLabel(line).None? && !AllSpace(line) && |line| >= 30
  }

  /** `parse_line`: whether the body starts here, and the updated entry. */
  function ParseLine(v: Variant, p: Parsers, line: string, e: Article): (r: Result<(bool, Article), Failure>)
    ensures v == Src ==> r == Err(MissingPattern)
    ensures v == App ==> r.Ok? && (r.value.0 <==> IsContentLine(line))
    ensures v == App && r.value.0 ==> r.value.1 == e
    ensures v == App ==> r.value.1.id == e.id && r.value.1.content == e.content
  {
    match v
    case Src => Err(MissingPattern)
    case App =>
      match MatchLabel(line)
      case Some((l, value)) => Ok((false, ApplyLabel(p, l, Strip(value), e)))
      case None =>
        if Strip(line) == [] then Ok((false, e))
        else if |line| < 30 then
          (match p.stray(line)
           case Some(d) => Ok((false, e.(publishDate := IsoDate(d))))
           case None => Ok((false, e)))
        else Ok((true, e))
  }

  /** A labelled line sets only its own field, to the stripped value (a
      PUBLISHED line the oracle reads sets the ISO date), and CONTENT
      changes nothing. */
  lemma LabelledLineSetsItsField(p: Parsers, line: string, e: Article)
    requires MatchLabel(line).Some?
    ensures var (l, raw) := MatchLabel(line).value;
      var r := ParseLine(App, p, line, e).value;
      && !r.0
      && (l == Source ==> r.1 == e.(source := Strip(raw)))
      && (l == Title ==> r.1 == e.(title := Strip(raw)))
      && (l == Location ==> r.1 == e.(location := Strip(raw)))
      && (l == Author ==> r.1 == e.(author := Strip(raw)))
      && (l == ContentLabel ==> r.1 == e)
      && (l == Published && p.published(Strip(raw)).Some? ==>
            r.1 == e.(publishDate := IsoDate(p.published(Strip(raw)).value)))
  {
    var (l, raw) := MatchLabel(line).value;
    assert ParseLine(App, p, line, e) == Ok((false, ApplyLabel(p, l, Strip(raw), e)));
  }

  /** An unreadable PUBLISHED value goes to `author` exactly when `author`
      is empty; the initial "NULL" never is, an earlier blank AUTHOR value
      is. */
  lemma PublishedFallback(p: Parsers, line: string, e: Article)
    requires MatchLabel(line).Some? && MatchLabel(line).value.0 == Published
    requires p.published(Strip(MatchLabel(line).value.1)).None?
    ensures var r := ParseLine(App, p, line, e).value.1;
      && (e.author == [] ==> r == e.(author := Strip(MatchLabel(line).value.1)))
      && (e.author != [] ==> r == e)
  {
    var raw := MatchLabel(line).value.1;
    assert ParseLine(App, p, line, e) == Ok((false, ApplyLabel(p, Published, Strip(raw), e)));
  }

  /** An unlabelled line that is blank, or short, never starts the body;
      only a short line that the oracle reads as a date changes anything. */
  lemma UnlabelledLine(p: Parsers, line: string, e: Article)
    requires MatchLabel(line).None?
    ensures var r := ParseLine(App, p, line, e).value;
      && (AllSpace(line) ==> r == (false, e))
      && (!AllSpace(line) && |line| < 30 && p.stray(line).None? ==> r == (false, e))
      && (!AllSpace(line) && |line| < 30 && p.stray(line).Some? ==>
            r == (false, e.(publishDate := IsoDate(p.stray(line).value))))
      && (|line| >= 30 && !AllSpace(line) ==> r == (true, e))
  {
  }

  // read_article

  function Initial(id: int): (a: Article)
    ensures a.source == Null && a.title == Null && a.author == Null
    ensures a.publishDate == Null && a.location == Null && a.content == Null
  {
    Article(id, Null, Null, Null, Null, Null, Null)
  }

  /** Parse header lines until one starts the body: the entry so far and
      that line's position, if any. */
  function Scan(v: Variant, p: Parsers, e: Article, lines: seq<string>): Result<(Article, Option<nat>), Failure>
    decreases |lines|
  {
    if |lines| == 0 then Ok((e, None))
    else
      match ParseLine(v, p, lines[0], e)
      case Err(f) => Err(f)
      case Ok((true, e')) => Ok((e', Some(0)))
      case Ok((false, e')) => Later(Scan(v, p, e', lines[1..]))
  }

  /** A scan of the remaining lines, seen from one line earlier. */
  function Later(r: Result<(Article, Option<nat>), Failure>): Result<(Article, Option<nat>), Failure> {
    match r
    case Err(f) => Err(f)
    case Ok((e, None)) => Ok((e, None))
    case Ok((e, Some(i))) => Ok((e, Some(i + 1)))
  }

  /** The later body lines, each stripped, blank ones dropped, glued with
      no separator. */
  function JoinStripped(lines: seq<string>): string
    decreases |lines|
  {
    if |lines| == 0 then [] else Strip(lines[0]) + JoinStripped(lines[1..])
  }

  /** `read_article` on a file called `stem` holding `text`. */
  function ReadArticle(v: Variant, p: Parsers, stem: string, text: string): Result<Article, Failure> {
    match ParseInt(stem)
    case None => Err(BadStem)
    case Some(id) =>
      var lines := SplitLines(text);
      match Scan(v, p, Initial(id), lines)
      case Err(f) => Err(f)
      case Ok((e, found)) => Ok(Finish(e, found, lines))
  }

  /** The content read from the body line at `found`, if there is one. */
  function Finish(e: Article, found: Option<nat>, lines: seq<string>): Article {
    match found
    case None => e
    case Some(i) =>
      if i < |lines| then e.(content := Strip(Strip(lines[i]) + JoinStripped(lines[i + 1..]))) else e
  }

  /** Position of the first body line, by its own definition. */
  function FirstContentLine(lines: seq<string>): (r: Option<nat>)
    ensures r.Some? ==> r.value < |lines| && IsContentLine(lines[r.value])
    ensures forall j :: 0 <= j < |lines| && (r.None? || j < r.value) ==> !IsContentLine(lines[j])
  {
    FirstWhere(IsContentLine, lines)
  }

  function FirstWhere(test: string -> bool, lines: seq<string>): (r: Option<nat>)
    ensures r.Some? ==> r.value < |lines| && test(lines[r.value])
    ensures forall j :: 0 <= j < |lines| && (r.None? || j < r.value) ==> !test(lines[j])
    decreases |lines|
  {
    if |lines| == 0 then None
    else if test(lines[0]) then Some(0)
    else
      match FirstWhere(test, lines[1..])
      case None => None
      case Some(i) => Some(i + 1)
  }

  // The `app` scan, seen as the header loop driven by a step that never
  // fails; the properties are proved for any such step.

  /** `parse_line` in the `app` copy, which never raises. */
  function AppStep(p: Parsers): (string, Article) -> (bool, Article) {
    (line, e) => ParseLine(App, p, line, e).value
  }

  /** The header loop for a step that never fails. */
  function ScanBy(step: (string, Article) -> (bool, Article), e: Article, lines: seq<string>): (Article, Option<nat>)
    decreases |lines|
  {
    if |lines| == 0 then (e, None)
    else
      var r := step(lines[0], e);
      if r.0 then (r.1, Some(0))
      else
        Shift(ScanBy(step, r.1, lines[1..]))
  }

  /** A scan of the remaining lines, seen from one line earlier. */
  function Shift(t: (Article, Option<nat>)): (Article, Option<nat>) {
    (t.0, if t.1.Some? then Some(t.1.value + 1) else None)
  }

  lemma {:induction false} ScanIsScanBy(p: Parsers, e: Article, lines: seq<string>)
    ensures Scan(App, p, e, lines) == Ok(ScanBy(AppStep(p), e, lines))
    decreases |lines|
  {
    if |lines| > 0 {
      var r := AppStep(p)(lines[0], e);
      ScanHead(p, e, lines);
      ScanByHead(AppStep(p), e, lines);
      if r.0 {
        assert Scan(App, p, e, lines) == Ok((r.1, Some(0)));
        assert ScanBy(AppStep(p), e, lines) == (r.1, Some(0));
      } else {
        ScanIsScanBy(p, r.1, lines[1..]);
        var t := ScanBy(AppStep(p), r.1, lines[1..]);
        assert Scan(App, p, e, lines) == Later(Ok(t));
        assert ScanBy(AppStep(p), e, lines) == Shift(t);
        LaterOk(t);
      }
    } else {
      assert Scan(App, p, e, lines) == Ok((e, None));
    }
  }

  lemma LaterOk(t: (Article, Option<nat>))
    ensures Later(Ok(t)) == Ok(Shift(t))
  {
  }

  /** One step of the `app` scan, through the step function. */
  lemma ScanHead(p: Parsers, e: Article, lines: seq<string>)
    requires |lines| > 0
    ensures var r := AppStep(p)(lines[0], e);
            Scan(App, p, e, lines) == if r.0 then Ok((r.1, Some(0))) else Later(Scan(App, p, r.1, lines[1..]))
  {
    AppParsesLine(p, lines[0], e);
  }

  lemma ScanByHead(step: (string, Article) -> (bool, Article), e: Article, lines: seq<string>)
    requires |lines| > 0
    ensures var r := step(lines[0], e);
            ScanBy(step, e, lines) ==
              if r.0 then (r.1, Some(0)) else Shift(ScanBy(step, r.1, lines[1..]))
  {
  }

  lemma AppParsesLine(p: Parsers, line: string, e: Article)
    ensures ParseLine(App, p, line, e) == Ok(AppStep(p)(line, e))
  {
  }

  /** The step's verdict is the content-line test. */
  ghost predicate Decides(step: (string, Article) -> (bool, Article), test: string -> bool) {
    forall line, e :: step(line, e).0 == test(line)
  }

  /** The step leaves the id and the content alone. */
  ghost predicate KeepsIdAndContent(step: (string, Article) -> (bool, Article)) {
    forall line, e :: step(line, e).1.id == e.id && step(line, e).1.content == e.content
  }

  lemma AppStepFacts(p: Parsers)
    ensures Decides(AppStep(p), IsContentLine)
    ensures KeepsIdAndContent(AppStep(p))
  {
  }

  lemma {:induction false} ScanByFinds(step: (string, Article) -> (bool, Article), test: string -> bool, e: Article, lines: seq<string>)
    requires Decides(step, test)
    ensures ScanBy(step, e, lines).1 == FirstWhere(test, lines)
    decreases |lines|
  {
    if |lines| > 0 && !test(lines[0]) {
      ScanByFinds(step, test, step(lines[0], e).1, lines[1..]);
    }
  }

  lemma {:induction false} ScanByUpTo(step: (string, Article) -> (bool, Article), test: string -> bool, e: Article, lines: seq<string>, k: nat)
    requires Decides(step, test)
    requires FirstWhere(test, lines) == Some(k)
    ensures k < |lines| && ScanBy(step, e, lines) == ScanBy(step, e, lines[..k + 1])
    decreases |lines|
  {
    var pre := lines[..k + 1];
    assert pre[0] == lines[0];
    if !test(lines[0]) {
      ScanByUpTo(step, test, step(lines[0], e).1, lines[1..], k - 1);
      assert pre[1..] == lines[1..][..k];
    }
  }

  lemma {:induction false} ScanByKeeps(step: (string, Article) -> (bool, Article), e: Article, lines: seq<string>)
    requires KeepsIdAndContent(step)
    ensures ScanBy(step, e, lines).0.id == e.id && ScanBy(step, e, lines).0.content == e.content
    decreases |lines|
  {
    if |lines| > 0 && !step(lines[0], e).0 {
      ScanByKeeps(step, step(lines[0], e).1, lines[1..]);
    }
  }

  /** The scan never fails in the `app` copy and stops exactly at the first
      body line; lines after it do not reach the header fields. */
  lemma ScanStopsAtFirstContentLine(p: Parsers, e: Article, lines: seq<string>)
    ensures Scan(App, p, e, lines).Ok?
    ensures Scan(App, p, e, lines).value.1 == FirstContentLine(lines)
    ensures FirstContentLine(lines).Some? ==>
              Scan(App, p, e, lines) == Scan(App, p, e, lines[..FirstContentLine(lines).value + 1])
    ensures Scan(App, p, e, lines).value.0.id == e.id
    ensures Scan(App, p, e, lines).value.0.content == e.content
  {
    ScanFindsFirstContentLine(p, e, lines);
    ScanKeepsIdAndContent(p, e, lines);
    if FirstContentLine(lines).Some? {
      ScanIgnoresLaterLines(p, e, lines, FirstContentLine(lines).value);
    }
  }

  lemma ScanFindsFirstContentLine(p: Parsers, e: Article, lines: seq<string>)
    ensures Scan(App, p, e, lines).Ok?
    ensures Scan(App, p, e, lines).value.1 == FirstContentLine(lines)
  {
    AppStepFacts(p);
    ScanIsScanBy(p, e, lines);
    ScanByFinds(AppStep(p), IsContentLine, e, lines);
  }

  lemma ScanKeepsIdAndContent(p: Parsers, e: Article, lines: seq<string>)
    ensures Scan(App, p, e, lines).Ok?
    ensures Scan(App, p, e, lines).value.0.id == e.id
    ensures Scan(App, p, e, lines).value.0.content == e.content
  {
    AppStepFacts(p);
    ScanIsScanBy(p, e, lines);
    ScanByKeeps(AppStep(p), e, lines);
  }

  lemma ScanIgnoresLaterLines(p: Parsers, e: Article, lines: seq<string>, k: nat)
    requires FirstContentLine(lines) == Some(k)
    ensures k < |lines| && Scan(App, p, e, lines) == Scan(App, p, e, lines[..k + 1])
  {
    AppStepFacts(p);
    ScanIsScanBy(p, e, lines);
    ScanIsScanBy(p, e, lines[..k + 1]);
    ScanByUpTo(AppStep(p), IsContentLine, e, lines, k);
  }

  /** In the `src` copy the pattern is looked up under a name its globals
      module does not define, so the first line read raises: only an empty
      file with a numeric name yields an entry. */
  lemma SrcOnlyReadsEmptyFiles(p: Parsers, stem: string, text: string)
    ensures ReadArticle(Src, p, stem, text).Ok? <==> ParseInt(stem).Some? && text == []
    ensures ParseInt(stem).Some? && text != [] ==> ReadArticle(Src, p, stem, text) == Err(MissingPattern)
  {
    var lines := SplitLines(text);
    if text != [] {
      assert lines != [];
    }
  }

  /** The `app` copy reads every file whose name is a number: the id is
      that number, a file with no body line keeps "NULL" content, and
      otherwise the content is the first body line stripped followed by
      every later non-blank line stripped, with no separators and nothing
      to strip at either end. */
  lemma AppReadsArticle(p: Parsers, stem: string, text: string)
    ensures ReadArticle(App, p, stem, text).Ok? <==> ParseInt(stem).Some?
    ensures ParseInt(stem).Some? ==> ReadArticle(App, p, stem, text).value.id == ParseInt(stem).value
    ensures ParseInt(stem).Some? && FirstContentLine(SplitLines(text)).None? ==>
              ReadArticle(App, p, stem, text).value.content == Null
    ensures ParseInt(stem).Some? && FirstContentLine(SplitLines(text)).Some? ==>
              ContentIsBody(ReadArticle(App, p, stem, text).value.content, SplitLines(text), FirstContentLine(SplitLines(text)).value)
  {
    if ParseInt(stem).Some? {
      var lines := SplitLines(text);
      ScanStopsAtFirstContentLine(p, Initial(ParseInt(stem).value), lines);
      var fc := FirstContentLine(lines);
      if fc.Some? {
        BodyContent(lines, fc.value);
      }
    }
  }

  /** The content is the body line stripped, then the later lines glued,
      and stripping it again changes nothing. */
  ghost predicate ContentIsBody(content: string, lines: seq<string>, i: nat)
    requires i < |lines|
  {
    content == Strip(lines[i]) + JoinStripped(lines[i + 1..]) && Strip(content) == content && content != []
  }

  lemma BodyContent(lines: seq<string>, i: nat)
    requires i < |lines| && IsContentLine(lines[i])
    ensures ContentIsBody(Strip(Strip(lines[i]) + JoinStripped(lines[i + 1..])), lines, i)
  {
    var s := Strip(lines[i]) + JoinStripped(lines[i + 1..]);
    JoinStrippedEnds(lines[i + 1..]);
    assert Strip(lines[i]) != [];
    ConcatEnds(Strip(lines[i]), JoinStripped(lines[i + 1..]));
    StripStripped(s);
  }

  /** Glued stripped lines neither start nor end with whitespace. */
  lemma {:induction false} JoinStrippedEnds(lines: seq<string>)
    ensures Trimmed(JoinStripped(lines))
    decreases |lines|
  {
    if |lines| > 0 {
      JoinStrippedEnds(lines[1..]);
      ConcatEnds(Strip(lines[0]), JoinStripped(lines[1..]));
    }
  }

  /** Gluing two strings with no space at either end keeps that property. */
  lemma ConcatEnds(a: string, b: string)
    requires Trimmed(a) && Trimmed(b)
    ensures Trimmed(a + b)
  {
    if a != [] && b != [] {
      assert (a + b)[0] == a[0];
      assert (a + b)[|a + b| - 1] == b[|b| - 1];
    }
  }

  /** The header fields of the result depend only on the lines up to the
      first body line. */
  lemma HeaderIgnoresBody(p: Parsers, stem: string, text: string, i: nat)
    requires ParseInt(stem).Some?
    requires FirstContentLine(SplitLines(text)) == Some(i)
    ensures ReadArticle(App, p, stem, text).Ok?
    ensures Scan(App, p, Initial(ParseInt(stem).value), SplitLines(text)[..i + 1]).Ok?
    ensures ReadArticle(App, p, stem, text).value
              == Scan(App, p, Initial(ParseInt(stem).value), SplitLines(text)[..i + 1]).value.0
                   .(content := ReadArticle(App, p, stem, text).value.content)
  {
    ScanStopsAtFirstContentLine(p, Initial(ParseInt(stem).value), SplitLines(text));
  }
}
