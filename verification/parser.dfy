/**
 * The field rules of `CinecoScraper.parse_html`, applied to the text the HTML
 * selection has already extracted for each `a.movie-item` link: the premiere
 * date rewrite, genre normalisation, badge classification, the page-slug
 * default status and the empty-page failure.
 */
module ListingParser {
  import opened Wrappers
  import opened PyStr
  import opened Movies
  import SpanishMonths

  const BaseUrl: string := "https://www.cinecolombia.com"
  const DateLabel: string := "Estreno:"
  const GenreLabel: string := "Género:"

  /**
   * One `a.movie-item` link as the selection yields it: the `h2` title text,
   * the `href`, the stripped text of each `span.movie-item__meta` in document
   * order, and the stripped text of the `span.movie-item__badge` if there is one.
   */
  datatype RawItem = RawItem(title: string, href: string, metas: seq<string>, badge: Option<string>)

  /** The exceptions `parse_html` lets escape. */
  datatype ParseError =
    | MissingMonthToken(text: string)  // `date[1]` on a date without "-": IndexError
    | UnknownMonth(token: string)      // the month table's KeyError
    | UnknownBadge(badge: string)      // ValueError("Unknown badge:", badge)
    | NoMovies(slug: Status)           // ValueError("No movies found in", slug)
    | InvalidMovie(title: string)      // the record rejects a missing or unconvertible premiere date

  // ---------------------------------------------------------------------------
  // premiere date
  // ---------------------------------------------------------------------------

  /** `text.replace("Estreno:", "").strip().lower().split("-")`. */
  function DateTokens(text: string): (parts: seq<string>)
    ensures |parts| >= 1
    ensures forall k :: 0 <= k < |parts| ==> '-' !in parts[k]
    ensures Join(parts, '-') == Lower(Strip(RemoveAll(text, DateLabel)))
  {
    Split(Lower(Strip(RemoveAll(text, DateLabel))), '-')
  }

  function Reverse<T>(s: seq<T>): (r: seq<T>)
    ensures |r| == |s|
    ensures forall k :: 0 <= k < |s| ==> r[k] == s[|s| - 1 - k]
  {
    if s == [] then [] else Reverse(s[1..]) + [s[0]]
  }

  /** `date[1] = spanish_month_to_number(date[1])` then `"-".join(reversed(date))`. */
  function ReorderDate(parts: seq<string>): (r: Result<string, ParseError>)
    ensures r.Ok? <==> |parts| >= 2 && parts[1] in SpanishMonths.MonthKeys
  {
    if |parts| < 2 then Err(MissingMonthToken(Join(parts, '-')))
    else match SpanishMonths.SpanishMonthToNumber(parts[1])
      case None => Err(UnknownMonth(parts[1]))
      case Some(number) => Ok(Join(Reverse(parts[1 := number]), '-'))
  }

  /** The premiere-date rewrite of one "Estreno:" meta text. */
  function RewriteDate(text: string): Result<string, ParseError> {
    ReorderDate(DateTokens(text))
  }

  /** Three pieces joined with "-". */
  lemma JoinThree(a: string, b: string, c: string)
    ensures Join([a, b, c], '-') == a + "-" + b + "-" + c
  {
    assert [a, b, c][1..] == [b, c];
    assert [b, c][1..] == [c];
    assert Join([b, c], '-') == b + "-" + c;
  }

  /** A day-month-year triple comes out as year-month number-day. */
  lemma DayMonthYear(day: string, month: string, year: string)
    requires '-' !in day && '-' !in year && month in SpanishMonths.MonthKeys
    ensures ReorderDate(Split(day + "-" + month + "-" + year, '-'))
      == Ok(year + "-" + SpanishMonths.SpanishMonthToNumber(month).value + "-" + day)
  {
    var parts := [day, month, year];
    assert '-' !in month;
    JoinThree(day, month, year);
    SplitJoin(parts, '-');
    var number := SpanishMonths.SpanishMonthToNumber(month).value;
    assert Reverse(parts[1 := number]) == [year, number, day];
    JoinThree(year, number, day);
  }

  /**
   * The rewritten date holds the same tokens as the text, in reverse order,
   * with the month token replaced by its number.
   */
  lemma RewriteDateTokens(text: string)
    requires RewriteDate(text).Ok?
    ensures var parts := DateTokens(text);
      Split(RewriteDate(text).value, '-')
        == Reverse(parts[1 := SpanishMonths.SpanishMonthToNumber(parts[1]).value])
  {
    var parts := DateTokens(text);
    var number := SpanishMonths.SpanishMonthToNumber(parts[1]).value;
    SpanishMonths.LookupIsMonthNumber(parts[1]);
    assert '-' !in number;
    var reordered := Reverse(parts[1 := number]);
    forall k | 0 <= k < |reordered| ensures '-' !in reordered[k] {
    }
    SplitJoin(reordered, '-');
  }

  /** A string that lacks the first character of `pat` does not contain `pat`. */
  lemma {:induction false} MissingFirstChar(s: string, pat: string)
    requires pat != [] && pat[0] !in s
    ensures !HasSubstring(s, pat)
    decreases |s|
  {
    if |pat| <= |s| {
      assert s[0] != pat[0];
      MissingFirstChar(s[1..], pat);
    }
  }

  /** A leading label is removed like any other occurrence. */
  lemma RemoveLabel(rest: string)
    ensures RemoveAll(DateLabel + rest, DateLabel) == RemoveAll(rest, DateLabel)
  {
    var s := DateLabel + rest;
    assert s[..|DateLabel|] == DateLabel;
    assert s[|DateLabel|..] == rest;
  }

  /** Non-empty and made of decimal digits only. */
  ghost predicate IsNumeral(s: string) {
    s != [] && forall k :: 0 <= k < |s| ==> '0' <= s[k] <= '9'
  }

  /** Digits, lower-case ASCII letters, spaces and "-" only. */
  ghost predicate PlainDateChars(core: string) {
    forall k :: 0 <= k < |core| ==> core[k] == '-' || core[k] == ' ' || '0' <= core[k] <= '9' || 'a' <= core[k] <= 'z'
  }

  lemma NumeralIsPlain(s: string)
    requires IsNumeral(s)
    ensures PlainDateChars(s)
  {
  }

  lemma MonthKeyIsPlain(month: string)
    requires month in SpanishMonths.MonthKeys
    ensures PlainDateChars(month) && month != [] && 'a' <= month[|month| - 1] <= 'z' && '-' !in month
  {
    SpanishMonths.LookupIsExactMatch(month);
  }

  lemma PlainConcat(a: string, b: string)
    requires PlainDateChars(a) && PlainDateChars(b)
    ensures PlainDateChars(a + b)
  {
  }

  /** Removing the label from "Estreno: " + plain text leaves " " + the text. */
  lemma PlainLabelRemoved(core: string)
    requires PlainDateChars(core)
    ensures RemoveAll(DateLabel + (" " + core), DateLabel) == " " + core
  {
    RemoveLabel(" " + core);
    MissingFirstChar(" " + core, DateLabel);
  }

  /** Plain text has nothing to lower-case. */
  lemma PlainLowered(core: string)
    requires PlainDateChars(core)
    ensures Lower(core) == core
  {
  }

  /** The tokens of "Estreno: " + plain text are the pieces of that text between "-". */
  lemma PlainDateTokens(core: string)
    requires PlainDateChars(core)
    requires core != [] && core[0] != '-' && core[0] != ' ' && core[|core| - 1] != '-' && core[|core| - 1] != ' '
    ensures DateTokens(DateLabel + (" " + core)) == Split(core, '-')
  {
    PlainLabelRemoved(core);
    PlainLowered(core);
    StripOneSpace(core);
  }

  /** The dd-mmm-yyyy form the pages print becomes yyyy-mm-dd. */
  lemma DayMonthYearText(day: string, month: string, year: string)
    requires IsNumeral(day) && IsNumeral(year) && month in SpanishMonths.MonthKeys
    ensures RewriteDate(DateLabel + " " + day + "-" + month + "-" + year)
      == Ok(year + "-" + SpanishMonths.SpanishMonthToNumber(month).value + "-" + day)
  {
    var core := day + "-" + month + "-" + year;
    assert DateLabel + " " + day + "-" + month + "-" + year == DateLabel + (" " + core);
    DayMonthYearIsPlain(day, month, year);
    PlainDateTokens(core);
    DayMonthYear(day, month, year);
  }

  /** "dd-mmm-yyyy" is plain date text that starts and ends with a digit. */
  lemma DayMonthYearIsPlain(day: string, month: string, year: string)
    requires IsNumeral(day) && IsNumeral(year) && month in SpanishMonths.MonthKeys
    ensures var core := day + "-" + month + "-" + year;
      PlainDateChars(core) && core != [] && '0' <= core[0] <= '9' && '0' <= core[|core| - 1] <= '9'
  {
    var core := day + "-" + month + "-" + year;
    NumeralIsPlain(day);
    NumeralIsPlain(year);
    MonthKeyIsPlain(month);
    PlainConcat(day, "-");
    PlainConcat(day + "-", month);
    PlainConcat(day + "-" + month, "-");
    PlainConcat(day + "-" + month + "-", year);
    assert core[0] == day[0] && core[|core| - 1] == year[|year| - 1];
  }

  /** Stripping one leading space from text that starts and ends with a non-space. */
  lemma StripOneSpace(core: string)
    requires core != [] && !IsSpace(core[0]) && !IsSpace(core[|core| - 1])
    ensures Strip(" " + core) == core
  {
    assert LeadingSpaces(" " + core) == 1 by {
      assert (" " + core)[1..] == core;
    }
    assert (" " + core)[1..] == core;
  }

  /** With spaces around the "-", the month token keeps its space and the lookup fails. */
  lemma SpacedDateFails(day: string, month: string)
    requires IsNumeral(day) && month in SpanishMonths.MonthKeys
    ensures RewriteDate(DateLabel + " " + day + " - " + month) == Err(UnknownMonth(" " + month))
  {
    var core := day + " - " + month;
    assert DateLabel + " " + day + " - " + month == DateLabel + (" " + core);
    SpacedDateIsPlain(day, month);
    PlainDateTokens(core);
    SpacedSplit(day, month);
    PaddedMonthMisses(month);
  }

  /** A key with a space in front is four characters long, so no key matches it. */
  lemma PaddedMonthMisses(month: string)
    requires month in SpanishMonths.MonthKeys
    ensures SpanishMonths.SpanishMonthToNumber(" " + month) == None
  {
    SpanishMonths.LookupIsExactMatch(month);
    assert |" " + month| == 4;
  }

  /** "dd - mmm" is plain date text that starts with a digit and ends with a letter. */
  lemma SpacedDateIsPlain(day: string, month: string)
    requires IsNumeral(day) && month in SpanishMonths.MonthKeys
    ensures var core := day + " - " + month;
      PlainDateChars(core) && core != [] && '0' <= core[0] <= '9' && 'a' <= core[|core| - 1] <= 'z'
  {
    var core := day + " - " + month;
    NumeralIsPlain(day);
    MonthKeyIsPlain(month);
    PlainConcat(day, " - ");
    PlainConcat(day + " - ", month);
    assert core[0] == day[0] && core[|core| - 1] == month[|month| - 1];
  }

  /** "dd - mmm" splits into "dd " and " mmm". */
  lemma SpacedSplit(day: string, month: string)
    requires IsNumeral(day) && month in SpanishMonths.MonthKeys
    ensures Split(day + " - " + month, '-') == [day + " ", " " + month]
  {
    var parts := [day + " ", " " + month];
    assert '-' !in month;
    assert Join(parts, '-') == day + " - " + month;
    SplitJoin(parts, '-');
  }

  // ---------------------------------------------------------------------------
  // genres
  // ---------------------------------------------------------------------------

  /** The genre text with its label removed, its lines joined and its whitespace collapsed. */
  function GenreText(text: string): string {
    CollapseSpaces(Join(SplitLines(Strip(RemoveAll(text, GenreLabel))), ' '))
  }

  /** `{g.strip() for g in text.split(",")}`, before the set removes repeats. */
  function GenreTokens(text: string): (tokens: seq<string>)
    ensures forall k :: 0 <= k < |tokens| ==> Collapsed(tokens[k]) && ',' !in tokens[k]
  {
    var pieces := Split(GenreText(text), ',');
    SplitSingleSpaced(GenreText(text), ',');
    forall k | 0 <= k < |pieces| ensures Collapsed(Strip(pieces[k])) && ',' !in Strip(pieces[k]) {
      StripCollapsed(pieces[k]);
    }
    seq(|pieces|, k requires 0 <= k < |pieces| => Strip(pieces[k]))
  }

  /**
   * `sorted({g.strip() for g in text.split(",")})`: strictly increasing, so
   * without repeats; exactly the trimmed comma-separated tokens; each one
   * single-spaced, without whitespace at its ends and without a comma.
   */
  function NormalizeGenres(text: string): (genres: seq<string>)
    ensures StrictlySorted(genres)
    ensures forall g :: g in genres <==> g in GenreTokens(text)
    ensures forall g :: g in genres ==> Collapsed(g) && ',' !in g
  {
    SortedSet(GenreTokens(text))
  }

  /** A leading genre label is removed like any other occurrence. */
  lemma GenreLabelRemoved(rest: string)
    ensures RemoveAll(GenreLabel + rest, GenreLabel) == RemoveAll(rest, GenreLabel)
  {
    var s := GenreLabel + rest;
    assert s[..|GenreLabel|] == GenreLabel;
    assert s[|GenreLabel|..] == rest;
  }

  /** "Género:" followed by text without a "G" is read as that text alone. */
  lemma PlainGenreText(rest: string)
    requires 'G' !in rest
    ensures GenreText(GenreLabel + rest) == CollapseSpaces(Join(SplitLines(Strip(rest)), ' '))
  {
    GenreLabelRemoved(rest);
    MissingFirstChar(rest, GenreLabel);
  }

  /** Collapsing keeps every word of the label-free text and adds none. */
  lemma GenreTextKeepsWords(text: string)
    ensures Words(GenreText(text)) == Words(Strip(RemoveAll(text, GenreLabel)))
  {
    WordsIgnoreLineJoin(Strip(RemoveAll(text, GenreLabel)));
  }

  /** The normalised list does not depend on the order or repetition of the tokens. */
  lemma GenresAreTheSortedSet(text: string, sorted: seq<string>)
    requires StrictlySorted(sorted)
    requires forall g :: g in sorted <==> g in GenreTokens(text)
    ensures NormalizeGenres(text) == sorted
  {
    StrictlySortedUnique(NormalizeGenres(text), sorted);
  }

  // ---------------------------------------------------------------------------
  // metas, badge, one item
  // ---------------------------------------------------------------------------

  /** The per-item locals the meta loop reassigns. */
  datatype Fields = Fields(premiereDate: Option<string>, genres: seq<string>)

  predicate IsDateMeta(text: string) {
    HasSubstring(text, DateLabel)
  }

  predicate IsGenreMeta(text: string) {
    !HasSubstring(text, DateLabel) && HasSubstring(text, GenreLabel)
  }

  /** One turn of the meta loop. */
  function ApplyMeta(f: Fields, text: string): Result<Fields, ParseError> {
    if IsDateMeta(text) then
      match RewriteDate(text)
      case Err(e) => Err(e)
      case Ok(date) => Ok(f.(premiereDate := Some(date)))
    else if IsGenreMeta(text) then Ok(f.(genres := NormalizeGenres(text)))
    else Ok(f)
  }

  /** The meta loop over `metas` from fresh locals; the first raise stops it. */
  function ScanMetas(metas: seq<string>): Result<Fields, ParseError> {
    if metas == [] then Ok(Fields(None, []))
    else
      match ScanMetas(metas[..|metas| - 1])
      case Err(e) => Err(e)
      case Ok(f) => ApplyMeta(f, metas[|metas| - 1])
  }

  /** The meta at `i` is a date meta whose rewrite fails. */
  ghost predicate BadDateMetaAt(metas: seq<string>, i: int) {
    0 <= i < |metas| && IsDateMeta(metas[i]) && RewriteDate(metas[i]).Err?
  }

  /** One turn of the meta loop fails exactly on a date meta whose rewrite fails. */
  lemma ApplyMetaFails(f: Fields, text: string)
    ensures ApplyMeta(f, text).Err? <==> IsDateMeta(text) && RewriteDate(text).Err?
  {
  }

  /** A date meta whose rewrite fails makes the whole scan fail, and nothing else does. */
  lemma {:induction false} ScanFailsOnBadDate(metas: seq<string>)
    ensures ScanMetas(metas).Err? <==> exists i :: BadDateMetaAt(metas, i)
  {
    if metas != [] {
      var init := metas[..|metas| - 1];
      var last := |metas| - 1;
      ScanFailsOnBadDate(init);
      forall i | 0 <= i < |init| ensures BadDateMetaAt(metas, i) == BadDateMetaAt(init, i) {
        assert metas[i] == init[i];
      }
      if ScanMetas(init).Ok? {
        ApplyMetaFails(ScanMetas(init).value, metas[last]);
        if BadDateMetaAt(metas, last) {
          assert ScanMetas(metas).Err?;
        }
      } else {
        var i :| BadDateMetaAt(init, i);
        assert BadDateMetaAt(metas, i);
      }
    }
  }

  /** `i` is the last date meta of `metas`. */
  ghost predicate LastDateMetaAt(metas: seq<string>, i: int) {
    0 <= i < |metas| && IsDateMeta(metas[i]) && forall j :: i < j < |metas| ==> !IsDateMeta(metas[j])
  }

  /** One turn of the meta loop sets the date exactly on a date meta, to its rewrite. */
  lemma ApplyMetaDate(f: Fields, text: string)
    requires ApplyMeta(f, text).Ok?
    ensures IsDateMeta(text) ==> RewriteDate(text).Ok? && ApplyMeta(f, text).value.premiereDate == Some(RewriteDate(text).value)
    ensures !IsDateMeta(text) ==> ApplyMeta(f, text).value.premiereDate == f.premiereDate
  {
  }

  /** The premiere date stays unset exactly when no meta is a date meta. */
  lemma {:induction false} DateUnsetWithoutDateMeta(metas: seq<string>)
    requires ScanMetas(metas).Ok?
    ensures ScanMetas(metas).value.premiereDate.None? <==> forall i :: 0 <= i < |metas| ==> !IsDateMeta(metas[i])
  {
    if metas != [] {
      var init := metas[..|metas| - 1];
      var last := |metas| - 1;
      assert ScanMetas(init).Ok?;
      DateUnsetWithoutDateMeta(init);
      var g := ScanMetas(init).value;
      assert ScanMetas(metas) == ApplyMeta(g, metas[last]);
      ApplyMetaDate(g, metas[last]);
      forall i | 0 <= i < |init| ensures metas[i] == init[i] {
      }
    }
  }

  /** `d` is the rewrite of the last date meta, the one at `i`. */
  ghost predicate DateFromMeta(metas: seq<string>, i: int, d: string) {
    LastDateMetaAt(metas, i) && RewriteDate(metas[i]) == Ok(d)
  }

  /** The last date meta of a prefix stays the last one when a non-date meta follows. */
  lemma DateFromMetaExtends(metas: seq<string>, i: int, d: string)
    requires metas != [] && !IsDateMeta(metas[|metas| - 1])
    requires DateFromMeta(metas[..|metas| - 1], i, d)
    ensures DateFromMeta(metas, i, d)
  {
    var init := metas[..|metas| - 1];
    assert metas[i] == init[i];
    forall j | i < j < |metas| ensures !IsDateMeta(metas[j]) {
      if j < |metas| - 1 {
        assert metas[j] == init[j];
      }
    }
  }

  /** A set premiere date is the rewrite of the last date meta. */
  lemma {:induction false} LastDateMetaWins(metas: seq<string>)
    requires ScanMetas(metas).Ok? && ScanMetas(metas).value.premiereDate.Some?
    ensures exists i :: DateFromMeta(metas, i, ScanMetas(metas).value.premiereDate.value)
  {
    var init := metas[..|metas| - 1];
    var last := |metas| - 1;
    var g := ScanMetas(init).value;
    assert ScanMetas(metas) == ApplyMeta(g, metas[last]);
    ApplyMetaDate(g, metas[last]);
    var d := ScanMetas(metas).value.premiereDate.value;
    if IsDateMeta(metas[last]) {
      assert DateFromMeta(metas, last, d);
    } else {
      LastDateMetaWins(init);
      var i :| DateFromMeta(init, i, d);
      DateFromMetaExtends(metas, i, d);
    }
  }

  /** One turn of the meta loop sets the genres exactly on a genre meta, to its normalisation. */
  lemma ApplyMetaGenres(f: Fields, text: string)
    requires ApplyMeta(f, text).Ok?
    ensures IsGenreMeta(text) ==> ApplyMeta(f, text).value.genres == NormalizeGenres(text)
    ensures !IsGenreMeta(text) ==> ApplyMeta(f, text).value.genres == f.genres
  {
  }

  /** Without a genre meta the genres stay empty. */
  lemma {:induction false} GenresEmptyWithoutGenreMeta(metas: seq<string>)
    requires ScanMetas(metas).Ok?
    requires forall i :: 0 <= i < |metas| ==> !IsGenreMeta(metas[i])
    ensures ScanMetas(metas).value.genres == []
  {
    if metas != [] {
      var init := metas[..|metas| - 1];
      var last := |metas| - 1;
      var g := ScanMetas(init).value;
      assert ScanMetas(metas) == ApplyMeta(g, metas[last]);
      ApplyMetaGenres(g, metas[last]);
      forall i | 0 <= i < |init| ensures !IsGenreMeta(init[i]) {
        assert metas[i] == init[i];
      }
      GenresEmptyWithoutGenreMeta(init);
    }
  }

  /** `i` is the last genre meta of `metas`. */
  ghost predicate LastGenreMetaAt(metas: seq<string>, i: int) {
    0 <= i < |metas| && IsGenreMeta(metas[i]) && forall j :: i < j < |metas| ==> !IsGenreMeta(metas[j])
  }

  /** The genres come from the last genre meta. */
  lemma {:induction false} LastGenreMetaWins(metas: seq<string>, i: int)
    requires ScanMetas(metas).Ok? && LastGenreMetaAt(metas, i)
    ensures ScanMetas(metas).value.genres == NormalizeGenres(metas[i])
  {
    var init := metas[..|metas| - 1];
    var last := |metas| - 1;
    var g := ScanMetas(init).value;
    assert ScanMetas(metas) == ApplyMeta(g, metas[last]);
    ApplyMetaGenres(g, metas[last]);
    if i < last {
      assert metas[i] == init[i];
      forall j | i < j < |init| ensures !IsGenreMeta(init[j]) {
        assert metas[j] == init[j];
      }
      LastGenreMetaWins(init, i);
    }
  }

  /** Status and flags as the badge leaves them. */
  datatype Marks = Marks(status: Status, premiere: bool, presale: bool)

  /** The badge `match`; without a badge the page slug's status and both flags False stay. */
  function ApplyBadge(badge: Option<string>, slug: Status): Result<Marks, ParseError> {
    match badge
    case None => Ok(Marks(slug, false, false))
    case Some(b) =>
      if b == "Estreno" then Ok(Marks(slug, true, false))
      else if b == "Preventa" then Ok(Marks(Pronto, false, true))
      else Err(UnknownBadge(b))
  }

  /**
   * Builds the record from one item: the metas first, then the badge, then
   * the record itself, which needs a premiere date that `toDate` (the
   * conversion of "yyyy-mm-dd" text to a date) accepts.
   */
  function ParseItem(item: RawItem, slug: Status, toDate: string -> Option<Date>): Result<Movie, ParseError> {
    match ScanMetas(item.metas)
    case Err(e) => Err(e)
    case Ok(f) =>
      match ApplyBadge(item.badge, slug)
      case Err(e) => Err(e)
      case Ok(marks) =>
        if f.premiereDate.None? then Err(InvalidMovie(item.title))
        else
          match toDate(f.premiereDate.value)
          case None => Err(InvalidMovie(item.title))
          case Some(date) =>
            Ok(Movie(item.title, date, BaseUrl + item.href, marks.status, f.genres, marks.premiere, marks.presale))
  }

  /** The badge rules as they show in a parsed record. */
  lemma BadgeRules(item: RawItem, slug: Status, toDate: string -> Option<Date>)
    requires ParseItem(item, slug, toDate).Ok?
    ensures var m := ParseItem(item, slug, toDate).value;
      && (item.badge.None? ==> m.status == slug && !m.premiere && !m.presale)
      && (item.badge == Some("Estreno") ==> m.status == slug && m.premiere && !m.presale)
      && (item.badge == Some("Preventa") ==> m.status == Pronto && !m.premiere && m.presale)
      && (item.badge.Some? ==> item.badge.value in {"Estreno", "Preventa"})
  {
  }

  /** Any other badge text, the empty text included, raises once the metas have been read. */
  lemma UnknownBadgeRaises(item: RawItem, slug: Status, toDate: string -> Option<Date>)
    requires item.badge.Some? && item.badge.value != "Estreno" && item.badge.value != "Preventa"
    requires ScanMetas(item.metas).Ok?
    ensures ParseItem(item, slug, toDate) == Err(UnknownBadge(item.badge.value))
  {
  }

  /** Title, URL, date and genres of a parsed record. */
  lemma ParsedFields(item: RawItem, slug: Status, toDate: string -> Option<Date>)
    requires ParseItem(item, slug, toDate).Ok?
    ensures var m := ParseItem(item, slug, toDate).value;
      var f := ScanMetas(item.metas).value;
      && m.title == item.title
      && m.url == BaseUrl + item.href
      && f.premiereDate.Some? && toDate(f.premiereDate.value) == Some(m.premiereDate)
      && m.genres == f.genres
  {
  }

  // ---------------------------------------------------------------------------
  // one page
  // ---------------------------------------------------------------------------

  /** The item loop: records in page order; the first raise stops it. */
  function ParseItems(items: seq<RawItem>, slug: Status, toDate: string -> Option<Date>): Result<seq<Movie>, ParseError> {
    if items == [] then Ok([])
    else
      match ParseItems(items[..|items| - 1], slug, toDate)
      case Err(e) => Err(e)
      case Ok(ms) =>
        match ParseItem(items[|items| - 1], slug, toDate)
        case Err(e) => Err(e)
        case Ok(m) => Ok(ms + [m])
  }

  /** `parse_html` on one page: its records, or the first error; a page without records is an error. */
  function ParsePage(items: seq<RawItem>, slug: Status, toDate: string -> Option<Date>): Result<seq<Movie>, ParseError> {
    match ParseItems(items, slug, toDate)
    case Err(e) => Err(e)
    case Ok(ms) => if ms == [] then Err(NoMovies(slug)) else Ok(ms)
  }

  /** A page succeeds exactly when it has items and each of them parses; the records are theirs, in order. */
  lemma {:induction false} PageIsItemwise(items: seq<RawItem>, slug: Status, toDate: string -> Option<Date>)
    ensures ParseItems(items, slug, toDate).Ok? <==> forall i :: 0 <= i < |items| ==> ParseItem(items[i], slug, toDate).Ok?
    ensures ParseItems(items, slug, toDate).Ok? ==>
      var ms := ParseItems(items, slug, toDate).value;
      |ms| == |items| && forall i :: 0 <= i < |items| ==> ParseItem(items[i], slug, toDate) == Ok(ms[i])
  {
    if items != [] {
      var init := items[..|items| - 1];
      PageIsItemwise(init, slug, toDate);
      forall i | 0 <= i < |init| ensures items[i] == init[i] {
      }
    }
  }

  /** A page with no items is the empty-page error. */
  lemma EmptyPageFails(slug: Status, toDate: string -> Option<Date>)
    ensures ParsePage([], slug, toDate) == Err(NoMovies(slug))
  {
  }

  /** A successful page has as many records as items, at least one. */
  lemma ParsedPageNonEmpty(items: seq<RawItem>, slug: Status, toDate: string -> Option<Date>)
    requires ParsePage(items, slug, toDate).Ok?
    ensures |ParsePage(items, slug, toDate).value| == |items| > 0
  {
    PageIsItemwise(items, slug, toDate);
  }

  /** Once an item of a prefix fails, the page fails with that error. */
  lemma {:induction false} FailurePropagates(items: seq<RawItem>, k: nat, slug: Status, toDate: string -> Option<Date>)
    requires k <= |items| && ParseItems(items[..k], slug, toDate).Err?
    ensures ParseItems(items, slug, toDate) == ParseItems(items[..k], slug, toDate)
    decreases |items| - k
  {
    if k < |items| {
      assert items[..k + 1][..k] == items[..k];
      FailurePropagates(items, k + 1, slug, toDate);
    } else {
      assert items[..k] == items;
    }
  }

  /** Once a meta of a prefix fails, the scan fails with that error. */
  lemma {:induction false} ScanFailurePropagates(metas: seq<string>, k: nat)
    requires k <= |metas| && ScanMetas(metas[..k]).Err?
    ensures ScanMetas(metas) == ScanMetas(metas[..k])
    decreases |metas| - k
  {
    if k < |metas| {
      assert metas[..k + 1][..k] == metas[..k];
      ScanFailurePropagates(metas, k + 1);
    } else {
      assert metas[..k] == metas;
    }
  }

  /** The meta loop of one item: the date rewrite and the genre normalisation, in document order. */
  method ReadMetas(metas: seq<string>) returns (r: Result<Fields, ParseError>)
    ensures r == ScanMetas(metas)
  {
    var premiereDate: Option<string> := None;
    var genres: seq<string> := [];
    for j := 0 to |metas|
      invariant ScanMetas(metas[..j]) == Ok(Fields(premiereDate, genres))
    {
      var text := metas[j];
      assert metas[..j + 1][..j] == metas[..j];
      if IsDateMeta(text) {
        var date := DateTokens(text);
        if |date| < 2 {
          r := Err(MissingMonthToken(Join(date, '-')));
          ScanFailurePropagates(metas, j + 1);
          return;
        }
        var number := SpanishMonths.SpanishMonthToNumber(date[1]);
        if number.None? {
          r := Err(UnknownMonth(date[1]));
          ScanFailurePropagates(metas, j + 1);
          return;
        }
        date := date[1 := number.value];
        premiereDate := Some(Join(Reverse(date), '-'));
      } else if IsGenreMeta(text) {
        genres := NormalizeGenres(text);
      }
    }
    assert metas[..|metas|] == metas;
    r := Ok(Fields(premiereDate, genres));
  }

  /**
   * `parse_html` with the page already selected: each item's metas are read in
   * order, then its badge, then the record is appended; a page without
   * records raises.
   */
  method ParseHtml(items: seq<RawItem>, slug: Status, toDate: string -> Option<Date>)
    returns (r: Result<seq<Movie>, ParseError>)
    ensures r == ParsePage(items, slug, toDate)
  {
    var movies: seq<Movie> := [];
    for i := 0 to |items|
      invariant ParseItems(items[..i], slug, toDate) == Ok(movies)
    {
      var item := items[i];
      assert items[..i + 1][..i] == items[..i];
      var status := slug;
      var premiere := false;
      var presale := false;

      var fields := ReadMetas(item.metas);
      if fields.Err? {
        r := Err(fields.error);
        FailurePropagates(items, i + 1, slug, toDate);
        return;
      }
      var premiereDate := fields.value.premiereDate;
      var genres := fields.value.genres;

      if item.badge.Some? {
        var badge := item.badge.value;
        if badge == "Estreno" {
          premiere := true;
        } else if badge == "Preventa" {
          presale := true;
          status := Pronto;
        } else {
          r := Err(UnknownBadge(badge));
          FailurePropagates(items, i + 1, slug, toDate);
          return;
        }
      }

      if premiereDate.None? {
        r := Err(InvalidMovie(item.title));
        FailurePropagates(items, i + 1, slug, toDate);
        return;
      }
      var date := toDate(premiereDate.value);
      if date.None? {
        r := Err(InvalidMovie(item.title));
        FailurePropagates(items, i + 1, slug, toDate);
        return;
      }
      movies := movies + [Movie(item.title, date.value, BaseUrl + item.href, status, genres, premiere, presale)];
    }
    assert items[..|items|] == items;
    if movies == [] {
      r := Err(NoMovies(slug));
      return;
    }
    r := Ok(movies);
  }
}
