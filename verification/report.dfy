/**
 * `build_compare_message`: the Markdown report that compares the newer
 * snapshot with the older one. `Compare` says which lines the report holds
 * and how each is marked; the `Render` functions say how those lines are
 * spelled; `BuildCompareMessage` grows the message with the loops of
 * `build_compare_message` and is proved to produce the rendering of the
 * comparison.
 */
module CompareReport {
  import opened PyStr
  import opened Movies

  const Title: string := "# Películas Cineco\n\n"
  const CarteleraHeading: string := "## Cartelera\n\n"
  const ProntoHeading: string := "\n## Pronto\n"
  const Popcorn: string := "\U{1F37F}"
  const NewMark: string := "\U{1F195}"
  const Wave: string := "\U{1F44B}"

  /** One listing line: the movie, and whether it carries the popcorn and the "new" marker. */
  datatype Entry = Entry(movie: Movie, popcorn: bool, isNew: bool)

  /** One "###" section of the Pronto part: a premiere date and its lines. */
  datatype Block = Block(date: Date, entries: seq<Entry>)

  /** What the message says, section by section. */
  datatype Report = Report(
    showing: seq<Entry>,      // lines under "## Cartelera"
    leftShowing: seq<Movie>,  // the farewell lines that follow them
    coming: seq<Block>,       // the dated blocks under "## Pronto"
    leftComing: seq<Movie>)   // the farewell lines that close the message

  // ---------------------------------------------------------------------------
  // what the report holds
  // ---------------------------------------------------------------------------

  /** The lines for `ms`, marked new when `older` lacks them; popcorn only where allowed and premiering. */
  function Mark(ms: seq<Movie>, older: seq<Movie>, popcorn: bool): seq<Entry> {
    seq(|ms|, k requires 0 <= k < |ms| => Entry(ms[k], popcorn && ms[k].premiere, !Contains(older, ms[k])))
  }

  /** The movies of `olds` that `current` lacks, in order: exactly their occurrences, and no others. */
  function Departed(olds: seq<Movie>, current: seq<Movie>): (gone: seq<Movie>)
    ensures forall m :: multiset(gone)[m] == if Contains(current, m) then 0 else multiset(olds)[m]
    ensures IsSubsequence(gone, olds)
  {
    if olds == [] then []
    else
      var last := olds[|olds| - 1];
      assert olds == olds[..|olds| - 1] + [last];
      var kept := Departed(olds[..|olds| - 1], current);
      SubsequenceSnoc(kept, olds[..|olds| - 1], last);
      assert kept + [] == kept;
      kept + (if Contains(current, last) then [] else [last])
  }

  function Flatten<T>(runs: seq<seq<T>>): seq<T> {
    if runs == [] then [] else runs[0] + Flatten(runs[1..])
  }

  /** Runs all of one date. */
  ghost predicate UniformRuns(runs: seq<seq<Movie>>) {
    forall k :: 0 <= k < |runs| ==> runs[k] != [] && forall j :: 0 <= j < |runs[k]| ==> runs[k][j].premiereDate == runs[k][0].premiereDate
  }

  /**
   * `groupby(ms, key=premiere_date)`: the maximal runs of consecutive movies
   * with one premiere date, which together are `ms` again.
   */
  function RunsByDate(ms: seq<Movie>): (runs: seq<seq<Movie>>)
    ensures Flatten(runs) == ms
    ensures UniformRuns(runs)
    ensures forall k :: 0 < k < |runs| ==> runs[k][0].premiereDate != runs[k - 1][0].premiereDate
    ensures ms != [] ==> runs != [] && runs[0][0] == ms[0]
    decreases |ms|
  {
    if ms == [] then []
    else
      var rest: seq<seq<Movie>> := RunsByDate(ms[1..]);
      assert ms == [ms[0]] + ms[1..];
      if rest != [] && rest[0][0].premiereDate == ms[0].premiereDate then
        var runs := [[ms[0]] + rest[0]] + rest[1..];
        ExtendRun(ms[0], rest, runs);
        runs
      else
        StartRun(ms[0], rest);
        [[ms[0]]] + rest
  }

  /** A movie of the first run's date joins that run. */
  lemma ExtendRun(m: Movie, rest: seq<seq<Movie>>, runs: seq<seq<Movie>>)
    requires UniformRuns(rest) && rest != [] && rest[0][0].premiereDate == m.premiereDate
    requires forall k :: 0 < k < |rest| ==> rest[k][0].premiereDate != rest[k - 1][0].premiereDate
    requires runs == [[m] + rest[0]] + rest[1..]
    ensures Flatten(runs) == [m] + Flatten(rest) && runs[0][0] == m
    ensures UniformRuns(runs)
    ensures forall k :: 0 < k < |runs| ==> runs[k][0].premiereDate != runs[k - 1][0].premiereDate
  {
    ExtendedRunFlatten(m, rest, runs);
    ExtendedRunUniform(m, rest, runs);
    ExtendedRunBoundaries(m, rest, runs);
  }

  lemma ExtendedRunFlatten(m: Movie, rest: seq<seq<Movie>>, runs: seq<seq<Movie>>)
    requires rest != [] && runs == [[m] + rest[0]] + rest[1..]
    ensures Flatten(runs) == [m] + Flatten(rest)
  {
    assert runs[1..] == rest[1..];
  }

  lemma ExtendedRunBoundaries(m: Movie, rest: seq<seq<Movie>>, runs: seq<seq<Movie>>)
    requires UniformRuns(rest) && rest != [] && rest[0][0].premiereDate == m.premiereDate
    requires forall k :: 0 < k < |rest| ==> rest[k][0].premiereDate != rest[k - 1][0].premiereDate
    requires runs == [[m] + rest[0]] + rest[1..]
    ensures forall k :: 0 < k < |runs| ==> runs[k][0].premiereDate != runs[k - 1][0].premiereDate
  {
    forall k | 0 < k < |runs| ensures runs[k][0].premiereDate != runs[k - 1][0].premiereDate {
      assert runs[k] == rest[k];
      if k > 1 {
        assert runs[k - 1] == rest[k - 1];
      }
    }
  }

  /** The grown first run is of one date, and the later runs are those of `rest`. */
  lemma ExtendedRunUniform(m: Movie, rest: seq<seq<Movie>>, runs: seq<seq<Movie>>)
    requires UniformRuns(rest) && rest != [] && rest[0][0].premiereDate == m.premiereDate
    requires runs == [[m] + rest[0]] + rest[1..]
    ensures UniformRuns(runs)
  {
    forall k | 0 <= k < |runs|
      ensures runs[k] != [] && forall j :: 0 <= j < |runs[k]| ==> runs[k][j].premiereDate == runs[k][0].premiereDate
    {
      if k > 0 {
        assert runs[k] == rest[k];
      } else {
        forall j | 0 < j < |runs[0]| ensures runs[0][j].premiereDate == m.premiereDate {
          assert runs[0][j] == rest[0][j - 1];
        }
      }
    }
  }

  /** A movie of another date than the first run's starts a run of its own. */
  lemma StartRun(m: Movie, rest: seq<seq<Movie>>)
    requires UniformRuns(rest)
    requires forall k :: 0 < k < |rest| ==> rest[k][0].premiereDate != rest[k - 1][0].premiereDate
    requires rest != [] ==> rest[0][0].premiereDate != m.premiereDate
    ensures var runs := [[m]] + rest;
      Flatten(runs) == [m] + Flatten(rest) && UniformRuns(runs) && runs[0][0] == m
      && forall k :: 0 < k < |runs| ==> runs[k][0].premiereDate != runs[k - 1][0].premiereDate
  {
    var runs := [[m]] + rest;
    assert runs[1..] == rest;
    assert forall k :: 1 <= k < |runs| ==> runs[k] == rest[k - 1];
  }

  /** The Pronto blocks: one per run, headed by the run's date. */
  function Blocks(runs: seq<seq<Movie>>, older: seq<Movie>): seq<Block>
    requires forall k :: 0 <= k < |runs| ==> runs[k] != []
  {
    seq(|runs|, k requires 0 <= k < |runs| => Block(runs[k][0].premiereDate, Mark(runs[k], older, false)))
  }

  /**
   * The comparison: Cartelera lines newest first, flagged against the older
   * Cartelera list; Cartelera farewells for older Cartelera movies missing from
   * the newer Cartelera list; Pronto lines grouped by ascending date, flagged
   * against the older Pronto list; Pronto farewells for older Pronto movies
   * missing from the whole newer snapshot.
   */
  function Compare(newer: Snapshot, older: Snapshot): Report {
    var newerGrouped := GroupByStatus(newer);
    var olderGrouped := GroupByStatus(older);
    Report(
      Mark(SortByDate(newerGrouped[Cartelera], true), olderGrouped[Cartelera], true),
      Departed(olderGrouped[Cartelera], newerGrouped[Cartelera]),
      Blocks(RunsByDate(SortByDate(newerGrouped[Pronto], false)), olderGrouped[Pronto]),
      Departed(olderGrouped[Pronto], newer.movies))
  }

  // ---------------------------------------------------------------------------
  // how it is spelled
  // ---------------------------------------------------------------------------

  /** `str(date)`: ISO 8601, "yyyy-mm-dd". */
  function IsoFormat(d: Date): string {
    Digits(d.year, 4) + "-" + Digits(d.month, 2) + "-" + Digits(d.day, 2)
  }

  function RenderEntry(e: Entry): string {
    "- " + (if e.popcorn then Popcorn else "") + (if e.isNew then NewMark else "")
    + "[" + e.movie.title + "](" + e.movie.url + ")\n"
  }

  function RenderEntries(es: seq<Entry>): string {
    if es == [] then "" else RenderEntries(es[..|es| - 1]) + RenderEntry(es[|es| - 1])
  }

  function RenderFarewell(m: Movie): string {
    "- " + Wave + " " + m.title + "\n"
  }

  function RenderFarewells(ms: seq<Movie>): string {
    if ms == [] then "" else RenderFarewells(ms[..|ms| - 1]) + RenderFarewell(ms[|ms| - 1])
  }

  function BlockHeading(d: Date): string {
    "\n### " + IsoFormat(d) + "\n\n"
  }

  function RenderBlock(b: Block): string {
    BlockHeading(b.date) + RenderEntries(b.entries)
  }

  function RenderBlocks(bs: seq<Block>): string {
    if bs == [] then "" else RenderBlocks(bs[..|bs| - 1]) + RenderBlock(bs[|bs| - 1])
  }

  function RenderReport(r: Report): string {
    Title + CarteleraHeading + RenderEntries(r.showing) + RenderFarewells(r.leftShowing)
    + ProntoHeading + RenderBlocks(r.coming) + RenderFarewells(r.leftComing)
  }

  // ---------------------------------------------------------------------------
  // the message, grown line by line
  // ---------------------------------------------------------------------------

  lemma RenderEntriesSnoc(es: seq<Entry>, e: Entry)
    ensures RenderEntries(es + [e]) == RenderEntries(es) + RenderEntry(e)
  {
    assert (es + [e])[..|es|] == es;
  }

  lemma RenderFarewellsSnoc(ms: seq<Movie>, m: Movie)
    ensures RenderFarewells(ms + [m]) == RenderFarewells(ms) + RenderFarewell(m)
  {
    assert (ms + [m])[..|ms|] == ms;
  }

  lemma RenderBlocksSnoc(bs: seq<Block>, b: Block)
    ensures RenderBlocks(bs + [b]) == RenderBlocks(bs) + RenderBlock(b)
  {
    assert (bs + [b])[..|bs|] == bs;
  }

  /** The marked lines of one more movie. */
  lemma MarkSnoc(ms: seq<Movie>, i: nat, older: seq<Movie>, popcorn: bool)
    requires i < |ms|
    ensures Mark(ms[..i + 1], older, popcorn)
      == Mark(ms[..i], older, popcorn) + [Entry(ms[i], popcorn && ms[i].premiere, !Contains(older, ms[i]))]
  {
  }

  /** The blocks of one more run. */
  lemma BlocksSnoc(runs: seq<seq<Movie>>, b: nat, older: seq<Movie>)
    requires b < |runs| && forall k :: 0 <= k < |runs| ==> runs[k] != []
    ensures Blocks(runs[..b + 1], older)
      == Blocks(runs[..b], older) + [Block(runs[b][0].premiereDate, Mark(runs[b], older, false))]
  {
  }

  /** The farewells of one more older movie. */
  lemma DepartedSnoc(olds: seq<Movie>, i: nat, current: seq<Movie>)
    requires i < |olds|
    ensures Departed(olds[..i + 1], current)
      == Departed(olds[..i], current) + (if Contains(current, olds[i]) then [] else [olds[i]])
  {
    assert olds[..i + 1][..i] == olds[..i];
  }

  /** The line of one marked movie, as the loop bodies spell it. */
  method EntryLine(movie: Movie, popcorn: bool, isNew: bool) returns (line: string)
    ensures line == RenderEntry(Entry(movie, popcorn, isNew))
  {
    line := "- ";
    if popcorn {
      line := line + Popcorn;
    }
    if isNew {
      line := line + NewMark;
    }
    line := line + "[" + movie.title + "](" + movie.url + ")\n";
  }

  /**
   * Sequence concatenation is associative. This is a plain fact about `+`,
   * stated as a lemma of its own so that the append loops' proofs stay small.
   */
  lemma AppendAssociates(message: string, rendered: string, line: string)
    ensures (message + rendered) + line == message + (rendered + line)
  {
  }

  /** Appends the lines of `ms`, marked against `older`, to `message`. */
  method AppendEntries(message: string, ms: seq<Movie>, older: seq<Movie>, popcorn: bool) returns (out: string)
    ensures out == message + RenderEntries(Mark(ms, older, popcorn))
  {
    out := message;
    for i := 0 to |ms|
      invariant out == message + RenderEntries(Mark(ms[..i], older, popcorn))
    {
      var movie := ms[i];
      var line := EntryLine(movie, popcorn && movie.premiere, !Contains(older, movie));
      ghost var done := Mark(ms[..i], older, popcorn);
      MarkSnoc(ms, i, older, popcorn);
      RenderEntriesSnoc(done, Entry(movie, popcorn && movie.premiere, !Contains(older, movie)));
      AppendAssociates(message, RenderEntries(done), line);
      out := out + line;
    }
    assert ms[..|ms|] == ms;
  }

  /** Appends a farewell line for each movie of `olds` that `current` lacks. */
  method AppendFarewells(message: string, olds: seq<Movie>, current: seq<Movie>) returns (out: string)
    ensures out == message + RenderFarewells(Departed(olds, current))
  {
    out := message;
    for i := 0 to |olds|
      invariant out == message + RenderFarewells(Departed(olds[..i], current))
    {
      var movie := olds[i];
      ghost var done := Departed(olds[..i], current);
      DepartedSnoc(olds, i, current);
      if !Contains(current, movie) {
        var line := "- " + Wave + " " + movie.title + "\n";
        RenderFarewellsSnoc(done, movie);
        AppendAssociates(message, RenderFarewells(done), line);
        out := out + line;
      } else {
        assert done + [] == done;
      }
    }
    assert olds[..|olds|] == olds;
  }

  /** Appends one block per run: the date heading, then the run's lines marked against `older`. */
  method AppendBlocks(message: string, runs: seq<seq<Movie>>, older: seq<Movie>) returns (out: string)
    requires forall k :: 0 <= k < |runs| ==> runs[k] != []
    ensures out == message + RenderBlocks(Blocks(runs, older))
  {
    out := message;
    for b := 0 to |runs|
      invariant out == message + RenderBlocks(Blocks(runs[..b], older))
    {
      var movies := runs[b];
      var releaseDate := movies[0].premiereDate;
      ghost var done := Blocks(runs[..b], older);
      ghost var block := Block(releaseDate, Mark(movies, older, false));
      BlocksSnoc(runs, b, older);
      RenderBlocksSnoc(done, block);
      AppendAssociates(message, RenderBlocks(done), RenderBlock(block));
      var heading := "\n### " + IsoFormat(releaseDate) + "\n\n";
      ghost var before := out;
      out := out + heading;
      out := AppendEntries(out, movies, older, false);
      AppendAssociates(before, heading, RenderEntries(Mark(movies, older, false)));
    }
    assert runs[..|runs|] == runs;
  }

  /** `build_compare_message`. */
  method BuildCompareMessage(newer: Snapshot, older: Snapshot) returns (message: string)
    ensures message == RenderReport(Compare(newer, older))
  {
    message := Title;
    message := message + CarteleraHeading;
    var newerGrouped := GroupByStatus(newer);
    var olderGrouped := GroupByStatus(older);

    message := AppendEntries(message, SortByDate(newerGrouped[Cartelera], true), olderGrouped[Cartelera], true);
    message := AppendFarewells(message, olderGrouped[Cartelera], newerGrouped[Cartelera]);

    message := message + ProntoHeading;
    message := AppendBlocks(message, RunsByDate(SortByDate(newerGrouped[Pronto], false)), olderGrouped[Pronto]);
    message := AppendFarewells(message, olderGrouped[Pronto], newer.movies);
  }

  // ---------------------------------------------------------------------------
  // what the report promises
  // ---------------------------------------------------------------------------

  /** The movies of some lines, in order. */
  function EntryMovies(es: seq<Entry>): (ms: seq<Movie>)
    ensures |ms| == |es|
  {
    seq(|es|, k requires 0 <= k < |es| => es[k].movie)
  }

  /** The movies of the Pronto blocks, block after block. */
  function BlockMovies(bs: seq<Block>): seq<Movie> {
    if bs == [] then [] else EntryMovies(bs[0].entries) + BlockMovies(bs[1..])
  }

  /** Marking keeps the movies and their order. */
  lemma MarkKeepsMovies(ms: seq<Movie>, older: seq<Movie>, popcorn: bool)
    ensures EntryMovies(Mark(ms, older, popcorn)) == ms
  {
  }

  /** The blocks hold the runs' movies, run after run. */
  lemma {:induction false} BlocksHoldRuns(runs: seq<seq<Movie>>, older: seq<Movie>)
    requires forall k :: 0 <= k < |runs| ==> runs[k] != []
    ensures BlockMovies(Blocks(runs, older)) == Flatten(runs)
  {
    if runs != [] {
      assert Blocks(runs, older)[1..] == Blocks(runs[1..], older);
      BlocksHoldRuns(runs[1..], older);
      MarkKeepsMovies(runs[0], older, false);
    }
  }

  /** Run dates strictly ascend, so each date heads one run only. */
  ghost predicate HeadsAscend(runs: seq<seq<Movie>>)
    requires forall k :: 0 <= k < |runs| ==> runs[k] != []
  {
    forall i, j :: 0 <= i < j < |runs| ==> DateLt(runs[i][0].premiereDate, runs[j][0].premiereDate)
  }

  /** Strict order on dates is transitive. */
  lemma DateLtTransitive(a: Date, b: Date, c: Date)
    requires DateLt(a, b) && DateLt(b, c)
    ensures DateLt(a, c)
  {
  }

  /** On a list sorted by ascending date, the runs' dates strictly ascend. */
  lemma {:induction false} RunsAscend(ms: seq<Movie>)
    requires SortedByDate(ms, false)
    ensures HeadsAscend(RunsByDate(ms))
    decreases |ms|
  {
    if ms != [] {
      var runs: seq<seq<Movie>> := RunsByDate(ms);
      var rest: seq<seq<Movie>> := RunsByDate(ms[1..]);
      RunsAscend(ms[1..]);
      assert HeadsAscend(rest);
      if rest != [] {
        assert rest[0][0] == ms[1];
        assert InDateOrder(ms[0], ms[1], false);
        if rest[0][0].premiereDate == ms[0].premiereDate {
          assert runs == [[ms[0]] + rest[0]] + rest[1..];
          forall i: int, j: int | 0 <= i < j < |runs| ensures DateLt(runs[i][0].premiereDate, runs[j][0].premiereDate) {
            assert runs[j] == rest[j];
            if i > 0 {
              assert runs[i] == rest[i];
            } else {
              assert runs[i][0].premiereDate == rest[0][0].premiereDate;
            }
          }
        } else {
          assert runs == [[ms[0]]] + rest;
          assert DateLt(ms[0].premiereDate, rest[0][0].premiereDate);
          forall i: int, j: int | 0 <= i < j < |runs| ensures DateLt(runs[i][0].premiereDate, runs[j][0].premiereDate) {
            assert runs[j] == rest[j - 1];
            if i > 0 {
              assert runs[i] == rest[i - 1];
            } else if j > 1 {
              DateLtTransitive(ms[0].premiereDate, rest[0][0].premiereDate, rest[j - 1][0].premiereDate);
            }
          }
        }
      }
    }
  }

  /**
   * Cartelera lines: the newer Cartelera movies, each as often as the newer
   * snapshot holds it, newest first, equal dates in snapshot order; popcorn
   * exactly on premieres; "new" exactly when the older Cartelera list lacks the movie.
   */
  lemma CarteleraSection(newer: Snapshot, older: Snapshot)
    ensures var r := Compare(newer, older);
      && SortedByDate(EntryMovies(r.showing), true)
      && (forall m :: multiset(EntryMovies(r.showing))[m] == if m.status == Cartelera then multiset(newer.movies)[m] else 0)
      && (forall d :: OnDate(EntryMovies(r.showing), d) == OnDate(OfStatus(newer.movies, Cartelera), d))
      && (forall e :: e in r.showing ==>
            (e.popcorn <==> e.movie.premiere) && (e.isNew <==> !Contains(OfStatus(older.movies, Cartelera), e.movie)))
  {
    var newC := OfStatus(newer.movies, Cartelera);
    var r := Compare(newer, older);
    MarkKeepsMovies(SortByDate(newC, true), OfStatus(older.movies, Cartelera), true);
    CarteleraCounts(newer, older);
    CarteleraMarks(newer, older);
    forall d ensures OnDate(EntryMovies(r.showing), d) == OnDate(newC, d) {
      SortIsStable(newC, true, d);
    }
  }

  /** The Cartelera lines hold each newer Cartelera movie as often as the newer snapshot does. */
  lemma CarteleraCounts(newer: Snapshot, older: Snapshot)
    ensures var r := Compare(newer, older);
      forall m :: multiset(EntryMovies(r.showing))[m] == if m.status == Cartelera then multiset(newer.movies)[m] else 0
  {
    var r := Compare(newer, older);
    MarkKeepsMovies(SortByDate(OfStatus(newer.movies, Cartelera), true), OfStatus(older.movies, Cartelera), true);
    forall m ensures multiset(EntryMovies(r.showing))[m] == if m.status == Cartelera then multiset(newer.movies)[m] else 0 {
      GroupingCounts(newer.movies, Cartelera, m);
    }
  }

  /** Cartelera marks: popcorn on premieres, new when the older Cartelera list lacks the movie. */
  lemma CarteleraMarks(newer: Snapshot, older: Snapshot)
    ensures var r := Compare(newer, older);
      forall e :: e in r.showing ==>
        (e.popcorn <==> e.movie.premiere) && (e.isNew <==> !Contains(OfStatus(older.movies, Cartelera), e.movie))
  {
  }

  /**
   * Cartelera farewells: each older Cartelera movie that the newer Cartelera
   * list lacks, as often as the older snapshot holds it, and nothing else; a
   * movie still in the newer snapshot under Pronto is among them.
   */
  lemma CarteleraFarewells(newer: Snapshot, older: Snapshot)
    ensures var r := Compare(newer, older);
      forall m :: multiset(r.leftShowing)[m]
        == if m.status == Cartelera && !Contains(OfStatus(newer.movies, Cartelera), m) then multiset(older.movies)[m] else 0
  {
    forall m {
      GroupingCounts(older.movies, Cartelera, m);
    }
  }

  /** Pronto block dates strictly ascend, so each date heads one block only. */
  lemma ProntoDatesAscend(newer: Snapshot, older: Snapshot)
    ensures var r := Compare(newer, older);
      forall i, j :: 0 <= i < j < |r.coming| ==> DateLt(r.coming[i].date, r.coming[j].date)
  {
    var runs: seq<seq<Movie>> := RunsByDate(SortByDate(OfStatus(newer.movies, Pronto), false));
    var r := Compare(newer, older);
    RunsAscend(SortByDate(OfStatus(newer.movies, Pronto), false));
    ComingHeadings(newer, older);
  }

  /** Each Pronto block is headed by the date of its run. */
  lemma ComingHeadings(newer: Snapshot, older: Snapshot)
    ensures var runs: seq<seq<Movie>> := RunsByDate(SortByDate(OfStatus(newer.movies, Pronto), false));
      var r := Compare(newer, older);
      |r.coming| == |runs| && forall k :: 0 <= k < |r.coming| ==> r.coming[k].date == runs[k][0].premiereDate
  {
  }

  /**
   * Each Pronto block is non-empty and holds only movies of its date; no line
   * has popcorn; a line is "new" exactly when the older Pronto list lacks the movie.
   */
  lemma ProntoLines(newer: Snapshot, older: Snapshot)
    ensures var r := Compare(newer, older);
      forall b :: b in r.coming ==> b.entries != [] && forall e :: e in b.entries ==>
        e.movie.premiereDate == b.date && !e.popcorn && (e.isNew <==> !Contains(OfStatus(older.movies, Pronto), e.movie))
  {
    var runs: seq<seq<Movie>> := RunsByDate(SortByDate(OfStatus(newer.movies, Pronto), false));
    var oldP := OfStatus(older.movies, Pronto);
    var r := Compare(newer, older);
    forall b | b in r.coming
      ensures b.entries != [] && forall e :: e in b.entries ==>
        e.movie.premiereDate == b.date && !e.popcorn && (e.isNew <==> !Contains(oldP, e.movie))
    {
      var k: int :| 0 <= k < |r.coming| && r.coming[k] == b;
      assert b == Block(runs[k][0].premiereDate, Mark(runs[k], oldP, false));
      RunBlockLines(runs[k], oldP);
    }
  }

  /** The block of one run of a single date: non-empty, all of that date, no popcorn, new exactly when `older` lacks the movie. */
  lemma RunBlockLines(run: seq<Movie>, older: seq<Movie>)
    requires run != [] && forall j :: 0 <= j < |run| ==> run[j].premiereDate == run[0].premiereDate
    ensures var b := Block(run[0].premiereDate, Mark(run, older, false));
      b.entries != [] && forall e :: e in b.entries ==>
        e.movie.premiereDate == b.date && !e.popcorn && (e.isNew <==> !Contains(older, e.movie))
  {
    var entries := Mark(run, older, false);
    forall e | e in entries
      ensures e.movie.premiereDate == run[0].premiereDate && !e.popcorn && (e.isNew <==> !Contains(older, e.movie))
    {
      var j :| 0 <= j < |entries| && entries[j] == e;
    }
  }

  /** Together the Pronto blocks list the newer Pronto movies, each as often as the newer snapshot holds it. */
  lemma ProntoCoversNewer(newer: Snapshot, older: Snapshot)
    ensures var r := Compare(newer, older);
      forall m :: multiset(BlockMovies(r.coming))[m] == if m.status == Pronto then multiset(newer.movies)[m] else 0
  {
    var sorted := SortByDate(OfStatus(newer.movies, Pronto), false);
    BlocksHoldRuns(RunsByDate(sorted), OfStatus(older.movies, Pronto));
    forall m {
      GroupingCounts(newer.movies, Pronto, m);
    }
  }

  /**
   * The Pronto blocks list the newer Pronto movies in ascending date order,
   * and movies that share a date keep their snapshot order.
   */
  lemma ProntoOrder(newer: Snapshot, older: Snapshot)
    ensures var r := Compare(newer, older);
      && BlockMovies(r.coming) == SortByDate(OfStatus(newer.movies, Pronto), false)
      && forall d :: OnDate(BlockMovies(r.coming), d) == OnDate(OfStatus(newer.movies, Pronto), d)
  {
    var sorted := SortByDate(OfStatus(newer.movies, Pronto), false);
    BlocksHoldRuns(RunsByDate(sorted), OfStatus(older.movies, Pronto));
    forall d ensures OnDate(sorted, d) == OnDate(OfStatus(newer.movies, Pronto), d) {
      SortIsStable(OfStatus(newer.movies, Pronto), false, d);
    }
  }

  /**
   * Pronto farewells: each older Pronto movie that the whole newer snapshot
   * lacks, as often as the older snapshot holds it, and nothing else.
   */
  lemma ProntoFarewells(newer: Snapshot, older: Snapshot)
    ensures var r := Compare(newer, older);
      forall m :: multiset(r.leftComing)[m]
        == if m.status == Pronto && !InSnapshot(newer, m) then multiset(older.movies)[m] else 0
  {
    forall m {
      GroupingCounts(older.movies, Pronto, m);
    }
  }

  /**
   * A Pronto movie that moved to Cartelera gets no farewell, and its newer
   * record is listed under Cartelera.
   */
  lemma GraduationIsNoFarewell(newer: Snapshot, older: Snapshot, m: Movie, c: Movie)
    requires m in older.movies && m.status == Pronto
    requires c in newer.movies && c.status == Cartelera && SameMovie(c, m)
    ensures var r := Compare(newer, older);
      m !in r.leftComing && Contains(EntryMovies(r.showing), m)
  {
    var r := Compare(newer, older);
    ContainsMember(newer.movies, c);
    ContainsRespectsIdentity(newer.movies, c, m);
    ProntoFarewells(newer, older);
    CarteleraCounts(newer, older);
    assert multiset(EntryMovies(r.showing))[c] > 0;
    ContainsMember(EntryMovies(r.showing), c);
    ContainsRespectsIdentity(EntryMovies(r.showing), c, m);
  }

  /**
   * A movie that the older snapshot lists only under Pronto and the newer one
   * under Cartelera gets a Cartelera line marked new.
   */
  lemma GraduationIsNew(newer: Snapshot, older: Snapshot, c: Movie)
    requires c in newer.movies && c.status == Cartelera
    requires forall o :: o in older.movies && SameMovie(o, c) ==> o.status == Pronto
    ensures var r := Compare(newer, older);
      exists k :: 0 <= k < |r.showing| && r.showing[k].movie == c && r.showing[k].isNew
  {
    var r := Compare(newer, older);
    var oldC := OfStatus(older.movies, Cartelera);
    CarteleraCounts(newer, older);
    CarteleraMarks(newer, older);
    assert c in multiset(EntryMovies(r.showing));
    var k :| 0 <= k < |r.showing| && EntryMovies(r.showing)[k] == c;
    forall i | 0 <= i < |oldC| ensures !SameMovie(oldC[i], c) {
      assert oldC[i] in older.movies && oldC[i].status == Cartelera;
    }
    assert r.showing[k] in r.showing;
  }

  /** A Cartelera movie that the newer snapshot lists only under Pronto gets a Cartelera farewell. */
  lemma DemotionIsAFarewell(newer: Snapshot, older: Snapshot, m: Movie)
    requires m in older.movies && m.status == Cartelera
    requires forall c :: c in newer.movies && SameMovie(c, m) ==> c.status == Pronto
    ensures m in Compare(newer, older).leftShowing
  {
    var r := Compare(newer, older);
    CarteleraFarewells(newer, older);
    var shown := OfStatus(newer.movies, Cartelera);
    forall i | 0 <= i < |shown| ensures !SameMovie(shown[i], m) {
      assert shown[i] in newer.movies;
    }
    assert multiset(r.leftShowing)[m] == multiset(older.movies)[m] > 0;
  }

  /** Comparing a snapshot with itself marks no Cartelera line new. */
  lemma SelfCompareNoNewShowing(s: Snapshot)
    ensures forall e :: e in Compare(s, s).showing ==> !e.isNew
  {
    var showing := Compare(s, s).showing;
    ShownAreCartelera(s, s);
    forall k | 0 <= k < |showing| ensures !showing[k].isNew {
      ContainsMember(OfStatus(s.movies, Cartelera), showing[k].movie);
    }
  }

  /**
   * Every Cartelera line shows a movie of the newer Cartelera list, and is new
   * exactly when the older Cartelera list lacks it.
   */
  lemma ShownAreCartelera(newer: Snapshot, older: Snapshot)
    ensures var showing := Compare(newer, older).showing;
      forall k :: 0 <= k < |showing| ==>
        && showing[k].movie in OfStatus(newer.movies, Cartelera)
        && (showing[k].isNew <==> !Contains(OfStatus(older.movies, Cartelera), showing[k].movie))
  {
    var showing := Compare(newer, older).showing;
    var sorted := SortByDate(OfStatus(newer.movies, Cartelera), true);
    MarkKeepsMovies(sorted, OfStatus(older.movies, Cartelera), true);
    forall k | 0 <= k < |showing| ensures showing[k].movie in OfStatus(newer.movies, Cartelera) {
      assert showing[k].movie == sorted[k];
      assert sorted[k] in multiset(sorted);
    }
  }

  /** Comparing a snapshot with itself marks no Pronto line new. */
  lemma SelfCompareNoNewComing(s: Snapshot)
    ensures forall b :: b in Compare(s, s).coming ==> forall e :: e in b.entries ==> !e.isNew
  {
    var r := Compare(s, s);
    ProntoLines(s, s);
    ComingArePronto(s, s);
    forall b, e | b in r.coming && e in b.entries ensures !e.isNew {
      ContainsMember(OfStatus(s.movies, Pronto), e.movie);
    }
  }

  /** Every Pronto line shows a movie of the newer Pronto list. */
  lemma ComingArePronto(newer: Snapshot, older: Snapshot)
    ensures var r := Compare(newer, older);
      forall b, e :: b in r.coming && e in b.entries ==> e.movie in OfStatus(newer.movies, Pronto)
  {
    var r := Compare(newer, older);
    ProntoOrder(newer, older);
    forall b, e | b in r.coming && e in b.entries ensures e.movie in OfStatus(newer.movies, Pronto) {
      BlockEntryCounted(r.coming, b, e);
    }
  }

  /** Comparing a snapshot with itself bids no farewell. */
  lemma SelfCompareNoFarewell(s: Snapshot)
    ensures var r := Compare(s, s);
      r.leftShowing == [] && r.leftComing == []
  {
    var r := Compare(s, s);
    CarteleraFarewells(s, s);
    ProntoFarewells(s, s);
    forall m ensures multiset(r.leftShowing)[m] == 0 {
      if multiset(s.movies)[m] > 0 && m.status == Cartelera {
        ContainsMember(OfStatus(s.movies, Cartelera), m);
      }
    }
    forall m ensures multiset(r.leftComing)[m] == 0 {
      if multiset(s.movies)[m] > 0 {
        ContainsMember(s.movies, m);
      }
    }
    assert multiset(r.leftShowing) == multiset{};
    assert multiset(r.leftComing) == multiset{};
  }

  /** A line of some block is among the blocks' movies. */
  lemma {:induction false} BlockEntryCounted(bs: seq<Block>, b: Block, e: Entry)
    requires b in bs && e in b.entries
    ensures e.movie in multiset(BlockMovies(bs))
  {
    if b == bs[0] {
      var k :| 0 <= k < |b.entries| && b.entries[k] == e;
      assert EntryMovies(b.entries)[k] == e.movie;
    } else {
      assert b in bs[1..];
      BlockEntryCounted(bs[1..], b, e);
    }
  }

  /** The heading's date text reads back as the date, for dates that fit its digits. */
  lemma IsoFormatReadsBack(d: Date)
    requires d.year < 10000 && d.month < 100 && d.day < 100
    ensures Split(IsoFormat(d), '-') == [Digits(d.year, 4), Digits(d.month, 2), Digits(d.day, 2)]
    ensures DecimalValue(Digits(d.year, 4)) == d.year
    ensures DecimalValue(Digits(d.month, 2)) == d.month
    ensures DecimalValue(Digits(d.day, 2)) == d.day
  {
    var parts := [Digits(d.year, 4), Digits(d.month, 2), Digits(d.day, 2)];
    assert forall k :: 0 <= k < |parts| ==> '-' !in parts[k];
    assert Join(parts, '-') == IsoFormat(d) by {
      assert Join(parts[1..], '-') == Digits(d.month, 2) + "-" + Digits(d.day, 2) by {
        assert parts[1..][1..] == [Digits(d.day, 2)];
      }
    }
    SplitJoin(parts, '-');
    DigitsValue(d.year, 4);
    DigitsValue(d.month, 2);
    DigitsValue(d.day, 2);
  }

  /** Titles and URLs without line breaks. */
  ghost predicate OneLineText(m: Movie) {
    '\n' !in m.title && '\n' !in m.url
  }

  /** Each line of a listing ends in exactly one line break. */
  lemma {:induction false} EntriesAreLines(es: seq<Entry>)
    requires forall k :: 0 <= k < |es| ==> OneLineText(es[k].movie)
    ensures Count(RenderEntries(es), '\n') == |es|
  {
    if es != [] {
      var e := es[|es| - 1];
      EntriesAreLines(es[..|es| - 1]);
      CountAppend(RenderEntries(es[..|es| - 1]), RenderEntry(e), '\n');
      EntryIsOneLine(e);
    }
  }

  /** One entry ends in its only line break. */
  lemma EntryIsOneLine(e: Entry)
    requires OneLineText(e.movie)
    ensures Count(RenderEntry(e), '\n') == 1
  {
    var markers := "- " + (if e.popcorn then Popcorn else "") + (if e.isNew then NewMark else "") + "[";
    var link := e.movie.title + "](" + e.movie.url;
    assert RenderEntry(e) == markers + link + ")\n";
    CountAppend(markers + link, ")\n", '\n');
    CountAppend(markers, link, '\n');
    CountAbsent(markers, '\n');
    CountAbsent(link, '\n');
  }

  /** Each farewell ends in exactly one line break. */
  lemma {:induction false} FarewellsAreLines(ms: seq<Movie>)
    requires forall k :: 0 <= k < |ms| ==> '\n' !in ms[k].title
    ensures Count(RenderFarewells(ms), '\n') == |ms|
  {
    if ms != [] {
      var m := ms[|ms| - 1];
      FarewellsAreLines(ms[..|ms| - 1]);
      CountAppend(RenderFarewells(ms[..|ms| - 1]), RenderFarewell(m), '\n');
      var text := "- " + Wave + " " + m.title;
      assert RenderFarewell(m) == text + "\n";
      CountAppend(text, "\n", '\n');
      CountAbsent(text, '\n');
    }
  }
}
