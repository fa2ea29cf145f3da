/**
 * Movie records, their identity, and the snapshot built from one scrape:
 * grouping by status, membership by identity, and the de-duplicate-then-sort
 * step that turns the parsed pages into a snapshot.
 */
module Movies {

  /** A calendar date as `dt.date` holds it; ordering is chronological. */
  datatype Date = Date(year: nat, month: nat, day: nat)

  predicate DateLe(a: Date, b: Date) {
    a.year < b.year
    || (a.year == b.year && (a.month < b.month || (a.month == b.month && a.day <= b.day)))
  }

  predicate DateLt(a: Date, b: Date) {
    DateLe(a, b) && a != b
  }

  /** `MovieStatus`: the two listing pages, "cartelera" (showing) and "pronto" (coming soon). */
  datatype Status = Cartelera | Pronto

  /** `CinecoMovie`. */
  datatype Movie = Movie(
    title: string,
    premiereDate: Date,
    url: string,
    status: Status,
    genres: seq<string>,
    premiere: bool,
    presale: bool)

  // ---------------------------------------------------------------------------
  // identity
  // ---------------------------------------------------------------------------

  /** The key `__hash__` hashes and `__eq__` compares. */
  function Identity(m: Movie): (string, Date) {
    (m.title, m.premiereDate)
  }

  /** `a == b` on movies: same title and same premiere date. */
  predicate SameMovie(a: Movie, b: Movie) {
    a.title == b.title && a.premiereDate == b.premiereDate
  }

  /**
   * `hash(movie)`: the hash of the (title, premiere date) tuple; the tuple
   * hash itself is a parameter, as Python seeds string hashes per process.
   */
  function MovieHash(tupleHash: ((string, Date)) -> int, m: Movie): int {
    tupleHash(Identity(m))
  }

  /** Two movies are equal exactly when their identities are. */
  lemma SameMovieIsIdentity(a: Movie, b: Movie)
    ensures SameMovie(a, b) <==> Identity(a) == Identity(b)
  {
  }

  /** Equality is an equivalence relation. */
  lemma SameMovieEquivalence(a: Movie, b: Movie, c: Movie)
    ensures SameMovie(a, a)
    ensures SameMovie(a, b) ==> SameMovie(b, a)
    ensures SameMovie(a, b) && SameMovie(b, c) ==> SameMovie(a, c)
  {
  }

  /** URL, status, genres and both flags play no part in equality. */
  lemma SameMovieIgnoresOtherFields(m: Movie, url: string, status: Status, genres: seq<string>, premiere: bool, presale: bool)
    ensures SameMovie(m, m.(url := url, status := status, genres := genres, premiere := premiere, presale := presale))
  {
  }

  /** Equal movies have equal hashes, whatever the tuple hash. */
  lemma EqualMoviesHashEqual(tupleHash: ((string, Date)) -> int, a: Movie, b: Movie)
    requires SameMovie(a, b)
    ensures MovieHash(tupleHash, a) == MovieHash(tupleHash, b)
  {
  }

  // ---------------------------------------------------------------------------
  // membership
  // ---------------------------------------------------------------------------

  /** `m in ms`: some element of `ms` is equal to `m`. */
  function Contains(ms: seq<Movie>, m: Movie): (found: bool)
    ensures found <==> exists i :: 0 <= i < |ms| && SameMovie(ms[i], m)
  {
    if ms == [] then false
    else SameMovie(ms[0], m) || Contains(ms[1..], m)
  }

  /** Membership in a list with one more movie at its end. */
  lemma ContainsAppend(ms: seq<Movie>, x: Movie, m: Movie)
    ensures Contains(ms + [x], m) <==> Contains(ms, m) || SameMovie(x, m)
  {
    if Contains(ms, m) {
      var i :| 0 <= i < |ms| && SameMovie(ms[i], m);
      assert (ms + [x])[i] == ms[i];
    }
    if Contains(ms + [x], m) && !SameMovie(x, m) {
      var i :| 0 <= i < |ms + [x]| && SameMovie((ms + [x])[i], m);
      assert i < |ms| && (ms + [x])[i] == ms[i];
    }
    assert (ms + [x])[|ms|] == x;
  }

  /** If every movie of `a` has an equal in `b`, whatever `a` contains `b` contains. */
  lemma ContainsTransfer(a: seq<Movie>, b: seq<Movie>, m: Movie)
    requires forall x :: x in a ==> Contains(b, x)
    ensures Contains(a, m) ==> Contains(b, m)
  {
    if Contains(a, m) {
      var i :| 0 <= i < |a| && SameMovie(a[i], m);
      assert Contains(b, a[i]);
      var j :| 0 <= j < |b| && SameMovie(b[j], a[i]);
      assert SameMovie(b[j], m);
    }
  }

  /** Every movie is found in a list it belongs to. */
  lemma ContainsMember(ms: seq<Movie>, m: Movie)
    requires m in ms
    ensures Contains(ms, m)
  {
    var i :| 0 <= i < |ms| && ms[i] == m;
    assert SameMovie(ms[i], m);
  }

  /** Membership looks at identity only. */
  lemma ContainsRespectsIdentity(ms: seq<Movie>, a: Movie, b: Movie)
    requires SameMovie(a, b)
    ensures Contains(ms, a) == Contains(ms, b)
  {
  }

  // ---------------------------------------------------------------------------
  // snapshot and grouping
  // ---------------------------------------------------------------------------

  /** `CinecoSnapshot`: the movies of one scrape; iterating it iterates `movies`. */
  datatype Snapshot = Snapshot(movies: seq<Movie>)

  /** `movie in snapshot`, which goes through `__iter__` over all its movies. */
  predicate InSnapshot(s: Snapshot, m: Movie) {
    Contains(s.movies, m)
  }

  /** `[m for m in ms if m.status == status]`. */
  function OfStatus(ms: seq<Movie>, status: Status): (r: seq<Movie>)
    ensures forall k :: 0 <= k < |r| ==> r[k].status == status
    ensures forall m :: m in r <==> m in ms && m.status == status
  {
    if ms == [] then []
    else if ms[0].status == status then [ms[0]] + OfStatus(ms[1..], status)
    else OfStatus(ms[1..], status)
  }

  /** `group_by_status`: one entry per status, even when its list is empty. */
  function GroupByStatus(s: Snapshot): (g: map<Status, seq<Movie>>)
    ensures Cartelera in g && g[Cartelera] == OfStatus(s.movies, Cartelera)
    ensures Pronto in g && g[Pronto] == OfStatus(s.movies, Pronto)
  {
    map[Cartelera := OfStatus(s.movies, Cartelera), Pronto := OfStatus(s.movies, Pronto)]
  }

  /** Each movie lands in the list of its own status as often as it occurs, and in no other. */
  lemma {:induction false} GroupingCounts(ms: seq<Movie>, status: Status, m: Movie)
    ensures multiset(OfStatus(ms, status))[m] == if m.status == status then multiset(ms)[m] else 0
  {
    if ms != [] {
      GroupingCounts(ms[1..], status, m);
      assert ms == [ms[0]] + ms[1..];
    }
  }

  /** The two groups together are the snapshot, as a multiset. */
  lemma {:induction false} GroupingPartitions(ms: seq<Movie>)
    ensures multiset(OfStatus(ms, Cartelera)) + multiset(OfStatus(ms, Pronto)) == multiset(ms)
  {
    if ms != [] {
      GroupingPartitions(ms[1..]);
      assert ms == [ms[0]] + ms[1..];
    }
  }

  /** `sub` is `s` with some elements left out, the rest in their order. */
  ghost predicate IsSubsequence<T>(sub: seq<T>, s: seq<T>)
    decreases |s|
  {
    if sub == [] then true
    else if s == [] then false
    else if sub[0] == s[0] then IsSubsequence(sub[1..], s[1..])
    else IsSubsequence(sub, s[1..])
  }

  /** Grouping keeps the snapshot's relative order. */
  lemma {:induction false} GroupingKeepsOrder(ms: seq<Movie>, status: Status)
    ensures IsSubsequence(OfStatus(ms, status), ms)
  {
    if ms != [] {
      GroupingKeepsOrder(ms[1..], status);
      var r := OfStatus(ms, status);
      if ms[0].status != status {
        SkipHead(r, ms);
      }
    }
  }

  /** A subsequence of the tail is a subsequence of the whole. */
  lemma {:induction false} SkipHead<T>(sub: seq<T>, s: seq<T>)
    requires s != [] && IsSubsequence(sub, s[1..])
    ensures IsSubsequence(sub, s)
    decreases |s|, 0
  {
    if sub != [] && sub[0] == s[0] {
      if |s| > 1 {
        SubsequenceOfTail(sub, s[1..]);
      }
    }
  }

  /** If `sub` embeds into `s`, so does its tail. */
  lemma {:induction false} SubsequenceOfTail<T>(sub: seq<T>, s: seq<T>)
    requires sub != [] && IsSubsequence(sub, s)
    ensures IsSubsequence(sub[1..], s)
    decreases |s|, 1
  {
    if s != [] {
      if sub[0] == s[0] {
        if sub[1..] != [] {
          SubsequenceOfTail(sub[1..], s[1..]);
          SkipHead(sub[1..], s);
        }
      } else {
        SubsequenceOfTail(sub, s[1..]);
        SkipHead(sub[1..], s);
      }
    }
  }

  /** A subsequence stays one when `s` grows at the end, whether or not `sub` takes the new element. */
  lemma {:induction false} SubsequenceSnoc<T>(sub: seq<T>, s: seq<T>, x: T)
    requires IsSubsequence(sub, s)
    ensures IsSubsequence(sub, s + [x])
    ensures IsSubsequence(sub + [x], s + [x])
    decreases |s|
  {
    if s == [] {
      assert sub == [];
      assert ([] + [x])[1..] == [];
    } else {
      assert (s + [x])[1..] == s[1..] + [x];
      if sub == [] {
        SubsequenceSnoc(sub, s[1..], x);
        assert sub + [x] == [x];
      } else {
        assert (sub + [x])[1..] == sub[1..] + [x];
        if sub[0] == s[0] {
          SubsequenceSnoc(sub[1..], s[1..], x);
        } else {
          SubsequenceSnoc(sub, s[1..], x);
        }
      }
    }
  }

  // ---------------------------------------------------------------------------
  // stable sort by premiere date
  // ---------------------------------------------------------------------------

  /** May `a` stand before `b` in a list sorted by date (descending when `descending`)? */
  predicate InDateOrder(a: Movie, b: Movie, descending: bool) {
    if descending then DateLe(b.premiereDate, a.premiereDate) else DateLe(a.premiereDate, b.premiereDate)
  }

  ghost predicate SortedByDate(ms: seq<Movie>, descending: bool) {
    forall i, j :: 0 <= i < j < |ms| ==> InDateOrder(ms[i], ms[j], descending)
  }

  /** Inserts `m` before the first element it may precede, so that it stays ahead of its equals. */
  function InsertByDate(m: Movie, ms: seq<Movie>, descending: bool): (r: seq<Movie>)
    requires SortedByDate(ms, descending)
    ensures SortedByDate(r, descending)
    ensures multiset(r) == multiset(ms) + multiset{m}
  {
    if ms == [] || InDateOrder(m, ms[0], descending) then
      PrecedesSorted(m, ms, descending);
      ConsSorted(m, ms, descending);
      [m] + ms
    else
      var t := InsertByDate(m, ms[1..], descending);
      HeadPrecedesInsertion(m, ms, t, descending);
      ConsSorted(ms[0], t, descending);
      assert ms == [ms[0]] + ms[1..];
      [ms[0]] + t
  }

  /** What may precede the head of a sorted list may precede all of it. */
  lemma PrecedesSorted(m: Movie, ms: seq<Movie>, descending: bool)
    requires SortedByDate(ms, descending) && (ms == [] || InDateOrder(m, ms[0], descending))
    ensures forall x :: x in ms ==> InDateOrder(m, x, descending)
  {
    forall x | x in ms ensures InDateOrder(m, x, descending) {
      var j :| 0 <= j < |ms| && ms[j] == x;
      if j > 0 {
        assert InDateOrder(ms[0], ms[j], descending);
      }
    }
  }

  /** A sorted list stays sorted under a new head that may precede all of it. */
  lemma ConsSorted(m: Movie, ms: seq<Movie>, descending: bool)
    requires SortedByDate(ms, descending)
    requires forall x :: x in ms ==> InDateOrder(m, x, descending)
    ensures SortedByDate([m] + ms, descending)
  {
    var r := [m] + ms;
    forall i, j | 0 <= i < j < |r| ensures InDateOrder(r[i], r[j], descending) {
      assert r[j] == ms[j - 1];
      if i > 0 {
        assert r[i] == ms[i - 1];
      }
    }
  }

  /** The head of a sorted list may precede anything inserted behind it. */
  lemma HeadPrecedesInsertion(m: Movie, ms: seq<Movie>, t: seq<Movie>, descending: bool)
    requires SortedByDate(ms, descending) && ms != [] && !InDateOrder(m, ms[0], descending)
    requires multiset(t) == multiset(ms[1..]) + multiset{m}
    ensures forall x :: x in t ==> InDateOrder(ms[0], x, descending)
  {
    forall x | x in t ensures InDateOrder(ms[0], x, descending) {
      assert x in multiset(t);
      if x != m {
        assert x in multiset(ms[1..]);
        var j :| 0 <= j < |ms[1..]| && ms[1..][j] == x;
        assert ms[j + 1] == x;
      }
    }
  }

  /** `sorted(ms, key=premiere_date, reverse=descending)`: a stable sort. */
  function SortByDate(ms: seq<Movie>, descending: bool): (r: seq<Movie>)
    ensures SortedByDate(r, descending)
    ensures multiset(r) == multiset(ms)
  {
    if ms == [] then []
    else
      assert ms == [ms[0]] + ms[1..];
      InsertByDate(ms[0], SortByDate(ms[1..], descending), descending)
  }

  /** The movies of `ms` that premiere on `d`, in order. */
  function OnDate(ms: seq<Movie>, d: Date): seq<Movie> {
    if ms == [] then []
    else if ms[0].premiereDate == d then [ms[0]] + OnDate(ms[1..], d)
    else OnDate(ms[1..], d)
  }

  /** Stability: movies that share a premiere date keep their input order. */
  lemma {:induction false} SortIsStable(ms: seq<Movie>, descending: bool, d: Date)
    ensures OnDate(SortByDate(ms, descending), d) == OnDate(ms, d)
  {
    if ms != [] {
      SortIsStable(ms[1..], descending, d);
      InsertOnDate(ms[0], SortByDate(ms[1..], descending), descending, d);
    }
  }

  lemma {:induction false} InsertOnDate(m: Movie, ms: seq<Movie>, descending: bool, d: Date)
    requires SortedByDate(ms, descending)
    ensures OnDate(InsertByDate(m, ms, descending), d) == OnDate([m] + ms, d)
  {
    if ms != [] && !InDateOrder(m, ms[0], descending) {
      InsertOnDate(m, ms[1..], descending, d);
      assert ([m] + ms)[1..] == ms;
      assert ([m] + ms[1..])[1..] == ms[1..];
      assert ms[0].premiereDate != m.premiereDate;
    }
  }

  // ---------------------------------------------------------------------------
  // snapshot assembly: sorted(set(movies), key=premiere_date)
  // ---------------------------------------------------------------------------

  /** No two movies of `ms` are equal. */
  ghost predicate DistinctMovies(ms: seq<Movie>) {
    forall i, j :: 0 <= i < j < |ms| ==> !SameMovie(ms[i], ms[j])
  }

  /**
   * `set(movies)` built by adding the movies in order: a movie equal to one
   * already added is dropped, so the first of each identity stays.
   */
  function AddAllToSet(ms: seq<Movie>): (r: seq<Movie>)
    ensures DistinctMovies(r)
    ensures forall m :: m in r ==> m in ms
    ensures forall m :: m in ms ==> Contains(r, m)
  {
    if ms == [] then []
    else
      var d := AddAllToSet(ms[..|ms| - 1]);
      var x := ms[|ms| - 1];
      assert ms == ms[..|ms| - 1] + [x];
      if Contains(d, x) then d
      else
        forall m | m in ms ensures Contains(d + [x], m) {
          ContainsAppend(d, x, m);
        }
        d + [x]
  }

  /** The copy of an identity that the set keeps is its first occurrence in the input. */
  lemma {:induction false} SetKeepsFirstOccurrence(ms: seq<Movie>, m: Movie)
    requires m in AddAllToSet(ms)
    ensures exists i :: 0 <= i < |ms| && ms[i] == m && !Contains(ms[..i], m)
  {
    var d := AddAllToSet(ms[..|ms| - 1]);
    var x := ms[|ms| - 1];
    if m in d {
      SetKeepsFirstOccurrence(ms[..|ms| - 1], m);
      var i :| 0 <= i < |ms| - 1 && ms[..|ms| - 1][i] == m && !Contains(ms[..|ms| - 1][..i], m);
      assert ms[..|ms| - 1][..i] == ms[..i];
    } else {
      assert m == x && !Contains(d, x);
      forall y | y in ms[..|ms| - 1] ensures Contains(d, y) {
      }
      ContainsTransfer(ms[..|ms| - 1], d, m);
    }
  }

  /**
   * What any run guarantees of the assembled list `r`: no two equal movies,
   * premiere dates ascending, every input identity represented, and every
   * element one of the inputs. Which copy represents an identity and the
   * order among equal dates follow the set's iteration order, which is left open.
   */
  ghost predicate IsAssembly(ms: seq<Movie>, r: seq<Movie>) {
    && DistinctMovies(r)
    && SortedByDate(r, false)
    && (forall m :: m in ms ==> Contains(r, m))
    && (forall m :: m in r ==> m in ms)
  }

  /** The assembly step with the set iterated in insertion order. */
  function Assemble(ms: seq<Movie>): (r: seq<Movie>)
    ensures IsAssembly(ms, r)
  {
    var d := AddAllToSet(ms);
    var r := SortByDate(d, false);
    PermutationKeepsDistinct(d, r);
    forall m | m in ms ensures Contains(r, m) {
      var i :| 0 <= i < |d| && SameMovie(d[i], m);
      assert d[i] in multiset(r);
      ContainsMember(r, d[i]);
      ContainsRespectsIdentity(r, d[i], m);
    }
    forall m | m in r ensures m in ms {
      assert m in multiset(d);
    }
    r
  }

  /** Rearranging a list keeps its elements pairwise distinct. */
  lemma PermutationKeepsDistinct(a: seq<Movie>, b: seq<Movie>)
    requires DistinctMovies(a) && multiset(a) == multiset(b)
    ensures DistinctMovies(b)
  {
    forall i, j | 0 <= i < j < |b| ensures !SameMovie(b[i], b[j]) {
      assert b[i] in multiset(a) && b[j] in multiset(a);
      var p :| 0 <= p < |a| && a[p] == b[i];
      var q :| 0 <= q < |a| && a[q] == b[j];
      if p == q {
        CountAtLeastTwo(b, i, j);
        OnlyOnce(a, p);
      }
    }
  }

  /** Two positions holding the same value count it twice. */
  lemma CountAtLeastTwo(b: seq<Movie>, i: nat, j: nat)
    requires i < j < |b| && b[i] == b[j]
    ensures multiset(b)[b[i]] >= 2
  {
    assert b == b[..i] + [b[i]] + b[i + 1..j] + [b[j]] + b[j + 1..];
  }

  /** In a list without equal movies, each element occurs once. */
  lemma {:induction false} OnlyOnce(a: seq<Movie>, p: nat)
    requires DistinctMovies(a) && p < |a|
    ensures multiset(a)[a[p]] == 1
  {
    assert a == a[..p] + [a[p]] + a[p + 1..];
    forall k | 0 <= k < |a| && k != p ensures a[k] != a[p] {
      if k < p {
        assert !SameMovie(a[k], a[p]);
      } else {
        assert !SameMovie(a[p], a[k]);
      }
    }
    assert a[p] !in a[..p];
    assert a[p] !in a[p + 1..];
  }

  /** The identities present in `ms`. */
  ghost function Identities(ms: seq<Movie>): set<(string, Date)> {
    set m | m in ms :: Identity(m)
  }

  /** Every assembly holds exactly one movie per input identity. */
  lemma AssemblySize(ms: seq<Movie>, r: seq<Movie>)
    requires IsAssembly(ms, r)
    ensures Identities(r) == Identities(ms)
    ensures |r| == |Identities(ms)|
  {
    forall key | key in Identities(ms) ensures key in Identities(r) {
      var m :| m in ms && Identity(m) == key;
      var i :| 0 <= i < |r| && SameMovie(r[i], m);
      assert Identity(r[i]) == key;
    }
    DistinctSize(r);
  }

  /** A list of pairwise distinct movies has as many elements as identities. */
  lemma {:induction false} DistinctSize(r: seq<Movie>)
    requires DistinctMovies(r)
    ensures |r| == |Identities(r)|
  {
    if r != [] {
      var rest := r[1..];
      DistinctSize(rest);
      assert Identities(r) == Identities(rest) + {Identity(r[0])};
      assert Identity(r[0]) !in Identities(rest) by {
        forall k | 0 <= k < |rest| ensures Identity(rest[k]) != Identity(r[0]) {
          assert !SameMovie(r[0], r[k + 1]);
        }
      }
    }
  }
}
