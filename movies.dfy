/**
 * The catalog rules of MoviesController (HomeCinema.Web/Controllers/MoviesController.cs):
 * the "latest" listing, the filtered and paged listing with its page count,
 * and the Add and Update actions over the movie repository.
 *
 * The listings are LINQ queries over the repository contents and are
 * modelled as functions of the stored sequence of movies; Add and Update
 * change the repository and are methods of the class MoviesController.
 */
module Movies {
  import opened Wrappers
  import Linq
  import Text

  /** System.Int32, the type of the route parameters `page` and `pageSize`. */
  type Int32 = x: int | -0x8000_0000 <= x < 0x8000_0000

  /** Unchecked 32-bit arithmetic: the two's-complement value of x modulo 2^32. */
  function Wrap32(x: int): (r: Int32)
    ensures (x - r) % 0x1_0000_0000 == 0
    ensures -0x8000_0000 <= x < 0x8000_0000 ==> r == x
  {
    var m := x % 0x1_0000_0000;
    if m < 0x8000_0000 then m else m - 0x1_0000_0000
  }

  /** A copy of a movie for rent; `movieId` is the key of the movie it belongs to. */
  datatype Stock = Stock(movieId: int, isAvailable: bool, uniqueKey: string)

  datatype Movie = Movie(id: int, title: string, releaseDate: int, image: string, stocks: seq<Stock>)

  /** The fields of MovieViewModel the controller reads. */
  datatype MovieViewModel = MovieViewModel(id: int, title: string, releaseDate: int, image: string,
                                           numberOfStocks: int)

  /** `new Movie()`: no key yet, no image, an empty stock collection. */
  const BlankMovie := Movie(0, "", 0, "", [])

  /** The HTTP responses of Add and Update; the body is the entity or view model returned. */
  datatype Response = Created(movie: Movie) | Ok(vm: MovieViewModel) | BadRequest | NotFound

  /** The paged result: PaginationSet<MovieViewModel>. */
  datatype PaginationSet = PaginationSet(page: Int32, totalCount: int, totalPages: int, items: seq<Movie>)

  /** The exception the paged listing raises. */
  datatype ListingError = DivideByZero

  // ---------------------------------------------------------------- lookups

  /** Position of the first movie with key `id`. */
  function MovieIndex(movies: seq<Movie>, id: int): Option<nat> {
    Linq.FirstIndex(movies, (m: Movie) => m.id == id)
  }

  /** The repository's GetSingle(id): the movie with that key, or null. */
  function FindMovie(movies: seq<Movie>, id: int): (r: Option<Movie>)
    ensures r.Some? ==> r.value in movies && r.value.id == id
    ensures r.None? <==> forall m :: m in movies ==> m.id != id
  {
    match MovieIndex(movies, id)
    case None => None
    case Some(k) => Some(movies[k])
  }

  ghost predicate KeysUnique(movies: seq<Movie>) {
    forall i, j :: 0 <= i < j < |movies| ==> movies[i].id != movies[j].id
  }

  /** With unique keys, GetSingle(id) returns a movie exactly when it is stored under that key. */
  lemma FindMovieExact(movies: seq<Movie>, id: int, m: Movie)
    requires KeysUnique(movies)
    ensures FindMovie(movies, id) == Some(m) <==> m in movies && m.id == id
  {
    if m in movies && m.id == id {
      var k := MovieIndex(movies, id).value;
      var j :| 0 <= j < |movies| && movies[j] == m;
      assert movies[k].id == id;
    }
  }

  // ---------------------------------------------------------------- latest

  /** The key of OrderByDescending(m => m.ReleaseDate), as an ascending key. */
  function NewestFirst(m: Movie): int { -m.releaseDate }

  /** The movies by release date, newest first. */
  function ByReleaseDate(all: seq<Movie>): seq<Movie> {
    Linq.OrderBy(all, NewestFirst)
  }

  /** `GetAll().OrderByDescending(m => m.ReleaseDate).Take(6)`. */
  function Latest(all: seq<Movie>): (r: seq<Movie>)
    ensures |r| == if |all| < 6 then |all| else 6
    ensures forall i, j :: 0 <= i < j < |r| ==> r[i].releaseDate >= r[j].releaseDate
    ensures multiset(r) <= multiset(all)
  {
    var ordered := ByReleaseDate(all);
    Linq.TakeSkip(ordered, 6);
    NewestFirstDescending(ordered);
    Linq.Take(ordered, 6)
  }

  /** Ascending by the negated date is descending by date. */
  lemma NewestFirstDescending(s: seq<Movie>)
    requires Linq.SortedBy(s, NewestFirst)
    ensures forall i, j :: 0 <= i < j < |s| ==> s[i].releaseDate >= s[j].releaseDate
  {
    forall i, j | 0 <= i < j < |s| ensures s[i].releaseDate >= s[j].releaseDate {
      assert NewestFirst(s[i]) <= NewestFirst(s[j]);
    }
  }

  /** A movie left out of the latest listing is no newer than any movie in it. */
  lemma LatestAreNewest(all: seq<Movie>, m: Movie)
    requires multiset(Latest(all))[m] < multiset(all)[m]
    ensures forall x :: x in Latest(all) ==> m.releaseDate <= x.releaseDate
  {
    var ordered := ByReleaseDate(all);
    Linq.TakeSortedBound(ordered, 6, NewestFirst, m);
    forall x | x in Latest(all) ensures m.releaseDate <= x.releaseDate {
      assert NewestFirst(x) <= NewestFirst(m);
    }
  }

  // ---------------------------------------------------------------- filter

  /** `m.Title.ToLower().Contains(filter.ToLower().Trim())`. */
  predicate MatchesFilter(m: Movie, filter: string) {
    Text.Contains(Text.ToLower(m.title), Text.Trim(Text.ToLower(filter)))
  }

  /** The movies the listing counts and pages: all of them for a null or empty filter, else those matching it. */
  function Matching(all: seq<Movie>, filter: Option<string>): (r: seq<Movie>)
    ensures |r| <= |all|
    ensures forall m :: m in r ==> m in all
    ensures forall m :: m in r && !Text.IsNullOrEmpty(filter) ==> MatchesFilter(m, filter.value)
    ensures forall m :: m in all && (Text.IsNullOrEmpty(filter) || MatchesFilter(m, filter.value)) ==> m in r
    ensures forall m :: multiset(r)[m] ==
              if Text.IsNullOrEmpty(filter) || MatchesFilter(m, filter.value) then multiset(all)[m] else 0
    ensures Text.IsNullOrEmpty(filter) ==> r == all
  {
    if Text.IsNullOrEmpty(filter) then all
    else Linq.Where(all, (m: Movie) => MatchesFilter(m, filter.value))
  }

  /** The selection keeps the stored order: the matches of two runs of movies, one after the other. */
  lemma MatchingAppend(a: seq<Movie>, b: seq<Movie>, filter: Option<string>)
    ensures Matching(a + b, filter) == Matching(a, filter) + Matching(b, filter)
  {
    if !Text.IsNullOrEmpty(filter) {
      Linq.WhereAppend(a, b, (m: Movie) => MatchesFilter(m, filter.value));
    }
  }

  /** The filter ignores letter case: a lower-cased filter selects the same movies. */
  lemma FilterIgnoresCase(all: seq<Movie>, filter: string)
    ensures Matching(all, Some(Text.ToLower(filter))) == Matching(all, Some(filter))
  {
    Text.ToLowerIdempotent(filter);
    if filter != [] {
      Linq.WhereSame(all, (m: Movie) => MatchesFilter(m, Text.ToLower(filter)),
                          (m: Movie) => MatchesFilter(m, filter));
    }
  }

  /** A filter of whitespace only trims to the empty string, which every title contains. */
  lemma BlankFilterMatchesAll(all: seq<Movie>, filter: string)
    requires forall i :: 0 <= i < |filter| ==> Text.IsWhiteSpace(filter[i])
    ensures Matching(all, Some(filter)) == all
  {
    Text.ToLowerKeepsWhiteSpace(filter);
    Text.TrimAllWhiteSpace(Text.ToLower(filter));
    forall m | m in all ensures MatchesFilter(m, filter) {
      assert Text.StartsWith(Text.ToLower(m.title), []);
    }
    if filter != [] {
      Linq.WhereAll(all, (m: Movie) => MatchesFilter(m, filter));
    }
  }

  // ---------------------------------------------------------------- paging

  /**
   * `(int) Math.Ceiling((decimal) total / size)`: the decimal quotient of two
   * 32-bit integers is exact enough that its ceiling is the integer ceiling.
   */
  function CeilDiv(total: int, size: int): (q: int)
    requires size != 0
    ensures size > 0 ==> (q - 1) * size < total <= q * size
    ensures size < 0 ==> q * size <= total < (q - 1) * size
  {
    var d := total / size;
    assert total == size * d + total % size;
    if size > 0 && total % size != 0 then d + 1 else d
  }

  /** The movies the listing pages through, in key order. */
  function ByKey(movies: seq<Movie>): (r: seq<Movie>)
    ensures |r| == |movies| && multiset(r) == multiset(movies)
    ensures forall i, j :: 0 <= i < j < |r| ==> r[i].id <= r[j].id
  {
    SortedByKey(Linq.OrderBy(movies, MovieKey));
    Linq.OrderBy(movies, MovieKey)
  }

  /** The key of OrderBy(m => m.ID). */
  function MovieKey(m: Movie): int { m.id }

  lemma SortedByKey(s: seq<Movie>)
    requires Linq.SortedBy(s, MovieKey)
    ensures forall i, j :: 0 <= i < j < |s| ==> s[i].id <= s[j].id
  {
    forall i, j | 0 <= i < j < |s| ensures s[i].id <= s[j].id {
      assert MovieKey(s[i]) <= MovieKey(s[j]);
    }
  }

  /** The first position Skip(offset) keeps: a negative count skips nothing. */
  function SkipStart(offset: int): nat {
    if offset < 0 then 0 else offset
  }

  /** How many of `count` elements Skip(offset).Take(size) keeps. */
  function WindowLength(count: nat, offset: int, size: int): nat {
    var start := SkipStart(offset);
    if size <= 0 || start >= count then 0
    else if start + size <= count then size else count - start
  }

  /** `OrderBy(m => m.ID).Skip(offset).Take(size)`: at most `size` of the movies, consecutive in key order. */
  function Window(movies: seq<Movie>, offset: int, size: int): (items: seq<Movie>)
    ensures |items| == WindowLength(|movies|, offset, size)
    ensures forall m :: m in items ==> m in movies
    ensures forall i :: 0 <= i < |items| ==> items[i] == ByKey(movies)[SkipStart(offset) + i]
  {
    var ordered := ByKey(movies);
    Linq.WindowIn(ordered, offset, size);
    Linq.WindowAt(ordered, offset, size);
    Linq.PermutationIn(ordered, movies);
    Linq.Take(Linq.Skip(ordered, offset), size)
  }

  /**
   * The paged listing: Skip(page * pageSize) (unchecked 32-bit product) and
   * Take(pageSize) over the key-ordered matching movies, the count of all
   * matching movies and the number of pages. A page size of 0 divides by zero.
   */
  function Page(all: seq<Movie>, page: Int32, pageSize: Int32, filter: Option<string>)
    : (r: Result<PaginationSet, ListingError>)
    ensures pageSize == 0 <==> r == Failure(DivideByZero)
    ensures r.Success? ==>
              var matching := Matching(all, filter);
              var offset := Wrap32(page * pageSize);
              && r.value.page == page
              && r.value.totalCount == |matching|
              && r.value.totalPages == CeilDiv(|matching|, pageSize)
              && |r.value.items| == WindowLength(|matching|, offset, pageSize)
              && (forall m :: m in r.value.items ==> m in matching)
              && (forall i :: 0 <= i < |r.value.items| ==> r.value.items[i] == ByKey(matching)[SkipStart(offset) + i])
  {
    var matching := Matching(all, filter);
    var items := Window(matching, Wrap32(page * pageSize), pageSize);
    if pageSize == 0 then Failure(DivideByZero)
    else Success(PaginationSet(page, |matching|, CeilDiv(|matching|, pageSize), items))
  }

  /** Key position start + rem is item rem of the window of `size` movies from `start`. */
  lemma WindowCovers(movies: seq<Movie>, start: nat, size: int, rem: nat)
    requires rem < size && start + rem < |movies|
    ensures var w := Window(movies, start, size);
            rem < |w| && w[rem] == ByKey(movies)[start + rem]
  {
  }

  /** Euclidean division splits a position into the start of its page and its place on the page. */
  lemma PageSplit(j: nat, size: int)
    requires size > 0
    ensures 0 <= (j / size) * size <= j
    ensures j == (j / size) * size + j % size && 0 <= j % size < size
  {
  }

  /** The page that holds key position j; a position Int32 can hold has a page number Int32 can hold. */
  function PageNumber(j: nat, size: Int32): (p: Int32)
    requires size > 0 && j < 0x8000_0000
    ensures p == j / size
  {
    QuotientAtMost(j, size);
    j / size
  }

  /** Dividing by a positive size does not make a position larger. */
  lemma QuotientAtMost(j: nat, size: int)
    requires size > 0
    ensures 0 <= j / size <= j
  {
    PageSplit(j, size);
    AtMostMultiple(j / size, size);
  }

  lemma {:induction false} AtMostMultiple(q: nat, size: int)
    requires size > 0
    ensures q <= q * size
  {
    if q > 0 {
      AtMostMultiple(q - 1, size);
      assert q * size == (q - 1) * size + size;
    }
  }

  /** Every position below the count lies on a page below the page count. */
  lemma PositionBelowPageCount(count: nat, size: int, j: nat)
    requires size > 0 && j < count
    ensures j / size < CeilDiv(count, size)
  {
    PageSplit(j, size);
  }

  /**
   * With a positive page size, the matching movie at key position j (a
   * position Int32 can hold) is item j % pageSize of page j / pageSize, and
   * that page is below the page count.
   */
  lemma PageOfPosition(all: seq<Movie>, filter: Option<string>, pageSize: Int32, j: nat)
    requires pageSize > 0 && j < |Matching(all, filter)| && j < 0x8000_0000
    ensures var p := PageNumber(j, pageSize);
            var r := Page(all, p, pageSize, filter);
            && r.Success?
            && p < r.value.totalPages
            && j % pageSize < |r.value.items|
            && r.value.items[j % pageSize] == ByKey(Matching(all, filter))[j]
  {
    var matching := Matching(all, filter);
    var p := PageNumber(j, pageSize);
    var rem := j % pageSize;
    PageSplit(j, pageSize);
    var start: nat := p * pageSize;
    assert start + rem == j;
    assert Wrap32(p * pageSize) == start;
    var items := Page(all, p, pageSize, filter).value.items;
    assert items == Window(matching, start, pageSize);
    WindowCovers(matching, start, pageSize, rem);
    PositionBelowPageCount(|matching|, pageSize, j);
  }

  // ---------------------------------------------------------------- Add / Update

  /** The stocks Add creates: `count` available copies of movie `movieId`, keyed by successive fresh GUIDs. */
  function NewStocks(movieId: int, count: int, newGuid: nat -> string): (r: seq<Stock>)
    ensures |r| == if count < 0 then 0 else count
    ensures forall s :: s in r ==> s.movieId == movieId && s.isAvailable
    ensures forall i :: 0 <= i < |r| ==> r[i].uniqueKey == newGuid(i)
  {
    if count <= 0 then [] else NewStocks(movieId, count - 1, newGuid) + [Stock(movieId, true, newGuid(count - 1))]
  }

  /** Add's loop: appends `count` available stocks of movie `movieId`, the i-th keyed by newGuid(i). */
  method AppendStocks(stocks: seq<Stock>, movieId: int, count: int, newGuid: nat -> string)
    returns (result: seq<Stock>)
    ensures result == stocks + NewStocks(movieId, count, newGuid)
  {
    result := stocks;
    var i := 0;
    while i < count
      invariant 0 <= i && (count > 0 ==> i <= count)
      invariant count <= 0 ==> i == 0
      invariant result == stocks + NewStocks(movieId, i, newGuid)
    {
      assert NewStocks(movieId, i + 1, newGuid) == NewStocks(movieId, i, newGuid) + [Stock(movieId, true, newGuid(i))];
      result := result + [Stock(movieId, true, newGuid(i))];
      i := i + 1;
    }
  }

  /** A movie stored under the next key is what GetSingle finds under that key. */
  lemma AddedMovieFound(movies: seq<Movie>, nextId: int, m: Movie)
    requires forall x :: x in movies ==> x.id < nextId
    requires m.id == nextId
    ensures FindMovie(movies + [m], nextId) == Some(m)
    ensures KeysUnique(movies) ==> KeysUnique(movies + [m])
  {
    var all := movies + [m];
    assert all[|movies|] == m;
    var found := FindMovie(all, nextId);
    assert found.Some?;
    forall i, j | 0 <= i < j < |all| && KeysUnique(movies) ensures all[i].id != all[j].id {
      if j == |movies| {
        assert all[i] in movies;
      }
    }
  }

  /** Editing the movie at position k in place, keeping its key, leaves it the one GetSingle finds. */
  lemma EditedMovieFound(movies: seq<Movie>, k: nat, edited: Movie)
    requires KeysUnique(movies) && k < |movies| && edited.id == movies[k].id
    ensures KeysUnique(movies[k := edited])
    ensures FindMovie(movies[k := edited], edited.id) == Some(edited)
  {
    var all := movies[k := edited];
    assert KeysUnique(all) by {
      forall i, j | 0 <= i < j < |all| ensures all[i].id != all[j].id {
        assert all[i].id == movies[i].id && all[j].id == movies[j].id;
      }
    }
    assert all[k] == edited;
    FindMovieExact(all, edited.id, edited);
  }

  /** The entity-update extension leaves the key of the movie it updates alone. */
  ghost predicate KeepsKey(update: (Movie, MovieViewModel) -> Movie) {
    forall m, vm :: update(m, vm).id == m.id
  }

  class MoviesController {
    /** Movie.UpdateMovie(MovieViewModel): copies the view model's descriptive fields onto a movie. */
    const update: (Movie, MovieViewModel) -> Movie

    /** The committed contents of the movie repository. */
    var movies: seq<Movie>
    /** The identity key the next committed movie receives. */
    var nextMovieId: int

    ghost predicate Valid()
      reads this
    {
      KeysUnique(movies) && (forall m :: m in movies ==> m.id < nextMovieId) && KeepsKey(update)
    }

    constructor (update: (Movie, MovieViewModel) -> Movie, movies: seq<Movie>, nextMovieId: int)
      requires KeepsKey(update) && KeysUnique(movies)
      requires forall m :: m in movies ==> m.id < nextMovieId
      ensures Valid()
      ensures this.update == update && this.movies == movies && this.nextMovieId == nextMovieId
    {
      this.update := update;
      this.movies := movies;
      this.nextMovieId := nextMovieId;
    }

    /**
     * Add: a BadRequest for an invalid model; otherwise a new movie from the
     * view model with NumberOfStocks fresh available stocks, committed under
     * the next key and answered with Created.
     */
    method Add(modelValid: bool, vm: MovieViewModel, newGuid: nat -> string) returns (response: Response)
      requires Valid()
      modifies this
      ensures Valid()
      ensures !modelValid ==> response == BadRequest && movies == old(movies) && nextMovieId == old(nextMovieId)
      ensures modelValid ==>
                var base := update(BlankMovie, vm);
                var stored := base.(id := old(nextMovieId),
                                    stocks := base.stocks + NewStocks(old(nextMovieId), vm.numberOfStocks, newGuid));
                && response == Created(stored)
                && movies == old(movies) + [stored]
                && nextMovieId == old(nextMovieId) + 1
    {
      if !modelValid {
        return BadRequest;
      }
      var newMovie := update(BlankMovie, vm);
      var id := nextMovieId;
      var stocks := AppendStocks(newMovie.stocks, id, vm.numberOfStocks, newGuid);
      var stored := newMovie.(id := id, stocks := stocks);
      AddedMovieFound(movies, id, stored);
      movies := movies + [stored];
      nextMovieId := nextMovieId + 1;
      response := Created(stored);
    }

    /**
     * Update: a BadRequest for an invalid model, a NotFound when no movie has
     * the view model's key; otherwise the stored movie is updated in place and
     * the view model is answered with the stored image.
     */
    method Update(modelValid: bool, vm: MovieViewModel) returns (response: Response)
      requires Valid()
      modifies this
      ensures Valid() && nextMovieId == old(nextMovieId)
      ensures !modelValid ==> response == BadRequest && movies == old(movies)
      ensures modelValid && FindMovie(old(movies), vm.id).None? ==> response == NotFound && movies == old(movies)
      ensures modelValid && FindMovie(old(movies), vm.id).Some? ==>
                var k := MovieIndex(old(movies), vm.id).value;
                var edited := update(old(movies)[k], vm);
                && k < |old(movies)|
                && movies == old(movies)[k := edited]
                && FindMovie(movies, vm.id) == Some(edited)
                && response == Ok(vm.(image := edited.image))
    {
      if !modelValid {
        return BadRequest;
      }
      var k := MovieIndex(movies, vm.id);
      if k.None? {
        return NotFound;
      }
      var edited := update(movies[k.value], vm);
      EditedMovieFound(movies, k.value, edited);
      movies := movies[k.value := edited];
      response := Ok(vm.(image := edited.image));
    }
  }
}
