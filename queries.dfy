/**
 * The query layer: four read-only queries over the collection of movies the
 * layer was built on. The layer keeps nothing but that collection, so every
 * query here takes it as `movies`; a sequence keeps both the repeated movies
 * and the order in which the collection hands them out.
 */
module Queries {

  import opened Movies
  import opened Sequences
  import opened StringOrder

  // ---------------------------------------------------------------------------
  // Query 1: actors that play themselves

  /** The cast entries of one movie whose character name is among its own actors. */
  function SelfPortrayedCharacters(m: Movie): set<string>
  {
    set c | c in m.actorsByCharacter && c in m.actorsByCharacter[c]
  }

  /**
   * Names that are, in one and the same movie, both a character of the cast
   * map and one of the actors listed for that very character.
   */
  function ActorsThatInterpretThemselves(movies: seq<Movie>): (r: set<string>)
    ensures forall name :: name in r <==>
      exists m :: m in movies && name in m.actorsByCharacter && name in m.actorsByCharacter[name]
  {
    if movies == [] then {}
    else
      assert movies == [movies[0]] + movies[1..];
      SelfPortrayedCharacters(movies[0]) + ActorsThatInterpretThemselves(movies[1..])
  }

  // ---------------------------------------------------------------------------
  // Query 2: actors of a director's movies, in alphabetic order

  /** The stream of actors of the movies that list `director`, repeats kept. */
  ghost function ActorStream(movies: seq<Movie>, director: string): (r: seq<string>)
    ensures forall a :: a in r <==> exists m :: m in movies && director in m.directors && a in m.actors
  {
    if movies == [] then []
    else
      assert movies == [movies[0]] + movies[1..];
      (if director in movies[0].directors then Enumerate(movies[0].actors) else [])
      + ActorStream(movies[1..], director)
  }

  /**
   * Every actor of a movie that lists `director` among its directors, each
   * once, in strictly ascending lexicographic order.
   */
  ghost function ActorsThatActedInMoviesOfDirectorInAlphabeticOrder(movies: seq<Movie>, director: string): (r: seq<string>)
    ensures StrictlyAscending(r)
    ensures forall a :: a in r <==> exists m :: m in movies && director in m.directors && a in m.actors
  {
    var s := Sort(Distinct(ActorStream(movies, director)));
    StrictFromAscending(s);
    SortDistinctElements(ActorStream(movies, director));
    s
  }

  /** A director that no movie lists has no actors. */
  lemma UnknownDirectorHasNoActors(movies: seq<Movie>, director: string)
    requires forall m :: m in movies ==> director !in m.directors
    ensures ActorsThatActedInMoviesOfDirectorInAlphabeticOrder(movies, director) == []
  {
    NonEmptyHasElement(ActorsThatActedInMoviesOfDirectorInAlphabeticOrder(movies, director));
  }

  /**
   * The result of query 2 is the only strictly ascending list of those actors:
   * the order in which the actor sets happen to be walked does not show.
   */
  lemma ActorsOfDirectorDetermined(movies: seq<Movie>, director: string, s: seq<string>)
    requires StrictlyAscending(s)
    requires forall a :: a in s <==> exists m :: m in movies && director in m.directors && a in m.actors
    ensures s == ActorsThatActedInMoviesOfDirectorInAlphabeticOrder(movies, director)
  {
    StrictlyAscendingUnique(s, ActorsThatActedInMoviesOfDirectorInAlphabeticOrder(movies, director));
  }

  // ---------------------------------------------------------------------------
  // Query 3: movies in which a director also acted, most recent first

  /** Some person is credited on `m` both as an actor and as a director. */
  predicate DirectorActed(m: Movie)
  {
    exists a :: a in m.actors && a in m.directors
  }

  /** The movies of `movies` in which a director acted, in their order. */
  function FilterDirectorActed(movies: seq<Movie>): (r: seq<Movie>)
    ensures forall m :: multiset(r)[m] == if DirectorActed(m) then multiset(movies)[m] else 0
  {
    if movies == [] then []
    else
      assert movies == [movies[0]] + movies[1..];
      (if DirectorActed(movies[0]) then [movies[0]] else []) + FilterDirectorActed(movies[1..])
  }

  /** No movie is older than one that comes after it. */
  ghost predicate YearDescending(s: seq<Movie>)
  {
    forall i, j :: 0 <= i < j < |s| ==> s[i].releaseYear >= s[j].releaseYear
  }

  /**
   * Inserts `x` before the first movie not more recent than it, so that among
   * movies of one year the ones inserted later stay in front.
   */
  function InsertByYear(x: Movie, s: seq<Movie>): (r: seq<Movie>)
    ensures multiset(r) == multiset(s) + multiset{x}
  {
    if s == [] || s[0].releaseYear <= x.releaseYear then [x] + s
    else
      assert s == [s[0]] + s[1..];
      [s[0]] + InsertByYear(x, s[1..])
  }

  lemma {:induction false} InsertByYearDescending(x: Movie, s: seq<Movie>)
    requires YearDescending(s)
    ensures YearDescending(InsertByYear(x, s))
  {
    if s != [] && s[0].releaseYear > x.releaseYear {
      var rest := InsertByYear(x, s[1..]);
      InsertByYearDescending(x, s[1..]);
      forall j | 0 <= j < |rest|
        ensures rest[j].releaseYear <= s[0].releaseYear
      {
        assert rest[j] in multiset(rest);
        if rest[j] != x {
          assert rest[j] in s[1..];
          var k :| 0 <= k < |s[1..]| && s[1..][k] == rest[j];
          assert s[k + 1] == rest[j];
        }
      }
      assert InsertByYear(x, s) == [s[0]] + rest;
    }
  }

  /** Stable insertion sort, most recent year first; a permutation of `s`. */
  function SortByYearDescending(s: seq<Movie>): (r: seq<Movie>)
    ensures multiset(r) == multiset(s)
    ensures YearDescending(r)
  {
    if s == [] then []
    else
      assert s == [s[0]] + s[1..];
      InsertByYearDescending(s[0], SortByYearDescending(s[1..]));
      InsertByYear(s[0], SortByYearDescending(s[1..]))
  }

  /** Dropping later repeats keeps a year-descending sequence year-descending. */
  lemma DistinctKeepsYearDescending(s: seq<Movie>)
    requires YearDescending(s)
    ensures YearDescending(Distinct(s))
  {
    var d := Distinct(s);
    DistinctOrdered(s);
    forall i, j | 0 <= i < j < |d|
      ensures d[i].releaseYear >= d[j].releaseYear
    {
      assert OccursBefore(s, d[i], d[j]);
      var k, l :| 0 <= k < l < |s| && s[k] == d[i] && s[l] == d[j];
    }
  }

  /**
   * Every movie of the collection in which a director acted, exactly once,
   * and nothing else, ordered from the most recent release year down.
   */
  function MoviesWithAtLeastOneDirectorActedMostRecentFirst(movies: seq<Movie>): (r: seq<Movie>)
    ensures YearDescending(r)
    ensures forall m :: m in r ==> DirectorActed(m)
    ensures forall m :: multiset(r)[m] == if m in movies && DirectorActed(m) then 1 else 0
  {
    var sorted := SortByYearDescending(FilterDirectorActed(movies));
    DistinctKeepsYearDescending(sorted);
    var r := Distinct(sorted);
    assert forall m :: m in r ==> m in multiset(r);
    r
  }

  // ---------------------------------------------------------------------------
  // Query 4: the movies of one year grouped by category

  /** The movies released in `year`, in their order. */
  function ReleasedIn(movies: seq<Movie>, year: int): (r: seq<Movie>)
    ensures forall m :: m in r <==> m in movies && m.releaseYear == year
  {
    if movies == [] then []
    else
      assert movies == [movies[0]] + movies[1..];
      (if movies[0].releaseYear == year then [movies[0]] else []) + ReleasedIn(movies[1..], year)
  }

  /** Every category some movie of `movies` carries. */
  function CategoriesOf(movies: seq<Movie>): (r: set<string>)
    ensures forall c :: c in r <==> exists m :: m in movies && c in m.categories
  {
    if movies == [] then {}
    else
      assert movies == [movies[0]] + movies[1..];
      movies[0].categories + CategoriesOf(movies[1..])
  }

  /**
   * Maps each category used by a movie released in `year` to the set of that
   * year's movies carrying it. Categories no such movie uses are absent, so no
   * category maps to an empty set.
   */
  method MoviesReleasedInYearGroupedByCategory(movies: seq<Movie>, year: int)
    returns (result: map<string, set<Movie>>)
    ensures forall c :: c in result <==> exists m :: m in movies && m.releaseYear == year && c in m.categories
    ensures forall c, m :: c in result ==>
      (m in result[c] <==> m in movies && m.releaseYear == year && c in m.categories)
    ensures forall c :: c in result ==> result[c] != {}
    ensures forall m :: (exists c :: c in result && m in result[c]) <==>
      m in movies && m.releaseYear == year && m.categories != {}
  {
    var filteredMovies := ReleasedIn(movies, year);
    var filteredCategories := CategoriesOf(filteredMovies);
    result := map[];
    var remaining := filteredCategories;
    while remaining != {}
      invariant remaining <= filteredCategories
      invariant result.Keys == filteredCategories - remaining
      invariant forall c :: c in result ==> result[c] == set m | m in filteredMovies && c in m.categories
      decreases remaining
    {
      var category :| category in remaining;
      var moviesByCategory := set m | m in filteredMovies && category in m.categories;
      result := result[category := moviesByCategory];
      remaining := remaining - {category};
    }
    GroupingProperties(movies, year, result);
  }

  /**
   * A map keyed by the categories of the year's movies, each holding the
   * year's movies of that category, has the properties stated by query 4.
   */
  lemma GroupingProperties(movies: seq<Movie>, year: int, result: map<string, set<Movie>>)
    requires result.Keys == CategoriesOf(ReleasedIn(movies, year))
    requires forall c :: c in result ==> result[c] == set m | m in ReleasedIn(movies, year) && c in m.categories
    ensures forall c :: c in result <==> exists m :: m in movies && m.releaseYear == year && c in m.categories
    ensures forall c, m :: c in result ==>
      (m in result[c] <==> m in movies && m.releaseYear == year && c in m.categories)
    ensures forall c :: c in result ==> result[c] != {}
    ensures forall m :: (exists c :: c in result && m in result[c]) <==>
      m in movies && m.releaseYear == year && m.categories != {}
  {
    var filtered := ReleasedIn(movies, year);
    forall c | c in result
      ensures result[c] != {}
    {
      var m :| m in filtered && c in m.categories;
      assert m in result[c];
    }
    forall m | m in movies && m.releaseYear == year && m.categories != {}
      ensures exists c :: c in result && m in result[c]
    {
      var c :| c in m.categories;
      assert m in result[c];
    }
  }

  /**
   * The contract of query 4 leaves no freedom: whichever order the categories
   * are visited in, two results meeting it are the same map.
   */
  lemma GroupingDetermined(movies: seq<Movie>, year: int, r1: map<string, set<Movie>>, r2: map<string, set<Movie>>)
    requires forall c :: c in r1 <==> exists m :: m in movies && m.releaseYear == year && c in m.categories
    requires forall c, m :: c in r1 ==> (m in r1[c] <==> m in movies && m.releaseYear == year && c in m.categories)
    requires forall c :: c in r2 <==> exists m :: m in movies && m.releaseYear == year && c in m.categories
    requires forall c, m :: c in r2 ==> (m in r2[c] <==> m in movies && m.releaseYear == year && c in m.categories)
    ensures r1 == r2
  {
    assert r1.Keys == r2.Keys;
    forall c | c in r1
      ensures r1[c] == r2[c]
    {
      assert c in r2;
      forall m
        ensures m in r1[c] <==> m in r2[c]
      {
        assert m in r1[c] <==> m in movies && m.releaseYear == year && c in m.categories;
        assert m in r2[c] <==> m in movies && m.releaseYear == year && c in m.categories;
      }
    }
  }

  // ---------------------------------------------------------------------------
  // Totality on an empty collection

  lemma EmptyCollection(director: string)
    ensures ActorsThatInterpretThemselves([]) == {}
    ensures ActorsThatActedInMoviesOfDirectorInAlphabeticOrder([], director) == []
    ensures MoviesWithAtLeastOneDirectorActedMostRecentFirst([]) == []
  {
  }
}
