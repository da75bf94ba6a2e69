/**
 * Worked examples of the four queries on small collections, derived from the
 * general contracts in module Queries.
 */
module Scenarios {

  import opened Movies
  import opened StringOrder
  import opened Queries

  /** A character played by someone else does not count; one played by its namesake does. */
  lemma SelfPortrayalExample()
    ensures
      var up := Movie("Up", 2009, {"Bob Peterson"}, {"Pete Docter"}, {"Animation"},
                      map["Dug" := {"Bob Peterson"}]);
      var cameo := Movie("Cameo", 2012, {"Stan Lee"}, {"Joss Whedon"}, {"Action"},
                         map["Stan Lee" := {"Stan Lee"}]);
      var r := ActorsThatInterpretThemselves([up, cameo]);
      "Dug" !in r && "Stan Lee" in r
  {
    var up := Movie("Up", 2009, {"Bob Peterson"}, {"Pete Docter"}, {"Animation"},
                    map["Dug" := {"Bob Peterson"}]);
    var cameo := Movie("Cameo", 2012, {"Stan Lee"}, {"Joss Whedon"}, {"Action"},
                       map["Stan Lee" := {"Stan Lee"}]);
    assert cameo in [up, cameo];
  }

  /** The actors of both of a director's movies, merged and sorted. */
  lemma ActorsOfDirectorExample()
    ensures
      var barbie := Movie("Barbie", 2023, {"Margot Robbie", "Ryan Gosling"}, {"Greta Gerwig"}, {"Comedy"}, map[]);
      var ladyBird := Movie("Lady Bird", 2017, {"Saoirse Ronan"}, {"Greta Gerwig"}, {"Drama"}, map[]);
      ActorsThatActedInMoviesOfDirectorInAlphabeticOrder([barbie, ladyBird], "Greta Gerwig")
        == ["Margot Robbie", "Ryan Gosling", "Saoirse Ronan"]
  {
    var barbie := Movie("Barbie", 2023, {"Margot Robbie", "Ryan Gosling"}, {"Greta Gerwig"}, {"Comedy"}, map[]);
    var ladyBird := Movie("Lady Bird", 2017, {"Saoirse Ronan"}, {"Greta Gerwig"}, {"Drama"}, map[]);
    var movies := [barbie, ladyBird];
    var expected := ["Margot Robbie", "Ryan Gosling", "Saoirse Ronan"];
    assert Less(expected[0], expected[1]) && Less(expected[1], expected[2]);
    LessTransitive(expected[0], expected[1], expected[2]);
    assert StrictlyAscending(expected);
    forall a
      ensures a in expected <==> exists m :: m in movies && "Greta Gerwig" in m.directors && a in m.actors
    {
      assert barbie in movies && ladyBird in movies;
    }
    ActorsOfDirectorDetermined(movies, "Greta Gerwig", expected);
  }

  /** A director credited as an actor qualifies; disjoint credits do not. */
  lemma DirectorActedExample()
    ensures
      var braveheart := Movie("Braveheart", 1995, {"Mel Gibson", "Sophie Marceau"}, {"Mel Gibson"}, {"Drama"}, map[]);
      var jaws := Movie("Jaws", 1975, {"Roy Scheider"}, {"Steven Spielberg"}, {"Thriller"}, map[]);
      var r := MoviesWithAtLeastOneDirectorActedMostRecentFirst([braveheart, jaws, braveheart]);
      braveheart in r && jaws !in r && multiset(r)[braveheart] == 1
  {
    var braveheart := Movie("Braveheart", 1995, {"Mel Gibson", "Sophie Marceau"}, {"Mel Gibson"}, {"Drama"}, map[]);
    var jaws := Movie("Jaws", 1975, {"Roy Scheider"}, {"Steven Spielberg"}, {"Thriller"}, map[]);
    var r := MoviesWithAtLeastOneDirectorActedMostRecentFirst([braveheart, jaws, braveheart]);
    assert DirectorActed(braveheart) by {
      assert "Mel Gibson" in braveheart.actors && "Mel Gibson" in braveheart.directors;
    }
    assert multiset(r)[braveheart] == 1;
  }

  const First2020 := Movie("First", 2020, {}, {}, {"Drama"}, map[])
  const Second2020 := Movie("Second", 2020, {}, {}, {"Drama", "Comedy"}, map[])
  const Older2019 := Movie("Older", 2019, {}, {}, {"Horror"}, map[])

  /** Two movies of 2020: both are dramas, only the second is also a comedy. */
  method GroupedByCategoryExample() returns (r: map<string, set<Movie>>)
    ensures r.Keys == {"Drama", "Comedy"}
    ensures r["Drama"] == {First2020, Second2020}
    ensures r["Comedy"] == {Second2020}
  {
    var movies := [First2020, Second2020, Older2019];
    r := MoviesReleasedInYearGroupedByCategory(movies, 2020);
    assert forall m :: m in movies <==> m == First2020 || m == Second2020 || m == Older2019;
    assert "Drama" in r && "Comedy" in r;
    forall c | c in r
      ensures c == "Drama" || c == "Comedy"
    {
      var m :| m in movies && m.releaseYear == 2020 && c in m.categories;
    }
    forall m
      ensures m in r["Drama"] <==> m == First2020 || m == Second2020
      ensures m in r["Comedy"] <==> m == Second2020
    {
      assert m in r["Drama"] <==> m in movies && m.releaseYear == 2020 && "Drama" in m.categories;
      assert m in r["Comedy"] <==> m in movies && m.releaseYear == 2020 && "Comedy" in m.categories;
    }
  }
}
