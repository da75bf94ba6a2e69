# Movie queries — a Dafny model

This project models the query layer of a small movie catalogue: the class
`Queries`, which wraps a collection of movie records and answers four
read-only questions about it:

1. which names play themselves (a character of a movie's cast map whose actor
   set contains the character's own name);
2. which actors worked in the movies of a given director, each once, in
   alphabetic order;
3. which movies have a director who also acted in them, each once, most recent
   release year first;
4. the movies of one release year, grouped by category.

A movie is the immutable datatype `Movies.Movie` (title, release year, actor,
director and category sets, and the cast map from character to actor set);
its equality is structural. The `Queries` object holds nothing but the
collection it was given, so the collection is modelled as a `seq<Movie>` that
every query takes as its first parameter: a sequence can hold repeated movies
and fixes an encounter order. Because Dafny sequences are values, the
collection is stored unchanged and no query can alter it.

Files:

- `movie.dfy` — module `Movies`: the movie record.
- `sequences.dfy` — module `Sequences`: walking a set's elements in an
  unspecified order (`Enumerate`) and keeping the first occurrence of every
  element (`Distinct`), the model of a stream's `distinct()`, which also keeps the input order
  (`DistinctOrdered`).
- `string_order.dfy` — module `StringOrder`: lexicographic order on strings
  (`Less`) proved to be a strict total order, an insertion sort by it, and the
  fact that a strictly ascending list is determined by its elements.
- `queries.dfy` — module `Queries`: the four queries and their properties.
- `scenarios.dfy` — module `Scenarios`: small worked examples derived from the
  general contracts.

Queries 1 to 3 are stream pipelines in the source and are functions here,
built the way the pipelines are (filter, flat-map, distinct, sort); their
`ensures` state the meaning of the result as a comprehension over the input.
Query 2 walks each actor set in some order (`Enumerate`), so it is a ghost
function; `ActorsOfDirectorDetermined` proves that the order does not show in
the result. Query 4 builds its map in a loop in the source and is a method
with a loop here, visiting the year's categories in an unspecified order;
`GroupingDetermined` proves that its contract fixes the result whatever that
order is, so two calls give the same map.

Query 3 follows the code, which sorts by year and removes duplicates after
sorting; removing duplicates before sorting would give the same guarantees. The
model proves those guarantees: each qualifying movie exactly once, in
non-increasing release year.

## Model

| member | source | states |
|---|---|---|
| `Queries.ActorsThatInterpretThemselves` | src/main/java/com/betrybe/consultafilmes/Queries.java:32-38 | a name is in the result exactly when one movie has a cast entry keyed by that name whose actor set holds that same name; entries of different movies or characters are never combined |
| `Queries.ActorStream` | src/main/java/com/betrybe/consultafilmes/Queries.java:50-52 | the flat-mapped stream holds exactly the actors of the movies that list the director |
| `Queries.ActorsThatActedInMoviesOfDirectorInAlphabeticOrder` | src/main/java/com/betrybe/consultafilmes/Queries.java:49-54 | the result is strictly ascending (sorted and free of repeats), and a name is in it exactly when it is an actor of some movie that lists the director |
| `Queries.UnknownDirectorHasNoActors` | src/main/java/com/betrybe/consultafilmes/Queries.java:49-53 | a director listed by no movie (the empty name included) yields the empty list, without failing |
| `Queries.ActorsOfDirectorDetermined` | src/main/java/com/betrybe/consultafilmes/Queries.java:52-53 | any strictly ascending list of exactly those actors equals the result, so the iteration order of the actor sets is unobservable |
| `Sequences.Enumerate` | src/main/java/com/betrybe/consultafilmes/Queries.java:52 | streaming a set yields each of its elements, as many as the set has |
| `Sequences.Distinct` | src/main/java/com/betrybe/consultafilmes/Queries.java:52 | `distinct()` keeps every element of its input exactly once and adds nothing |
| `Sequences.DistinctOrdered` | src/main/java/com/betrybe/consultafilmes/Queries.java:67 | `distinct()` on an ordered stream keeps the retained elements in their input order |
| `StringOrder.LessIrreflexive` | src/main/java/com/betrybe/consultafilmes/Queries.java:52 | no string sorts before itself |
| `StringOrder.LessAsymmetric` | src/main/java/com/betrybe/consultafilmes/Queries.java:52 | two strings are never each before the other |
| `StringOrder.LessTransitive` | src/main/java/com/betrybe/consultafilmes/Queries.java:52 | the string order is transitive |
| `StringOrder.LessTotal` | src/main/java/com/betrybe/consultafilmes/Queries.java:52 | any two different strings are ordered one way or the other |
| `StringOrder.AtMostTransitive` | src/main/java/com/betrybe/consultafilmes/Queries.java:52 | "not after" is transitive |
| `StringOrder.Insert` | src/main/java/com/betrybe/consultafilmes/Queries.java:52 | inserting adds exactly the one element to the multiset |
| `StringOrder.InsertAscending` | src/main/java/com/betrybe/consultafilmes/Queries.java:52 | inserting into an ascending list keeps it ascending |
| `StringOrder.Sort` | src/main/java/com/betrybe/consultafilmes/Queries.java:52 | `sorted()` on strings gives an ascending permutation of its input |
| `StringOrder.SortDistinctElements` | src/main/java/com/betrybe/consultafilmes/Queries.java:52 | `distinct().sorted()` holds each input element exactly once and nothing else |
| `StringOrder.StrictFromAscending` | src/main/java/com/betrybe/consultafilmes/Queries.java:52 | an ascending list without repeats is strictly ascending |
| `StringOrder.StrictlyAscendingUnique` | src/main/java/com/betrybe/consultafilmes/Queries.java:52 | two strictly ascending lists with the same elements are equal |
| `Queries.FilterDirectorActed` | src/main/java/com/betrybe/consultafilmes/Queries.java:66 | the filter keeps every movie in which some actor is also a director, as often as it occurs, and drops all others |
| `Queries.InsertByYear` | src/main/java/com/betrybe/consultafilmes/Queries.java:67 | inserting adds exactly the one movie to the multiset |
| `Queries.InsertByYearDescending` | src/main/java/com/betrybe/consultafilmes/Queries.java:67 | inserting into a list ordered newest first keeps it so ordered |
| `Queries.SortByYearDescending` | src/main/java/com/betrybe/consultafilmes/Queries.java:67 | sorting by release year reversed gives a permutation whose years never increase |
| `Queries.DistinctKeepsYearDescending` | src/main/java/com/betrybe/consultafilmes/Queries.java:67 | removing repeats after the sort keeps the newest-first order |
| `Queries.MoviesWithAtLeastOneDirectorActedMostRecentFirst` | src/main/java/com/betrybe/consultafilmes/Queries.java:64-69 | release years never increase along the result; every movie in it has a director among its actors; every such movie of the collection occurs exactly once and no other movie occurs |
| `Queries.ReleasedIn` | src/main/java/com/betrybe/consultafilmes/Queries.java:79-81 | the year filter keeps exactly the movies released in that year |
| `Queries.CategoriesOf` | src/main/java/com/betrybe/consultafilmes/Queries.java:83-85 | the flat-mapped categories are exactly those some of the given movies carry |
| `Queries.MoviesReleasedInYearGroupedByCategory` | src/main/java/com/betrybe/consultafilmes/Queries.java:78-97 | the keys are exactly the categories of the year's movies; each key maps to exactly the year's movies of that category, never to an empty set; the union of the values is exactly the year's movies that have a category |
| `Queries.GroupingProperties` | src/main/java/com/betrybe/consultafilmes/Queries.java:87-96 | the map the loop builds, keyed by the distinct categories and holding the filtered movies of each, has the properties of query 4 |
| `Queries.GroupingDetermined` | src/main/java/com/betrybe/consultafilmes/Queries.java:89-94 | the contract of query 4 determines the map, whatever order the categories are visited in |
| `Queries.EmptyCollection` | src/main/java/com/betrybe/consultafilmes/Queries.java:20-69 | on an empty collection queries 1 to 3 give an empty set or list without failing (query 4's contract gives the empty map) |
| `Scenarios.SelfPortrayalExample` | src/main/java/com/betrybe/consultafilmes/Queries.java:32-38 | "Dug" voiced by someone else is not a self-portrayal; "Stan Lee" played by Stan Lee is |
| `Scenarios.ActorsOfDirectorExample` | src/main/java/com/betrybe/consultafilmes/Queries.java:49-54 | the actors of two movies by one director come back merged and in alphabetic order |
| `Scenarios.GroupedByCategoryExample` | src/main/java/com/betrybe/consultafilmes/Queries.java:78-97 | two 2020 dramas, one also a comedy, group as Drama to both and Comedy to the second; the category of a 2019 movie is absent |
| `Scenarios.DirectorActedExample` | src/main/java/com/betrybe/consultafilmes/Queries.java:64-69 | a movie whose director acted appears once even when the collection holds it twice; one with disjoint credits does not appear |

## Left out

- Constructor `Queries(Collection<Movie>)` (Queries.java:20-22): it only stores the reference, so the model passes the collection to each query instead of wrapping it in an object; a null collection is not modelled.
- The `Movie` class and its getters are not part of this model; the record is the datatype `Movies.Movie`.
- Iteration order of hash sets and hash maps and the concrete containers chosen by `Collectors.toSet()` and `HashMap`: sets and maps are Dafny `set` and `map`, and each place that walks a set does so in an unspecified order.
- `StringOrder.Less`: compares Dafny characters (Unicode scalar values), not UTF-16 code units as `String.compareTo` does, so strings with characters outside the Basic Multilingual Plane may order differently.
- `Queries.MoviesWithAtLeastOneDirectorActedMostRecentFirst`: the relative order of movies with the same release year is not stated. The sort in the model is stable, but the source collection promises no encounter order, and which of two equal duplicates survives `distinct()` cannot be observed.
- Release years are Java `int`s that are only compared, never computed with, so unbounded integers model them exactly.
- Concurrency: the source has none.
