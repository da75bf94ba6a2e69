/**
 * The movie record that the query layer reads. The record type itself lives
 * outside the query layer; here it is an immutable value whose equality is
 * structural, which is what the queries rely on when they remove duplicates.
 */
module Movies {

  /** One film: its title, release year, credits, genres and cast. */
  datatype Movie = Movie(
    title: string,
    releaseYear: int,
    actors: set<string>,
    directors: set<string>,
    categories: set<string>,
    /** character name |-> names of the actors credited for that character */
    actorsByCharacter: map<string, set<string>>)
}
