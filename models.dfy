/** The records the resolvers exchange: the stored Movie and its embedded Rating list, the
    identity carried by a token, the stored User, and the inputs of the mutations. */
module Models {
  import opened Wrappers

  /** One user's score for a movie, embedded in the movie document. */
  datatype Rating = Rating(username: string, score: int, createdAt: string)

  /** A stored movie document. `user` is the owner's id and `username` the owner's name,
      both copied from the creator; `ratingCount` and `avg` are stored beside the ratings. */
  datatype Movie = Movie(
    id: string,
    title: string,
    runtime: int,
    releaseDate: string,
    actors: seq<string>,
    createdAt: string,
    ratings: seq<Rating>,
    ratingCount: int,
    avg: real,
    username: string,
    user: string)

  /** The identity claims of a token, and the answer of currentUser. */
  datatype UserInfo = UserInfo(id: string, username: string, email: string)

  /** A stored user; `password` holds what was stored at registration (the hash). */
  datatype User = User(id: string, username: string, email: string, password: string)

  /** The addMovie input. The validator reads `duration`, which the declared input type does
      not have and the schema does not send: it is present only when a caller supplies it. */
  datatype AddMovieInput = AddMovieInput(
    title: string,
    runtime: int,
    releaseDate: string,
    actors: seq<string>,
    duration: Option<int>)

  datatype RegisterInput = RegisterInput(username: string, email: string, password: string, confirmPassword: string)

  datatype LoginInput = LoginInput(username: string, password: string)
}
