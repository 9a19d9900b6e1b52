/**
 * The fetched records the measurements read: a GitHub user, an issue or pull
 * request with its comments, a pull request review, and a discussion. Only the
 * fields the measurements look at are kept. Timestamps are already parsed
 * instants (see BusinessHours).
 */
module Records {
  import opened Optional
  import opened BusinessHours

  /** A GitHub account: its login and its account type ("User", "Bot", ...). */
  datatype User = User(login: string, kind: string)

  /** A timestamp, or the placeholder of a comment or review still pending. */
  datatype Stamp = At(instant: Instant) | Pending

  /** An issue comment. */
  datatype Comment = Comment(user: User, createdAt: Stamp)

  /**
   * A pull request review, or an entry the client library cannot turn into a
   * review (a review by a deleted "ghost" account), whose construction raises
   * `TypeError` while the reviews are iterated.
   */
  datatype Review = Review(user: User, submittedAt: Stamp) | MalformedReview

  /**
   * An issue or pull request as the search returns it: its author, its state
   * ("open" or "closed"), when it was created and closed, and its comments in
   * ascending creation order.
   */
  datatype Issue = Issue(user: User, state: string, createdAt: Instant, closedAt: Option<Instant>,
                         comments: seq<Comment>)

  /**
   * A discussion: when it was created, closed and answered (`None` for a null
   * field), and the creation times of its replies in order.
   */
  datatype Discussion = Discussion(createdAt: Option<Instant>, closedAt: Option<Instant>,
                                   answerChosenAt: Option<Instant>, replies: seq<Instant>)
}
