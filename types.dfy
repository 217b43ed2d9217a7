/** Shared vocabulary of the relationship engine: user identifiers, timestamps,
    nullable values and the typed failures the engine reports. */
module Types {

  /** Users are referenced only by their identifier. */
  type UserId = nat

  /** A point in time; the engine never inspects it, it only stores it. */
  type Time = int

  /** A nullable value (a `null=True` column). */
  datatype Option<+T> = None | Some(value: T)

  /** The failures the engine raises instead of changing the store. */
  datatype Error =
    | SelfRelation        // the two users of an operation are the same (ValidationError)
    | AlreadyFriends      // a Friend row already exists (IntegrityError)
    | DuplicateRequest    // a request for the ordered pair already exists (IntegrityError)
    | DuplicateFollow     // the follow edge already exists (IntegrityError)
    | OnlyPictureAllowed  // a profile image is not a picture post (ValidationError)

  /** The outcome of an operation that either returns a value or raises. */
  datatype Result<+T> = Ok(value: T) | Err(error: Error)
}
