/**
 * The shapes exchanged between the page script and the background worker:
 * the lookup request and the one-shot reply.
 */
module Messages {

  /** The action name of a rating lookup. */
  const GetProfessorRating := "getProfessorRating"

  /** `{ action, professorName }`. */
  datatype Request = Request(action: string, professorName: string)

  /** The `data` object of a successful reply. Numbers of the review site are
      reals, its ids integers. */
  datatype ProfessorData = ProfessorData(
    name: string,
    rating: real,
    difficulty: real,
    numRatings: int,
    wouldTakeAgain: real,
    department: string,
    id: int)

  /** The three reply objects the worker builds:
      `{ success: true, data }`, `{ success: false, error }` and
      `{ success: false, message }`. */
  datatype Response =
    | Found(data: ProfessorData)
    | Failed(error: string)
    | NotFound(message: string)
  {
    /** The `success` field. */
    predicate Success() { Found? }
  }
}
