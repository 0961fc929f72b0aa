/**
 * The decisions `createRatingBadge` takes when it renders a reply: the
 * colour and emoji bucket of the score, which numbers are shown, the
 * singular or plural noun, the tooltip and the profile link. The markup
 * itself and the number formatting are not modelled.
 */
module Badges {
  import opened Wrappers
  import opened Messages

  /** The three score buckets. */
  datatype Mood = Angry | Neutral | Happy
  {
    /** The CSS colour the score is written in. */
    function Colour(): string {
      match this
      case Angry => "#f44336"
      case Neutral => "#ff9800"
      case Happy => "#4CAF50"
    }

    /** The emoji written after the score. */
    function Emoji(): string {
      match this
      case Angry => "\U{1F621}"
      case Neutral => "\U{1F610}"
      case Happy => "\U{1F604}"
    }

    /** Position of the bucket from worst to best. */
    function Rank(): nat {
      match this
      case Angry => 0
      case Neutral => 1
      case Happy => 2
    }
  }

  /** What a rendered badge shows. `Rated` is a successful lookup, clickable
      towards the professor's page; `NotOnRmp` is every other reply. */
  datatype Badge =
    | Rated(
        mood: Mood,
        score: Option<real>,
        count: int,
        noun: string,
        wouldTakeAgain: Option<real>,
        difficulty: Option<real>,
        title: string,
        profileId: int)
    | NotOnRmp(title: string)

  const NotFoundTitle := "Professor not found on RateMyProfessor"

  /** The bucket of a score: below 3 angry, below 4 neutral, otherwise
      happy. */
  function MoodOf(rating: real): (m: Mood)
    ensures m == Angry <==> rating < 3.0
    ensures m == Neutral <==> 3.0 <= rating < 4.0
    ensures m == Happy <==> 4.0 <= rating
  {
    if rating < 3.0 then Angry
    else if rating < 4.0 then Neutral
    else Happy
  }

  /** A better score never lands in a worse bucket. */
  lemma MoodMonotone(r1: real, r2: real)
    requires r1 <= r2
    ensures MoodOf(r1).Rank() <= MoodOf(r2).Rank()
  {
  }

  /** The noun after the count: singular exactly for one rating. */
  function RatingNoun(numRatings: int): (w: string)
    ensures w == "rating" <==> numRatings == 1
    ensures w == "rating" || w == "ratings"
  {
    "rating" + (if numRatings != 1 then "s" else "")
  }

  /** A number that the badge prints only when it is non-zero (JavaScript
      treats 0 as false). */
  function IfNonZero(x: real): (r: Option<real>)
    ensures r.None? <==> x == 0.0
    ensures r.Some? ==> r.value == x
  {
    if x != 0.0 then Some(x) else None
  }

  /** `createRatingBadge(professorName, ratingData)`. */
  function CreateRatingBadge(professorName: string, reply: Response): (b: Badge)
    ensures b.Rated? <==> reply.Success()
    ensures !reply.Success() ==> b == NotOnRmp(NotFoundTitle)
    ensures b.Rated? ==>
      && b.mood == MoodOf(reply.data.rating)
      && (b.score.None? <==> reply.data.rating == 0.0)
      && b.score == IfNonZero(reply.data.rating)
      && b.wouldTakeAgain == IfNonZero(reply.data.wouldTakeAgain)
      && b.difficulty == IfNonZero(reply.data.difficulty)
      && b.noun == RatingNoun(reply.data.numRatings)
      && b.count == reply.data.numRatings
      && b.profileId == reply.data.id
      && b.title == "Click to view " + professorName + " on RateMyProfessor"
  {
    match reply
    case Found(d) =>
      Rated(
        MoodOf(d.rating),
        IfNonZero(d.rating),
        d.numRatings,
        RatingNoun(d.numRatings),
        IfNonZero(d.wouldTakeAgain),
        IfNonZero(d.difficulty),
        "Click to view " + professorName + " on RateMyProfessor",
        d.id)
    case _ => NotOnRmp(NotFoundTitle)
  }

  /** A failure reply renders the same badge whichever key, `error` or
      `message`, carries its text. */
  lemma FailuresRenderAlike(name: string, e: string, m: string)
    ensures CreateRatingBadge(name, Failed(e)) == CreateRatingBadge(name, NotFound(m))
  {
  }
}
