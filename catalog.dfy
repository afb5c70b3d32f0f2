/**
  The course records the course pages and the dashboard render, reduced to
  the fields their logic reads, and the lesson-count label both of them show.
*/
module Catalog {
  import opened Options
  import Decimal

  /** A video's processing status and its length in whole seconds, when known. */
  datatype Video = Video(status: string, duration: Option<nat>)

  datatype Lesson = Lesson(id: int, name: string, video: Option<Video>)

  datatype Course = Course(
    id: int,
    name: string,
    description: string,
    slug: string,
    published: bool,
    lessons: seq<Lesson>)

  /** `n === 1 ? "lesson" : "lessons"`. */
  function LessonLabel(n: nat): (word: string)
    ensures word == "lesson" <==> n == 1
    ensures word == "lesson" || word == "lessons"
  {
    if n == 1 then "lesson" else "lessons"
  }

  /** The count, a space and the label, as rendered on course cards. */
  function LessonCountText(n: nat): string {
    Decimal.Show(n) + " " + LessonLabel(n)
  }
}
