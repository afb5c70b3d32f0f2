/**
  The creator dashboard (app/dashboard/dashboard-client.tsx): the split of
  the courses into published ones and drafts, the name in the greeting, the
  three counters, the empty state and the per-course card labels.
*/
module Dashboard {
  import opened Options
  import opened Catalog

  /** `courses.filter(keep)`. */
  function Filter(courses: seq<Course>, keep: Course -> bool): (kept: seq<Course>)
    ensures |kept| <= |courses|
    ensures forall c :: c in kept ==> c in courses && keep(c)
    ensures forall c :: c in courses && keep(c) ==> c in kept
  {
    if courses == [] then []
    else (if keep(courses[0]) then [courses[0]] else []) + Filter(courses[1..], keep)
  }

  function PublishedCourses(courses: seq<Course>): seq<Course> {
    Filter(courses, (c: Course) => c.published)
  }

  function DraftCourses(courses: seq<Course>): seq<Course> {
    Filter(courses, (c: Course) => !c.published)
  }

  /** Filtering keeps the input order: it distributes over concatenation. */
  lemma {:induction false} FilterAppend(a: seq<Course>, b: seq<Course>, keep: Course -> bool)
    ensures Filter(a + b, keep) == Filter(a, keep) + Filter(b, keep)
  {
    if a != [] {
      assert (a + b)[0] == a[0];
      assert (a + b)[1..] == a[1..] + b;
      FilterAppend(a[1..], b, keep);
    } else {
      assert a + b == b;
    }
  }

  /** Published and draft courses split the list: every course lands in exactly one of them. */
  lemma {:induction false} PartitionComplete(courses: seq<Course>)
    ensures |PublishedCourses(courses)| + |DraftCourses(courses)| == |courses|
    ensures multiset(PublishedCourses(courses)) + multiset(DraftCourses(courses)) == multiset(courses)
  {
    if courses != [] {
      PartitionComplete(courses[1..]);
      assert courses == [courses[0]] + courses[1..];
    }
  }

  /** No course is both published and a draft. */
  lemma PartitionDisjoint(courses: seq<Course>)
    ensures forall c :: !(c in PublishedCourses(courses) && c in DraftCourses(courses))
    ensures forall c :: c in PublishedCourses(courses) ==> c.published
    ensures forall c :: c in DraftCourses(courses) ==> !c.published
  {
  }

  /** `name.split(" ")[0]`: the text before the first space. */
  function FirstPiece(name: string): (piece: string)
    ensures piece <= name && ' ' !in piece
    ensures |piece| < |name| ==> name[|piece|] == ' '
  {
    if name == [] || name[0] == ' ' then [] else [name[0]] + FirstPiece(name[1..])
  }

  datatype SessionUser = SessionUser(name: Option<string>, image: Option<string>)

  /** `session.user?.name?.split(" ")[0] || "Creator"`. */
  function GreetingName(user: Option<SessionUser>): (greeting: string)
    ensures greeting != "" && ' ' !in greeting
    ensures user.None? || user.value.name.None? || user.value.name.value == "" || user.value.name.value[0] == ' ' ==>
              greeting == "Creator"
    ensures user.Some? && user.value.name.Some? && user.value.name.value != "" && user.value.name.value[0] != ' ' ==>
              greeting <= user.value.name.value &&
              (|greeting| == |user.value.name.value| || user.value.name.value[|greeting|] == ' ')
  {
    var piece := match user
      case None => ""
      case Some(u) => (match u.name case None => "" case Some(n) => FirstPiece(n));
    if piece != "" then piece else "Creator"
  }

  datatype CourseCard = CourseCard(href: string, draftBadge: bool, lessonText: string)

  datatype View = View(
    greetingName: string,
    totalCount: nat,
    publishedCount: nat,
    draftCount: nat,
    emptyState: bool,
    cards: seq<CourseCard>)

  /** What the dashboard renders for a list of courses and the signed-in user. */
  function DashboardView(courses: seq<Course>, user: Option<SessionUser>): (v: View)
    ensures v.greetingName == GreetingName(user)
    ensures v.totalCount == |courses|
    ensures v.publishedCount == |PublishedCourses(courses)| && v.draftCount == |DraftCourses(courses)|
    ensures v.totalCount == v.publishedCount + v.draftCount
    ensures v.emptyState <==> courses == []
    ensures |v.cards| == |courses|
    ensures forall i :: 0 <= i < |courses| ==>
              (v.cards[i].draftBadge <==> !courses[i].published) &&
              v.cards[i].href == "/courses/" + courses[i].slug &&
              (v.cards[i].lessonText == LessonCountText(|courses[i].lessons|))
  {
    PartitionComplete(courses);
    View(
      GreetingName(user),
      |courses|,
      |PublishedCourses(courses)|,
      |DraftCourses(courses)|,
      |courses| == 0,
      seq(|courses|, i requires 0 <= i < |courses| =>
        CourseCard("/courses/" + courses[i].slug, !courses[i].published, LessonCountText(|courses[i].lessons|))))
  }
}
