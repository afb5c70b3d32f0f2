/**
  The public course list (pages/courses/index.tsx): the duration text of a
  course card, the total duration of a course's lessons, and the conditions
  under which a card shows its duration badge, its lesson label and its
  "Coming Soon" badge.
*/
module CoursesPage {
  import opened Options
  import opened Decimal
  import opened Catalog

  /** Hours and leftover minutes of a duration in seconds, rounded down. */
  function DurationParts(seconds: nat): (hm: (nat, nat))
    ensures hm.1 < 60
    ensures hm.0 * 3600 + hm.1 * 60 <= seconds < hm.0 * 3600 + hm.1 * 60 + 60
  {
    var h := seconds / 3600;
    var r := seconds % 3600;
    var m := r / 60;
    assert seconds == h * 3600 + r;
    assert r == m * 60 + r % 60;
    (h, m)
  }

  /** `formatDuration`: "<h>h <m>m" when there is at least an hour, otherwise "<m> min". */
  function FormatDuration(seconds: nat): string {
    var (h, m) := DurationParts(seconds);
    if h > 0 then Show(h) + "h " + Show(m) + "m" else Show(m) + " min"
  }

  /** Reads the hours and minutes back out of a duration text. */
  function ParseDuration(t: string): Option<(nat, nat)> {
    if |t| > 4 && t[|t| - 4..] == " min" && AllDigits(t[..|t| - 4]) then
      Some((0, Parse(t[..|t| - 4])))
    else if |t| > 0 && t[|t| - 1] == 'm' then
      var body := t[..|t| - 1];
      var k := DigitRun(body);
      if 0 < k && k + 2 < |body| && body[k..k + 2] == "h " && AllDigits(body[k + 2..]) then
        Some((Parse(body[..k]), Parse(body[k + 2..])))
      else
        None
    else
      None
  }

  /** The duration text loses nothing: hours and minutes can be read back from it. */
  lemma FormatDurationParses(seconds: nat)
    ensures ParseDuration(FormatDuration(seconds)) == Some(DurationParts(seconds))
  {
    var (h, m) := DurationParts(seconds);
    var t := FormatDuration(seconds);
    ParseShow(h);
    ParseShow(m);
    if h > 0 {
      assert t == Show(h) + "h " + Show(m) + "m";
      assert t[|t| - 1] == 'm' && t[|t| - 4..][3] == 'm';
      var body := t[..|t| - 1];
      assert body == Show(h) + ("h " + Show(m));
      DigitRunOfDigits(Show(h), "h " + Show(m));
      var k := |Show(h)|;
      assert body[..k] == Show(h);
      assert body[k..k + 2] == "h ";
      assert body[k + 2..] == Show(m);
    } else {
      assert t[..|t| - 4] == Show(m);
      assert t[|t| - 4..] == " min";
    }
  }

  /** Two durations format alike exactly when they have the same hours and minutes. */
  lemma FormatDurationInjective(s1: nat, s2: nat)
    ensures FormatDuration(s1) == FormatDuration(s2) <==> DurationParts(s1) == DurationParts(s2)
  {
    FormatDurationParses(s1);
    FormatDurationParses(s2);
  }

  /** The hour form is used exactly from one hour on; anything under a minute is "0 min". */
  lemma FormatDurationShape(seconds: nat)
    ensures DurationParts(seconds).0 > 0 <==> seconds >= 3600
    ensures 'h' in FormatDuration(seconds) <==> seconds >= 3600
    ensures seconds < 60 ==> FormatDuration(seconds) == "0 min"
  {
    var (h, m) := DurationParts(seconds);
    var t := FormatDuration(seconds);
    if h > 0 {
      assert t[|Show(h)|] == 'h';
    } else {
      assert t == Show(m) + " min";
      forall i | 0 <= i < |t|
        ensures t[i] != 'h'
      {
        if i < |Show(m)| {
          assert IsDigit(Show(m)[i]);
        }
      }
    }
    if seconds < 60 {
      assert h == 0 && m == 0;
      assert Show(0) == "0";
    }
  }

  /** Lessons of 100 s, without a video, and of 200 s make a 300 s course. */
  lemma TotalDurationExample()
    ensures TotalDuration([
              Lesson(1, "Intro", Some(Video("ready", Some(100)))),
              Lesson(2, "Reading", None),
              Lesson(3, "Practice", Some(Video("ready", Some(200))))]) == 300
  {
    var a := Lesson(1, "Intro", Some(Video("ready", Some(100))));
    var b := Lesson(2, "Reading", None);
    var c := Lesson(3, "Practice", Some(Video("ready", Some(200))));
    assert [a, b, c][..2] == [a, b];
    assert [a, b][..1] == [a];
    TotalDurationSingle(a);
  }

  /** `lesson.video?.duration || 0`: a lesson adds its video's duration, or 0 without a video or a duration. */
  function Contribution(lesson: Lesson): (d: nat)
    ensures lesson.video.None? ==> d == 0
    ensures lesson.video.Some? && lesson.video.value.duration.None? ==> d == 0
    ensures lesson.video.Some? && lesson.video.value.duration.Some? ==> d == lesson.video.value.duration.value
    ensures d > 0 ==> lesson.video.Some? && lesson.video.value.duration == Some(d)
  {
    match lesson.video
    case None => 0
    case Some(v) =>
      match v.duration
      case None => 0
      case Some(d) => if d != 0 then d else 0
  }

  /** `getTotalDuration`: `reduce` from the left, starting at 0. */
  function TotalDuration(lessons: seq<Lesson>): nat {
    if lessons == [] then 0
    else TotalDuration(lessons[..|lessons| - 1]) + Contribution(lessons[|lessons| - 1])
  }

  /** The total is 0 exactly when no lesson contributes; in particular for no lessons at all. */
  lemma {:induction false} TotalDurationZeroIff(lessons: seq<Lesson>)
    ensures TotalDuration([]) == 0
    ensures TotalDuration(lessons) == 0 <==> forall i :: 0 <= i < |lessons| ==> Contribution(lessons[i]) == 0
  {
    if lessons != [] {
      var init := lessons[..|lessons| - 1];
      TotalDurationZeroIff(init);
      assert forall i :: 0 <= i < |init| ==> init[i] == lessons[i];
    }
  }

  /** The total is additive over concatenation. */
  lemma {:induction false} TotalDurationAppend(a: seq<Lesson>, b: seq<Lesson>)
    ensures TotalDuration(a + b) == TotalDuration(a) + TotalDuration(b)
    decreases |b|
  {
    if b == [] {
      assert a + b == a;
    } else {
      var b' := b[..|b| - 1];
      assert (a + b)[..|a + b| - 1] == a + b';
      TotalDurationAppend(a, b');
    }
  }

  lemma TotalDurationSingle(x: Lesson)
    ensures TotalDuration([x]) == Contribution(x)
  {
    assert [x][..0] == [];
  }

  /** Splitting the lessons after position i splits the total. */
  lemma TotalDurationSplit(s: seq<Lesson>, i: nat)
    requires i < |s|
    ensures TotalDuration(s) == TotalDuration(s[..i]) + Contribution(s[i]) + TotalDuration(s[i + 1..])
  {
    var front := s[..i + 1];
    assert s == front + s[i + 1..];
    TotalDurationAppend(front, s[i + 1..]);
    assert front == s[..i] + [s[i]];
    TotalDurationAppend(s[..i], [s[i]]);
    TotalDurationSingle(s[i]);
  }

  lemma TotalDurationRemove(s: seq<Lesson>, i: nat)
    requires i < |s|
    ensures TotalDuration(s) == Contribution(s[i]) + TotalDuration(s[..i] + s[i + 1..])
  {
    TotalDurationSplit(s, i);
    TotalDurationAppend(s[..i], s[i + 1..]);
  }

  lemma MultisetWithout(s: seq<Lesson>, j: nat)
    requires j < |s|
    ensures multiset(s[..j] + s[j + 1..]) == multiset(s) - multiset{s[j]}
  {
    assert s == s[..j] + [s[j]] + s[j + 1..];
  }

  /** The total does not depend on the order of the lessons. */
  lemma {:induction false} TotalDurationPermutation(a: seq<Lesson>, b: seq<Lesson>)
    requires multiset(a) == multiset(b)
    ensures TotalDuration(a) == TotalDuration(b)
    decreases |a|
  {
    if a == [] {
      assert |b| == |multiset(b)| == 0;
    } else {
      var x := a[|a| - 1];
      var a' := a[..|a| - 1];
      assert x in multiset(b);
      var j :| 0 <= j < |b| && b[j] == x;
      var b' := b[..j] + b[j + 1..];
      MultisetWithout(a, |a| - 1);
      assert a[..|a| - 1] + a[|a|..] == a';
      MultisetWithout(b, j);
      TotalDurationPermutation(a', b');
      TotalDurationRemove(b, j);
    }
  }

  /** What a course card shows in its thumbnail and meta line. */
  datatype CardMeta = CardMeta(durationBadge: Option<string>, lessonText: string, comingSoon: bool)

  function CourseCardMeta(course: Course): (meta: CardMeta)
    ensures meta.durationBadge.Some? <==>
            exists i :: 0 <= i < |course.lessons| && Contribution(course.lessons[i]) > 0
    ensures meta.durationBadge.Some? ==>
            meta.durationBadge.value == FormatDuration(TotalDuration(course.lessons))
    ensures meta.comingSoon <==> !course.published
    ensures meta.lessonText == LessonCountText(|course.lessons|)
  {
    var total := TotalDuration(course.lessons);
    TotalDurationZeroIff(course.lessons);
    CardMeta(
      if total > 0 then Some(FormatDuration(total)) else None,
      LessonCountText(|course.lessons|),
      !course.published)
  }
}
