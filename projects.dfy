/**
 * The projects carousel: the current index, stepping forward and back
 * modulo the number of projects, selecting a dot, and the three-card window
 * shown from the current index.
 */
module Projects {

  /** A showcased project; only its identity matters to the carousel. */
  datatype Project = Project(id: nat, title: string)

  /** The projects the site shows, in order. */
  const Catalog: seq<Project> := [Project(1, "Modern Portfolio"), Project(2, "AgeIS-X"), Project(3, "YOJUN")]

  /** A card of the window: the project and its position in the window. */
  datatype Card = Card(project: Project, position: nat)

  /** The window always holds three cards. */
  const WindowSize := 3

  /** `(prev + 1) % projects.length` */
  function Next(i: nat, n: nat): (r: nat)
    requires i < n
    ensures r < n
    ensures i < n - 1 ==> r == i + 1
    ensures i == n - 1 ==> r == 0
  {
    (i + 1) % n
  }

  /** `(prev - 1 + projects.length) % projects.length`; the operand is never negative, so JavaScript's `%` agrees with Dafny's. */
  function Prev(i: nat, n: nat): (r: nat)
    requires i < n
    ensures r < n
    ensures i > 0 ==> r == i - 1
    ensures i == 0 ==> r == n - 1
  {
    (i - 1 + n) % n
  }

  /** Stepping back undoes stepping forward, and the other way round. */
  lemma PrevNextInverse(i: nat, n: nat)
    requires i < n
    ensures Prev(Next(i, n), n) == i
    ensures Next(Prev(i, n), n) == i
  {
  }

  /** `k` steps forward from `i`. */
  function NextTimes(i: nat, n: nat, k: nat): (r: nat)
    requires i < n
    ensures r < n
  {
    if k == 0 then i else Next(NextTimes(i, n, k - 1), n)
  }

  /** A positive multiple of a positive number is at least that number. */
  lemma {:induction false} MultipleAtLeast(d: nat, n: nat)
    requires d >= 1
    ensures d * n >= n
  {
    if d > 1 {
      MultipleAtLeast(d - 1, n);
      assert d * n == (d - 1) * n + n;
    }
  }

  /** Division with remainder is unique. */
  lemma ModUnique(a: int, n: int, q: int, r: int)
    requires n > 0 && 0 <= r < n && a == q * n + r
    ensures a % n == r
  {
    var q', r' := a / n, a % n;
    assert a == q' * n + r';
    if q > q' {
      assert (q - q') * n == q * n - q' * n;
      MultipleAtLeast(q - q', n);
    } else if q < q' {
      assert (q' - q) * n == q' * n - q * n;
      MultipleAtLeast(q' - q, n);
    }
  }

  /** One step forward from `a % n` is `(a + 1) % n`. */
  lemma NextOfModulo(a: nat, n: nat)
    requires n > 0
    ensures Next(a % n, n) == (a + 1) % n
  {
    var q, j := a / n, a % n;
    assert a == q * n + j;
    if j < n - 1 {
      ModUnique(a + 1, n, q, j + 1);
    } else {
      assert (q + 1) * n == q * n + n;
      ModUnique(a + 1, n, q + 1, 0);
    }
  }

  /** `k` steps forward land on `(i + k) % n`. */
  lemma {:induction false} NextTimesModulo(i: nat, n: nat, k: nat)
    requires i < n
    ensures NextTimes(i, n, k) == (i + k) % n
  {
    if k == 0 {
      ModUnique(i, n, 0, i);
    } else {
      NextTimesModulo(i, n, k - 1);
      NextOfModulo(i + k - 1, n);
    }
  }

  /** `n` steps forward come back to where they started. */
  lemma FullCycle(i: nat, n: nat)
    requires i < n
    ensures NextTimes(i, n, n) == i
  {
    NextTimesModulo(i, n, n);
    ModUnique(i + n, n, 1, i);
  }

  /** The projects of a window, in window order. */
  function ProjectsOf(cards: seq<Card>): (r: seq<Project>)
    ensures |r| == |cards|
    ensures forall k :: 0 <= k < |cards| ==> r[k] == cards[k].project
  {
    if cards == [] then [] else [cards[0].project] + ProjectsOf(cards[1..])
  }

  class Carousel {
    const projects: seq<Project>
    var currentIndex: nat

    ghost predicate Valid()
      reads this
    {
      currentIndex < |projects|
    }

    /** The carousel starts at the first project. */
    constructor (projects: seq<Project>)
      requires |projects| > 0
      ensures Valid() && this.projects == projects && currentIndex == 0
    {
      this.projects := projects;
      currentIndex := 0;
    }

    method NextProject()
      requires Valid()
      modifies this
      ensures Valid()
      ensures currentIndex == Next(old(currentIndex), |projects|)
    {
      currentIndex := (currentIndex + 1) % |projects|;
    }

    method PrevProject()
      requires Valid()
      modifies this
      ensures Valid()
      ensures currentIndex == Prev(old(currentIndex), |projects|)
    {
      currentIndex := (currentIndex - 1 + |projects|) % |projects|;
    }

    /** A click on the dot of project `index` (one dot per project). */
    method SelectDot(index: nat)
      requires Valid() && index < |projects|
      modifies this
      ensures Valid() && currentIndex == index
    {
      currentIndex := index;
    }

    /** The dot of the current project is the one highlighted; it is always one of the dots. */
    predicate DotActive(index: nat): (r: bool)
      reads this
      requires Valid()
      ensures r ==> index < |projects|
    {
      index == currentIndex
    }

    /**
     * `getVisibleProjects`: three cards starting at the current project and
     * wrapping round. The centre card (position 1) is the next project.
     */
    method VisibleProjects() returns (visible: seq<Card>)
      requires Valid()
      ensures |visible| == WindowSize
      ensures forall k :: 0 <= k < WindowSize ==>
                visible[k] == Card(projects[NextTimes(currentIndex, |projects|, k)], k)
      ensures forall k :: 0 <= k < WindowSize ==> visible[k].project == projects[(currentIndex + k) % |projects|]
      ensures visible[1].project == projects[Next(currentIndex, |projects|)]
      ensures |projects| == WindowSize ==>
                ProjectsOf(visible) == projects[currentIndex..] + projects[..currentIndex]
    {
      visible := [];
      var i := 0;
      while i < WindowSize
        invariant 0 <= i <= WindowSize
        invariant |visible| == i
        invariant forall k :: 0 <= k < i ==> visible[k] == Card(projects[(currentIndex + k) % |projects|], k)
      {
        var index := (currentIndex + i) % |projects|;
        visible := visible + [Card(projects[index], i)];
        i := i + 1;
      }
      forall k | 0 <= k < WindowSize
        ensures visible[k] == Card(projects[NextTimes(currentIndex, |projects|, k)], k)
      {
        NextTimesModulo(currentIndex, |projects|, k);
      }
      if |projects| == WindowSize {
        WindowIsRotation(projects, currentIndex, visible);
      }
    }
  }

  /** With exactly three projects the window is the list rotated to start at the current one. */
  lemma WindowIsRotation(projects: seq<Project>, c: nat, visible: seq<Card>)
    requires |projects| == WindowSize && c < WindowSize && |visible| == WindowSize
    requires forall k :: 0 <= k < WindowSize ==> visible[k].project == projects[NextTimes(c, WindowSize, k)]
    ensures ProjectsOf(visible) == projects[c..] + projects[..c]
  {
    var rot := projects[c..] + projects[..c];
    forall k | 0 <= k < WindowSize ensures ProjectsOf(visible)[k] == rot[k] {
      NextTimesModulo(c, WindowSize, k);
    }
  }

  /** Rotating a sequence keeps its elements and their counts. */
  lemma RotationPermutes<T>(s: seq<T>, c: nat)
    requires c <= |s|
    ensures multiset(s[c..] + s[..c]) == multiset(s)
  {
    assert s[..c] + s[c..] == s;
  }

  /** With the site's three projects, the window shows each of them exactly once. */
  lemma CatalogWindowShowsEach(c: nat, visible: seq<Card>)
    requires c < |Catalog| && |visible| == WindowSize
    requires forall k :: 0 <= k < WindowSize ==> visible[k].project == Catalog[NextTimes(c, |Catalog|, k)]
    ensures multiset(ProjectsOf(visible)) == multiset(Catalog)
  {
    var projects := Catalog;
    WindowIsRotation(projects, c, visible);
    RotationPermutes(projects, c);
  }
}
