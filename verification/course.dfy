/** A course of the catalog: an identifying slug, descriptive text, and one
    ordered container of elements, where an element is either a module (a
    titled container of lectures) or a loose lecture that sits directly in
    the course. The course's container compares elements by title alone,
    whatever their kind; a module's container compares lectures by title;
    courses compare by slug. Modules are held by value inside the course
    and are found by their title. */
module Courses {
  import opened Wrappers
  import Seqs
  import Container
  import opened Lectures

  datatype Module<M> = Module(title: string, lectures: seq<Lecture<M>>)

  datatype Element<M> = ModuleElement(mod: Module<M>) | LectureElement(lecture: Lecture<M>)

  datatype Course<M> = Course(slug: string, title: string, description: string, elements: seq<Element<M>>)

  /** What the course's container compares: the element's title, so a
      module and a loose lecture with one title are equal. */
  function KeyOf<M>(e: Element<M>): string {
    match e
    case ModuleElement(m) => m.title
    case LectureElement(l) => TitleOf(l)
  }

  // ----- Modules ---------------------------------------------------------

  function NumberOfLectures<M>(m: Module<M>): nat {
    |m.lectures|
  }

  /** Adds a lecture to a module; fails when an equally titled one is there.
      On success the lectures are the old ones followed by `l`. */
  function ModuleAdd<M>(m: Module<M>, l: Lecture<M>): (r: Either<Container.ContainerError, Module<M>>)
    ensures r.Left? <==> Container.Includes(m.lectures, TitleOf, l)
    ensures r.Left? ==> r.error == Container.ExistingElementError
    ensures r.Right? ==>
      && r.value.title == m.title
      && NumberOfLectures(r.value) == NumberOfLectures(m) + 1
      && r.value.lectures[..|m.lectures|] == m.lectures
      && r.value.lectures[|m.lectures|] == l
    ensures r.Right? ==> ModulePosition(r.value, l) == Right(NumberOfLectures(r.value))
  {
    match Container.Add(m.lectures, TitleOf, l)
    case Left(e) => Left(e)
    case Right(s) => Right(m.(lectures := s))
  }

  /** The 1-based position of a lecture inside a module. */
  function ModulePosition<M>(m: Module<M>, l: Lecture<M>): (r: Either<Container.ContainerError, nat>)
    ensures r.Left? <==> !Container.Includes(m.lectures, TitleOf, l)
    ensures r.Left? ==> r.error == Container.UnexistingElementError
    ensures r.Right? ==> 1 <= r.value <= NumberOfLectures(m) && m.lectures[r.value - 1].title == l.title
  {
    Container.Position(m.lectures, TitleOf, l)
  }

  // ----- Courses ---------------------------------------------------------

  /** Courses are equal when their slugs are, whatever their titles. */
  predicate Equals<M>(a: Course<M>, b: Course<M>) {
    a.slug == b.slug
  }

  function NumberOfElements<M>(c: Course<M>): nat {
    |c.elements|
  }

  /** Slug, title and description are the same. */
  predicate SameMetadata<M>(a: Course<M>, b: Course<M>) {
    a.slug == b.slug && a.title == b.title && a.description == b.description
  }

  /** The course invariant: no two equal elements in the course, and no two
      equally titled lectures in any of its modules. */
  ghost predicate Valid<M>(c: Course<M>) {
    ValidElements(c.elements)
  }

  ghost predicate ValidElements<M>(es: seq<Element<M>>) {
    && Container.Unique(es, KeyOf)
    && forall i :: 0 <= i < |es| && es[i].ModuleElement? ==> Container.Unique(es[i].mod.lectures, TitleOf)
  }

  /** Whether an element with the title of `e` is stored, module or loose
      lecture alike. */
  function Includes<M>(c: Course<M>, e: Element<M>): (r: bool)
    ensures r <==> exists i :: 0 <= i < |c.elements| && KeyOf(c.elements[i]) == KeyOf(e)
  {
    Container.Includes(c.elements, KeyOf, e)
  }

  /** Adds a module or a loose lecture at the end of the course. */
  function Add<M>(c: Course<M>, e: Element<M>): (r: Either<Container.ContainerError, Course<M>>)
    ensures r.Left? <==> Includes(c, e)
    ensures r.Left? ==> r.error == Container.ExistingElementError
    ensures r.Right? ==>
      && SameMetadata(c, r.value)
      && NumberOfElements(r.value) == NumberOfElements(c) + 1
      && r.value.elements[..|c.elements|] == c.elements
      && r.value.elements[|c.elements|] == e
    ensures r.Right? ==> Position(r.value, e) == Right(NumberOfElements(r.value))
    ensures r.Right? && Container.Unique(c.elements, KeyOf) ==> Container.Unique(r.value.elements, KeyOf)
  {
    match Container.Add(c.elements, KeyOf, e)
    case Left(err) => Left(err)
    case Right(s) => Right(c.(elements := s))
  }

  /** A course includes what was just added to it, and still includes
      everything it included before. */
  lemma AddedIsIncluded<M>(c: Course<M>, e: Element<M>, x: Element<M>)
    requires !Includes(c, e)
    ensures Add(c, e).Right? && Includes(Add(c, e).value, e)
    ensures Includes(c, x) ==> Includes(Add(c, e).value, x)
  {
    var es := Add(c, e).value.elements;
    assert es[|c.elements|] == e;
    if Includes(c, x) {
      var i :| 0 <= i < |c.elements| && KeyOf(c.elements[i]) == KeyOf(x);
      assert es[i] == c.elements[i];
    }
  }

  /** Removes a module or a loose lecture, closing the gap: the elements
      before it keep their place and the ones after it move up by one. */
  function Remove<M>(c: Course<M>, e: Element<M>): (r: Either<Container.ContainerError, Course<M>>)
    ensures r.Left? <==> !Includes(c, e)
    ensures r.Left? ==> r.error == Container.UnexistingElementError
    ensures r.Right? ==>
      var k := Container.IndexOf(c.elements, KeyOf, e);
      && SameMetadata(c, r.value)
      && NumberOfElements(r.value) == NumberOfElements(c) - 1
      && r.value.elements[..k] == c.elements[..k]
      && r.value.elements[k..] == c.elements[k + 1..]
    ensures r.Right? && Container.Unique(c.elements, KeyOf) ==> !Includes(r.value, e)
  {
    match Container.Remove(c.elements, KeyOf, e)
    case Left(err) => Left(err)
    case Right(s) =>
      var k := Container.IndexOf(c.elements, KeyOf, e);
      assert s[..k] == c.elements[..k];
      assert s[k..] == c.elements[k + 1..];
      Right(c.(elements := s))
  }

  /** The 1-based position of a module or loose lecture. */
  function Position<M>(c: Course<M>, e: Element<M>): (r: Either<Container.ContainerError, nat>)
    ensures r.Left? <==> !Includes(c, e)
    ensures r.Left? ==> r.error == Container.UnexistingElementError
    ensures r.Right? ==> 1 <= r.value <= NumberOfElements(c) && KeyOf(c.elements[r.value - 1]) == KeyOf(e)
    ensures r.Right? ==> forall i :: 0 <= i < r.value - 1 ==> KeyOf(c.elements[i]) != KeyOf(e)
  {
    Container.Position(c.elements, KeyOf, e)
  }

  /** Moves a module or loose lecture to position `to` of the course: it
      lands there, the elements in between shift one place toward its old
      position, and the rest stay put. */
  function Move<M>(c: Course<M>, e: Element<M>, to: int): (r: Either<Container.ContainerError, Course<M>>)
    ensures !Includes(c, e) ==> r == Left(Container.UnexistingElementError)
    ensures Includes(c, e) && (to < 1 || to > NumberOfElements(c)) ==> r == Left(Container.InvalidPositionError)
    ensures Includes(c, e) && 1 <= to <= NumberOfElements(c) ==>
      && r.Right? && SameMetadata(c, r.value)
      && r.value.elements == Seqs.Shifted(c.elements, Container.IndexOf(c.elements, KeyOf, e), to - 1)
    ensures r.Right? && Container.Unique(c.elements, KeyOf) ==>
      Container.Unique(r.value.elements, KeyOf) && Position(r.value, e) == Right(to)
  {
    match Container.Move(c.elements, KeyOf, e, to)
    case Left(err) => Left(err)
    case Right(s) =>
      assert Container.Unique(c.elements, KeyOf) ==>
          Container.Unique(s, KeyOf) && Container.Position(s, KeyOf, e) == Right(to) by {
        if Container.Unique(c.elements, KeyOf) {
          Container.MoveResult(c.elements, KeyOf, e, to);
        }
      }
      Right(c.(elements := s))
  }

  // ----- Moving a lecture between owners ---------------------------------

  /** Where a lecture is moved from: the course's own container (a loose
      lecture) or one of its modules. */
  datatype Source<M> = FromCourse | FromModule(m: Module<M>)

  /** The element the course holds under the title of `m` is a module. */
  predicate HasModule<M>(c: Course<M>, m: Module<M>) {
    && Container.Includes(c.elements, KeyOf, ModuleElement(m))
    && Container.Lookup(c.elements, KeyOf, ModuleElement(m)).ModuleElement?
  }

  /** The index of the module the course holds under the title of `m`. */
  function ModuleIndex<M>(c: Course<M>, m: Module<M>): (k: nat)
    requires HasModule(c, m)
    ensures k < |c.elements| && c.elements[k].ModuleElement? && c.elements[k].mod.title == m.title
  {
    Container.IndexOf(c.elements, KeyOf, ModuleElement(m))
  }

  /** The module the course holds under the title of `m`. */
  function ModuleOf<M>(c: Course<M>, m: Module<M>): (r: Module<M>)
    requires HasModule(c, m)
    ensures r.title == m.title && c.elements[ModuleIndex(c, m)] == ModuleElement(r)
  {
    Container.Lookup(c.elements, KeyOf, ModuleElement(m)).mod
  }

  /** The element the course holds under the title of `l` is a loose
      lecture. */
  predicate HasLooseLecture<M>(c: Course<M>, l: Lecture<M>) {
    && Container.Includes(c.elements, KeyOf, LectureElement(l))
    && Container.Lookup(c.elements, KeyOf, LectureElement(l)).LectureElement?
  }

  /** The lecture is where the caller says it is. */
  predicate InSource<M>(c: Course<M>, lecture: Lecture<M>, from: Source<M>) {
    match from
    case FromCourse => HasLooseLecture(c, lecture)
    case FromModule(s) => HasModule(c, s) && Container.Includes(ModuleOf(c, s).lectures, TitleOf, lecture)
  }

  /** The source is the target module itself. */
  predicate SameModule<M>(from: Source<M>, target: Module<M>) {
    from.FromModule? && from.m.title == target.title
  }

  /** The course after a move inside the module `target`: that module's
      lectures are shifted, every other element is as it was. */
  ghost function ShiftedWithin<M>(c: Course<M>, lecture: Lecture<M>, target: Module<M>, to: int): Course<M>
    requires HasModule(c, target) && Container.Includes(ModuleOf(c, target).lectures, TitleOf, lecture)
    requires 1 <= to <= NumberOfLectures(ModuleOf(c, target))
  {
    var dst := ModuleOf(c, target);
    var ls := Seqs.Shifted(dst.lectures, Container.IndexOf(dst.lectures, TitleOf, lecture), to - 1);
    c.(elements := c.elements[ModuleIndex(c, target) := ModuleElement(dst.(lectures := ls))])
  }

  /** The course after a move from module `s` into module `target`: `s`
      loses the lecture, `target` has it inserted at `to`, and every other
      element is as it was. */
  ghost function MovedAcross<M>(c: Course<M>, lecture: Lecture<M>, s: Module<M>, target: Module<M>, to: int): Course<M>
    requires HasModule(c, s) && HasModule(c, target)
    requires Container.Includes(ModuleOf(c, s).lectures, TitleOf, lecture)
    requires 1 <= to <= NumberOfLectures(ModuleOf(c, target)) + 1
  {
    var src := ModuleOf(c, s);
    var dst := ModuleOf(c, target);
    var src' := src.(lectures := Seqs.RemoveAt(src.lectures, Container.IndexOf(src.lectures, TitleOf, lecture)));
    var dst' := dst.(lectures := Seqs.InsertAt(dst.lectures, to - 1, lecture));
    c.(elements := c.elements[ModuleIndex(c, s) := ModuleElement(src')][ModuleIndex(c, target) := ModuleElement(dst')])
  }

  /** The course after a loose lecture moves into module `target`: `target`
      has it inserted at `to`, the lecture's own element is gone, and every
      other element is as it was. */
  ghost function MovedFromCourse<M>(c: Course<M>, lecture: Lecture<M>, target: Module<M>, to: int): Course<M>
    requires HasModule(c, target) && HasLooseLecture(c, lecture)
    requires 1 <= to <= NumberOfLectures(ModuleOf(c, target)) + 1
  {
    var dst := ModuleOf(c, target);
    var dst' := dst.(lectures := Seqs.InsertAt(dst.lectures, to - 1, lecture));
    var k := Container.IndexOf(c.elements, KeyOf, LectureElement(lecture));
    c.(elements := Seqs.RemoveAt(c.elements[ModuleIndex(c, target) := ModuleElement(dst')], k))
  }

  /** A move inside the target module itself: a plain container move among
      its lectures, so positions run from 1 to the number of lectures and
      the lecture cannot collide with itself. */
  function MoveWithinModule<M>(c: Course<M>, lecture: Lecture<M>, target: Module<M>, to: int)
    : (r: Either<Container.ContainerError, Course<M>>)
    requires HasModule(c, target) && Container.Includes(ModuleOf(c, target).lectures, TitleOf, lecture)
    ensures (to < 1 || to > NumberOfLectures(ModuleOf(c, target))) ==> r == Left(Container.InvalidPositionError)
    ensures 1 <= to <= NumberOfLectures(ModuleOf(c, target)) ==> r == Right(ShiftedWithin(c, lecture, target, to))
    ensures r.Right? ==> HasModule(r.value, target)
    ensures r.Right? && Valid(c) ==> ModulePosition(ModuleOf(r.value, target), lecture) == Right(to)
  {
    var dst := ModuleOf(c, target);
    match Container.Move(dst.lectures, TitleOf, lecture, to)
    case Left(e) => Left(e)
    case Right(ls) =>
      var es := Container.Replace(c.elements, KeyOf, ModuleElement(dst.(lectures := ls)));
      assert Valid(c) ==> Container.Position(ls, TitleOf, lecture) == Right(to) by {
        if Valid(c) {
          var i := Container.IndexOf(c.elements, KeyOf, ModuleElement(target));
          assert c.elements[i].ModuleElement?;
          Container.MoveResult(dst.lectures, TitleOf, lecture, to);
        }
      }
      assert es == ShiftedWithin(c, lecture, target, to).elements;
      Right(c.(elements := es))
  }

  /** A move from module `s` into another module `target`: the source
      module loses the lecture and the target gains it at `to`. */
  function MoveAcrossModules<M>(c: Course<M>, lecture: Lecture<M>, s: Module<M>, target: Module<M>, to: int)
    : (r: Either<Container.ContainerError, Course<M>>)
    requires HasModule(c, s) && HasModule(c, target) && s.title != target.title
    requires Container.Includes(ModuleOf(c, s).lectures, TitleOf, lecture)
    ensures var n := NumberOfLectures(ModuleOf(c, target));
      && ((to < 1 || to > n + 1) ==> r == Left(Container.InvalidPositionError))
      && (1 <= to <= n + 1 && Container.Includes(ModuleOf(c, target).lectures, TitleOf, lecture) ==>
            r == Left(Container.ExistingElementError))
      && (1 <= to <= n + 1 && !Container.Includes(ModuleOf(c, target).lectures, TitleOf, lecture) ==>
            r == Right(MovedAcross(c, lecture, s, target, to)))
    ensures r.Right? ==>
      && HasModule(r.value, s) && HasModule(r.value, target)
      && ModulePosition(ModuleOf(r.value, target), lecture) == Right(to)
  {
    var t := ModuleElement(target);
    var dst := ModuleOf(c, target);
    var src := ModuleOf(c, s);
    match Container.MoveBetween(src.lectures, dst.lectures, TitleOf, lecture, to)
    case Left(e) => Left(e)
    case Right(pair) =>
      var src' := src.(lectures := pair.0);
      var dst' := dst.(lectures := pair.1);
      var es := Container.Replace(c.elements, KeyOf, ModuleElement(src'));
      Container.ReplaceKeepsOthers(c.elements, KeyOf, ModuleElement(src'), t);
      var es' := Container.Replace(es, KeyOf, ModuleElement(dst'));
      Container.ReplaceKeepsOthers(es, KeyOf, ModuleElement(dst'), ModuleElement(s));
      assert es' == MovedAcross(c, lecture, s, target, to).elements;
      Right(c.(elements := es'))
  }

  /** A move of a loose lecture of the course into the module `target`: the
      course loses the element and the target gains the lecture at `to`. */
  function MoveFromCourse<M>(c: Course<M>, lecture: Lecture<M>, target: Module<M>, to: int)
    : (r: Either<Container.ContainerError, Course<M>>)
    requires HasModule(c, target) && HasLooseLecture(c, lecture)
    ensures var n := NumberOfLectures(ModuleOf(c, target));
      && ((to < 1 || to > n + 1) ==> r == Left(Container.InvalidPositionError))
      && (1 <= to <= n + 1 && Container.Includes(ModuleOf(c, target).lectures, TitleOf, lecture) ==>
            r == Left(Container.ExistingElementError))
      && (1 <= to <= n + 1 && !Container.Includes(ModuleOf(c, target).lectures, TitleOf, lecture) ==>
            r == Right(MovedFromCourse(c, lecture, target, to)))
    ensures r.Right? ==>
      && HasModule(r.value, target)
      && ModulePosition(ModuleOf(r.value, target), lecture) == Right(to)
  {
    var dst := ModuleOf(c, target);
    match Container.Place(dst.lectures, TitleOf, lecture, to)
    case Left(e) => Left(e)
    case Right(placed) =>
      var le := LectureElement(lecture);
      var v := ModuleElement(dst.(lectures := placed));
      LooseLectureIsNotModule(c, lecture, target);
      assert Container.IndexOf(c.elements, KeyOf, v) == ModuleIndex(c, target);
      Container.ReplaceAfterRemove(c.elements, KeyOf, le, v);
      var rest := Container.Remove(c.elements, KeyOf, le).value;
      Right(c.(elements := Container.Replace(rest, KeyOf, v)))
  }

  /** Moves `lecture` out of `from` and into the module `target` at position
      `to`. Checks, in order: the lecture is in the source, the target module
      is in the course, `to` lies in `[1, lectures of target + 1]`, and the
      target holds no equally titled lecture; nothing changes unless all pass.
      When source and target are one module this is a move within it, with
      positions up to the number of its lectures. */
  function MoveLecture<M>(c: Course<M>, lecture: Lecture<M>, from: Source<M>, target: Module<M>, to: int)
    : (r: Either<Container.ContainerError, Course<M>>)
    ensures !InSource(c, lecture, from) ==> r == Left(Container.UnexistingElementError)
    ensures InSource(c, lecture, from) && !HasModule(c, target) ==> r == Left(Container.UnexistingElementError)
    ensures InSource(c, lecture, from) && HasModule(c, target) && SameModule(from, target) ==>
      var n := NumberOfLectures(ModuleOf(c, target));
      && Container.Includes(ModuleOf(c, target).lectures, TitleOf, lecture)
      && ((to < 1 || to > n) ==> r == Left(Container.InvalidPositionError))
      && (1 <= to <= n ==> r == Right(ShiftedWithin(c, lecture, target, to)))
    ensures InSource(c, lecture, from) && HasModule(c, target) && !SameModule(from, target) ==>
      var n := NumberOfLectures(ModuleOf(c, target));
      && ((to < 1 || to > n + 1) ==> r == Left(Container.InvalidPositionError))
      && (1 <= to <= n + 1 && Container.Includes(ModuleOf(c, target).lectures, TitleOf, lecture) ==>
            r == Left(Container.ExistingElementError))
      && (1 <= to <= n + 1 && !Container.Includes(ModuleOf(c, target).lectures, TitleOf, lecture) ==>
            r == Right(match from
                       case FromCourse => MovedFromCourse(c, lecture, target, to)
                       case FromModule(s) => MovedAcross(c, lecture, s, target, to)))
    ensures r.Right? ==> SameMetadata(c, r.value) && HasModule(c, target) && HasModule(r.value, target)
    ensures r.Right? && (!SameModule(from, target) || Valid(c)) ==>
      ModulePosition(ModuleOf(r.value, target), lecture) == Right(to)
  {
    if !InSource(c, lecture, from) then Left(Container.UnexistingElementError)
    else if !HasModule(c, target) then Left(Container.UnexistingElementError)
    else
      match from
      case FromModule(s) =>
        if s.title == target.title then
          SameTitleSameModule(c, s, target);
          MoveWithinModule(c, lecture, target, to)
        else MoveAcrossModules(c, lecture, s, target, to)
      case FromCourse => MoveFromCourse(c, lecture, target, to)
  }

  /** Two modules with one title are found at the same place of a course. */
  lemma SameTitleSameModule<M>(c: Course<M>, a: Module<M>, b: Module<M>)
    requires HasModule(c, a) && a.title == b.title
    ensures HasModule(c, b) && ModuleIndex(c, a) == ModuleIndex(c, b) && ModuleOf(c, a) == ModuleOf(c, b)
  {
    assert KeyOf(ModuleElement(a)) == KeyOf(ModuleElement(b));
  }

  /** A module found in a valid course keeps its own lectures unique. */
  lemma ModuleOfIsValid<M>(c: Course<M>, m: Module<M>)
    requires Valid(c) && HasModule(c, m)
    ensures Container.Unique(ModuleOf(c, m).lectures, TitleOf)
  {
    var i := Container.IndexOf(c.elements, KeyOf, ModuleElement(m));
    assert c.elements[i].ModuleElement?;
  }

  /** A loose lecture and a module of the course never share a title. */
  lemma LooseLectureIsNotModule<M>(c: Course<M>, l: Lecture<M>, m: Module<M>)
    requires HasModule(c, m) && HasLooseLecture(c, l)
    ensures l.title != m.title
  {
  }

  /** Giving the module at index `k` other lectures, none twice, under its
      own title keeps the elements valid. */
  lemma UpdateModuleIsValid<M>(es: seq<Element<M>>, k: nat, m: Module<M>)
    requires ValidElements(es) && k < |es| && es[k].ModuleElement? && es[k].mod.title == m.title
    requires Container.Unique(m.lectures, TitleOf)
    ensures ValidElements(es[k := ModuleElement(m)])
  {
    var r := es[k := ModuleElement(m)];
    assert forall i :: 0 <= i < |r| ==> KeyOf(r[i]) == KeyOf(es[i]);
  }

  /** Taking out the element at index `k` keeps the elements valid. */
  lemma RemoveElementIsValid<M>(es: seq<Element<M>>, k: nat)
    requires ValidElements(es) && k < |es|
    ensures ValidElements(Seqs.RemoveAt(es, k))
  {
    var r := Seqs.RemoveAt(es, k);
    forall i, j | 0 <= i < j < |r| ensures KeyOf(r[i]) != KeyOf(r[j]) {
      var i' := if i < k then i else i + 1;
      var j' := if j < k then j else j + 1;
      assert r[i] == es[i'] && r[j] == es[j'];
    }
    forall i | 0 <= i < |r| && r[i].ModuleElement? ensures Container.Unique(r[i].mod.lectures, TitleOf) {
      assert r[i] == es[if i < k then i else i + 1];
    }
  }

  /** Shifting a lecture inside its module keeps the course invariant. */
  lemma ShiftedWithinIsValid<M>(c: Course<M>, lecture: Lecture<M>, target: Module<M>, to: int)
    requires Valid(c) && HasModule(c, target) && Container.Includes(ModuleOf(c, target).lectures, TitleOf, lecture)
    requires 1 <= to <= NumberOfLectures(ModuleOf(c, target))
    ensures Valid(ShiftedWithin(c, lecture, target, to))
  {
    var dst := ModuleOf(c, target);
    var i := Container.IndexOf(dst.lectures, TitleOf, lecture);
    ModuleOfIsValid(c, target);
    Container.MoveResult(dst.lectures, TitleOf, lecture, to);
    UpdateModuleIsValid(c.elements, ModuleIndex(c, target), dst.(lectures := Seqs.Shifted(dst.lectures, i, to - 1)));
  }

  /** Moving a lecture from one module into another that lacks it keeps the
      course invariant. */
  lemma MovedAcrossIsValid<M>(c: Course<M>, lecture: Lecture<M>, s: Module<M>, target: Module<M>, to: int)
    requires Valid(c) && HasModule(c, s) && HasModule(c, target) && s.title != target.title
    requires Container.Includes(ModuleOf(c, s).lectures, TitleOf, lecture)
    requires !Container.Includes(ModuleOf(c, target).lectures, TitleOf, lecture)
    requires 1 <= to <= NumberOfLectures(ModuleOf(c, target)) + 1
    ensures Valid(MovedAcross(c, lecture, s, target, to))
  {
    var src := ModuleOf(c, s);
    var dst := ModuleOf(c, target);
    ModuleOfIsValid(c, s);
    ModuleOfIsValid(c, target);
    Container.RemoveAtKeepsUnique(src.lectures, TitleOf, lecture);
    Container.InsertNewKeepsUnique(dst.lectures, TitleOf, lecture, to - 1);
    var src' := src.(lectures := Seqs.RemoveAt(src.lectures, Container.IndexOf(src.lectures, TitleOf, lecture)));
    var dst' := dst.(lectures := Seqs.InsertAt(dst.lectures, to - 1, lecture));
    var ks := ModuleIndex(c, s);
    UpdateModuleIsValid(c.elements, ks, src');
    UpdateModuleIsValid(c.elements[ks := ModuleElement(src')], ModuleIndex(c, target), dst');
  }

  /** Moving a loose lecture into a module that lacks it keeps the course
      invariant. */
  lemma MovedFromCourseIsValid<M>(c: Course<M>, lecture: Lecture<M>, target: Module<M>, to: int)
    requires Valid(c) && HasModule(c, target) && HasLooseLecture(c, lecture)
    requires !Container.Includes(ModuleOf(c, target).lectures, TitleOf, lecture)
    requires 1 <= to <= NumberOfLectures(ModuleOf(c, target)) + 1
    ensures Valid(MovedFromCourse(c, lecture, target, to))
  {
    var dst := ModuleOf(c, target);
    var kt := ModuleIndex(c, target);
    ModuleOfIsValid(c, target);
    Container.InsertNewKeepsUnique(dst.lectures, TitleOf, lecture, to - 1);
    var dst' := dst.(lectures := Seqs.InsertAt(dst.lectures, to - 1, lecture));
    UpdateModuleIsValid(c.elements, kt, dst');
    RemoveElementIsValid(c.elements[kt := ModuleElement(dst')], Container.IndexOf(c.elements, KeyOf, LectureElement(lecture)));
  }

  /** Moving a lecture keeps the course invariant. */
  lemma {:induction false} MoveLectureKeepsValid<M>(c: Course<M>, lecture: Lecture<M>, from: Source<M>, target: Module<M>, to: int)
    requires Valid(c)
    requires MoveLecture(c, lecture, from, target, to).Right?
    ensures Valid(MoveLecture(c, lecture, from, target, to).value)
  {
    assert InSource(c, lecture, from) && HasModule(c, target);
    if SameModule(from, target) {
      ShiftedWithinIsValid(c, lecture, target, to);
    } else {
      match from
      case FromCourse => MovedFromCourseIsValid(c, lecture, target, to);
      case FromModule(s) => MovedAcrossIsValid(c, lecture, s, target, to);
    }
  }
}
