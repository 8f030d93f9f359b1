/** The behaviour the course test suite asserts, stated over the model: the
    concrete courses, modules and lectures of each scenario, and what the
    operations return on them. */
module CourseExamples {
  import opened Wrappers
  import Container
  import Lectures
  import opened Courses

  function EmptyCourse<M>(): Course<M> {
    Course("azure-devops", "Continuous Delivery and DevOps with Azure DevOps", "Source Control with Git", [])
  }

  function Branching<M>(): Lectures.Lecture<M> { Lectures.Lecture("Branching", "https://youtube.com/1234", []) }
  function Fundamentals<M>(): Module<M> { Module("Fundamentals", [Branching()]) }
  function Overview<M>(): Module<M> {
    Module("Course Overview", [Lectures.Lecture("Course Overview", "https://youtube.com/3456", [])])
  }
  function GitModule<M>(): Module<M> {
    Module("Source Control with Git on Azure DevOps", [Lectures.Lecture("Introduction", "https://youtube.com/6789", [])])
  }

  function GitWithTwoLectures<M>(): Module<M> {
    Module("Source Control with Git on Azure DevOps",
           [Lectures.Lecture("Introduction", "https://youtube.com/6789", []),
            Lectures.Lecture("Lecture 2", "https://youtube.com/6789", [])])
  }

  function Committing<M>(): Lectures.Lecture<M> { Lectures.Lecture("Committing", "https://youtube.com/1234", []) }

  function EmptyFundamentals<M>(): Module<M> { Module("Fundamentals", []) }

  /** A second module with an already used title is refused with "Element
      already exists.", and the course still holds one element. */
  lemma SameTitleModuleRejected<M>()
    ensures var c1 := Courses.Add(EmptyCourse<M>(), ModuleElement(Fundamentals()));
      && c1.Right?
      && var r := Courses.Add(c1.value, ModuleElement(EmptyFundamentals<M>()));
      && r == Left(Container.ExistingElementError)
      && r.error.Message() == "Element already exists."
      && NumberOfElements(c1.value) == 1
  {
    Container.AddEqualRejected([], KeyOf, ModuleElement(Fundamentals<M>()), ModuleElement(EmptyFundamentals<M>()));
  }

  /** [Fundamentals, Course Overview, Git]: moving Course Overview to 1
      succeeds and gives positions 1, 2, 3 to Course Overview, Fundamentals
      and Git. */
  lemma RearrangeModules<M>()
    ensures var c := Course("azure-devops", "", "",
                        [ModuleElement(Fundamentals<M>()), ModuleElement(Overview()), ModuleElement(GitModule())]);
      var r := Courses.Move(c, ModuleElement(Overview()), 1);
      && r.Right?
      && Courses.Position(r.value, ModuleElement(Overview())) == Right(1)
      && Courses.Position(r.value, ModuleElement(Fundamentals())) == Right(2)
      && Courses.Position(r.value, ModuleElement(GitModule())) == Right(3)
  {
    Container.MoveSecondOfThreeToFront(KeyOf, ModuleElement(Fundamentals<M>()), ModuleElement(Overview()), ModuleElement(GitModule()));
  }

  /** Moving a module the course does not hold reports
      UnexistingElementError. */
  lemma MoveAbsentModule<M>()
    ensures var c := Course("azure-devops", "", "", [ModuleElement(Fundamentals<M>()), ModuleElement(Overview())]);
      Courses.Move(c, ModuleElement(GitModule()), 1) == Left(Container.UnexistingElementError)
  {
    var c := Course("azure-devops", "", "", [ModuleElement(Fundamentals<M>()), ModuleElement(Overview())]);
    assert !Container.Includes(c.elements, KeyOf, ModuleElement(GitModule<M>())) by {
      assert KeyOf(c.elements[0]) != KeyOf(ModuleElement(GitModule<M>()));
      assert KeyOf(c.elements[1]) != KeyOf(ModuleElement(GitModule<M>()));
    }
  }

  /** Moving to 10 or to -1 in a three-element course reports "Invalid
      position." and leaves the positions 1, 2, 3 as they were. */
  lemma MoveOutOfRange<M>()
    ensures var c := Course("azure-devops", "", "",
                        [ModuleElement(Fundamentals<M>()), ModuleElement(Overview()), ModuleElement(GitModule())]);
      && Courses.Move(c, ModuleElement(Fundamentals()), 10) == Left(Container.InvalidPositionError)
      && Courses.Move(c, ModuleElement(Overview()), -1) == Left(Container.InvalidPositionError)
      && Container.ContainerError.InvalidPositionError.Message() == "Invalid position."
      && Courses.Position(c, ModuleElement(Fundamentals())) == Right(1)
      && Courses.Position(c, ModuleElement(Overview())) == Right(2)
      && Courses.Position(c, ModuleElement(GitModule())) == Right(3)
  {
    var c := Course("azure-devops", "", "",
                    [ModuleElement(Fundamentals<M>()), ModuleElement(Overview()), ModuleElement(GitModule())]);
    assert Container.Unique(c.elements, KeyOf);
    Container.PositionIsOnlyMatch(c.elements, KeyOf, ModuleElement(Fundamentals()), 0);
    Container.PositionIsOnlyMatch(c.elements, KeyOf, ModuleElement(Overview()), 1);
    Container.PositionIsOnlyMatch(c.elements, KeyOf, ModuleElement(GitModule()), 2);
  }

  /** Moving Branching from Fundamentals to position 2 of Git (which holds
      Introduction and Lecture 2) leaves Fundamentals with no lecture, Git
      with three, and Branching at position 2 of Git. */
  lemma MoveLectureToOtherModule<M>()
    ensures var git := GitWithTwoLectures<M>();
      var c := Course("azure-devops", "", "", [ModuleElement(Fundamentals()), ModuleElement(Overview()), ModuleElement(git)]);
      var r := MoveLecture(c, Branching(), FromModule(Fundamentals()), git, 2);
      && r.Right?
      && NumberOfLectures(ModuleOf(r.value, Fundamentals())) == 0
      && NumberOfLectures(ModuleOf(r.value, git)) == 3
      && ModulePosition(ModuleOf(r.value, git), Branching()) == Right(2)
  {
    var git := GitWithTwoLectures<M>();
    var c := Course("azure-devops", "", "", [ModuleElement(Fundamentals()), ModuleElement(Overview()), ModuleElement(git)]);
    var f := Fundamentals<M>();
    assert KeyOf(c.elements[0]) == KeyOf(ModuleElement(f));
    assert HasModule(c, f);
    assert Container.IndexOf(c.elements, KeyOf, ModuleElement(f)) == 0;
    assert ModuleOf(c, f) == f;
    assert Lectures.TitleOf(f.lectures[0]) == Lectures.TitleOf(Branching<M>());
    assert InSource(c, Branching(), FromModule(f));
    assert KeyOf(c.elements[2]) == KeyOf(ModuleElement(git));
    assert HasModule(c, git);
    assert Container.IndexOf(c.elements, KeyOf, ModuleElement(git)) == 2;
    assert ModuleOf(c, git) == git;
    assert !Container.Includes(git.lectures, Lectures.TitleOf, Branching<M>()) by {
      assert Lectures.TitleOf(git.lectures[0]) != Lectures.TitleOf(Branching<M>());
      assert Lectures.TitleOf(git.lectures[1]) != Lectures.TitleOf(Branching<M>());
    }
  }

  /** Removing the only module succeeds and empties the course; removing or
      locating a module the course does not hold reports "Element does not
      exist.". */
  lemma RemoveScenarios<M>()
    ensures var c := Course("azure-devops", "", "", [ModuleElement(Fundamentals<M>())]);
      var r := Courses.Remove(c, ModuleElement(Fundamentals()));
      r.Right? && NumberOfElements(r.value) == 0
    ensures var r := Courses.Remove(EmptyCourse<M>(), ModuleElement(EmptyFundamentals<M>()));
      r == Left(Container.UnexistingElementError) && r.error.Message() == "Element does not exist."
    ensures Courses.Position(EmptyCourse<M>(), ModuleElement(Fundamentals())) == Left(Container.UnexistingElementError)
  {
    var c := Course("azure-devops", "", "", [ModuleElement(Fundamentals<M>())]);
    assert KeyOf(c.elements[0]) == KeyOf(ModuleElement(Fundamentals<M>()));
  }

  /** Loose lectures share the course's sequence with modules: with
      [Fundamentals, Committing], moving Committing to 1 puts Fundamentals at
      position 2. */
  lemma LooseLectureShiftsModule<M>()
    ensures var committing := Committing<M>();
      var c := Course("azure-devops", "", "", [ModuleElement(Fundamentals()), LectureElement(committing)]);
      var r := Courses.Move(c, LectureElement(committing), 1);
      && r.Right?
      && Courses.Position(r.value, LectureElement(committing)) == Right(1)
      && Courses.Position(r.value, ModuleElement(Fundamentals())) == Right(2)
  {
    var committing := Committing<M>();
    var c := Course("azure-devops", "", "", [ModuleElement(Fundamentals()), LectureElement(committing)]);
    var e := LectureElement(committing);
    assert KeyOf(c.elements[1]) == KeyOf(e);
    assert Container.IndexOf(c.elements, KeyOf, e) == 1;
    var moved := Courses.Move(c, e, 1).value;
    assert moved.elements == [e, ModuleElement(Fundamentals())];
    assert KeyOf(moved.elements[0]) == KeyOf(e);
    assert KeyOf(moved.elements[1]) == KeyOf(ModuleElement(Fundamentals<M>()));
  }

  /** With [Fundamentals (empty), Branching], moving the loose Branching into
      Fundamentals at position 1 (one past the end of the empty module)
      leaves the course with one element and Branching first in the module. */
  lemma MoveLooseLectureIntoModule<M>()
    ensures var f := EmptyFundamentals<M>();
      var c := Course("azure-devops", "", "", [ModuleElement(f), LectureElement(Branching())]);
      var r := MoveLecture(c, Branching(), FromCourse, f, 1);
      && r.Right?
      && NumberOfElements(r.value) == 1
      && ModulePosition(ModuleOf(r.value, f), Branching()) == Right(1)
  {
    var f := EmptyFundamentals<M>();
    var c := Course("azure-devops", "", "", [ModuleElement(f), LectureElement(Branching())]);
    assert KeyOf(c.elements[1]) == KeyOf(LectureElement(Branching<M>()));
    assert KeyOf(c.elements[0]) == KeyOf(ModuleElement(f));
    assert InSource(c, Branching(), FromCourse);
    assert HasModule(c, f);
  }

  /** Courses with one slug are equal even when their titles differ. */
  lemma EqualityBySlug<M>()
    ensures Courses.Equals(EmptyCourse<M>().(title := "Azure DevOps 1"), EmptyCourse<M>().(title := "Azure DevOps 2"))
  {
  }
}
