/** The ordered, uniqueness-enforcing container behind every collection of
    the course catalog (materials of a lecture, lectures of a module,
    elements of a course), and the move of an item from one container to
    another. Positions are 1-based. Items are compared through a key
    function: two items are equal exactly when their keys are, which makes
    the equality an equivalence relation by construction. */
module Container {
  import opened Wrappers
  import opened Seqs

  datatype ContainerError = ExistingElementError | UnexistingElementError | InvalidPositionError
  {
    /** The human-readable message each error carries. */
    function Message(): string {
      match this
      case ExistingElementError => "Element already exists."
      case UnexistingElementError => "Element does not exist."
      case InvalidPositionError => "Invalid position."
    }
  }

  /** Some stored item is equal to `x`. */
  predicate Includes<T, K(==)>(items: seq<T>, key: T -> K, x: T) {
    exists i :: 0 <= i < |items| && key(items[i]) == key(x)
  }

  /** The container invariant: no two stored items are equal. */
  ghost predicate Unique<T, K>(items: seq<T>, key: T -> K) {
    forall i, j :: 0 <= i < j < |items| ==> key(items[i]) != key(items[j])
  }

  /** 0-based index of the stored item equal to `x`. */
  function IndexOf<T, K(==)>(items: seq<T>, key: T -> K, x: T): (r: nat)
    requires Includes(items, key, x)
    ensures r < |items| && key(items[r]) == key(x)
    ensures forall i :: 0 <= i < r ==> key(items[i]) != key(x)
  {
    FirstIndexOf(items, key, key(x))
  }

  /** In a container that keeps its invariant, the item equal to `x` sits at
      one index only. */
  lemma IndexOfIsOnlyMatch<T, K>(items: seq<T>, key: T -> K, x: T, i: nat)
    requires Unique(items, key)
    requires i < |items| && key(items[i]) == key(x)
    ensures Includes(items, key, x) && IndexOf(items, key, x) == i
  {
    var k := IndexOf(items, key, x);
    assert !(k < i) && !(i < k);
  }

  /** The stored item equal to `x`. */
  function Lookup<T, K(==)>(items: seq<T>, key: T -> K, x: T): (r: T)
    requires Includes(items, key, x)
    ensures key(r) == key(x) && r in items
  {
    items[IndexOf(items, key, x)]
  }

  /** Appends `x` unless an equal item is already stored. */
  function Add<T, K(==)>(items: seq<T>, key: T -> K, x: T): (r: Either<ContainerError, seq<T>>)
    ensures r.Left? <==> Includes(items, key, x)
    ensures r.Left? ==> r.error == ExistingElementError
    ensures r.Right? ==> |r.value| == |items| + 1 && r.value[..|items|] == items && r.value[|items|] == x
    ensures r.Right? ==> Position(r.value, key, x) == Right(|r.value|)
    ensures r.Right? && Unique(items, key) ==> Unique(r.value, key)
  {
    if Includes(items, key, x) then Left(ExistingElementError)
    else
      var s := items + [x];
      assert s[|items|] == x;
      assert IndexOf(s, key, x) == |items|;
      Right(s)
  }

  /** 1-based position of the stored item equal to `x`. */
  function Position<T, K(==)>(items: seq<T>, key: T -> K, x: T): (r: Either<ContainerError, nat>)
    ensures r.Left? <==> !Includes(items, key, x)
    ensures r.Left? ==> r.error == UnexistingElementError
    ensures r.Right? ==> 1 <= r.value <= |items| && key(items[r.value - 1]) == key(x)
    ensures r.Right? ==> forall i :: 0 <= i < r.value - 1 ==> key(items[i]) != key(x)
  {
    if Includes(items, key, x) then Right(IndexOf(items, key, x) + 1)
    else Left(UnexistingElementError)
  }

  /** Under the invariant, the position is the one and only place holding an
      item equal to `x`. */
  lemma PositionIsOnlyMatch<T, K>(items: seq<T>, key: T -> K, x: T, i: nat)
    requires Unique(items, key)
    requires i < |items| && key(items[i]) == key(x)
    ensures Position(items, key, x) == Right(i + 1)
  {
    IndexOfIsOnlyMatch(items, key, x, i);
  }

  /** Deletes the stored item equal to `x`, closing the gap. */
  function Remove<T, K(==)>(items: seq<T>, key: T -> K, x: T): (r: Either<ContainerError, seq<T>>)
    ensures r.Left? <==> !Includes(items, key, x)
    ensures r.Left? ==> r.error == UnexistingElementError
    ensures r.Right? ==> |r.value| == |items| - 1
    ensures r.Right? ==>
      var k := IndexOf(items, key, x);
      && (forall i :: 0 <= i < k ==> r.value[i] == items[i])
      && (forall i :: k <= i < |r.value| ==> r.value[i] == items[i + 1])
    ensures r.Right? && Unique(items, key) ==> Unique(r.value, key) && !Includes(r.value, key, x)
  {
    if !Includes(items, key, x) then Left(UnexistingElementError)
    else
      var k := IndexOf(items, key, x);
      var s := RemoveAt(items, k);
      assert Unique(items, key) ==> Unique(s, key) && !Includes(s, key, x) by {
        if Unique(items, key) {
          RemoveAtKeepsUnique(items, key, x);
        }
      }
      Right(s)
  }

  /** Moves the stored item equal to `x` to position `to`. Existence is
      checked before the range of `to`. */
  function Move<T, K(==)>(items: seq<T>, key: T -> K, x: T, to: int): (r: Either<ContainerError, seq<T>>)
    ensures !Includes(items, key, x) ==> r == Left(UnexistingElementError)
    ensures Includes(items, key, x) && (to < 1 || to > |items|) ==> r == Left(InvalidPositionError)
    ensures Includes(items, key, x) && 1 <= to <= |items| ==>
      r == Right(Shifted(items, IndexOf(items, key, x), to - 1))
  {
    if !Includes(items, key, x) then Left(UnexistingElementError)
    else if to < 1 || to > |items| then Left(InvalidPositionError)
    else
      var k := IndexOf(items, key, x);
      RemoveInsertIsShift(items, k, to - 1);
      Right(InsertAt(RemoveAt(items, k), to - 1, items[k]))
  }

  /** A successful move keeps the length, the multiset of items and the
      invariant, and leaves the moved item at the requested position. */
  lemma MoveResult<T, K>(items: seq<T>, key: T -> K, x: T, to: int)
    requires Unique(items, key)
    requires Includes(items, key, x) && 1 <= to <= |items|
    ensures Move(items, key, x, to).Right?
    ensures var r := Move(items, key, x, to).value;
      && |r| == |items|
      && multiset(r) == multiset(items)
      && Unique(r, key)
      && Position(r, key, x) == Right(to)
  {
    var k := IndexOf(items, key, x);
    var rest := RemoveAt(items, k);
    var r := InsertAt(rest, to - 1, items[k]);
    assert r == Move(items, key, x, to).value;
    RemoveAtKeepsUnique(items, key, x);
    InsertNewKeepsUnique(rest, key, items[k], to - 1);
    PositionIsFirstFree(rest, key, x, items[k], to - 1);
  }

  /** Taking out the item equal to `x` keeps the invariant and leaves no
      item equal to `x` behind. */
  lemma RemoveAtKeepsUnique<T, K>(items: seq<T>, key: T -> K, x: T)
    requires Unique(items, key) && Includes(items, key, x)
    ensures var rest := RemoveAt(items, IndexOf(items, key, x));
      Unique(rest, key) && !Includes(rest, key, x)
  {
    var k := IndexOf(items, key, x);
    var rest := RemoveAt(items, k);
    forall i, j | 0 <= i < j < |rest| ensures key(rest[i]) != key(rest[j]) {
      var i' := if i < k then i else i + 1;
      var j' := if j < k then j else j + 1;
      assert rest[i] == items[i'] && rest[j] == items[j'];
    }
    forall i | 0 <= i < |rest| ensures key(rest[i]) != key(x) {
      var i' := if i < k then i else i + 1;
      assert rest[i] == items[i'];
    }
  }

  /** Inserting an item that is not yet stored keeps the invariant. */
  lemma InsertNewKeepsUnique<T, K>(items: seq<T>, key: T -> K, y: T, k: nat)
    requires Unique(items, key) && !Includes(items, key, y)
    requires k <= |items|
    ensures Unique(InsertAt(items, k, y), key)
  {
    var r := InsertAt(items, k, y);
    forall i, j | 0 <= i < j < |r| ensures key(r[i]) != key(r[j]) {
      if i != k && j != k {
        var i' := if i < k then i else i - 1;
        var j' := if j < k then j else j - 1;
        assert r[i] == items[i'] && r[j] == items[j'];
      } else if i == k {
        assert r[j] == items[j - 1];
      } else {
        assert r[i] == items[i];
      }
    }
  }

  /** Moving an item to the position it already occupies changes nothing. */
  lemma MoveToOwnPosition<T, K>(items: seq<T>, key: T -> K, x: T)
    requires Includes(items, key, x)
    ensures Move(items, key, x, Position(items, key, x).value) == Right(items)
  {
    var k := IndexOf(items, key, x);
    assert Shifted(items, k, k) == items;
  }

  /** Adding an item equal to one that has just been added fails with
      "Element already exists." and leaves the length as it was. */
  lemma AddEqualRejected<T, K>(items: seq<T>, key: T -> K, a: T, b: T)
    requires key(a) == key(b)
    requires Add(items, key, a).Right?
    ensures var s := Add(items, key, a).value;
      && Add(s, key, b) == Left(ExistingElementError)
      && Add(s, key, b).error.Message() == "Element already exists."
      && |s| == |items| + 1
  {
    var s := Add(items, key, a).value;
    assert key(s[|items|]) == key(b);
  }

  /** The target half of a cross-container move: accepts positions up to
      one past the end of `dst`, because the item is new there, then appends
      `x` and moves it to position `to`. Nothing is appended unless both
      checks pass. */
  function Place<T, K(==)>(dst: seq<T>, key: T -> K, x: T, to: int): (r: Either<ContainerError, seq<T>>)
    ensures (to < 1 || to > |dst| + 1) ==> r == Left(InvalidPositionError)
    ensures 1 <= to <= |dst| + 1 && Includes(dst, key, x) ==> r == Left(ExistingElementError)
    ensures 1 <= to <= |dst| + 1 && !Includes(dst, key, x) ==> r == Right(InsertAt(dst, to - 1, x))
    ensures r.Right? ==> 1 <= to <= |dst| + 1 && r.value == InsertAt(dst, to - 1, x)
    ensures r.Right? ==> Position(r.value, key, x) == Right(to)
    ensures r.Right? && Unique(dst, key) ==> Unique(r.value, key)
  {
    if to < 1 || to > |dst| + 1 then Left(InvalidPositionError)
    else if Includes(dst, key, x) then Left(ExistingElementError)
    else
      var placed := Move(Add(dst, key, x).value, key, x, to).value;
      AppendThenMoveIsInsert(dst, key, x, to);
      assert Unique(dst, key) ==> Unique(placed, key) by {
        if Unique(dst, key) {
          InsertNewKeepsUnique(dst, key, x, to - 1);
        }
      }
      PositionIsFirstFree(dst, key, x, x, to - 1);
      Right(placed)
  }

  /** Appending a new item and then moving it to position `to` inserts it
      there. */
  lemma AppendThenMoveIsInsert<T, K>(dst: seq<T>, key: T -> K, x: T, to: int)
    requires 1 <= to <= |dst| + 1 && !Includes(dst, key, x)
    ensures Add(dst, key, x).Right?
    ensures var appended := Add(dst, key, x).value;
      Move(appended, key, x, to) == Right(InsertAt(dst, to - 1, x))
  {
    var appended := Add(dst, key, x).value;
    assert appended == dst + [x];
    assert IndexOf(appended, key, x) == |dst|;
    assert RemoveAt(appended, |dst|) == dst;
    RemoveInsertIsShift(appended, |dst|, to - 1);
  }

  /** Moves `x` out of `src` and into `dst` at position `to`: the source must
      hold `x`, then the target half is `Place`. The source loses `x` only
      when the target accepts it. */
  function MoveBetween<T, K(==)>(src: seq<T>, dst: seq<T>, key: T -> K, x: T, to: int)
    : (r: Either<ContainerError, (seq<T>, seq<T>)>)
    ensures !Includes(src, key, x) ==> r == Left(UnexistingElementError)
    ensures Includes(src, key, x) && (to < 1 || to > |dst| + 1) ==> r == Left(InvalidPositionError)
    ensures Includes(src, key, x) && 1 <= to <= |dst| + 1 && Includes(dst, key, x) ==>
      r == Left(ExistingElementError)
    ensures Includes(src, key, x) && 1 <= to <= |dst| + 1 && !Includes(dst, key, x) ==>
      r == Right((RemoveAt(src, IndexOf(src, key, x)), InsertAt(dst, to - 1, x)))
    ensures r.Right? ==>
      && 1 <= to <= |dst| + 1
      && r.value.0 == RemoveAt(src, IndexOf(src, key, x))
      && r.value.1 == InsertAt(dst, to - 1, x)
    ensures r.Right? ==> Position(r.value.1, key, x) == Right(to)
    ensures r.Right? && Unique(src, key) ==> Unique(r.value.0, key) && !Includes(r.value.0, key, x)
    ensures r.Right? && Unique(dst, key) ==> Unique(r.value.1, key)
  {
    if !Includes(src, key, x) then Left(UnexistingElementError)
    else
      match Place(dst, key, x, to)
      case Left(e) => Left(e)
      case Right(dst') => Right((Remove(src, key, x).value, dst'))
  }

  /** Inserting an item that is not yet stored puts it at the requested
      position. */
  lemma PositionIsFirstFree<T, K>(dst: seq<T>, key: T -> K, x: T, y: T, k: nat)
    requires key(y) == key(x) && !Includes(dst, key, x)
    requires k <= |dst|
    ensures Position(InsertAt(dst, k, y), key, x) == Right(k + 1)
  {
    var s := InsertAt(dst, k, y);
    assert Includes(s, key, x) by {
      assert key(s[k]) == key(x);
    }
    assert IndexOf(s, key, x) == k;
  }

  /** Swaps in `y` for the stored item equal to it. */
  function Replace<T, K(==)>(items: seq<T>, key: T -> K, y: T): (r: seq<T>)
    requires Includes(items, key, y)
    ensures |r| == |items|
    ensures Includes(r, key, y) && IndexOf(r, key, y) == IndexOf(items, key, y)
    ensures Lookup(r, key, y) == y
    ensures forall i :: 0 <= i < |items| && i != IndexOf(items, key, y) ==> r[i] == items[i]
    ensures Unique(items, key) ==> Unique(r, key)
  {
    var k := IndexOf(items, key, y);
    var r := items[k := y];
    assert key(r[k]) == key(y);
    assert IndexOf(r, key, y) == k;
    r
  }

  /** Removing one item leaves every item with another key in place: it is
      still stored and is still the one found for its key. */
  lemma RemoveKeepsOthers<T, K>(items: seq<T>, key: T -> K, x: T, y: T)
    requires Includes(items, key, x) && Includes(items, key, y)
    requires key(x) != key(y)
    ensures var rest := Remove(items, key, x).value;
      var j := IndexOf(items, key, y);
      && Includes(rest, key, y) && Lookup(rest, key, y) == Lookup(items, key, y)
      && IndexOf(rest, key, y) == if j < IndexOf(items, key, x) then j else j - 1
  {
    var rest := Remove(items, key, x).value;
    var k := IndexOf(items, key, x);
    var j := IndexOf(items, key, y);
    var j' := if j < k then j else j - 1;
    assert rest[j'] == items[j];
    assert Includes(rest, key, y);
    forall i | 0 <= i < j' ensures key(rest[i]) != key(y) {
      var i' := if i < k then i else i + 1;
      assert rest[i] == items[i'];
    }
    assert IndexOf(rest, key, y) == j';
  }

  /** Removing one item and then swapping in a new version of another is
      the same as updating the other in place and then removing the first. */
  lemma ReplaceAfterRemove<T, K>(items: seq<T>, key: T -> K, x: T, y: T)
    requires Includes(items, key, x) && Includes(items, key, y) && key(x) != key(y)
    ensures var rest := Remove(items, key, x).value;
      && Includes(rest, key, y)
      && Replace(rest, key, y) == RemoveAt(items[IndexOf(items, key, y) := y], IndexOf(items, key, x))
  {
    var kl := IndexOf(items, key, x);
    var kt := IndexOf(items, key, y);
    var rest := Remove(items, key, x).value;
    RemoveKeepsOthers(items, key, x, y);
    var kt' := if kt < kl then kt else kt - 1;
    var es := Replace(rest, key, y);
    var expected := RemoveAt(items[kt := y], kl);
    forall i | 0 <= i < |es| ensures es[i] == expected[i] {
      var j := if i < kl then i else i + 1;
      assert expected[i] == items[kt := y][j];
      if i == kt' {
        assert j == kt && es[i] == y;
      } else {
        assert j != kt && es[i] == rest[i] == items[j];
      }
    }
  }

  /** Replacing one item leaves every item with another key in place. */
  lemma ReplaceKeepsOthers<T, K>(items: seq<T>, key: T -> K, x: T, y: T)
    requires Includes(items, key, x) && Includes(items, key, y)
    requires key(x) != key(y)
    ensures var r := Replace(items, key, x);
      && Includes(r, key, y) && Lookup(r, key, y) == Lookup(items, key, y)
      && IndexOf(r, key, y) == IndexOf(items, key, y)
  {
    var r := Replace(items, key, x);
    var k := IndexOf(items, key, x);
    var j := IndexOf(items, key, y);
    assert r[j] == items[j];
    assert Includes(r, key, y);
    forall i | 0 <= i < j ensures key(r[i]) != key(y) {
      if i != k {
        assert r[i] == items[i];
      }
    }
    assert IndexOf(r, key, y) == j;
  }

  /** In [a, b, c] with three different keys, moving b to position 1 gives
      [b, a, c]: b at 1, a at 2, c at 3. */
  lemma MoveSecondOfThreeToFront<T, K>(key: T -> K, a: T, b: T, c: T)
    requires key(a) != key(b) && key(b) != key(c) && key(a) != key(c)
    ensures Move([a, b, c], key, b, 1) == Right([b, a, c])
    ensures Position([b, a, c], key, b) == Right(1)
    ensures Position([b, a, c], key, a) == Right(2)
    ensures Position([b, a, c], key, c) == Right(3)
  {
    var items := [a, b, c];
    var moved := [b, a, c];
    assert Unique(items, key) && Unique(moved, key);
    IndexOfIsOnlyMatch(items, key, b, 1);
    assert Shifted(items, 1, 0) == moved;
    PositionIsOnlyMatch(moved, key, b, 0);
    PositionIsOnlyMatch(moved, key, a, 1);
    PositionIsOnlyMatch(moved, key, c, 2);
  }
}
