/** A lecture of the catalog: a title, a video address and one private
    container of materials. Every material operation is forwarded to that
    container; the title and the video address never change. Materials are
    compared through a caller-supplied key, since the material type itself
    is not part of this model. */
module Lectures {
  import opened Wrappers
  import Container
  import Seqs

  datatype Lecture<M> = Lecture(title: string, videoUrl: string, materials: seq<M>)

  /** A newly built lecture has an empty material container. */
  function NewLecture<M>(title: string, videoUrl: string): (l: Lecture<M>)
    ensures l.title == title && l.videoUrl == videoUrl
    ensures |l.materials| == 0
  {
    Lecture(title, videoUrl, [])
  }

  /** The key under which containers compare lectures. */
  function TitleOf<M>(l: Lecture<M>): string {
    l.title
  }

  /** Lectures are equal when their titles are. */
  predicate Equals<M>(a: Lecture<M>, b: Lecture<M>) {
    TitleOf(a) == TitleOf(b)
  }

  /** Equality by title is reflexive, symmetric and transitive, and it
      ignores the video address and the materials. */
  lemma EqualsIsEquivalence<M>(a: Lecture<M>, b: Lecture<M>, c: Lecture<M>)
    ensures Equals(a, a)
    ensures Equals(a, b) ==> Equals(b, a)
    ensures Equals(a, b) && Equals(b, c) ==> Equals(a, c)
    ensures a.title == b.title && a.videoUrl != b.videoUrl ==> Equals(a, b)
  {
  }

  /** Adds a material; the only failure is an equal material already
      present. On success the materials are the old ones followed by `m`,
      and nothing else about the lecture changes. */
  function Add<M, K(==)>(l: Lecture<M>, key: M -> K, m: M): (r: Either<Container.ContainerError, Lecture<M>>)
    ensures r.Left? <==> Container.Includes(l.materials, key, m)
    ensures r.Left? ==> r.error == Container.ExistingElementError
    ensures r.Right? ==> r.value.title == l.title && r.value.videoUrl == l.videoUrl
    ensures r.Right? ==>
      && |r.value.materials| == |l.materials| + 1
      && r.value.materials[..|l.materials|] == l.materials
      && r.value.materials[|l.materials|] == m
    ensures r.Right? ==> Container.Position(r.value.materials, key, m) == Right(|r.value.materials|)
  {
    match Container.Add(l.materials, key, m)
    case Left(e) => Left(e)
    case Right(s) => Right(l.(materials := s))
  }

  /** Whether an equal material is stored: some material has the key of
      `m`. Exactly then the material has a position, can be removed, and
      cannot be added again. */
  function Includes<M, K(==)>(l: Lecture<M>, key: M -> K, m: M): (r: bool)
    ensures r <==> exists i :: 0 <= i < |l.materials| && key(l.materials[i]) == key(m)
    ensures r <==> Position(l, key, m).Right?
    ensures r <==> Remove(l, key, m).Right?
    ensures r <==> Add(l, key, m).Left?
  {
    Container.Includes(l.materials, key, m)
  }

  /** Removes a material; the only failure is its absence. On success the
      first material equal to `m` is gone and the others keep their order. */
  function Remove<M, K(==)>(l: Lecture<M>, key: M -> K, m: M): (r: Either<Container.ContainerError, Lecture<M>>)
    ensures r.Left? <==> !Container.Includes(l.materials, key, m)
    ensures r.Left? ==> r.error == Container.UnexistingElementError
    ensures r.Right? ==> r.value.title == l.title && r.value.videoUrl == l.videoUrl
    ensures r.Right? ==>
      var k := Container.IndexOf(l.materials, key, m);
      && |r.value.materials| == |l.materials| - 1
      && r.value.materials[..k] == l.materials[..k]
      && r.value.materials[k..] == l.materials[k + 1..]
    ensures r.Right? && Container.Unique(l.materials, key) ==> !Container.Includes(r.value.materials, key, m)
  {
    match Container.Remove(l.materials, key, m)
    case Left(e) => Left(e)
    case Right(s) =>
      var k := Container.IndexOf(l.materials, key, m);
      assert s[..k] == l.materials[..k];
      assert s[k..] == l.materials[k + 1..];
      Right(l.(materials := s))
  }

  /** The 1-based position of a material; the only failure is its absence. */
  function Position<M, K(==)>(l: Lecture<M>, key: M -> K, m: M): (r: Either<Container.ContainerError, nat>)
    ensures r.Left? <==> !Container.Includes(l.materials, key, m)
    ensures r.Left? ==> r.error == Container.UnexistingElementError
    ensures r.Right? ==> 1 <= r.value <= |l.materials| && key(l.materials[r.value - 1]) == key(m)
    ensures r.Right? ==> forall i :: 0 <= i < r.value - 1 ==> key(l.materials[i]) != key(m)
  {
    Container.Position(l.materials, key, m)
  }

  /** Moves a material to position `to`. An absent material gives
      UnexistingElementError, checked first; a position outside
      `[1, number of materials]` gives InvalidPositionError. On success the
      material lands on `to`, the materials in between shift one place
      toward its old position, and the rest stay put. */
  function Move<M, K(==)>(l: Lecture<M>, key: M -> K, m: M, to: int): (r: Either<Container.ContainerError, Lecture<M>>)
    ensures !Container.Includes(l.materials, key, m) ==> r == Left(Container.UnexistingElementError)
    ensures Container.Includes(l.materials, key, m) && (to < 1 || to > |l.materials|) ==>
      r == Left(Container.InvalidPositionError)
    ensures Container.Includes(l.materials, key, m) && 1 <= to <= |l.materials| ==>
      && r.Right? && r.value.title == l.title && r.value.videoUrl == l.videoUrl
      && r.value.materials == Seqs.Shifted(l.materials, Container.IndexOf(l.materials, key, m), to - 1)
    ensures r.Right? ==> multiset(r.value.materials) == multiset(l.materials)
    ensures r.Right? && Container.Unique(l.materials, key) ==> Container.Position(r.value.materials, key, m) == Right(to)
  {
    match Container.Move(l.materials, key, m, to)
    case Left(e) => Left(e)
    case Right(s) =>
      assert Container.Unique(l.materials, key) ==> Container.Position(s, key, m) == Right(to) by {
        if Container.Unique(l.materials, key) {
          Container.MoveResult(l.materials, key, m, to);
        }
      }
      assert multiset(s) == multiset(l.materials) by {
        var k := Container.IndexOf(l.materials, key, m);
        Seqs.RemoveInsertIsShift(l.materials, k, to - 1);
      }
      Right(l.(materials := s))
  }
}
