/** The classes of exceptions: the direct bases of each class, the fixed ones at the top, and which
    classes derive from which. */
module ExceptionClasses {

  /** The direct bases of each class. */
  type Bases = nat -> seq<nat>

  const EXCEPTION_GROUP: nat := 0
  const BASE_EXCEPTION_GROUP: nat := 1
  const EXCEPTION: nat := 2
  const BASE_EXCEPTION: nat := 3
  const OBJECT: nat := 4

  /** The classes that the interpreter creates at the top of the hierarchy. */
  ghost predicate TopClasses(bases: Bases) {
    && bases(OBJECT) == []
    && bases(BASE_EXCEPTION) == [OBJECT]
    && bases(EXCEPTION) == [BASE_EXCEPTION]
    && bases(BASE_EXCEPTION_GROUP) == [BASE_EXCEPTION]
    && bases(EXCEPTION_GROUP) == [BASE_EXCEPTION_GROUP, EXCEPTION]
  }

  /** A class followed by one of its bases, and so on. */
  ghost predicate IsChain(bases: Bases, chain: seq<nat>) {
    && chain != []
    && forall i | 0 <= i < |chain| - 1 :: chain[i + 1] in bases(chain[i])
  }

  ghost predicate Subclass(bases: Bases, c: nat, d: nat) {
    exists chain :: IsChain(bases, chain) && chain[0] == c && chain[|chain| - 1] == d
  }

  lemma SubclassItself(bases: Bases, c: nat)
    ensures Subclass(bases, c, c)
  {
    assert IsChain(bases, [c]);
  }

  lemma SubclassStep(bases: Bases, c: nat, b: nat, d: nat)
    requires b in bases(c) && Subclass(bases, b, d)
    ensures Subclass(bases, c, d)
  {
    var chain :| IsChain(bases, chain) && chain[0] == b && chain[|chain| - 1] == d;
    assert IsChain(bases, [c] + chain);
  }

  /** A class derives from itself and from whatever its bases derive from. */
  lemma SubclassUnfolds(bases: Bases, c: nat, d: nat)
    ensures Subclass(bases, c, d) <==> c == d || exists b :: b in bases(c) && Subclass(bases, b, d)
  {
    if Subclass(bases, c, d) && c != d {
      var chain :| IsChain(bases, chain) && chain[0] == c && chain[|chain| - 1] == d;
      assert chain[0 + 1] in bases(chain[0]);
      assert IsChain(bases, chain[1..]);
      assert Subclass(bases, chain[1], d);
    }
    SubclassItself(bases, c);
    forall b | b in bases(c) && Subclass(bases, b, d) ensures Subclass(bases, c, d) { SubclassStep(bases, c, b, d); }
  }

  /** What an except* clause admits: an exception class that is no group class. */
  ghost predicate Admissible(bases: Bases, t: nat) {
    Subclass(bases, t, BASE_EXCEPTION) && !Subclass(bases, t, BASE_EXCEPTION_GROUP)
  }

  /** The classes that the classes at the top derive from. */
  lemma AboveTop(bases: Bases, t: nat)
    requires TopClasses(bases)
    ensures Subclass(bases, OBJECT, t) <==> t == OBJECT
    ensures Subclass(bases, BASE_EXCEPTION, t) <==> t in {BASE_EXCEPTION, OBJECT}
    ensures Subclass(bases, EXCEPTION, t) <==> t in {EXCEPTION, BASE_EXCEPTION, OBJECT}
    ensures Subclass(bases, BASE_EXCEPTION_GROUP, t) <==> t in {BASE_EXCEPTION_GROUP, BASE_EXCEPTION, OBJECT}
  {
    hide Subclass;
    SubclassUnfolds(bases, OBJECT, t);
    SubclassUnfolds(bases, BASE_EXCEPTION, t);
    SubclassUnfolds(bases, EXCEPTION, t);
    SubclassUnfolds(bases, BASE_EXCEPTION_GROUP, t);
  }

  /** The only admissible classes that the group classes of the interpreter derive from are Exception
      and BaseException. */
  lemma AdmissibleAboveGroups(bases: Bases, t: nat)
    requires TopClasses(bases)
    ensures Admissible(bases, t) && Subclass(bases, BASE_EXCEPTION_GROUP, t) <==> t == BASE_EXCEPTION
    ensures Admissible(bases, t) && Subclass(bases, EXCEPTION_GROUP, t) <==> t in {EXCEPTION, BASE_EXCEPTION}
  {
    hide Subclass;
    AboveTop(bases, t);
    AboveTop(bases, BASE_EXCEPTION);
    AboveTop(bases, BASE_EXCEPTION_GROUP);
    SubclassUnfolds(bases, EXCEPTION_GROUP, t);
    SubclassUnfolds(bases, EXCEPTION_GROUP, BASE_EXCEPTION_GROUP);
    assert bases(EXCEPTION_GROUP)[0] == BASE_EXCEPTION_GROUP && bases(EXCEPTION_GROUP)[1] == EXCEPTION;
  }
}
