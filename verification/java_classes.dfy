/** Runtime classes as far as `Class.isInstance` needs them: a class is its
    name and its superclass chain, which ends at `java.lang.Object`.
    Interfaces are not represented. */
module JavaClasses {
  import opened JavaBase

  datatype JClass = Object | Class(name: string, superclass: JClass)

  /** `c` is `target` or extends it, directly or through its superclass chain. */
  predicate SubclassOf(c: JClass, target: JClass)
  {
    c == target || (c.Class? && SubclassOf(c.superclass, target))
  }

  /** `Class.isInstance`: the reference is non-null and its runtime class is
      a subclass of `clazz`. */
  predicate IsInstance(clazz: JClass, runtimeClass: Option<JClass>)
  {
    runtimeClass.Some? && SubclassOf(runtimeClass.value, clazz)
  }

  /** Number of superclass links between `c` and `java.lang.Object`. */
  function Depth(c: JClass): nat
  {
    match c
    case Object => 0
    case Class(_, s) => 1 + Depth(s)
  }

  /** Every class extends `java.lang.Object`. */
  lemma {:induction false} ObjectIsRoot(c: JClass)
    ensures SubclassOf(c, Object)
  {
    match c
    case Object =>
    case Class(_, s) => ObjectIsRoot(s);
  }

  lemma {:induction false} SubclassTransitive(a: JClass, b: JClass, c: JClass)
    requires SubclassOf(a, b) && SubclassOf(b, c)
    ensures SubclassOf(a, c)
  {
    if a != b {
      SubclassTransitive(a.superclass, b, c);
    }
  }

  /** A subclass sits at least as deep as its superclass, strictly deeper
      unless the two are the same class. */
  lemma {:induction false} SubclassDepth(a: JClass, b: JClass)
    requires SubclassOf(a, b)
    ensures Depth(b) <= Depth(a)
    ensures Depth(b) == Depth(a) ==> a == b
  {
    if a != b {
      SubclassDepth(a.superclass, b);
    }
  }

  /** The subclass relation has no cycles. */
  lemma SubclassAntisymmetric(a: JClass, b: JClass)
    requires SubclassOf(a, b) && SubclassOf(b, a)
    ensures a == b
  {
    SubclassDepth(a, b);
    SubclassDepth(b, a);
  }
}
