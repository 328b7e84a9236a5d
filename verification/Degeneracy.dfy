/*
 * The degeneracy-handling root stack (HDRS) of the kinetic data structures
 * package, and the kernel decorator whose root-stack factory builds it.
 *
 * A root stack hands out the roots of a function on an interval one at a
 * time: `Top` reads the current root, `Pop` advances, `Empty` says whether
 * anything is left.  The wrapped stack is modelled by the sequence of roots
 * it would report, front first.  HDRS changes that sequence in two ways:
 *  - when the sign of the function between the lower bound and the first
 *    root is negative, the lower bound itself is reported first;
 *  - a root of even multiplicity is reported twice.
 *
 * `Pending` is the abstraction function: the roots a state will still
 * report.  Every operation is specified against it, so that HDRS is shown to
 * behave as a plain stack over `Pending`.
 */
module HandleDegeneracy {

  type Root = real

  datatype Option<T> = None | Some(value: T)

  datatype Sign = Negative | Zero | Positive

  /** The three capabilities of the wrapped kernel that HDRS uses. */
  datatype Kernel<-F> = Kernel(
    rootStack: (F, Root, Root) -> seq<Root>,
    isEvenMultiplicity: F -> Root -> bool,
    signBetweenRoots: (Root, Root) -> F -> Sign)

  /**
   * The decorator's state: the remaining roots of the wrapped stack
   * (front = top), the optional extra root at the lower bound, whether the
   * current top has already been reported once as an even root, and the
   * multiplicity test for the function.
   */
  datatype Hdrs = Hdrs(
    solver: seq<Root>,
    extraRoot: Option<Root>,
    oneEven: bool,
    hasExtra: bool,
    iem: Root -> bool)

  /** The reference sequence: each root of `xs`, even ones twice. */
  function Expand(xs: seq<Root>, iem: Root -> bool): seq<Root>
  {
    if |xs| == 0 then []
    else (if iem(xs[0]) then [xs[0], xs[0]] else [xs[0]]) + Expand(xs[1..], iem)
  }

  /** The state invariant every operation keeps. */
  predicate Valid(s: Hdrs)
  {
    && (s.hasExtra <==> s.extraRoot.Some?)
    && (s.oneEven ==> !s.hasExtra && |s.solver| > 0 && s.iem(s.solver[0]))
  }

  /** The roots still to be reported, in order. */
  function Pending(s: Hdrs): seq<Root>
    requires Valid(s)
  {
    (if s.hasExtra then [s.extraRoot.value] else [])
    + (if s.oneEven then Expand(s.solver, s.iem)[1..] else Expand(s.solver, s.iem))
  }

  /** What the constructor demands: the wrapped stack starts above `lb`. */
  predicate CanStart<F>(k: Kernel<F>, f: F, lb: Root, ub: Root)
  {
    |k.rootStack(f, lb, ub)| > 0 && k.rootStack(f, lb, ub)[0] > lb
  }

  /** The HDRS constructor. */
  function Make<F>(k: Kernel<F>, f: F, lb: Root, ub: Root): (s: Hdrs)
    requires CanStart(k, f, lb, ub)
    ensures Valid(s)
    ensures Pending(s)
         == (if k.signBetweenRoots(lb, k.rootStack(f, lb, ub)[0])(f) == Negative then [lb] else [])
            + Expand(k.rootStack(f, lb, ub), k.isEvenMultiplicity(f))
    ensures s.hasExtra <==> k.signBetweenRoots(lb, k.rootStack(f, lb, ub)[0])(f) == Negative
    ensures s.hasExtra ==> s.extraRoot == Some(lb)
    ensures s.solver == k.rootStack(f, lb, ub) && s.iem == k.isEvenMultiplicity(f)
    ensures !s.oneEven
  {
    var solver := k.rootStack(f, lb, ub);
    if k.signBetweenRoots(lb, solver[0])(f) == Negative then
      Hdrs(solver, Some(lb), false, true, k.isEvenMultiplicity(f))
    else
      Hdrs(solver, None, false, false, k.isEvenMultiplicity(f))
  }

  /** True iff the stack has nothing left to report. */
  function Empty(s: Hdrs): (r: bool)
    requires Valid(s)
    ensures r <==> Pending(s) == []
  {
    ExpandEmpty(s.solver, s.iem);
    !s.hasExtra && |s.solver| == 0
  }

  /** The current root. */
  function Top(s: Hdrs): (r: Root)
    requires Valid(s) && !Empty(s)
    ensures r == Pending(s)[0]
  {
    if s.hasExtra then s.extraRoot.value
    else
      ExpandHead(s.solver, s.iem);
      s.solver[0]
  }

  /** Advances past the current root. */
  function Pop(s: Hdrs): (r: Hdrs)
    requires Valid(s) && !Empty(s)
    ensures Valid(r)
    ensures Pending(r) == Pending(s)[1..]
    ensures r.iem == s.iem
  {
    if s.hasExtra then
      s.(extraRoot := None, hasExtra := false)
    else
      ExpandHead(s.solver, s.iem);
      if !s.oneEven && s.iem(s.solver[0]) then
      s.(oneEven := true)
    else
      s.(solver := s.solver[1..], oneEven := false)
  }

  /** The roots a client reads by alternating `Top` and `Pop` until `Empty`. */
  function Drain(s: Hdrs): (r: seq<Root>)
    requires Valid(s)
    ensures r == Pending(s)
    decreases |Pending(s)|
  {
    if Empty(s) then [] else [Top(s)] + Drain(Pop(s))
  }

  /** The decorated kernel's root-stack factory. */
  function RootStackObject<F>(k: Kernel<F>, f: F, lb: Root, ub: Root): (s: Hdrs)
    requires CanStart(k, f, lb, ub)
    ensures Valid(s) && !Empty(s)
    ensures Drain(s)
         == (if k.signBetweenRoots(lb, k.rootStack(f, lb, ub)[0])(f) == Negative then [lb] else [])
            + Expand(k.rootStack(f, lb, ub), k.isEvenMultiplicity(f))
  {
    ExpandEmpty(k.rootStack(f, lb, ub), k.isEvenMultiplicity(f));
    Make(k, f, lb, ub)
  }

  // ---------------------------------------------------------------------
  // Facts about the reference sequence
  // ---------------------------------------------------------------------

  lemma ExpandEmpty(xs: seq<Root>, iem: Root -> bool)
    ensures Expand(xs, iem) == [] <==> xs == []
  {
  }

  lemma ExpandHead(xs: seq<Root>, iem: Root -> bool)
    requires |xs| > 0
    ensures |Expand(xs, iem)| > 0 && Expand(xs, iem)[0] == xs[0]
    ensures iem(xs[0]) ==> Expand(xs, iem)[1..] == [xs[0]] + Expand(xs[1..], iem)
    ensures !iem(xs[0]) ==> Expand(xs, iem)[1..] == Expand(xs[1..], iem)
  {
    var head := if iem(xs[0]) then [xs[0], xs[0]] else [xs[0]];
    var rest := Expand(xs[1..], iem);
    assert Expand(xs, iem) == head + rest;
    assert (head + rest)[1..] == head[1..] + rest;
  }

  /** Every root appears in the output, nothing else does, and the output is
      between one and two times as long as the input. */
  lemma {:induction false} ExpandLength(xs: seq<Root>, iem: Root -> bool)
    ensures |xs| <= |Expand(xs, iem)| <= 2 * |xs|
    ensures forall x :: x in Expand(xs, iem) <==> x in xs
  {
    if |xs| > 0 {
      ExpandLength(xs[1..], iem);
      assert xs == [xs[0]] + xs[1..];
    }
  }

  /** Each occurrence of an even root is reported twice, of any other root once. */
  lemma {:induction false} ExpandCount(xs: seq<Root>, iem: Root -> bool)
    ensures forall x :: iem(x) ==> multiset(Expand(xs, iem))[x] == 2 * multiset(xs)[x]
    ensures forall x :: !iem(x) ==> multiset(Expand(xs, iem))[x] == multiset(xs)[x]
  {
    if |xs| > 0 {
      ExpandCount(xs[1..], iem);
      ExpandSplit(xs, iem);
    }
  }

  /** One step of `Expand`, as multisets. */
  lemma ExpandSplit(xs: seq<Root>, iem: Root -> bool)
    requires |xs| > 0
    ensures multiset(Expand(xs, iem))
         == multiset(if iem(xs[0]) then [xs[0], xs[0]] else [xs[0]]) + multiset(Expand(xs[1..], iem))
    ensures multiset(xs) == multiset([xs[0]]) + multiset(xs[1..])
  {
    assert xs == [xs[0]] + xs[1..];
  }

  predicate Ascending(xs: seq<Root>)
  {
    forall i, j :: 0 <= i < j < |xs| ==> xs[i] <= xs[j]
  }

  /** Doubling even roots keeps an ascending sequence ascending. */
  lemma {:induction false} ExpandAscending(xs: seq<Root>, iem: Root -> bool)
    requires Ascending(xs)
    ensures Ascending(Expand(xs, iem))
    ensures forall y :: y in Expand(xs, iem) ==> xs[0] <= y
  {
    if |xs| > 0 {
      var rest := Expand(xs[1..], iem);
      assert Ascending(xs[1..]);
      ExpandAscending(xs[1..], iem);
      ExpandLength(xs[1..], iem);
      var head := if iem(xs[0]) then [xs[0], xs[0]] else [xs[0]];
      assert Expand(xs, iem) == head + rest;
      forall y | y in rest ensures xs[0] <= y {
        var i :| 0 <= i < |xs[1..]| && xs[1..][i] == y;
        assert xs[1 + i] == y;
      }
      AppendAscending(head, rest);
    }
  }

  lemma AppendAscending(a: seq<Root>, b: seq<Root>)
    requires Ascending(a) && Ascending(b)
    requires forall x, y :: x in a && y in b ==> x <= y
    ensures Ascending(a + b)
  {
    forall i, j | 0 <= i < j < |a + b| ensures (a + b)[i] <= (a + b)[j] {
      if j < |a| {
      } else if i >= |a| {
        assert (a + b)[i] == b[i - |a|] && (a + b)[j] == b[j - |a|];
      } else {
        assert (a + b)[i] in a && (a + b)[j] in b;
      }
    }
  }

  // ---------------------------------------------------------------------
  // Properties of the decorator
  // ---------------------------------------------------------------------

  /**
   * The drained sequence is the reference: the lower bound when the sign
   * test finds the degeneracy, then every root of the wrapped stack with
   * even ones repeated.
   */
  lemma {:induction false} DrainIsReference<F>(k: Kernel<F>, f: F, lb: Root, ub: Root)
    requires CanStart(k, f, lb, ub)
    ensures var xs := k.rootStack(f, lb, ub);
            Drain(Make(k, f, lb, ub))
            == (if k.signBetweenRoots(lb, xs[0])(f) == Negative then [lb] else [])
               + Expand(xs, k.isEvenMultiplicity(f))
  {
    var s := Make(k, f, lb, ub);
    assert Drain(s) == Pending(s);
  }

  /** `Pop` strictly shrinks what is left, so draining always terminates. */
  lemma PopShrinks(s: Hdrs)
    requires Valid(s) && !Empty(s)
    ensures |Pending(Pop(s))| == |Pending(s)| - 1
  {
  }

  /**
   * With the extra root pending, `Top` is the extra root and `Pop` only
   * discards it: the wrapped stack is untouched.
   */
  lemma ExtraRootFirst(s: Hdrs)
    requires Valid(s) && s.hasExtra
    ensures Top(s) == s.extraRoot.value
    ensures var r := Pop(s); !r.hasExtra && r.solver == s.solver && r.oneEven == s.oneEven
    ensures Pending(Pop(s)) == Expand(s.solver, s.iem)
  {
  }

  /**
   * An even root on top is reported twice: after one `Pop` the same root is
   * on top and the wrapped stack has not moved; after the second `Pop` the
   * wrapped stack has advanced by exactly one and `oneEven` is clear.
   */
  lemma EvenRootTwice(s: Hdrs)
    requires Valid(s) && !s.hasExtra && !s.oneEven
    requires |s.solver| > 0 && s.iem(s.solver[0])
    ensures !Empty(Pop(s)) && Top(Pop(s)) == Top(s)
    ensures Pop(s).solver == s.solver && Pop(s).oneEven
    ensures Pop(Pop(s)).solver == s.solver[1..] && !Pop(Pop(s)).oneEven
  {
  }

  /** An odd root on top is reported once: one `Pop` advances the wrapped stack. */
  lemma OddRootOnce(s: Hdrs)
    requires Valid(s) && !s.hasExtra && !s.oneEven
    requires |s.solver| > 0 && !s.iem(s.solver[0])
    ensures Pop(s).solver == s.solver[1..] && !Pop(s).oneEven
  {
  }

  /**
   * When the wrapped stack reports its roots in increasing order, so does
   * the decorator: the extra root `lb` lies below the first wrapped root.
   */
  lemma AscendingDrain<F>(k: Kernel<F>, f: F, lb: Root, ub: Root)
    requires CanStart(k, f, lb, ub) && Ascending(k.rootStack(f, lb, ub))
    ensures var d := Drain(RootStackObject(k, f, lb, ub));
            Ascending(d) && forall i :: 0 < i < |d| ==> lb < d[i]
  {
    var xs := k.rootStack(f, lb, ub);
    var rest := Expand(xs, k.isEvenMultiplicity(f));
    ExpandAscending(xs, k.isEvenMultiplicity(f));
    var head := if k.signBetweenRoots(lb, xs[0])(f) == Negative then [lb] else [];
    assert Drain(RootStackObject(k, f, lb, ub)) == head + rest;
    AppendAscending(head, rest);
    BoundAfterHead(head, rest, lb, xs[0]);
  }

  /** Everything after an optional `lb` head lies above `lb`. */
  lemma BoundAfterHead(head: seq<Root>, rest: seq<Root>, lb: Root, first: Root)
    requires head == [] || head == [lb]
    requires lb < first && forall y :: y in rest ==> first <= y
    ensures forall i :: 0 < i < |head + rest| ==> lb < (head + rest)[i]
  {
    forall i | 0 < i < |head + rest| ensures lb < (head + rest)[i] {
      assert (head + rest)[i] == rest[i - |head|] && rest[i - |head|] in rest;
    }
  }

  /**
   * A worked example: a kernel whose wrapped stack for `f` on [0, 6] is
   * 5, 3, 1, which classifies 3 as the only even root, and whose sign between
   * 0 and 5 is negative.  The decorator reports 0, 5, 3, 3, 1.
   */
  lemma WorkedExample<F>(k: Kernel<F>, f: F)
    requires k.rootStack(f, 0.0, 6.0) == [5.0, 3.0, 1.0]
    requires forall x :: k.isEvenMultiplicity(f)(x) <==> x == 3.0
    requires k.signBetweenRoots(0.0, 5.0)(f) == Negative
    ensures CanStart(k, f, 0.0, 6.0)
    ensures Drain(RootStackObject(k, f, 0.0, 6.0)) == [0.0, 5.0, 3.0, 3.0, 1.0]
  {
    var iem := k.isEvenMultiplicity(f);
    var xs: seq<Root> := [5.0, 3.0, 1.0];
    assert xs[1..] == [3.0, 1.0] && xs[1..][1..] == [1.0] && xs[1..][1..][1..] == [];
    assert Expand([1.0], iem) == [1.0];
    assert Expand([3.0, 1.0], iem) == [3.0, 3.0, 1.0];
    assert Expand(xs, iem) == [5.0, 3.0, 3.0, 1.0];
  }
}
