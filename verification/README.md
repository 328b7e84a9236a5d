# Kinetic root handling: degeneracy-aware root stacks and monic Sturm sequences

This project models two pieces of the polynomial root machinery in the
kinetic data structures package.

**The degeneracy-handling root stack (`HDRS`)** decorates the kernel's root
stack for a function `f` on an interval `[lb, ub]`. The wrapped stack hands
out roots one at a time through `top`, `pop` and `empty`. The decorator makes
two changes to that output:

- When the sign of `f` between `lb` and the first root is negative, the
  isolation has missed a root at `lb`. The decorator reports `lb` first, as an
  extra root.
- A root of even multiplicity is reported twice. The first `pop` only sets
  the `one_even` flag. The second `pop` advances the wrapped stack.

`Handle_degeneracy_function_kernel` is a kernel whose `root_stack_object`
builds this decorator around the wrapped kernel's own root stack.

In the model, the wrapped stack is the sequence of roots it would report,
front first (`Hdrs.solver`). The kernel's three capabilities are functions in
a `Kernel` value:

- the root-stack factory;
- the even-multiplicity test;
- the sign between two roots.

`Pending` is the abstraction function. It gives the roots a state will still
report. `Top`, `Pop` and `Empty` are each specified against it, so the
decorator is proved to behave as a plain stack over `Pending`. What it
reports from construction is a reference sequence: `lb` when the sign test
finds the degeneracy, then every wrapped root, with even ones doubled
(`Expand`).

**The monic Sturm sequence (`Monic_Sturm_sequence::compute_sequence`)** builds
a sequence from polynomials `p` and `q`:

1. It adds `p` and then `q`, each divided by the absolute value of its
   leading coefficient. A zero `p` is skipped. A zero `q` stops the
   computation.
2. When `deg p < deg q`, it adds the negated first entry.
3. It then keeps adding the negated remainder of the last two entries,
   normalised the same way, until that remainder is zero.

Polynomials are dense coefficient sequences over `real`, which stands in for
the exact number type. The kernel's remainder operation is defined as
ordinary long division. `IsMonicSturm` characterises the computed sequence
without reference to the loop: the prefix, the rule for each later entry and
the stopping condition. The method is proved to produce a sequence that meets
it, and that sequence is proved unique. The Sturm-chain properties are proved
about the characterisation.

The decorator reports roots in the wrapped stack's order. The constructor
demands that the wrapped top lies above `lb` (Handle_degeneracy_function_kernel.h:45).
When the degeneracy is found, `lb` is reported first, below that top. So
ascending order is the only order that survives in every case.
`AscendingDrain` proves that ascending wrapped roots give ascending output.
Without the degeneracy, the output is the wrapped order with even roots
repeated, whatever that order is. Neither the decorator nor its constructor
checks the order. `WorkedExample` shows this with the wrapped stack 5, 3, 1 on
`[0, 6]`, which yields 0, 5, 3, 3, 1.

## Model

| member | source | states |
|---|---|---|
| HandleDegeneracy.Make | Kinetic_data_structures/include/CGAL/Kinetic/Handle_degeneracy_function_kernel.h:42-57 | Needs a non-empty wrapped stack whose top is above `lb`. The new state keeps the invariant, starts with `one_even` false, and holds the wrapped stack and the function's multiplicity test. It has an extra root, equal to `lb`, exactly when the sign between `lb` and the top is negative. It will report `lb` exactly when the sign between `lb` and the top is negative, then every wrapped root with even ones doubled. |
| HandleDegeneracy.Top | Kinetic_data_structures/include/CGAL/Kinetic/Handle_degeneracy_function_kernel.h:62-66 | On a non-empty stack, the root returned is the first root still to be reported. |
| HandleDegeneracy.Pop | Kinetic_data_structures/include/CGAL/Kinetic/Handle_degeneracy_function_kernel.h:68-80 | Keeps the state invariant, keeps the multiplicity test, and removes exactly the first root still to be reported. |
| HandleDegeneracy.Empty | Kinetic_data_structures/include/CGAL/Kinetic/Handle_degeneracy_function_kernel.h:82-85 | True exactly when no root is left to report. |
| HandleDegeneracy.Drain | Kinetic_data_structures/include/CGAL/Kinetic/Handle_degeneracy_function_kernel.h:62-85 | Alternating `top` and `pop` until `empty` yields exactly the roots still to be reported, and always terminates. |
| HandleDegeneracy.RootStackObject | Kinetic_data_structures/include/CGAL/Kinetic/Handle_degeneracy_function_kernel.h:103-113 | The decorated kernel's factory returns a non-empty, valid stack. Draining it gives the optional `lb`, then the wrapped kernel's roots with even ones doubled. |
| HandleDegeneracy.DrainIsReference | Kinetic_data_structures/include/CGAL/Kinetic/Handle_degeneracy_function_kernel.h:42-80 | From construction, the full output is the reference sequence built from the wrapped stack, the sign test and the multiplicity test. |
| HandleDegeneracy.PopShrinks | Kinetic_data_structures/include/CGAL/Kinetic/Handle_degeneracy_function_kernel.h:68-80 | Each `pop` on a non-empty stack leaves exactly one root fewer to report. |
| HandleDegeneracy.ExtraRootFirst | Kinetic_data_structures/include/CGAL/Kinetic/Handle_degeneracy_function_kernel.h:64-71 | While the extra root is pending, `top` returns it. The `pop` that discards it does not touch the wrapped stack or `one_even`. Afterwards the wrapped roots are reported as the reference says. |
| HandleDegeneracy.EvenRootTwice | Kinetic_data_structures/include/CGAL/Kinetic/Handle_degeneracy_function_kernel.h:73-79 | An even root on top is reported again after one `pop`, with the wrapped stack unmoved and `one_even` set. After the second `pop`, the wrapped stack has advanced by one and `one_even` is clear. |
| HandleDegeneracy.OddRootOnce | Kinetic_data_structures/include/CGAL/Kinetic/Handle_degeneracy_function_kernel.h:76-79 | A root that is not even is reported once: one `pop` advances the wrapped stack and leaves `one_even` clear. |
| HandleDegeneracy.AscendingDrain | Kinetic_data_structures/include/CGAL/Kinetic/Handle_degeneracy_function_kernel.h:45-52 | If the wrapped roots ascend, the decorator's output ascends too. Every root after the first lies strictly above `lb`. |
| HandleDegeneracy.WorkedExample | Kinetic_data_structures/include/CGAL/Kinetic/Handle_degeneracy_function_kernel.h:42-85 | Wrapped stack 5, 3, 1 on `[0, 6]`, with 3 the only even root and a negative sign between 0 and 5, is reported as 0, 5, 3, 3, 1. |
| HandleDegeneracy.ExpandLength | Kinetic_data_structures/include/CGAL/Kinetic/Handle_degeneracy_function_kernel.h:73-79 | Every wrapped root appears in the output and no other value does. The output is between one and two times as long as the wrapped stack. |
| HandleDegeneracy.ExpandCount | Kinetic_data_structures/include/CGAL/Kinetic/Handle_degeneracy_function_kernel.h:73-79 | Each occurrence of a wrapped root that the multiplicity test calls even is reported exactly twice. Every other occurrence is reported exactly once. |
| MonicSturm.Monic | Kinetic_data_structures/include/CGAL/Polynomial/internal/Rational/Monic_Sturm_sequence.h:57 | Dividing a non-zero polynomial by the absolute value of its leading coefficient keeps its degree. The new leading coefficient is 1 or -1, with the sign of the old one. |
| MonicSturm.MonicScaleInvariant | Kinetic_data_structures/include/CGAL/Polynomial/internal/Rational/Monic_Sturm_sequence.h:82-84 | Rescaling the remainder by any positive factor before the division does not change the appended entry. |
| MonicSturm.MonicIdempotent | Kinetic_data_structures/include/CGAL/Polynomial/internal/Rational/Monic_Sturm_sequence.h:84 | Normalising an already normalised entry changes nothing. |
| MonicSturm.AddLeading | Kinetic_data_structures/include/CGAL/Polynomial/internal/Rational/Monic_Sturm_sequence.h:56-70 | Before the loop, the sequence holds the normalised `p` unless `p` is zero. A zero `q` ends it there. Otherwise the normalised `q` follows, then the negated first entry when `deg p < deg q`. `size_` counts the entries. |
| MonicSturm.ComputeSequence | Kinetic_data_structures/include/CGAL/Polynomial/internal/Rational/Monic_Sturm_sequence.h:52-87 | The result meets `IsMonicSturm`: the prefix above, then each entry is the normalised negated remainder of the two before it, stopping exactly when that remainder is zero. Every entry has leading coefficient 1 or -1, and `size_` is the length. |
| MonicSturm.EntriesUnitLead | Kinetic_data_structures/include/CGAL/Polynomial/internal/Rational/Monic_Sturm_sequence.h:57-85 | Every entry of a monic Sturm sequence is non-zero with leading coefficient 1 or -1. |
| MonicSturm.DegreesDecrease | Kinetic_data_structures/include/CGAL/Polynomial/internal/Rational/Monic_Sturm_sequence.h:63-86 | From the second entry on, degrees strictly decrease, which bounds the loop. |
| MonicSturm.SturmChain | Kinetic_data_structures/include/CGAL/Polynomial/internal/Rational/Monic_Sturm_sequence.h:72-86 | Where an inner entry vanishes, its two neighbours either have strictly opposite signs or both vanish. Both vanish when `p` and `q` share a root. This is the Sturm-chain condition that sign-variation counting needs. |
| MonicSturm.ZeroFirstOperand | Kinetic_data_structures/include/CGAL/Polynomial/internal/Rational/Monic_Sturm_sequence.h:53-70 | For zero `p` and non-zero `q`, the limiting case the code comment worries about, the sequence is exactly the normalised `q` followed by its negation. |
| MonicSturm.MonicSturmUnique | Kinetic_data_structures/include/CGAL/Polynomial/internal/Rational/Monic_Sturm_sequence.h:92-96 | At most one sequence meets the characterisation, so the `(p, q, k)` constructor's sequence is determined by `p` and `q`. |
| Polynomials.Remainder | Kinetic_data_structures/include/CGAL/Polynomial/internal/Rational/Monic_Sturm_sequence.h:75-76 | The remainder has degree below the divisor's. |
| Polynomials.RemainderAtRoot | Kinetic_data_structures/include/CGAL/Polynomial/internal/Rational/Monic_Sturm_sequence.h:75-76 | At a root of the divisor, the remainder has the dividend's value. This is what makes each remainder step keep the Sturm condition. |
| Polynomials.EvalAdd | Kinetic_data_structures/include/CGAL/Polynomial/internal/Rational/Monic_Sturm_sequence.h:75-76 | Evaluating a sum of polynomials is the sum of the evaluations. The remainder step relies on this. |
| Polynomials.EvalScale | Kinetic_data_structures/include/CGAL/Polynomial/internal/Rational/Monic_Sturm_sequence.h:57 | Evaluating a scaled polynomial scales the value, so normalising keeps every root and the sign at every point. |

## Left out

- The diagnostic `std::cout` message on a detected degeneracy (Handle_degeneracy_function_kernel.h:48-49) is console output only.
- `estimate()` (Handle_degeneracy_function_kernel.h:86-88) is a floating-point approximation passed through from the wrapped stack.
- `write` and `operator<<` (Handle_degeneracy_function_kernel.h:90-93, 116-119) are text output.
- The default constructor (Handle_degeneracy_function_kernel.h:59) builds a stack with unset fields, and no operation is defined on it.
- `HandleDegeneracy.Make` states the precondition `top() > lb` as a requirement on the caller. The source checks it only in expensive-check builds.
- `HandleDegeneracy.Top` and `HandleDegeneracy.Pop` require a non-empty stack, because the wrapped stack's `top` and `pop` are undefined when it is empty.
- The extra-root slot is `Option`. The source resets it to a default `Root()`, which is never read again.
- Roots are `real`. The wrapped kernel's root type, including any infinite root, is not part of this model.
- The wrapped kernel's root solver, multiplicity test and sign test are inputs to the model. Their correctness is not proved here.
- `Sturm_sequence_base` is not part of this model. Its storage is the sequence itself, and `add`/`size_` are an append and the length.
- `normalize(r, NT())` (Monic_Sturm_sequence.h:79-82) is an overflow workaround for one number type, modelled as the identity. `MonicSturm.MonicScaleInvariant` shows that any positive rescaling there gives the same entry.
- `Polynomials.Remainder` does not state the quotient or the identity dividend = quotient * divisor + remainder. Its contract gives the degree bound, and `Polynomials.RemainderAtRoot` gives the value at the divisor's roots. Those are the two facts the Sturm sequence uses.
- The default constructor of `Monic_Sturm_sequence` (Monic_Sturm_sequence.h:90) builds an empty sequence.
- Sign-variation counting, which consumes the Sturm sequence, lives outside `compute_sequence` and is not part of this model.
