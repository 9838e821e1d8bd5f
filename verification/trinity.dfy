/** The triple rotation solver of 2_idioms/2_2_mem_replace/src/main.rs. */
module MemReplace {

  datatype Trinity<T> = Trinity(a: T, b: T, c: T)

  /** `Trinity::rotate`: `mem::swap(a, b)` then `mem::swap(b, c)`, which moves
      every field one place to the left. */
  function Rotate<T>(t: Trinity<T>): (r: Trinity<T>)
    ensures r == Trinity(t.b, t.c, t.a)
  {
    var swapped := t.(a := t.b, b := t.a);
    swapped.(b := swapped.c, c := swapped.b)
  }

  /** Three rotations bring every triple back to where it started. */
  lemma RotateThriceIsIdentity<T>(t: Trinity<T>)
    ensures Rotate(Rotate(Rotate(t))) == t
  {
  }

  /** Some rotation by 0, 1 or 2 steps turns `t` into `expected`. */
  predicate Solvable<T(==)>(t: Trinity<T>, expected: Trinity<T>)
  {
    t == expected || Rotate(t) == expected || Rotate(Rotate(t)) == expected
  }

  datatype Solver<T> = Solver(expected: Trinity<T>, unsolved: seq<Trinity<T>>)

  /** `Solver::resolve`: every triple that some rotation turns into `expected`
      now equals `expected`, every other triple is back where it started (it
      was rotated three times), and `expected` and the order and number of the
      triples are unchanged. */
  method Resolve<T(==)>(s: Solver<T>) returns (r: Solver<T>)
    ensures r.expected == s.expected
    ensures |r.unsolved| == |s.unsolved|
    ensures forall i | 0 <= i < |s.unsolved| ::
      r.unsolved[i] == (if Solvable(s.unsolved[i], s.expected) then s.expected else s.unsolved[i])
  {
    var unsolved := s.unsolved;
    var i := 0;
    while i < |unsolved|
      invariant 0 <= i <= |unsolved| == |s.unsolved|
      invariant forall j | 0 <= j < i ::
        unsolved[j] == (if Solvable(s.unsolved[j], s.expected) then s.expected else s.unsolved[j])
      invariant forall j | i <= j < |unsolved| :: unsolved[j] == s.unsolved[j]
    {
      var original := unsolved[i];
      var t := original;
      var k := 0;
      while k < 3
        invariant 0 <= k <= 3
        invariant t == (if k == 0 then original else if k == 1 then Rotate(original)
                        else if k == 2 then Rotate(Rotate(original)) else Rotate(Rotate(Rotate(original))))
        invariant k > 0 ==> original != s.expected
        invariant k > 1 ==> Rotate(original) != s.expected
        invariant k > 2 ==> Rotate(Rotate(original)) != s.expected
      {
        if t == s.expected {
          break;
        }
        t := Rotate(t);
        k := k + 1;
      }
      RotateThriceIsIdentity(original);
      unsolved := unsolved[i := t];
      i := i + 1;
    }
    r := Solver(s.expected, unsolved);
  }
}
