/** Small definitions shared by the other modules. */
module Common {

  datatype Option<+T> = None | Some(value: T)

  /** The sum of `weight` over a sequence; with a 0/1 weight, the number of elements that satisfy a predicate. */
  ghost function Sum<T>(s: seq<T>, weight: T -> nat): nat {
    if s == [] then 0 else weight(s[0]) + Sum(s[1..], weight)
  }

  /** Changing one element changes the sum by the difference of the two weights. */
  lemma {:induction false} SumUpdate<T>(s: seq<T>, i: nat, x: T, weight: T -> nat)
    requires i < |s|
    ensures Sum(s[i := x], weight) + weight(s[i]) == Sum(s, weight) + weight(x)
  {
    if i > 0 {
      SumUpdate(s[1..], i - 1, x, weight);
      assert s[i := x][1..] == s[1..][i - 1 := x];
    } else {
      assert s[i := x][1..] == s[1..];
    }
  }

  lemma {:induction false} SumAppend<T>(s: seq<T>, x: T, weight: T -> nat)
    ensures Sum(s + [x], weight) == Sum(s, weight) + weight(x)
  {
    if s == [] {
      assert Sum([x], weight) == weight(x) + Sum([x][1..], weight);
      assert [] + [x] == [x];
    } else {
      SumAppend(s[1..], x, weight);
      assert (s + [x])[1..] == s[1..] + [x];
    }
  }

  /** A sum of naturals is 0 exactly when every weight is 0. */
  lemma {:induction false} SumZero<T>(s: seq<T>, weight: T -> nat)
    ensures Sum(s, weight) == 0 <==> forall i :: 0 <= i < |s| ==> weight(s[i]) == 0
  {
    if s != [] {
      SumZero(s[1..], weight);
      if Sum(s, weight) == 0 {
        forall i | 0 <= i < |s| ensures weight(s[i]) == 0 {
          if i > 0 {
            assert s[i] == s[1..][i - 1];
          }
        }
      }
      if forall i :: 0 <= i < |s| ==> weight(s[i]) == 0 {
        forall i | 0 <= i < |s[1..]| ensures weight(s[1..][i]) == 0 {
          assert s[1..][i] == s[i + 1];
        }
      }
    }
  }
}
