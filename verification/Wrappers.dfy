/** Values that may be missing, and outcomes of calls that may fail. */
module Wrappers {
  datatype Option<+T> = None | Some(value: T)

  datatype Result<+T, +E> = Ok(value: T) | Err(error: E)

  /** A set as a listing, in some order. */
  method Listing<T>(s: set<T>) returns (list: seq<T>)
    ensures |list| == |s| && (forall x :: x in list <==> x in s)
    ensures forall i, j :: 0 <= i < j < |list| ==> list[i] != list[j]
  {
    var rest := s;
    list := [];
    while rest != {}
      invariant rest <= s && |list| + |rest| == |s|
      invariant forall x :: x in list <==> x in s && x !in rest
      invariant forall i, j :: 0 <= i < j < |list| ==> list[i] != list[j]
    {
      var x :| x in rest;
      rest, list := rest - {x}, list + [x];
    }
  }

  /** Which calls of a remote API fail, by number. */
  type Faults = nat -> bool

  /** None of the calls from number `first` up to, and without, `end` failed. */
  ghost predicate Smooth(faults: Faults, first: nat, end: nat)
    decreases end
  {
    first < end ==> !faults(end - 1) && Smooth(faults, first, end - 1)
  }

  lemma {:induction false} SmoothMeans(faults: Faults, first: nat, end: nat)
    ensures Smooth(faults, first, end) <==> forall i :: first <= i < end ==> !faults(i)
    decreases end
  {
    if first < end {
      SmoothMeans(faults, first, end - 1);
    }
  }

  lemma {:induction false} SmoothJoin(faults: Faults, first: nat, middle: nat, end: nat)
    requires first <= middle <= end
    ensures Smooth(faults, first, end) <==> Smooth(faults, first, middle) && Smooth(faults, middle, end)
    decreases end
  {
    if middle < end {
      SmoothJoin(faults, first, middle, end - 1);
    }
  }
}
