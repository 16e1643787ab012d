// What several modules need.
module Common {

  datatype Option<T> = None | Some(value: T)

  // The chunks of a stream, put together.
  ghost function Flat<T>(chunks: seq<seq<T>>): seq<T> {
    if chunks == [] then [] else chunks[0] + Flat(chunks[1..])
  }

  // A number above all of a finite set, so one that is not in it.
  lemma {:induction false} Bound(s: set<nat>) returns (b: nat)
    ensures forall n :: n in s ==> n < b
    decreases |s|
  {
    if s == {} {
      b := 0;
    } else {
      var n :| n in s;
      var c := Bound(s - {n});
      b := if n < c then c else n + 1;
      assert forall m :: m in s ==> m == n || m in s - {n};
    }
  }
}
