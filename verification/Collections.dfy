/** What several modules need of options, sequences and sets. */
module Collections {

  datatype Option<+T> = None | Some(value: T)

  /** s with k written over it from position at. */
  function Overlay<T>(s: seq<T>, at: nat, k: seq<T>): (r: seq<T>)
    requires at + |k| <= |s|
    ensures |r| == |s|
  {
    s[..at] + k + s[at + |k|..]
  }

  lemma Reassociate<T>(a: seq<T>, b: seq<T>, c: seq<T>)
    ensures (a + b) + c == a + (b + c)
  {
  }

  function Concat<T>(parts: seq<seq<T>>): seq<T> {
    if parts == [] then [] else parts[0] + Concat(parts[1..])
  }

  lemma {:induction false} ConcatAppend<T>(a: seq<seq<T>>, b: seq<seq<T>>)
    ensures Concat(a + b) == Concat(a) + Concat(b)
  {
    if a == [] {
      assert a + b == b;
    } else {
      ConcatAppend(a[1..], b);
      assert (a + b)[1..] == a[1..] + b;
      Reassociate(a[0], Concat(a[1..]), Concat(b));
    }
  }

  lemma ConcatOne<T>(a: seq<seq<T>>, b: seq<T>)
    ensures Concat(a + [b]) == Concat(a) + b
  {
    ConcatAppend(a, [b]);
    assert Concat([b]) == b;
  }

  /** The numbers below n. */
  function Below(n: nat): (a: set<nat>)
    ensures forall r: nat :: r in a <==> r < n
  {
    if n == 0 then {} else Below(n - 1) + {n - 1}
  }
}
