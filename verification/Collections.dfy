/** Small things that several modules share. */
module Collections {

  datatype Option<T> = None | Some(value: T)

  /** The sequences one after another. */
  function Flat<T>(cs: seq<seq<T>>): seq<T> {
    if cs == [] then [] else Flat(cs[..|cs| - 1]) + cs[|cs| - 1]
  }

  lemma FlatLast<T>(cs: seq<seq<T>>)
    requires cs != []
    ensures Flat(cs) == Flat(cs[..|cs| - 1]) + cs[|cs| - 1]
  {
  }

  lemma {:induction false} FlatIndex<T>(cs: seq<seq<T>>, x: T) returns (b: nat)
    requires x in Flat(cs)
    ensures b < |cs| && x in cs[b]
  {
    var k := |cs| - 1;
    if x in cs[k] {
      b := k;
    } else {
      b := FlatIndex(cs[..k], x);
    }
  }

  lemma {:induction false} FlatHas<T>(cs: seq<seq<T>>, b: nat, x: T)
    requires b < |cs| && x in cs[b]
    ensures x in Flat(cs)
  {
    var k := |cs| - 1;
    if b < k {
      FlatHas(cs[..k], b, x);
    }
  }

  lemma Associate<T>(a: seq<T>, b: seq<T>, c: seq<T>)
    ensures a + b + c == a + (b + c)
  {
  }
}
