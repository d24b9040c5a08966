/** What the translator's printing steps share: how a step ended, the bookkeeping of loops
    that print as they go, the iteration order of a `HashMap`, and the section banner. */
module Output {
  import opened Netlist

  /** How a printing step ended: it ran to completion, or it threw. */
  datatype Status = Done | Aborted(failure: Failure)

  function StatusOf<T>(r: Result<T>): Status {
    if r.Ok? then Done else Aborted(r.failure)
  }

  /** `Ok(done + rest)` when the remaining work succeeds with `rest`; its failure otherwise.
      Loops that print as they go keep `Spec(all) == Prepend(printed, Spec(remaining))`. */
  function Prepend<T>(done: seq<T>, r: Result<seq<T>>): Result<seq<T>> {
    if r.Ok? then Ok(done + r.value) else r
  }

  lemma PrependPrepend<T>(a: seq<T>, b: seq<T>, r: Result<seq<T>>)
    ensures Prepend(a, Prepend(b, r)) == Prepend(a + b, r)
  {
    if r.Ok? {
      assert a + (b + r.value) == (a + b) + r.value;
    }
  }

  lemma PrependNothing<T>(r: Result<seq<T>>)
    ensures Prepend([], r) == r
  {
    if r.Ok? {
      assert [] + r.value == r.value;
    }
  }

  /** One step of a loop that prints, piece by piece, a result defined as `first :- ...`
      followed by `Prepend(first, rest)`: the whole fails with the piece's failure, or the
      loop goes on with the piece printed. */
  lemma PrependStep<T>(whole: Result<seq<T>>, done: seq<T>, first: Result<seq<T>>, rest: Result<seq<T>>)
    requires whole == Prepend(done, if first.Err? then Err(first.failure) else Prepend(first.value, rest))
    ensures first.Err? ==> whole == Err(first.failure)
    ensures first.Ok? ==> whole == Prepend(done + first.value, rest)
  {
    if first.Ok? {
      PrependPrepend(done, first.value, rest);
    }
  }

  /** What a printing loop has printed after one more piece. */
  lemma PrintedAppend<T>(start: seq<T>, printed: seq<T>, piece: seq<T>)
    ensures start + (printed + piece) == start + printed + piece
  {
  }

  /** `order` is one iteration order of a `HashMap` with the keys of `m`: its last key is
      a key of the map, and the keys before it enumerate the rest of the map. */
  predicate IsEnumeration<V>(order: seq<string>, m: map<string, V>)
    decreases |order|
  {
    if order == [] then m == map[]
    else
      var k := order[|order| - 1];
      k in m && IsEnumeration(order[..|order| - 1], m - {k})
  }

  /** An iteration order lists every key of the map, nothing else, and each key once. */
  lemma {:induction false} EnumerationListsKeys<V>(order: seq<string>, m: map<string, V>)
    requires IsEnumeration(order, m)
    ensures forall k :: k in order <==> k in m
    ensures forall i, j :: 0 <= i < j < |order| ==> order[i] != order[j]
    decreases |order|
  {
    if order != [] {
      var n := |order| - 1;
      var k := order[n];
      EnumerationListsKeys(order[..n], m - {k});
      assert order == order[..n] + [k];
      forall i, j | 0 <= i < j < |order|
        ensures order[i] != order[j]
      {
        assert order[i] == order[..n][i];
        if j < n {
          assert order[j] == order[..n][j];
        } else {
          assert order[i] in order[..n];
        }
      }
    }
  }

  /** An iteration order has one entry per key. */
  lemma {:induction false} EnumerationSize<V>(order: seq<string>, m: map<string, V>)
    requires IsEnumeration(order, m)
    ensures |order| == |m|
    decreases |order|
  {
    if order != [] {
      var k := order[|order| - 1];
      EnumerationSize(order[..|order| - 1], m - {k});
      assert |m - {k}| == |m| - 1 by {
        assert m.Keys == (m - {k}).Keys + {k};
      }
    }
  }

  /** `printSectionIntro(message)`: two empty lines, a rule and the section title. */
  function SectionIntro(message: string): seq<string> {
    ["", "", "####################################################", "# " + message]
  }
}
