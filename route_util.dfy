// util.py: checking a labelling against reference distances over every
// ordered pair of graph nodes. Each mismatch the source prints is returned
// as (u, v, expected, got), in the order the nested loops meet them.

module RouteUtil {
  import opened Common
  import opened PllWeighted

  type Mismatch = (int, int, Dist, Dist)

  /** (u, v, e, g) is a pair of `nodes` whose two distances differ, to be reported. */
  predicate IsMismatch(nodes: seq<int>, expected: (int, int) -> Dist, got: (int, int) -> Dist, m: Mismatch)
  {
    m.0 in nodes && m.1 in nodes && m.2 == expected(m.0, m.1) && m.3 == got(m.0, m.1) && m.2 != m.3
  }

  /** The nested loop over u in nodes, v in nodes that reports every pair whose two distances differ. */
  method Mismatches(nodes: seq<int>, expected: (int, int) -> Dist, got: (int, int) -> Dist)
    returns (r: seq<Mismatch>)
    ensures forall m :: m in r ==> IsMismatch(nodes, expected, got, m)
    ensures forall u, v :: u in nodes && v in nodes && expected(u, v) != got(u, v) ==>
      (u, v, expected(u, v), got(u, v)) in r
  {
    r := [];
    for i := 0 to |nodes|
      invariant forall m :: m in r ==> IsMismatch(nodes, expected, got, m)
      invariant forall u, v :: u in nodes[..i] && v in nodes && expected(u, v) != got(u, v) ==>
        (u, v, expected(u, v), got(u, v)) in r
    {
      var u := nodes[i];
      for j := 0 to |nodes|
        invariant forall m :: m in r ==> IsMismatch(nodes, expected, got, m)
        invariant forall x, v :: x in nodes[..i] && v in nodes && expected(x, v) != got(x, v) ==>
          (x, v, expected(x, v), got(x, v)) in r
        invariant forall v :: v in nodes[..j] && expected(u, v) != got(u, v) ==>
          (u, v, expected(u, v), got(u, v)) in r
      {
        var v := nodes[j];
        var e, g := expected(u, v), got(u, v);
        if e != g {
          r := r + [(u, v, e, g)];
        }
        assert nodes[..j + 1] == nodes[..j] + [v];
      }
      assert nodes[..i + 1] == nodes[..i] + [u];
      assert nodes[..|nodes|] == nodes;
    }
    assert nodes[..|nodes|] == nodes;
  }

  /**
   * verify_labels(g, correct_l, test_l, use_sp): the expected distance is the
   * shortest-path distance `sp` (networkx's single_source_dijkstra, a
   * parameter here) when use_sp is set, else the query over correct_l; the
   * reported pairs are exactly those where test_l answers differently.
   */
  method VerifyLabels(nodes: seq<int>, correct: Labels, test: Labels, useSp: bool, sp: (int, int) -> Dist)
    returns (r: seq<Mismatch>)
    ensures forall m :: m in r ==> (m.0 in nodes && m.1 in nodes &&
      m.2 == (if useSp then sp(m.0, m.1) else QueryDistance(correct, m.0, m.1)) &&
      m.3 == QueryDistance(test, m.0, m.1) && m.2 != m.3)
    ensures forall u, v :: u in nodes && v in nodes ==>
      var e := if useSp then sp(u, v) else QueryDistance(correct, u, v);
      e != QueryDistance(test, u, v) ==> (u, v, e, QueryDistance(test, u, v)) in r
  {
    var expected := (u, v) => if useSp then sp(u, v) else QueryDistance(correct, u, v);
    r := Mismatches(nodes, expected, (u, v) => QueryDistance(test, u, v));
  }
}
