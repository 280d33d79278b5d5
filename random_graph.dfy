// The GT-ITM topology reader of ryu/app/distribution/random_graph.py: an
// ".alt" file lists its nodes, then a line starting with "EDGES", then one
// edge per line whose first two space-separated fields are the node ids.
// Reading the file is not modelled: its lines are a parameter, each with its
// line break as `readlines` keeps it.

module RandomGraph {
  import opened Common

  // ---------------------------------------------------------------------
  // str.split(' ')

  /** `s.split(c)`: the pieces between the occurrences of c, empty pieces included. */
  function SplitOn(s: string, c: char): (pieces: seq<string>)
    ensures |pieces| >= 1
    decreases |s|
  {
    if c !in s then [s]
    else
      var i := IndexOfChar(s, c);
      [s[..i]] + SplitOn(s[i + 1..], c)
  }

  /** The first index of c in s. */
  function IndexOfChar(s: string, c: char): (i: nat)
    requires c in s
    ensures i < |s| && s[i] == c && c !in s[..i]
  {
    if s[0] == c then 0 else 1 + IndexOfChar(s[1..], c)
  }

  /** `c.join(pieces)`. */
  function JoinOn(pieces: seq<string>, c: char): string
    requires |pieces| >= 1
  {
    if |pieces| == 1 then pieces[0] else pieces[0] + [c] + JoinOn(pieces[1..], c)
  }

  /** Joining the pieces again gives the string back. */
  lemma {:induction false} JoinSplit(s: string, c: char)
    ensures JoinOn(SplitOn(s, c), c) == s
    decreases |s|
  {
    if c in s {
      var i := IndexOfChar(s, c);
      var rest := SplitOn(s[i + 1..], c);
      assert SplitOn(s, c) == [s[..i]] + rest;
      JoinSplit(s[i + 1..], c);
      JoinCons(s[..i], rest, c);
      SliceAround(s, i);
    }
  }

  lemma JoinCons(p: string, rest: seq<string>, c: char)
    requires |rest| >= 1
    ensures JoinOn([p] + rest, c) == p + [c] + JoinOn(rest, c)
  {
    assert ([p] + rest)[1..] == rest;
  }

  lemma SliceAround(s: string, i: int)
    requires 0 <= i < |s|
    ensures s[..i] + [s[i]] + s[i + 1..] == s
  {
  }

  // ---------------------------------------------------------------------
  // gt_itm_example

  predicate StartsWith(s: string, prefix: string)
  {
    |prefix| <= |s| && s[..|prefix|] == prefix
  }

  /**
   * One edge line: `arr = line.split(' ')[:2]` and `int(arr[0])`,
   * `int(arr[1])`; a line without a space is an IndexError and a field
   * `int` rejects a ValueError (None).
   */
  function EdgeOfLine(line: string): Option<(int, int)>
  {
    var arr := SplitOn(line, ' ');
    if |arr| < 2 then None
    else
      var a, b := ParsePyInt(arr[0]), ParsePyInt(arr[1]);
      if a.None? || b.None? then None else Some((a.value, b.value))
  }

  /** The lines after the first one that starts with "EDGES", or none when there is no such line. */
  function AfterHeader(lines: seq<string>): (rest: seq<string>)
    ensures |rest| <= |lines|
    decreases |lines|
  {
    if lines == [] then []
    else if StartsWith(lines[0], "EDGES") then lines[1..]
    else AfterHeader(lines[1..])
  }

  /** The parse of every line, in order. */
  function ParsedLines(lines: seq<string>): (ps: seq<Option<(int, int)>>)
    ensures |ps| == |lines| && forall k :: 0 <= k < |lines| ==> ps[k] == EdgeOfLine(lines[k])
  {
    seq(|lines|, k requires 0 <= k < |lines| => EdgeOfLine(lines[k]))
  }

  /** `g.add_edge(a, b)` for every parsed edge line, or None at the first line that raised. */
  function AddParsed(g: Adj, ps: seq<Option<(int, int)>>): Option<Adj>
    decreases |ps|
  {
    if ps == [] then Some(g)
    else
      match ps[0]
      case None => None
      case Some(e) => AddParsed(AddUndirectedEdge(g, e.0, e.1), ps[1..])
  }

  /** The edge loop over the lines after the header. */
  function AddEdges(g: Adj, lines: seq<string>): Option<Adj>
  {
    AddParsed(g, ParsedLines(lines))
  }

  function GtItm(lines: seq<string>): Option<Adj>
  {
    AddEdges(map[], AfterHeader(lines))
  }

  /** One turn of the edge loop: parse the first line, then add its edge or raise. */
  lemma AddEdgesStep(g: Adj, lines: seq<string>)
    requires lines != []
    ensures AddEdges(g, lines) ==
      match EdgeOfLine(lines[0])
      case None => None
      case Some(e) => AddEdges(AddUndirectedEdge(g, e.0, e.1), lines[1..])
  {
    assert ParsedLines(lines)[1..] == ParsedLines(lines[1..]);
  }

  /** `gt_itm_example` over the lines of the file; None stands for the exception. */
  method GtItmExample(lines: seq<string>) returns (r: Option<Adj>)
    ensures r == GtItm(lines)
  {
    var g: Adj := map[];
    var flag := false;
    var i := 0;
    while i < |lines|
      invariant 0 <= i <= |lines|
      invariant !flag ==> AfterHeader(lines) == AfterHeader(lines[i..]) && g == map[]
      invariant flag ==> AddEdges(map[], AfterHeader(lines)) == AddEdges(g, lines[i..])
    {
      assert lines[i..][1..] == lines[i + 1..];
      var line := lines[i];
      if !flag && StartsWith(line, "EDGES") {
        flag := true;
      } else if flag {
        AddEdgesStep(g, lines[i..]);
        var e := EdgeOfLine(line);
        if e.None? {
          return None;
        }
        g := AddUndirectedEdge(g, e.value.0, e.value.1);
      }
      i := i + 1;
    }
    assert lines[i..] == [];
    r := Some(g);
  }

  /** Everything up to and including the first "EDGES" line is ignored. */
  lemma {:induction false} HeaderIgnored(head: seq<string>, header: string, body: seq<string>)
    requires forall k :: 0 <= k < |head| ==> !StartsWith(head[k], "EDGES")
    requires StartsWith(header, "EDGES")
    ensures GtItm(head + [header] + body) == AddEdges(map[], body)
    decreases |head|
  {
    if head == [] {
      assert head + [header] + body == [header] + body;
      assert ([header] + body)[1..] == body;
    } else {
      assert (head + [header] + body)[1..] == head[1..] + [header] + body;
      HeaderIgnored(head[1..], header, body);
    }
  }

  /** After the header the graph is defined exactly when every line is an edge line. */
  lemma AddEdgesDefined(g: Adj, lines: seq<string>)
    ensures AddEdges(g, lines).Some? <==> forall k :: 0 <= k < |lines| ==> EdgeOfLine(lines[k]).Some?
  {
    AddParsedDefined(g, ParsedLines(lines));
  }

  lemma {:induction false} AddParsedDefined(g: Adj, ps: seq<Option<(int, int)>>)
    ensures AddParsed(g, ps).Some? <==> forall k :: 0 <= k < |ps| ==> ps[k].Some?
    decreases |ps|
  {
    if ps != [] {
      var rest := ps[1..];
      assert forall k :: 0 <= k < |rest| ==> rest[k] == ps[k + 1];
      match ps[0]
      case None =>
      case Some(e) =>
        AddParsedDefined(AddUndirectedEdge(g, e.0, e.1), rest);
    }
  }

  /** Adding edges keeps every node and neighbour already there. */
  lemma {:induction false} AddParsedGrows(g: Adj, ps: seq<Option<(int, int)>>)
    requires AddParsed(g, ps).Some?
    ensures forall x :: x in g ==> x in AddParsed(g, ps).value && g[x] <= AddParsed(g, ps).value[x]
    decreases |ps|
  {
    if ps != [] {
      var e := ps[0].value;
      AddParsedGrows(AddUndirectedEdge(g, e.0, e.1), ps[1..]);
    }
  }

  /** Each edge line (a, b) makes b a neighbour of a and a a neighbour of b. */
  lemma AddEdgesHas(g: Adj, lines: seq<string>, k: nat)
    requires AddEdges(g, lines).Some? && k < |lines|
    ensures EdgeOfLine(lines[k]).Some?
    ensures var e, h := EdgeOfLine(lines[k]).value, AddEdges(g, lines).value;
      e.0 in h && e.1 in h && e.1 in h[e.0] && e.0 in h[e.1]
  {
    AddParsedHas(g, ParsedLines(lines), k);
  }

  lemma {:induction false} AddParsedHas(g: Adj, ps: seq<Option<(int, int)>>, k: nat)
    requires AddParsed(g, ps).Some? && k < |ps|
    ensures ps[k].Some?
    ensures var e, h := ps[k].value, AddParsed(g, ps).value;
      e.0 in h && e.1 in h && e.1 in h[e.0] && e.0 in h[e.1]
    decreases |ps|
  {
    var e := ps[0].value;
    var g1 := AddUndirectedEdge(g, e.0, e.1);
    if k == 0 {
      AddParsedGrows(g1, ps[1..]);
    } else {
      assert ps[1..][k - 1] == ps[k];
      AddParsedHas(g1, ps[1..], k - 1);
    }
  }

  /** A file without an "EDGES" line gives the empty graph. */
  lemma NoHeaderNoEdges(lines: seq<string>)
    requires forall k :: 0 <= k < |lines| ==> !StartsWith(lines[k], "EDGES")
    ensures GtItm(lines) == Some(map[])
  {
    NoHeaderRest(lines);
  }

  lemma {:induction false} NoHeaderRest(lines: seq<string>)
    requires forall k :: 0 <= k < |lines| ==> !StartsWith(lines[k], "EDGES")
    ensures AfterHeader(lines) == []
    decreases |lines|
  {
    if lines != [] {
      assert !StartsWith(lines[0], "EDGES");
      var rest := lines[1..];
      assert forall k :: 0 <= k < |rest| ==> rest[k] == lines[k + 1];
      NoHeaderRest(rest);
    }
  }

  /** An edge line `"<a> <b> …"` is the edge (a, b). */
  lemma EdgeLineParses(a: nat, b: nat, tail: string)
    ensures EdgeOfLine(NatToString(a) + " " + NatToString(b) + " " + tail) == Some((a, b))
  {
    var sa, sb := NatToString(a), NatToString(b);
    assert ' ' !in sa && ' ' !in sb;
    var arr := SplitOn(sa + " " + sb + " " + tail, ' ');
    TwoFields(sa, sb, tail);
    ParsePyIntOfString(a);
    ParsePyIntOfString(b);
  }

  /** The first two fields of `"<x> <y> …"` are x and y. */
  lemma TwoFields(x: string, y: string, tail: string)
    requires ' ' !in x && ' ' !in y
    ensures |SplitOn(x + " " + y + " " + tail, ' ')| >= 2
    ensures SplitOn(x + " " + y + " " + tail, ' ')[0] == x && SplitOn(x + " " + y + " " + tail, ' ')[1] == y
  {
    var r := y + " " + tail;
    var s := x + " " + y + " " + tail;
    assert s == x + " " + r;
    FirstSpace(x, r);
    FirstSpace(y, tail);
  }

  lemma FirstSpace(x: string, y: string)
    requires ' ' !in x
    ensures SplitOn(x + " " + y, ' ') == [x] + SplitOn(y, ' ')
  {
    var s := x + " " + y;
    assert s[..|x|] == x && s[|x|] == ' ' && s[|x| + 1..] == y;
    SplitAtFirst(s, |x|);
  }

  /** Splitting at the first separator, wherever it is. */
  lemma SplitAtFirst(s: string, i: int)
    requires 0 <= i < |s| && s[i] == ' ' && ' ' !in s[..i]
    ensures SplitOn(s, ' ') == [s[..i]] + SplitOn(s[i + 1..], ' ')
  {
    var j := IndexOfChar(s, ' ');
    assert j == i;
  }

  // ---------------------------------------------------------------------
  // gt_itm_ts and gt_itm_r

  /** `f"graphs/ts{n}-0.alt"`. */
  function TsFileName(n: int): string
  {
    "graphs/ts" + IntToString(n) + "-0.alt"
  }

  /** Different sizes read different files. */
  lemma TsFileNameInjective(a: int, b: int)
    requires TsFileName(a) == TsFileName(b)
    ensures a == b
  {
    var sa, sb := IntToString(a), IntToString(b);
    assert |sa| == |sb|;
    assert sa == TsFileName(a)[9..9 + |sa|];
    assert sb == TsFileName(b)[9..9 + |sb|];
    IntToStringInjective(a, b);
  }

  /** `gt_itm_ts(n)`: `gt_itm_example` on the file for size n, whose lines read gives. */
  method GtItmTs(n: int, read: string -> seq<string>) returns (g: Option<Adj>)
    ensures g == GtItm(read(TsFileName(n)))
  {
    g := GtItmExample(read(TsFileName(n)));
  }

  /** The arguments of a `random_graph(n, p, w)` call; the draw itself is not modelled. */
  datatype RandomGraphCall = RandomGraphCall(n: int, p: real, w: int)

  /** `gt_itm_r(n)`: one random-graph configuration per supported size, None otherwise. */
  function GtItmR(n: int): (r: Option<RandomGraphCall>)
    ensures r.None? <==> n !in {100, 175, 250, 325, 400}
    ensures r.Some? ==> r.value.n == n && r.value.w == 1 && 0.0 < r.value.p < 1.0
  {
    if n == 100 then Some(RandomGraphCall(100, 0.04, 1))
    else if n == 175 then Some(RandomGraphCall(175, 0.02, 1))
    else if n == 250 then Some(RandomGraphCall(250, 0.01, 1))
    else if n == 325 then Some(RandomGraphCall(325, 0.01, 1))
    else if n == 400 then Some(RandomGraphCall(400, 0.009, 1))
    else None
  }
}
