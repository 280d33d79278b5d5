// Shared vocabulary of the model: optional values, Python's integers
// extended with math.inf, choosing from and sorting sets of integers, and
// decimal renderings of integers.

module Common {

  datatype Option<T> = None | Some(value: T)

  /** A Python distance: an integer or math.inf. */
  datatype Dist = Fin(n: int) | Inf

  /** Python's `a + b` on distances: anything plus inf is inf. */
  function Add(a: Dist, b: Dist): Dist
  {
    if a.Fin? && b.Fin? then Fin(a.n + b.n) else Inf
  }

  /** `a + w` for a distance and a plain integer weight. */
  function AddW(a: Dist, w: int): Dist
  {
    if a.Fin? then Fin(a.n + w) else Inf
  }

  /** Python's `a <= b` on distances. */
  predicate Le(a: Dist, b: Dist)
  {
    b.Inf? || (a.Fin? && a.n <= b.n)
  }

  /** Python's `a < b` on distances. */
  predicate Lt(a: Dist, b: Dist)
  {
    a.Fin? && (b.Inf? || a.n < b.n)
  }

  /** Python's `min(a, b)`: the first argument unless the second is smaller. */
  function Min(a: Dist, b: Dist): (m: Dist)
    ensures Le(m, a) && Le(m, b) && (m == a || m == b)
  {
    if Lt(b, a) then b else a
  }

  lemma LtIsNotLe(a: Dist, b: Dist)
    ensures Lt(a, b) <==> !Le(b, a)
  {
  }

  // ---------------------------------------------------------------------
  // Sets of integers

  lemma MinimumExists(s: set<int>)
    requires s != {}
    ensures exists m :: m in s && forall x :: x in s ==> m <= x
    decreases s
  {
    var y := PickElement(s);
    if s == {y} {
      assert forall x :: x in s ==> y <= x;
    } else {
      MinimumExists(s - {y});
      var m :| m in s - {y} && forall x :: x in s - {y} ==> m <= x;
      var best := if y < m then y else m;
      forall x | x in s ensures best <= x {
        if x != y { assert x in s - {y}; }
      }
      assert best in s;
    }
  }

  lemma PickElement<T>(s: set<T>) returns (y: T)
    requires s != {}
    ensures y in s
  {
    assert |s| > 0;
    y :| y in s;
  }

  /** Some element of a non-empty set: the order in which Python iterates a set or dict. */
  method Pick<T>(s: set<T>) returns (y: T)
    requires s != {}
    ensures y in s
  {
    y :| y in s;
  }

  /** The least element of a non-empty set. */
  function SetMin(s: set<int>): (m: int)
    requires s != {}
    ensures m in s && forall x :: x in s ==> m <= x
  {
    MinimumExists(s);
    var m :| m in s && forall x :: x in s ==> m <= x; m
  }

  predicate StrictlyIncreasing(xs: seq<int>)
  {
    forall i, j :: 0 <= i < j < |xs| ==> xs[i] < xs[j]
  }

  /** Python's `sorted(s)` for a set of integers. */
  function SortedSet(s: set<int>): (xs: seq<int>)
    ensures StrictlyIncreasing(xs)
    ensures forall x :: x in xs <==> x in s
    ensures |xs| == |s|
    decreases s
  {
    if s == {} then []
    else
      var m := SetMin(s);
      var rest := SortedSet(s - {m});
      assert forall x :: x in rest ==> m < x;
      [m] + rest
  }

  /** Distinct elements, as in the keys of a Python dict or the nodes of a graph. */
  predicate Distinct<T(==)>(xs: seq<T>)
  {
    forall i, j :: 0 <= i < j < |xs| ==> xs[i] != xs[j]
  }

  // ---------------------------------------------------------------------
  // Unweighted undirected graphs

  /** An undirected networkx graph without attributes: node -> neighbours. */
  type Adj = map<int, set<int>>

  /** `G.add_edge(a, b)` on an undirected graph: both ends become nodes and each is the other's neighbour. */
  function AddUndirectedEdge(g: Adj, a: int, b: int): (h: Adj)
    ensures h.Keys == g.Keys + {a, b}
    ensures forall x :: x in h ==> h[x] == (if x in g then g[x] else {}) + (if x == a then {b} else {}) + (if x == b then {a} else {})
  {
    var g1 := g[a := (if a in g then g[a] else {}) + {b}];
    g1[b := (if b in g1 then g1[b] else {}) + {a}]
  }

  // ---------------------------------------------------------------------
  // Decimal renderings (Python `str(n)`, C++ `std::to_string`, JavaScript `String(n)`)

  predicate IsDigit(c: char)
  {
    '0' <= c <= '9'
  }

  predicate AllDigits(s: string)
  {
    forall i :: 0 <= i < |s| ==> IsDigit(s[i])
  }

  function DigitChar(d: int): (c: char)
    requires 0 <= d < 10
    ensures IsDigit(c)
  {
    (48 + d) as char
  }

  function DigitValue(c: char): (d: int)
    requires IsDigit(c)
    ensures 0 <= d < 10
  {
    c as int - 48
  }

  /** Decimal digits of a natural number, most significant first, no leading zero. */
  function NatToString(n: nat): (s: string)
    ensures |s| >= 1 && AllDigits(s)
    ensures |s| > 1 ==> s[0] != '0'
  {
    if n < 10 then [DigitChar(n)] else NatToString(n / 10) + [DigitChar(n % 10)]
  }

  function IntToString(i: int): string
  {
    if i < 0 then "-" + NatToString(-i) else NatToString(i)
  }

  /** The value of a string of decimal digits. */
  function DigitsValue(s: string): nat
    requires AllDigits(s)
  {
    if s == [] then 0 else DigitsValue(s[..|s| - 1]) * 10 + DigitValue(s[|s| - 1])
  }

  lemma {:induction false} NatToStringRoundTrip(n: nat)
    ensures DigitsValue(NatToString(n)) == n
  {
    if n >= 10 {
      var s := NatToString(n);
      assert s[..|s| - 1] == NatToString(n / 10);
      NatToStringRoundTrip(n / 10);
    }
  }

  lemma NatToStringInjective(a: nat, b: nat)
    requires NatToString(a) == NatToString(b)
    ensures a == b
  {
    NatToStringRoundTrip(a);
    NatToStringRoundTrip(b);
  }

  lemma IntToStringInjective(a: int, b: int)
    requires IntToString(a) == IntToString(b)
    ensures a == b
  {
    var sa, sb := IntToString(a), IntToString(b);
    assert (a < 0) == (sa[0] == '-');
    assert (b < 0) == (sb[0] == '-');
    if a < 0 {
      assert sa[1..] == NatToString(-a) && sb[1..] == NatToString(-b);
      NatToStringInjective(-a, -b);
    } else {
      NatToStringInjective(a, b);
    }
  }

  /** The length of the run of digits a string starts with. */
  function DigitPrefixLength(s: string): (k: nat)
    ensures k <= |s|
  {
    if s == [] || !IsDigit(s[0]) then 0 else 1 + DigitPrefixLength(s[1..])
  }

  lemma {:induction false} DigitPrefixOfSeparated(x: string, sep: char, t: string)
    requires AllDigits(x) && !IsDigit(sep)
    ensures DigitPrefixLength(x + [sep] + t) == |x|
  {
    if x != [] {
      assert (x + [sep] + t)[1..] == x[1..] + [sep] + t;
      DigitPrefixOfSeparated(x[1..], sep, t);
    }
  }

  /**
   * When two strings are each a digit string followed by the same separator and
   * a tail, the digit strings and the tails agree.
   */
  lemma SplitAtSeparator(x1: string, x2: string, sep: char, t1: string, t2: string)
    requires AllDigits(x1) && AllDigits(x2) && !IsDigit(sep)
    requires x1 + [sep] + t1 == x2 + [sep] + t2
    ensures x1 == x2 && t1 == t2
  {
    var s1, s2 := x1 + [sep] + t1, x2 + [sep] + t2;
    DigitPrefixOfSeparated(x1, sep, t1);
    DigitPrefixOfSeparated(x2, sep, t2);
    assert x1 == s1[..|x1|] && x2 == s2[..|x2|];
    assert t1 == s1[|x1| + 1..] && t2 == s2[|x2| + 1..];
  }

  // ---------------------------------------------------------------------
  // Python `int(text)` on a decimal string: surrounding whitespace, an optional
  // sign and at least one digit (digit-group underscores are not accepted here).

  predicate IsSpace(c: char)
  {
    c == ' ' || c == '\t' || c == '\n' || c == '\r' || c == '\U{B}' || c == '\U{C}'
  }

  function TrimLeft(s: string): (t: string)
    ensures |t| <= |s| && (t == [] || !IsSpace(t[0]))
    ensures t == s[|s| - |t|..]
  {
    if s != [] && IsSpace(s[0]) then TrimLeft(s[1..]) else s
  }

  function TrimRight(s: string): (t: string)
    ensures |t| <= |s| && (t == [] || !IsSpace(t[|t| - 1]))
    ensures t == s[..|t|]
  {
    if s != [] && IsSpace(s[|s| - 1]) then TrimRight(s[..|s| - 1]) else s
  }

  function ParsePyInt(s: string): Option<int>
  {
    var t := TrimRight(TrimLeft(s));
    if |t| >= 1 && AllDigits(t) then Some(DigitsValue(t))
    else if |t| >= 2 && (t[0] == '-' || t[0] == '+') && AllDigits(t[1..]) then
      var v: int := DigitsValue(t[1..]);
      if t[0] == '-' then Some(-v) else Some(v)
    else None
  }

  lemma ParsePyIntOfString(i: int)
    ensures ParsePyInt(IntToString(i)) == Some(i)
  {
    var s := IntToString(i);
    TrimOfNonSpace(s);
    if i < 0 {
      assert s[1..] == NatToString(-i);
      NatToStringRoundTrip(-i);
      assert !AllDigits(s) by { assert !IsDigit(s[0]); }
    } else {
      NatToStringRoundTrip(i);
    }
  }

  lemma TrimOfNonSpace(s: string)
    requires |s| >= 1 && !IsSpace(s[0]) && !IsSpace(s[|s| - 1])
    ensures TrimRight(TrimLeft(s)) == s
  {
  }

  // ---------------------------------------------------------------------
  // Small sequence and string helpers

  /** The set of the elements of a list, `set(xs)`. */
  function Elems<T>(xs: seq<T>): set<T>
  {
    set x | x in xs
  }

  /** `s.split('eth')[-1]`: what follows the last "eth", or all of s when there is none. */
  function AfterLastEth(s: string): (t: string)
    ensures |t| <= |s|
  {
    if EndsWithEth(s) then ""
    else if s == [] then []
    else AfterLastEth(s[..|s| - 1]) + [s[|s| - 1]]
  }

  predicate EndsWithEth(s: string)
  {
    |s| >= 3 && s[|s| - 3] == 'e' && s[|s| - 2] == 't' && s[|s| - 1] == 'h'
  }

  /** An interface name `<prefix>eth<digits>` yields the digits. */
  lemma {:induction false} AfterLastEthOfPort(prefix: string, digits: string)
    requires AllDigits(digits)
    ensures AfterLastEth(prefix + "eth" + digits) == digits
  {
    var s := prefix + "eth" + digits;
    if digits == [] {
      assert EndsWithEth(s);
    } else {
      var init := digits[..|digits| - 1];
      assert s[..|s| - 1] == prefix + "eth" + init;
      assert s[|s| - 1] == digits[|digits| - 1];
      assert !EndsWithEth(s) by {
        assert IsDigit(s[|s| - 1]);
      }
      AfterLastEthOfPort(prefix, init);
      assert digits == init + [digits[|digits| - 1]];
    }
  }
}
