// The rules of the multicast-group pages (ryu/app/flow_manager/web/js):
// node lists are sorted by the numeric comparator, a checkbox is rendered
// checked exactly when its node is in the group, the sources are the keys
// of the `/currentgroups` object in JavaScript's property order, and the add
// and modify forms are posted only when their selection is complete.
// The page is modelled as the sequence of its form inputs in document order;
// jQuery, d3, the tabs widget and the HTTP calls are not modelled.

module WebUi {
  import opened Common

  // ---------------------------------------------------------------------
  // `xs.sort(function (a, b) { return a - b; })`

  /** The comparator both pages pass to `sort`. */
  function Compare(a: int, b: int): int
  {
    a - b
  }

  /** No later element compares below an earlier one: `Compare(xs[i], xs[j]) <= 0` for i < j. */
  predicate Ascending(xs: seq<int>)
  {
    forall i, j :: 0 <= i < j < |xs| ==> xs[i] <= xs[j]
  }

  /** Ascending is exactly what the comparator asks of a sorted array. */
  lemma AscendingByComparator(xs: seq<int>)
    ensures Ascending(xs) <==> forall i, j :: 0 <= i < j < |xs| ==> Compare(xs[i], xs[j]) <= 0
  {
  }

  function Insert(x: int, xs: seq<int>): (ys: seq<int>)
    requires Ascending(xs)
    ensures Ascending(ys)
    ensures |ys| == |xs| + 1 && (ys[0] == x || (xs != [] && ys[0] == xs[0]))
  {
    if xs == [] || x <= xs[0] then [x] + xs
    else [xs[0]] + Insert(x, xs[1..])
  }

  lemma {:induction false} InsertPermutes(x: int, xs: seq<int>)
    requires Ascending(xs)
    ensures multiset(Insert(x, xs)) == multiset(xs) + multiset{x}
  {
    if xs != [] && x > xs[0] {
      InsertPermutes(x, xs[1..]);
      assert xs == [xs[0]] + xs[1..];
    }
  }

  /** The sorted node list: ascending under the comparator; SortNumericPermutes shows it is a permutation. */
  function SortNumeric(xs: seq<int>): (ys: seq<int>)
    ensures Ascending(ys) && |ys| == |xs|
  {
    if xs == [] then [] else Insert(xs[0], SortNumeric(xs[1..]))
  }

  /** Sorting neither loses nor invents a node. */
  lemma {:induction false} SortNumericPermutes(xs: seq<int>)
    ensures multiset(SortNumeric(xs)) == multiset(xs)
  {
    if xs != [] {
      SortNumericPermutes(xs[1..]);
      InsertPermutes(xs[0], SortNumeric(xs[1..]));
      TailMultiset(xs);
    }
  }

  /** Two ascending lists with the same elements are the same list. */
  lemma {:induction false} AscendingUnique(a: seq<int>, b: seq<int>)
    requires Ascending(a) && Ascending(b) && multiset(a) == multiset(b)
    ensures a == b
  {
    assert |a| == |multiset(a)| == |multiset(b)| == |b|;
    if a != [] {
      AscendingHeads(a, b);
      TailMultiset(a);
      TailMultiset(b);
      AscendingUnique(a[1..], b[1..]);
      assert a == [a[0]] + a[1..] && b == [b[0]] + b[1..];
    }
  }

  /** Two nonempty ascending lists with the same elements start with the same element. */
  lemma AscendingHeads(a: seq<int>, b: seq<int>)
    requires Ascending(a) && Ascending(b) && multiset(a) == multiset(b) && a != [] && b != []
    ensures a[0] == b[0]
  {
    assert a[0] in multiset(b) && b[0] in multiset(a);
    var j :| 0 <= j < |b| && b[j] == a[0];
    var k :| 0 <= k < |a| && a[k] == b[0];
    assert b[0] <= b[j] && a[0] <= a[k];
  }

  /** The multiset of a list's tail is its multiset without the head. */
  lemma TailMultiset<T>(a: seq<T>)
    requires a != []
    ensures multiset(a[1..]) == multiset(a) - multiset{a[0]}
  {
    assert a == [a[0]] + a[1..];
  }

  /**
   * The sorted list depends only on which nodes the server sent, not on
   * their order; sorting twice is sorting once.
   */
  lemma SortNumericCanonical(xs: seq<int>, ys: seq<int>)
    requires multiset(xs) == multiset(ys)
    ensures SortNumeric(xs) == SortNumeric(ys)
    ensures SortNumeric(SortNumeric(xs)) == SortNumeric(xs)
  {
    SortNumericPermutes(xs);
    SortNumericPermutes(ys);
    SortNumericPermutes(SortNumeric(xs));
    AscendingUnique(SortNumeric(xs), SortNumeric(ys));
    AscendingUnique(SortNumeric(SortNumeric(xs)), SortNumeric(xs));
  }

  // ---------------------------------------------------------------------
  // `parseInt(text)` without a radix

  lemma {:induction false} DigitPrefixDigits(s: string)
    ensures AllDigits(s[..DigitPrefixLength(s)])
  {
    if s != [] && IsDigit(s[0]) {
      DigitPrefixDigits(s[1..]);
      assert s[..DigitPrefixLength(s)] == [s[0]] + s[1..][..DigitPrefixLength(s[1..])];
    }
  }

  lemma {:induction false} DigitPrefixOfDigits(s: string)
    requires AllDigits(s)
    ensures DigitPrefixLength(s) == |s|
  {
    if s != [] {
      DigitPrefixOfDigits(s[1..]);
    }
  }

  /** The longest run of decimal digits at the front, or None (NaN) when there is none. */
  function ParseDigits(body: string): (r: Option<nat>)
    ensures r.None? <==> DigitPrefixLength(body) == 0
  {
    var k := DigitPrefixLength(body);
    DigitPrefixDigits(body);
    if k == 0 then None else Some(DigitsValue(body[..k]))
  }

  function ParseSigned(t: string): Option<int>
  {
    if |t| >= 1 && t[0] == '-' then
      match ParseDigits(t[1..])
      case None => None
      case Some(m) => Some(-(m as int))
    else if |t| >= 1 && t[0] == '+' then
      match ParseDigits(t[1..])
      case None => None
      case Some(m) => Some(m as int)
    else
      match ParseDigits(t)
      case None => None
      case Some(m) => Some(m as int)
  }

  /** `parseInt(s)`: leading white space, an optional sign and the digits that follow; None stands for NaN. */
  function ParseJsInt(s: string): Option<int>
  {
    ParseSigned(TrimLeft(s))
  }

  /** Digits followed by anything but a digit are read as their value. */
  lemma ParseDigitsOf(digits: string, tail: string)
    requires |digits| >= 1 && AllDigits(digits)
    requires tail == [] || !IsDigit(tail[0])
    ensures ParseDigits(digits + tail) == Some(DigitsValue(digits))
  {
    var s := digits + tail;
    if tail == [] {
      assert s == digits;
      DigitPrefixOfDigits(digits);
    } else {
      assert s == digits + [tail[0]] + tail[1..];
      DigitPrefixOfSeparated(digits, tail[0], tail[1..]);
    }
    assert s[..|digits|] == digits;
  }

  /** parseInt reads a decimal number back from the digits before any trailing text. */
  lemma ParseJsIntOfPrefix(n: nat, tail: string)
    requires tail == [] || !IsDigit(tail[0])
    ensures ParseJsInt(NatToString(n) + tail) == Some(n)
  {
    var digits := NatToString(n);
    var s := digits + tail;
    assert s[0] == digits[0];
    UnsignedParse(s);
    ParseDigitsOf(digits, tail);
    NatToStringRoundTrip(n);
  }

  /** A text that starts with a digit has no white space or sign to skip. */
  lemma UnsignedParse(s: string)
    requires |s| >= 1 && IsDigit(s[0])
    ensures ParseJsInt(s) == match ParseDigits(s) case None => None case Some(m) => Some(m as int)
  {
    assert !IsSpace(s[0]);
    assert TrimLeft(s) == s;
  }

  /** A checkbox's value is `String(d)`, and parseInt reads d back. */
  lemma ParseJsIntOfString(i: int)
    ensures ParseJsInt(IntToString(i)) == Some(i)
  {
    if i < 0 {
      var n: nat := -i;
      assert IntToString(i) == "-" + NatToString(n);
      ParseJsIntOfNegative(n);
    } else {
      var n: nat := i;
      assert IntToString(i) == NatToString(n);
      ParseJsIntOfNat(n);
    }
  }

  lemma ParseJsIntOfNat(n: nat)
    ensures ParseJsInt(NatToString(n)) == Some(n)
  {
    ParseJsIntOfPrefix(n, []);
    assert NatToString(n) + [] == NatToString(n);
  }

  lemma ParseJsIntOfNegative(n: nat)
    requires n > 0
    ensures ParseJsInt("-" + NatToString(n)) == Some(-(n as int))
  {
    var digits := NatToString(n);
    var s := "-" + digits;
    assert TrimLeft(s) == s;
    assert s[1..] == digits;
    ParseDigitsOf(digits, []);
    assert digits + [] == digits;
    NatToStringRoundTrip(n);
  }

  // ---------------------------------------------------------------------
  // `for (let src in groups) if (groups.hasOwnProperty(src)) src_list.push(src)`

  /** A JavaScript object of the `/currentgroups` response: property keys in creation order and their values. */
  datatype JsObject = JsObject(keys: seq<string>, values: map<string, seq<int>>)

  /** What every JavaScript object satisfies: each property once, and only the listed ones. */
  predicate WellFormedObject(o: JsObject)
  {
    Distinct(o.keys) && Elems(o.keys) == o.values.Keys
  }

  /** Array indices, 0 to 2^32 - 2 in canonical decimal, which objects enumerate first. */
  predicate IsArrayIndex(k: string)
  {
    |k| >= 1 && AllDigits(k) && (|k| == 1 || k[0] != '0') && DigitsValue(k) <= 0xFFFF_FFFE
  }

  function KeyValue(k: string): int
  {
    if AllDigits(k) then DigitsValue(k) else 0
  }

  function IndexKeys(keys: seq<string>): (r: seq<string>)
    ensures forall k :: 0 <= k < |r| ==> IsArrayIndex(r[k])
  {
    if keys == [] then []
    else (if IsArrayIndex(keys[0]) then [keys[0]] else []) + IndexKeys(keys[1..])
  }

  function OtherKeys(keys: seq<string>): (r: seq<string>)
    ensures forall k :: 0 <= k < |r| ==> !IsArrayIndex(r[k])
  {
    if keys == [] then []
    else (if IsArrayIndex(keys[0]) then [] else [keys[0]]) + OtherKeys(keys[1..])
  }

  lemma {:induction false} KeysPartition(keys: seq<string>)
    ensures multiset(IndexKeys(keys)) + multiset(OtherKeys(keys)) == multiset(keys)
  {
    if keys != [] {
      KeysPartition(keys[1..]);
      assert keys == [keys[0]] + keys[1..];
    }
  }

  predicate KeysAscending(ks: seq<string>)
  {
    forall i, j :: 0 <= i < j < |ks| ==> KeyValue(ks[i]) <= KeyValue(ks[j])
  }

  function InsertKey(x: string, ks: seq<string>): (r: seq<string>)
    requires KeysAscending(ks)
    ensures KeysAscending(r)
    ensures |r| == |ks| + 1 && (r[0] == x || (ks != [] && r[0] == ks[0]))
  {
    if ks == [] || KeyValue(x) <= KeyValue(ks[0]) then [x] + ks
    else [ks[0]] + InsertKey(x, ks[1..])
  }

  lemma {:induction false} InsertKeyPermutes(x: string, ks: seq<string>)
    requires KeysAscending(ks)
    ensures multiset(InsertKey(x, ks)) == multiset(ks) + multiset{x}
  {
    if ks != [] && KeyValue(x) > KeyValue(ks[0]) {
      InsertKeyPermutes(x, ks[1..]);
      assert ks == [ks[0]] + ks[1..];
    }
  }

  /** The keys ordered by numeric value. */
  function SortKeys(ks: seq<string>): (r: seq<string>)
    ensures KeysAscending(r) && |r| == |ks|
  {
    if ks == [] then [] else InsertKey(ks[0], SortKeys(ks[1..]))
  }

  lemma {:induction false} SortKeysPermutes(ks: seq<string>)
    ensures multiset(SortKeys(ks)) == multiset(ks)
  {
    if ks != [] {
      SortKeysPermutes(ks[1..]);
      InsertKeyPermutes(ks[0], SortKeys(ks[1..]));
      TailMultiset(ks);
    }
  }

  /**
   * The order `for … in` visits an ordinary object's own keys: array
   * indices in ascending numeric order, then the other keys in creation
   * order (section 10.1.11.1 of ECMA-262, OrdinaryOwnPropertyKeys).
   */
  function EnumerationOrder(o: JsObject): seq<string>
  {
    SortKeys(IndexKeys(o.keys)) + OtherKeys(o.keys)
  }

  /** `getMulticastGroupData`'s `src_list`. */
  method SourceList(groups: JsObject) returns (srcList: seq<string>)
    requires WellFormedObject(groups)
    ensures srcList == EnumerationOrder(groups)
  {
    var visit := EnumerationOrder(groups);
    EnumerationOwn(groups);
    srcList := OwnKeys(visit, groups.values);
    OwnOnlyAll(visit, groups.values);
  }

  /** The keys of `visit` that `hasOwnProperty` accepts, in visiting order. */
  function OwnOnly(visit: seq<string>, values: map<string, seq<int>>): seq<string>
  {
    if visit == [] then []
    else OwnOnly(visit[..|visit| - 1], values) + (if visit[|visit| - 1] in values then [visit[|visit| - 1]] else [])
  }

  /** When every visited key is an own property, the filter keeps them all. */
  lemma {:induction false} OwnOnlyAll(visit: seq<string>, values: map<string, seq<int>>)
    requires forall k :: 0 <= k < |visit| ==> visit[k] in values
    ensures OwnOnly(visit, values) == visit
  {
    if visit != [] {
      var init := visit[..|visit| - 1];
      assert forall k :: 0 <= k < |init| ==> init[k] == visit[k];
      OwnOnlyAll(init, values);
      assert visit == init + [visit[|visit| - 1]];
    }
  }

  /** The `for (src in groups) if (groups.hasOwnProperty(src))` loop. */
  method OwnKeys(visit: seq<string>, values: map<string, seq<int>>) returns (r: seq<string>)
    ensures r == OwnOnly(visit, values)
  {
    r := [];
    var i := 0;
    while i < |visit|
      invariant 0 <= i <= |visit|
      invariant r == OwnOnly(visit[..i], values)
    {
      assert visit[..i + 1][..i] == visit[..i];
      if visit[i] in values {
        r := r + [visit[i]];
      }
      i := i + 1;
    }
    assert visit[..i] == visit;
  }

  lemma {:induction false} MultisetDistinct(a: seq<string>, b: seq<string>)
    requires multiset(a) == multiset(b) && Distinct(b)
    ensures Distinct(a)
  {
    forall i, j | 0 <= i < j < |a|
      ensures a[i] != a[j]
    {
      var x := a[i];
      DistinctOnce(b, x);
      assert a == a[..i] + [a[i]] + a[i + 1..j] + [a[j]] + a[j + 1..];
      assert multiset(a)[x] >= 1 + multiset([a[j]])[x];
    }
  }

  lemma {:induction false} DistinctOnce(b: seq<string>, x: string)
    requires Distinct(b)
    ensures multiset(b)[x] <= 1
  {
    if b != [] {
      assert b == [b[0]] + b[1..];
      assert Distinct(b[1..]) by {
        forall i, j | 0 <= i < j < |b[1..]|
          ensures b[1..][i] != b[1..][j]
        {
          assert b[1..][i] == b[i + 1] && b[1..][j] == b[j + 1];
        }
      }
      DistinctOnce(b[1..], x);
      if b[0] == x {
        assert x !in b[1..] by {
          forall k | 0 <= k < |b[1..]|
            ensures b[1..][k] != x
          {
            assert b[1..][k] == b[k + 1];
          }
        }
      }
    }
  }

  lemma EnumerationMultiset(o: JsObject)
    ensures multiset(EnumerationOrder(o)) == multiset(o.keys)
  {
    KeysPartition(o.keys);
    SortKeysPermutes(IndexKeys(o.keys));
  }

  /** Every key the loop visits is an own property of the object. */
  lemma EnumerationOwn(o: JsObject)
    requires WellFormedObject(o)
    ensures forall k :: 0 <= k < |EnumerationOrder(o)| ==> EnumerationOrder(o)[k] in o.values
  {
    var r := EnumerationOrder(o);
    EnumerationMultiset(o);
    forall k | 0 <= k < |r|
      ensures r[k] in o.values
    {
      assert r[k] in multiset(r);
      assert r[k] in o.keys;
      assert r[k] in Elems(o.keys);
    }
  }

  /** The source list holds every key of the groups object exactly once. */
  lemma EnumerationDistinct(o: JsObject)
    requires WellFormedObject(o)
    ensures multiset(EnumerationOrder(o)) == multiset(o.keys) && Distinct(EnumerationOrder(o))
  {
    EnumerationMultiset(o);
    MultisetDistinct(EnumerationOrder(o), o.keys);
  }

  /**
   * The array-index keys come first, ascending by value, and the other keys
   * follow in creation order.
   */
  lemma EnumerationOrderShape(o: JsObject)
    ensures var r, n := EnumerationOrder(o), |IndexKeys(o.keys)|;
      n <= |r| &&
      (forall k :: 0 <= k < n ==> IsArrayIndex(r[k])) &&
      (forall i, j :: 0 <= i < j < n ==> KeyValue(r[i]) <= KeyValue(r[j])) &&
      r[n..] == OtherKeys(o.keys)
  {
    var keys := IndexKeys(o.keys);
    var ix := SortKeys(keys);
    SortKeysPermutes(keys);
    forall k | 0 <= k < |ix|
      ensures IsArrayIndex(ix[k])
    {
      assert ix[k] in multiset(keys);
      var m :| 0 <= m < |keys| && keys[m] == ix[k];
    }
    IndexPrefix(ix, OtherKeys(o.keys));
  }

  lemma IndexPrefix(ix: seq<string>, other: seq<string>)
    requires KeysAscending(ix) && forall k :: 0 <= k < |ix| ==> IsArrayIndex(ix[k])
    ensures var r := ix + other; var n := |ix|;
      (forall k :: 0 <= k < n ==> IsArrayIndex(r[k])) &&
      (forall i, j :: 0 <= i < j < n ==> KeyValue(r[i]) <= KeyValue(r[j])) &&
      r[n..] == other
  {
    var r := ix + other;
    forall k | 0 <= k < |ix|
      ensures IsArrayIndex(r[k])
    {
      assert r[k] == ix[k];
    }
    assert r[|ix|..] == other;
  }

  lemma NodeIdIsArrayIndex(n: nat)
    requires n <= 0xFFFF_FFFE
    ensures IsArrayIndex(NatToString(n)) && KeyValue(NatToString(n)) == n
  {
    NatToStringRoundTrip(n);
  }

  lemma {:induction false} IndexKeysOfIndices(keys: seq<string>)
    requires forall k :: 0 <= k < |keys| ==> IsArrayIndex(keys[k])
    ensures IndexKeys(keys) == keys && OtherKeys(keys) == []
  {
    if keys != [] {
      IndexKeysOfIndices(keys[1..]);
    }
  }

  lemma {:induction false} NodeIdOf(keys: seq<string>, ids: seq<nat>, x: string) returns (n: nat)
    requires |ids| == |keys| && x in keys
    requires forall k :: 0 <= k < |ids| ==> ids[k] <= 0xFFFF_FFFE && keys[k] == NatToString(ids[k])
    ensures x == NatToString(n) && KeyValue(x) == n
  {
    var a :| 0 <= a < |keys| && keys[a] == x;
    n := ids[a];
    NodeIdIsArrayIndex(n);
  }

  lemma NodeIdEnumeration(o: JsObject, ids: seq<nat>)
    requires |ids| == |o.keys|
    requires forall k :: 0 <= k < |ids| ==> ids[k] <= 0xFFFF_FFFE && o.keys[k] == NatToString(ids[k])
    ensures EnumerationOrder(o) == SortKeys(o.keys)
  {
    forall k | 0 <= k < |ids|
      ensures IsArrayIndex(o.keys[k])
    {
      NodeIdIsArrayIndex(ids[k]);
    }
    IndexKeysOfIndices(o.keys);
    assert EnumerationOrder(o) == SortKeys(o.keys) + [];
  }

  /**
   * When the server keys its groups by node ids (Python's `json.dumps` of an
   * int-keyed dict), the tabs list the sources in strictly ascending numeric
   * order, whatever order the server wrote them in.
   */
  lemma NodeIdSourcesAscending(o: JsObject, ids: seq<nat>)
    requires WellFormedObject(o) && |ids| == |o.keys|
    requires forall k :: 0 <= k < |ids| ==> ids[k] <= 0xFFFF_FFFE && o.keys[k] == NatToString(ids[k])
    ensures EnumerationOrder(o) == SortKeys(o.keys)
    ensures forall i, j :: 0 <= i < j < |EnumerationOrder(o)| ==> KeyValue(EnumerationOrder(o)[i]) < KeyValue(EnumerationOrder(o)[j])
  {
    NodeIdEnumeration(o, ids);
    var r := EnumerationOrder(o);
    EnumerationDistinct(o);
    forall i, j | 0 <= i < j < |r|
      ensures KeyValue(r[i]) < KeyValue(r[j])
    {
      assert r[i] in multiset(o.keys) && r[j] in multiset(o.keys);
      var a := NodeIdOf(o.keys, ids, r[i]);
      var b := NodeIdOf(o.keys, ids, r[j]);
      assert a != b;
    }
  }

  // ---------------------------------------------------------------------
  // The rendered forms

  /** A radio button or checkbox: its `name`, its `value` and whether it is checked. */
  datatype Input = Input(name: string, value: string, checked: bool)

  /** Which of the two pages. */
  datatype Page = ControlPage | TablesPage

  /** `expand_checkbox_container(id, available_dst, chosen)`: one box per node, checked iff `chosen.includes(d)`. */
  function RenderCheckboxes(name: string, available: seq<int>, chosen: seq<int>): (r: seq<Input>)
    ensures |r| == |available|
    ensures forall i :: 0 <= i < |r| ==>
      r[i].name == name && r[i].value == IntToString(available[i]) && (r[i].checked <==> available[i] in chosen)
  {
    if available == [] then []
    else [Input(name, IntToString(available[0]), available[0] in chosen)] + RenderCheckboxes(name, available[1..], chosen)
  }

  /** `expand_radio_container(id, available_src)`: one unchecked radio button per node. */
  function RenderRadios(name: string, available: seq<int>): (r: seq<Input>)
    ensures |r| == |available|
    ensures forall i :: 0 <= i < |r| ==> r[i].name == name && r[i].value == IntToString(available[i]) && !r[i].checked
  {
    if available == [] then []
    else [Input(name, IntToString(available[0]), false)] + RenderRadios(name, available[1..])
  }

  /** The add form's radio group: named after its container on the control page. */
  function RadioName(page: Page): string
  {
    match page
    case ControlPage => "radio-container"
    case TablesPage => "radio_group"
  }

  function AddBoxName(page: Page): string
  {
    match page
    case ControlPage => "checkbox-container"
    case TablesPage => "checkbox_group[]"
  }

  function FormId(src: string): string
  {
    "group-mod-form-" + src
  }

  function ContainerId(src: string): string
  {
    "checkbox-container-" + src
  }

  /** The name the boxes of one source's container carry. */
  function ModBoxName(page: Page, src: string): string
  {
    match page
    case ControlPage => ContainerId(src)
    case TablesPage => "checkbox_group[]"
  }

  /** `expand_form`: the add form, nothing checked. */
  function AddFormInputs(page: Page, availableSrc: seq<int>, availableDst: seq<int>): seq<Input>
  {
    RenderRadios(RadioName(page), SortNumeric(availableSrc)) + RenderCheckboxes(AddBoxName(page), SortNumeric(availableDst), [])
  }

  /** One source's tab: its form id (the control page only), its container and its boxes. */
  datatype SourceForm = SourceForm(src: string, formId: Option<string>, containerId: string, boxes: seq<Input>)

  function FormFor(page: Page, src: string, sortedDst: seq<int>, group: seq<int>): SourceForm
  {
    SourceForm(src, if page == ControlPage then Some(FormId(src)) else None, ContainerId(src),
      RenderCheckboxes(ModBoxName(page, src), sortedDst, group))
  }

  /** The loop over `src_list` after `/availablenodes` answers: one form per source, in source order. */
  method BuildForms(page: Page, srcList: seq<string>, groups: JsObject, availableDst: seq<int>) returns (forms: seq<SourceForm>)
    requires forall k :: 0 <= k < |srcList| ==> srcList[k] in groups.values
    ensures |forms| == |srcList|
    ensures forall k :: 0 <= k < |forms| ==>
      forms[k] == FormFor(page, srcList[k], SortNumeric(availableDst), groups.values[srcList[k]])
  {
    var sortedDst := SortNumeric(availableDst);
    forms := [];
    var i := 0;
    while i < |srcList|
      invariant 0 <= i <= |srcList|
      invariant FormsBuilt(page, srcList, sortedDst, groups, i, forms)
    {
      var f := FormFor(page, srcList[i], sortedDst, groups.values[srcList[i]]);
      FormsBuiltStep(page, srcList, sortedDst, groups, i, forms, f);
      forms := forms + [f];
      i := i + 1;
    }
  }

  /** The first n forms of the loop are in place. */
  predicate FormsBuilt(page: Page, srcList: seq<string>, sortedDst: seq<int>, groups: JsObject, n: int, forms: seq<SourceForm>)
    requires 0 <= n <= |srcList| && forall k :: 0 <= k < |srcList| ==> srcList[k] in groups.values
  {
    |forms| == n &&
    forall k :: 0 <= k < n ==> forms[k] == FormFor(page, srcList[k], sortedDst, groups.values[srcList[k]])
  }

  lemma FormsBuiltStep(page: Page, srcList: seq<string>, sortedDst: seq<int>, groups: JsObject, n: int, forms: seq<SourceForm>, f: SourceForm)
    requires 0 <= n < |srcList| && forall k :: 0 <= k < |srcList| ==> srcList[k] in groups.values
    requires FormsBuilt(page, srcList, sortedDst, groups, n, forms)
    requires f == FormFor(page, srcList[n], sortedDst, groups.values[srcList[n]])
    ensures FormsBuilt(page, srcList, sortedDst, groups, n + 1, forms + [f])
  {
  }

  /** Different sources get different form ids and containers. */
  lemma FormIdsDistinct(a: string, b: string)
    requires a != b
    ensures FormId(a) != FormId(b) && ContainerId(a) != ContainerId(b)
  {
    assert FormId(a)[15..] == a && FormId(b)[15..] == b;
    assert ContainerId(a)[19..] == a && ContainerId(b)[19..] == b;
  }

  /** The inputs of a list of forms, in document order. */
  function FormInputs(forms: seq<SourceForm>): seq<Input>
  {
    if forms == [] then [] else forms[0].boxes + FormInputs(forms[1..])
  }

  function PageInputs(page: Page, availableSrc: seq<int>, availableDst: seq<int>, forms: seq<SourceForm>): seq<Input>
  {
    AddFormInputs(page, availableSrc, availableDst) + FormInputs(forms)
  }

  // ---------------------------------------------------------------------
  // Submitting (the control page)

  /** `d3.selectAll("input[name='<name>']:checked")` mapped through parseInt, in document order. */
  function CheckedValues(dom: seq<Input>, name: string): seq<Option<int>>
  {
    if dom == [] then []
    else (if dom[0].name == name && dom[0].checked then [ParseJsInt(dom[0].value)] else []) + CheckedValues(dom[1..], name)
  }

  const INVALID_ARGUMENTS := "INVALID ARGUMENTS!"

  /** A POST of `{"src": src, "dst": dst}` to path, or a snackbar message and no request. */
  datatype Outcome = Post(path: string, src: Option<int>, dst: seq<Option<int>>) | Snackbar(message: string)

  /** `register_group_add`'s submit handler. */
  function SubmitAdd(dom: seq<Input>): (r: Outcome)
    ensures r.Post? <==> |CheckedValues(dom, "radio-container")| == 1 && |CheckedValues(dom, "checkbox-container")| != 0
    ensures r.Post? ==> (r.path == "/groupadd" && [r.src] == CheckedValues(dom, "radio-container") &&
      r.dst == CheckedValues(dom, "checkbox-container"))
    ensures r.Snackbar? ==> r.message == INVALID_ARGUMENTS
  {
    var srcData := CheckedValues(dom, "radio-container");
    var dstsData := CheckedValues(dom, "checkbox-container");
    if |srcData| == 1 && |dstsData| != 0 then Post("/groupadd", srcData[0], dstsData)
    else Snackbar(INVALID_ARGUMENTS)
  }

  /** `register_group_mod(src, form_id, container_id)`'s submit handler. */
  function SubmitMod(src: string, containerId: string, dom: seq<Input>): (r: Outcome)
    ensures r.Post? <==> |CheckedValues(dom, containerId)| != 0
    ensures r.Post? ==> r == Post("/groupmod", ParseJsInt(src), CheckedValues(dom, containerId))
    ensures r.Snackbar? ==> r.message == INVALID_ARGUMENTS
  {
    var dstsData := CheckedValues(dom, containerId);
    if |dstsData| != 0 then Post("/groupmod", ParseJsInt(src), dstsData) else Snackbar(INVALID_ARGUMENTS)
  }

  lemma {:induction false} CheckedAppend(a: seq<Input>, b: seq<Input>, name: string)
    ensures CheckedValues(a + b, name) == CheckedValues(a, name) + CheckedValues(b, name)
  {
    if a == [] {
      assert a + b == b;
    } else {
      assert (a + b)[1..] == a[1..] + b;
      CheckedAppend(a[1..], b, name);
    }
  }

  lemma {:induction false} CheckedNone(dom: seq<Input>, name: string)
    requires forall k :: 0 <= k < |dom| ==> dom[k].name != name || !dom[k].checked
    ensures CheckedValues(dom, name) == []
  {
    if dom != [] {
      CheckedNone(dom[1..], name);
    }
  }

  /** The nodes of available that are in chosen, in the order of available. */
  function Members(available: seq<int>, chosen: seq<int>): (r: seq<int>)
    ensures forall x :: x in r <==> x in available && x in chosen
  {
    if available == [] then []
    else (if available[0] in chosen then [available[0]] else []) + Members(available[1..], chosen)
  }

  function Somes(xs: seq<int>): (r: seq<Option<int>>)
    ensures |r| == |xs| && forall k :: 0 <= k < |xs| ==> r[k] == Some(xs[k])
  {
    if xs == [] then [] else [Some(xs[0])] + Somes(xs[1..])
  }

  /** Submitting a freshly rendered container reads back exactly the nodes that were checked: those in the group. */
  lemma {:induction false} CheckedOfRendered(name: string, available: seq<int>, chosen: seq<int>)
    ensures CheckedValues(RenderCheckboxes(name, available, chosen), name) == Somes(Members(available, chosen))
  {
    if available != [] {
      ParseJsIntOfString(available[0]);
      CheckedOfRendered(name, available[1..], chosen);
      assert RenderCheckboxes(name, available, chosen)[1..] == RenderCheckboxes(name, available[1..], chosen);
      assert Somes(Members(available, chosen)) ==
        (if available[0] in chosen then [Some(available[0])] else []) + Somes(Members(available[1..], chosen)) by {
        SomesAppend(if available[0] in chosen then [available[0]] else [], Members(available[1..], chosen));
      }
    }
  }

  lemma SomesAppend(a: seq<int>, b: seq<int>)
    ensures Somes(a + b) == Somes(a) + Somes(b)
  {
    assert |Somes(a + b)| == |Somes(a) + Somes(b)|;
    forall k | 0 <= k < |a + b|
      ensures Somes(a + b)[k] == (Somes(a) + Somes(b))[k]
    {
      if k < |a| {
        assert (a + b)[k] == a[k];
      } else {
        assert (a + b)[k] == b[k - |a|];
      }
    }
  }

  /** The forms of the control page, one per source, built from the group object. */
  function ControlForms(srcList: seq<string>, groups: JsObject, sortedDst: seq<int>): (r: seq<SourceForm>)
    requires forall k :: 0 <= k < |srcList| ==> srcList[k] in groups.values
    ensures |r| == |srcList|
    ensures forall k :: 0 <= k < |r| ==> r[k] == FormFor(ControlPage, srcList[k], sortedDst, groups.values[srcList[k]])
  {
    if srcList == [] then []
    else [FormFor(ControlPage, srcList[0], sortedDst, groups.values[srcList[0]])] + ControlForms(srcList[1..], groups, sortedDst)
  }

  /** Only forms whose boxes carry the name contribute to the selection under it. */
  lemma {:induction false} FormInputsSelect(forms: seq<SourceForm>, k: nat, name: string)
    requires k < |forms|
    requires forall j, i :: 0 <= j < |forms| && j != k && 0 <= i < |forms[j].boxes| ==> forms[j].boxes[i].name != name
    ensures CheckedValues(FormInputs(forms), name) == CheckedValues(forms[k].boxes, name)
  {
    CheckedAppend(forms[0].boxes, FormInputs(forms[1..]), name);
    var rest := forms[1..];
    assert forall j :: 0 <= j < |rest| ==> rest[j] == forms[j + 1];
    if k == 0 {
      FormInputsNone(rest, name);
    } else {
      CheckedNone(forms[0].boxes, name);
      FormInputsSelect(rest, k - 1, name);
    }
  }

  lemma {:induction false} FormInputsNone(forms: seq<SourceForm>, name: string)
    requires forall j, i :: 0 <= j < |forms| && 0 <= i < |forms[j].boxes| ==> forms[j].boxes[i].name != name
    ensures CheckedValues(FormInputs(forms), name) == []
  {
    if forms != [] {
      CheckedAppend(forms[0].boxes, FormInputs(forms[1..]), name);
      CheckedNone(forms[0].boxes, name);
      var rest := forms[1..];
      assert forall j :: 0 <= j < |rest| ==> rest[j] == forms[j + 1];
      FormInputsNone(rest, name);
    }
  }

  /** The boxes of each control-page form carry its container id as their name. */
  lemma ControlFormsNamed(srcList: seq<string>, groups: JsObject, sortedDst: seq<int>, name: string)
    requires forall j :: 0 <= j < |srcList| ==> srcList[j] in groups.values && ContainerId(srcList[j]) != name
    ensures var forms := ControlForms(srcList, groups, sortedDst);
      forall j, i :: 0 <= j < |forms| && 0 <= i < |forms[j].boxes| ==> forms[j].boxes[i].name != name
  {
    var forms := ControlForms(srcList, groups, sortedDst);
    forall j, i | 0 <= j < |forms| && 0 <= i < |forms[j].boxes|
      ensures forms[j].boxes[i].name != name
    {
      assert forms[j].boxes[i].name == ContainerId(srcList[j]);
    }
  }

  lemma ControlFormsNamedExcept(srcList: seq<string>, groups: JsObject, sortedDst: seq<int>, name: string, k: nat)
    requires forall j :: 0 <= j < |srcList| ==> srcList[j] in groups.values
    requires forall j :: 0 <= j < |srcList| && j != k ==> ContainerId(srcList[j]) != name
    ensures var forms := ControlForms(srcList, groups, sortedDst);
      forall j, i :: 0 <= j < |forms| && j != k && 0 <= i < |forms[j].boxes| ==> forms[j].boxes[i].name != name
  {
    var forms := ControlForms(srcList, groups, sortedDst);
    forall j, i | 0 <= j < |forms| && j != k && 0 <= i < |forms[j].boxes|
      ensures forms[j].boxes[i].name != name
    {
      assert forms[j].boxes[i].name == ContainerId(srcList[j]);
    }
  }

  lemma ContainerNamesDiffer(src: string)
    ensures ContainerId(src) != "radio-container" && ContainerId(src) != "checkbox-container"
  {
    assert ContainerId(src)[0] == 'c';
    assert |ContainerId(src)| >= 19;
  }

  /**
   * Submitting a source's form on the freshly loaded control page posts its
   * current group members among the available nodes, in ascending order,
   * and shows "INVALID ARGUMENTS!" when none of them is available: the other
   * forms' boxes and the add form never leak into the selection.
   */
  lemma FreshModSubmit(availableSrc: seq<int>, availableDst: seq<int>, groups: JsObject, srcList: seq<string>, k: nat)
    requires Distinct(srcList) && k < |srcList|
    requires forall j :: 0 <= j < |srcList| ==> srcList[j] in groups.values
    ensures var sortedDst := SortNumeric(availableDst);
      var forms := ControlForms(srcList, groups, sortedDst);
      var chosen := Members(sortedDst, groups.values[srcList[k]]);
      SubmitMod(srcList[k], ContainerId(srcList[k]), PageInputs(ControlPage, availableSrc, availableDst, forms)) ==
        if chosen == [] then Snackbar(INVALID_ARGUMENTS) else Post("/groupmod", ParseJsInt(srcList[k]), Somes(chosen))
  {
    var sortedDst := SortNumeric(availableDst);
    var forms := ControlForms(srcList, groups, sortedDst);
    var src := srcList[k];
    var name := ContainerId(src);
    CheckedAppend(AddFormInputs(ControlPage, availableSrc, availableDst), FormInputs(forms), name);
    AddFormUnchecked(ControlPage, availableSrc, availableDst, name);
    forall j | 0 <= j < |srcList| && j != k
      ensures ContainerId(srcList[j]) != name
    {
      FormIdsDistinct(srcList[j], src);
    }
    ControlFormsNamedExcept(srcList, groups, sortedDst, name, k);
    FormInputsSelect(forms, k, name);
    CheckedOfRendered(name, sortedDst, groups.values[src]);
  }

  /** Nothing in the freshly rendered add form is checked. */
  lemma AddFormUnchecked(page: Page, availableSrc: seq<int>, availableDst: seq<int>, name: string)
    ensures CheckedValues(AddFormInputs(page, availableSrc, availableDst), name) == []
  {
    var radios := RenderRadios(RadioName(page), SortNumeric(availableSrc));
    var boxes := RenderCheckboxes(AddBoxName(page), SortNumeric(availableDst), []);
    CheckedAppend(radios, boxes, name);
    CheckedNone(radios, name);
    CheckedNone(boxes, name);
  }

  lemma FormsNoSource(srcList: seq<string>, groups: JsObject, sortedDst: seq<int>)
    requires forall j :: 0 <= j < |srcList| ==> srcList[j] in groups.values
    ensures CheckedValues(FormInputs(ControlForms(srcList, groups, sortedDst)), RadioName(ControlPage)) == []
  {
    var name := RadioName(ControlPage);
    forall j | 0 <= j < |srcList|
      ensures ContainerId(srcList[j]) != name
    {
      ContainerNamesDiffer(srcList[j]);
    }
    ControlFormsNamed(srcList, groups, sortedDst, name);
    FormInputsNone(ControlForms(srcList, groups, sortedDst), name);
  }

  /** On the freshly loaded control page no radio button is checked. */
  lemma FreshPageNoSource(availableSrc: seq<int>, availableDst: seq<int>, groups: JsObject, srcList: seq<string>)
    requires forall j :: 0 <= j < |srcList| ==> srcList[j] in groups.values
    ensures var forms := ControlForms(srcList, groups, SortNumeric(availableDst));
      CheckedValues(PageInputs(ControlPage, availableSrc, availableDst, forms), "radio-container") == []
  {
    var forms := ControlForms(srcList, groups, SortNumeric(availableDst));
    var name := RadioName(ControlPage);
    CheckedAppend(AddFormInputs(ControlPage, availableSrc, availableDst), FormInputs(forms), name);
    AddFormUnchecked(ControlPage, availableSrc, availableDst, name);
    FormsNoSource(srcList, groups, SortNumeric(availableDst));
  }

  /** Submitting the freshly loaded add form shows "INVALID ARGUMENTS!": no source is selected yet. */
  lemma FreshAddSubmit(availableSrc: seq<int>, availableDst: seq<int>, groups: JsObject, srcList: seq<string>)
    requires forall j :: 0 <= j < |srcList| ==> srcList[j] in groups.values
    ensures var forms := ControlForms(srcList, groups, SortNumeric(availableDst));
      SubmitAdd(PageInputs(ControlPage, availableSrc, availableDst, forms)) == Snackbar(INVALID_ARGUMENTS)
  {
    FreshPageNoSource(availableSrc, availableDst, groups, srcList);
  }
}
