/** The helpers of `helpers.jsx` that work on arrays of plain objects:
    `flattenArray`, `groupBy`, `sortByKey` and `filterBySearchTerm`. An
    object is a map from property names to primitive values; reading a
    missing property gives `undefined`. */
module ObjectHelpers {
  import opened Wrappers
  import opened Seqs
  import opened Text
  import opened Sorting

  datatype Value = Str(s: string) | Num(n: int) | Bool(b: bool) | Null | Undefined

  type Item = map<string, Value>

  /** `item[key]`. */
  function Get(item: Item, key: string): Value {
    if key in item then item[key] else Undefined
  }

  // ---------------------------------------------------------------------
  // flattenArray

  /** `[].concat(...arr)` on an array of arrays. */
  function FlattenArray<T>(arr: seq<seq<T>>): (r: seq<T>)
    ensures |r| == TotalLength(arr)
    ensures forall i, j :: 0 <= i < |arr| && 0 <= j < |arr[i]| ==> arr[i][j] in r
  {
    Flatten(arr)
  }

  /** Flattening keeps the inner arrays whole and in order, and invents
      nothing. */
  lemma FlattenArrayKeepsOrder<T>(arr: seq<seq<T>>, more: seq<T>, x: T)
    ensures FlattenArray(arr + [more]) == FlattenArray(arr) + more
    ensures x in FlattenArray(arr) ==> exists i :: 0 <= i < |arr| && x in arr[i]
  {
    FlattenAppend(arr, [more]);
    assert Flatten([more]) == more + Flatten([]);
    if x in FlattenArray(arr) {
      FlattenMembers(arr, x);
    }
  }

  // ---------------------------------------------------------------------
  // groupBy

  /** The property name a value becomes when it is used as an object key. */
  function KeyString(v: Value): string {
    match v
    case Str(s) => s
    case Num(n) => IntToString(n)
    case Bool(b) => if b then "true" else "false"
    case Null => "null"
    case Undefined => "undefined"
  }

  function GroupKey(item: Item, key: string): string {
    KeyString(Get(item, key))
  }

  function HasGroupKey(key: string, name: string): Item -> bool {
    (item: Item) => GroupKey(item, key) == name
  }

  /** `arr.reduce(...)`: each item is pushed onto the group named by its
      key, creating the group on first use. */
  function GroupBy(arr: seq<Item>, key: string): (r: map<string, seq<Item>>)
    ensures forall name :: name in r <==> exists item | item in arr :: GroupKey(item, key) == name
    decreases |arr|
  {
    if arr == [] then map[]
    else
      var last := arr[|arr| - 1];
      var acc := GroupBy(arr[..|arr| - 1], key);
      var name := GroupKey(last, key);
      assert forall item | item in arr :: item in arr[..|arr| - 1] || item == last;
      acc[name := (if name in acc then acc[name] else []) + [last]]
  }

  /** Each group holds exactly the items with its key, in input order. */
  lemma {:induction false} GroupByIsFilter(arr: seq<Item>, key: string, name: string)
    requires name in GroupBy(arr, key)
    ensures GroupBy(arr, key)[name] == Filter(HasGroupKey(key, name), arr)
    decreases |arr|
  {
    var front, last := arr[..|arr| - 1], arr[|arr| - 1];
    var p := HasGroupKey(key, name);
    assert front + [last] == arr;
    FilterAppend(p, front, [last]);
    assert Filter(p, [last]) == if GroupKey(last, key) == name then [last] else [];
    if name in GroupBy(front, key) {
      GroupByIsFilter(front, key, name);
    } else {
      FilterDropsAll(HasGroupKey(key, name), front);
    }
  }

  /** Sum of the group sizes over a list of group names; an absent name
      counts zero. */
  function SizeSum(groups: map<string, seq<Item>>, names: seq<string>): nat
    decreases |names|
  {
    if names == [] then 0
    else (if names[0] in groups then |groups[names[0]]| else 0) + SizeSum(groups, names[1..])
  }

  /** Pushing one item onto the group `name` raises the sum by one when
      `name` is listed once. */
  lemma {:induction false} SizeSumAfterPush(
    groups: map<string, seq<Item>>, names: seq<string>, name: string, item: Item)
    requires NoDuplicates(names) && name in names
    ensures SizeSum(groups[name := (if name in groups then groups[name] else []) + [item]], names)
         == SizeSum(groups, names) + 1
    decreases |names|
  {
    if names[0] != name {
      assert name in names[1..];
      SizeSumAfterPush(groups, names[1..], name, item);
    } else {
      SizeSumWithout(groups, names[1..], name, item);
    }
  }

  lemma {:induction false} SizeSumWithout(
    groups: map<string, seq<Item>>, names: seq<string>, name: string, item: Item)
    requires name !in names
    ensures SizeSum(groups[name := (if name in groups then groups[name] else []) + [item]], names)
         == SizeSum(groups, names)
    decreases |names|
  {
    if names != [] {
      SizeSumWithout(groups, names[1..], name, item);
    }
  }

  /** The group sizes add up to the input length, summed over any list of
      distinct names that covers every group. */
  lemma {:induction false} GroupSizesSum(arr: seq<Item>, key: string, names: seq<string>)
    requires NoDuplicates(names)
    requires forall item | item in arr :: GroupKey(item, key) in names
    ensures SizeSum(GroupBy(arr, key), names) == |arr|
    decreases |arr|
  {
    if arr == [] {
      SizeSumOfEmpty(names);
    } else {
      var front, last := arr[..|arr| - 1], arr[|arr| - 1];
      assert forall item | item in front :: item in arr;
      GroupSizesSum(front, key, names);
      SizeSumAfterPush(GroupBy(front, key), names, GroupKey(last, key), last);
    }
  }

  lemma {:induction false} SizeSumOfEmpty(names: seq<string>)
    ensures SizeSum(map[], names) == 0
    decreases |names|
  {
    if names != [] {
      SizeSumOfEmpty(names[1..]);
    }
  }

  // ---------------------------------------------------------------------
  // sortByKey

  /** `StringToNumber` for the integer literals a key string can hold:
      surrounding whitespace is ignored, a blank string is 0, and an
      optional sign may precede the digits; anything else is `NaN`
      (`None`). */
  function StringToNumber(s: string): Option<int> {
    var t := Trim(s);
    if t == [] then Some(0)
    else if AllDigits(t) then Some(DecimalValue(t))
    else if |t| >= 2 && (t[0] == '-' || t[0] == '+') && AllDigits(t[1..]) then
      Some(if t[0] == '-' then -(DecimalValue(t[1..]) as int) else DecimalValue(t[1..]))
    else None
  }

  /** A number written out by `toString` reads back as itself. */
  lemma StringToNumberOfIntToString(n: int)
    ensures StringToNumber(IntToString(n)) == Some(n)
  {
    var t := IntToString(n);
    if n >= 0 {
      var d := Decimal(n);
      assert t == d && AllDigits(d);
      assert IsDigit(d[0]) && IsDigit(d[|d| - 1]);
      TrimOfTrimmed(d);
      DecimalRoundTrip(n);
    } else {
      var d := Decimal(-n);
      assert t == "-" + d && t[1..] == d && AllDigits(d);
      assert t[|t| - 1] == d[|d| - 1] && IsDigit(d[|d| - 1]);
      TrimOfTrimmed(t);
      assert !IsDigit(t[0]) && !AllDigits(t);
      DecimalRoundTrip(-n);
    }
  }

  /** `Number(v)` as the relational operators apply it; `None` is `NaN`. */
  function ToNumber(v: Value): (r: Option<int>)
    ensures v.Num? ==> r == Some(v.n)
    ensures v.Null? || v == Bool(false) ==> r == Some(0)
    ensures v == Bool(true) ==> r == Some(1)
    ensures v.Undefined? ==> r.None?
  {
    match v
    case Str(s) => StringToNumber(s)
    case Num(n) => Some(n)
    case Bool(b) => Some(if b then 1 else 0)
    case Null => Some(0)
    case Undefined => None
  }

  /** `a < b`: two strings compare by code units; otherwise both sides
      are converted to numbers, and `NaN` is smaller and larger than
      nothing. */
  predicate ValueLess(a: Value, b: Value) {
    if a.Str? && b.Str? then LexLess(a.s, b.s)
    else
      match (ToNumber(a), ToNumber(b))
      case (Some(x), Some(y)) => x < y
      case _ => false
  }

  /** `sortByKey([{k: 5}, {k: null}], 'k')` puts the null first: `null`
      compares as 0. */
  lemma NullSortsAsZero()
    ensures var five: Item := map["k" := Num(5)];
      var none: Item := map["k" := Null];
      SortByKey([five, none], "k", true) == [none, five]
  {
    var five: Item := map["k" := Num(5)];
    var none: Item := map["k" := Null];
    assert ValueLess(Get(none, "k"), Get(five, "k"));
    assert !KeyOrder("k", true)(five, none);
    assert [five, none][1..] == [none];
    assert Sort(KeyOrder("k", true), [none]) == [none];
  }

  /** The comparator handed to `sort`. */
  function Compare(key: string, ascending: bool, a: Item, b: Item): int {
    if ValueLess(Get(a, key), Get(b, key)) then (if ascending then -1 else 1)
    else if ValueLess(Get(b, key), Get(a, key)) then (if ascending then 1 else -1)
    else 0
  }

  function KeyOrder(key: string, ascending: bool): (Item, Item) -> bool {
    (a: Item, b: Item) => Compare(key, ascending, a, b) <= 0
  }

  /** `[...arr].sort(comparator)`: a sorted copy. */
  function SortByKey(arr: seq<Item>, key: string, ascending: bool): (r: seq<Item>)
    ensures |r| == |arr|
    ensures multiset(r) == multiset(arr)
  {
    Sort(KeyOrder(key, ascending), arr)
  }

  /** The values `<` converts to a number other than `NaN` without
      looking at characters. */
  predicate IsNumeric(v: Value) {
    v.Num? || v.Bool? || v.Null?
  }

  /** The comparator is consistent when every key is a string, or every key
      is a number, a boolean or `null`. */
  predicate UniformKeys(arr: seq<Item>, key: string) {
    || (forall item | item in arr :: Get(item, key).Str?)
    || (forall item | item in arr :: IsNumeric(Get(item, key)))
  }

  lemma ValueLessOrder(a: Value, b: Value, c: Value)
    requires (a.Str? && b.Str? && c.Str?) || (IsNumeric(a) && IsNumeric(b) && IsNumeric(c))
    ensures !(ValueLess(a, b) && ValueLess(b, a))
    ensures !ValueLess(b, a) && !ValueLess(c, b) ==> !ValueLess(c, a)
    ensures ValueLess(a, b) && ValueLess(b, c) ==> ValueLess(a, c)
  {
    if a.Str? {
      LexLessTotal(a.s, b.s);
      LexLessTotal(b.s, c.s);
      LexLessIrreflexive(a.s);
      if ValueLess(a, b) {
        LexLessAsymmetric(a.s, b.s);
      }
      if ValueLess(a, b) && ValueLess(b, c) {
        LexLessTransitive(a.s, b.s, c.s);
      }
      if !ValueLess(b, a) && !ValueLess(c, b) && a != b && b != c {
        LexLessTransitive(a.s, b.s, c.s);
        LexLessAsymmetric(a.s, c.s);
      }
    }
  }

  lemma KeyOrderIsPreorder(arr: seq<Item>, key: string, ascending: bool)
    requires UniformKeys(arr, key)
    ensures PreorderOn(KeyOrder(key, ascending), arr)
  {
    var leq := KeyOrder(key, ascending);
    forall a, b | a in arr && b in arr ensures leq(a, b) || leq(b, a) {
      ValueLessOrder(Get(a, key), Get(b, key), Get(b, key));
    }
    forall a, b, c | a in arr && b in arr && c in arr && leq(a, b) && leq(b, c)
      ensures leq(a, c)
    {
      var x, y, z := Get(a, key), Get(b, key), Get(c, key);
      ValueLessOrder(x, y, z);
      ValueLessOrder(y, z, x);
      ValueLessOrder(z, x, y);
      ValueLessOrder(x, z, y);
      ValueLessOrder(z, y, x);
    }
  }

  /** With keys of one kind, ascending order never puts a larger key before
      a smaller one, and descending order never puts a smaller one first. */
  lemma SortByKeyOrders(arr: seq<Item>, key: string, ascending: bool)
    requires UniformKeys(arr, key)
    ensures var r := SortByKey(arr, key, ascending);
      forall i, j | 0 <= i < j < |r| ::
        if ascending then !ValueLess(Get(r[j], key), Get(r[i], key))
        else !ValueLess(Get(r[i], key), Get(r[j], key))
  {
    var r := SortByKey(arr, key, ascending);
    KeyOrderIsPreorder(arr, key, ascending);
    SortSorted(KeyOrder(key, ascending), arr);
    forall i, j | 0 <= i < j < |r|
      ensures if ascending then !ValueLess(Get(r[j], key), Get(r[i], key))
              else !ValueLess(Get(r[i], key), Get(r[j], key))
    {
      assert KeyOrder(key, ascending)(r[i], r[j]);
      assert r[i] in multiset(arr) && r[j] in multiset(arr);
      ValueLessOrder(Get(r[i], key), Get(r[j], key), Get(r[j], key));
    }
  }

  /** Items with equal keys keep their input order. */
  lemma SortByKeyStable(arr: seq<Item>, key: string, ascending: bool, k: Item)
    requires UniformKeys([k] + arr, key)
    ensures Filter(EquivTo(KeyOrder(key, ascending), k), SortByKey(arr, key, ascending))
         == Filter(EquivTo(KeyOrder(key, ascending), k), arr)
  {
    KeyOrderIsPreorder([k] + arr, key, ascending);
    SortStable(KeyOrder(key, ascending), k, arr);
  }

  // ---------------------------------------------------------------------
  // filterBySearchTerm

  /** Some listed key holds a string containing the lower-cased term, ignoring case. */
  predicate MatchesTerm(item: Item, term: string, keys: seq<string>) {
    exists key | key in keys :: Get(item, key).Str? && Contains(Lower(Get(item, key).s), Lower(term))
  }

  function MatchesTermIn(term: string, keys: seq<string>): Item -> bool {
    (item: Item) => MatchesTerm(item, term, keys)
  }

  /** An empty term returns the input; otherwise exactly the matching items,
      in input order. */
  function FilterBySearchTerm(arr: seq<Item>, term: string, keys: seq<string>): (r: seq<Item>)
    ensures term == [] ==> r == arr
    ensures term != [] ==> forall item :: item in r <==> item in arr && MatchesTerm(item, term, keys)
  {
    if term == [] then arr else Filter(MatchesTermIn(term, keys), arr)
  }

  /** The result is an order-preserving subsequence of the input. */
  lemma SearchKeepsOrder(arr: seq<Item>, term: string, keys: seq<string>)
    ensures IsSubsequence(FilterBySearchTerm(arr, term, keys), arr)
  {
    if term == [] {
      SubsequenceRefl(arr);
    } else {
      FilterIsSubsequence(MatchesTermIn(term, keys), arr);
    }
  }

  /** Only string fields can match: an item whose listed fields hold no
      strings is dropped by any non-empty term. */
  lemma NonStringsNeverMatch(arr: seq<Item>, term: string, keys: seq<string>, item: Item)
    requires term != []
    requires forall key | key in keys :: !Get(item, key).Str?
    ensures item !in FilterBySearchTerm(arr, term, keys)
  {
  }
}
