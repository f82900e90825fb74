/** The canonical order of text maps: by size, then by the pairs sorted by key. Hash iteration order is an
    arbitrary enumeration of the map. */
module TextMap {
  import opened Wrappers

  datatype Ordering = Less | Equal | Greater {
    function Reverse(): Ordering {
      match this
      case Less => Greater
      case Equal => Equal
      case Greater => Less
    }
  }

  function Reversed(o: Option<Ordering>): Option<Ordering> {
    match o
    case None => None
    case Some(x) => Some(x.Reverse())
  }

  /** Bytewise comparison of keys. */
  function CompareText(s: string, t: string): Ordering {
    if s == "" && t == "" then Equal
    else if s == "" then Less
    else if t == "" then Greater
    else if s[0] < t[0] then Less
    else if s[0] > t[0] then Greater
    else CompareText(s[1..], t[1..])
  }

  function CompareNat(m: nat, n: nat): Ordering {
    if m < n then Less else if m == n then Equal else Greater
  }

  /** The type of the values, about which only an order is known. */
  type Value(!new)

  datatype Pair = Pair(key: string, value: Value)
  type ValueOrder = (Value, Value) -> Option<Ordering>

  function Insert(e: Pair, s: seq<Pair>): seq<Pair> {
    if s == [] then [e]
    else if CompareText(e.key, s[0].key) == Greater then [s[0]] + Insert(e, s[1..])
    else [e] + s
  }

  function SortByKey(entries: seq<Pair>): seq<Pair> {
    if entries == [] then [] else Insert(entries[0], SortByKey(entries[1..]))
  }

  function ComparePair(a: Pair, b: Pair, order: ValueOrder): Option<Ordering> {
    match CompareText(a.key, b.key)
    case Equal => order(a.value, b.value)
    case o => Some(o)
  }

  function CompareSorted(a: seq<Pair>, b: seq<Pair>, order: ValueOrder): Option<Ordering> {
    if a == [] && b == [] then Some(Equal)
    else if a == [] then Some(Less)
    else if b == [] then Some(Greater)
    else
      match ComparePair(a[0], b[0], order)
      case Some(Equal) => CompareSorted(a[1..], b[1..], order)
      case o => o
  }

  /** Compares two maps, each given by the pairs its iterator yields. */
  function PartialCompare(a: seq<Pair>, b: seq<Pair>, order: ValueOrder): Option<Ordering> {
    if |a| != |b| then Some(CompareNat(|a|, |b|))
    else CompareSorted(SortByKey(a), SortByKey(b), order)
  }

  /** The pairs are those of the map, each once, in any order. */
  ghost predicate Enumerates(pairs: seq<Pair>, m: map<string, Value>) {
    && (forall i, j :: 0 <= i < j < |pairs| ==> pairs[i].key != pairs[j].key)
    && (forall p :: p in pairs ==> p.key in m && m[p.key] == p.value)
    && (forall k :: k in m ==> Pair(k, m[k]) in pairs)
  }

  /** Equality of maps, with equality of values read off the value order. */
  ghost predicate MapsEqual(m: map<string, Value>, n: map<string, Value>, order: ValueOrder) {
    m.Keys == n.Keys && forall k :: k in m ==> order(m[k], n[k]) == Some(Equal)
  }

  /** A partial order in which equal values are interchangeable. */
  ghost predicate Lawful(order: ValueOrder) {
    && (forall x, y :: order(y, x) == Reversed(order(x, y)))
    && (forall x, y, z :: order(x, y) == Some(Equal) ==> order(x, z) == order(y, z))
    && (forall x, y, z :: order(x, y) == Some(Less) && order(y, z) == Some(Less) ==> order(x, z) == Some(Less))
  }

  // ---------- Keys ----------

  lemma {:induction false} TextEqual(s: string, t: string)
    ensures CompareText(s, t) == Equal <==> s == t
    ensures CompareText(t, s) == CompareText(s, t).Reverse()
  {
    if s != "" && t != "" {
      TextEqual(s[1..], t[1..]);
      if s[0] == t[0] {
        assert s == [s[0]] + s[1..] && t == [t[0]] + t[1..];
      }
    }
  }

  lemma {:induction false} TextTransitive(s: string, t: string, u: string)
    requires CompareText(s, t) == Less && CompareText(t, u) == Less
    ensures CompareText(s, u) == Less
  {
    if s != "" && s[0] == t[0] == u[0] {
      TextTransitive(s[1..], t[1..], u[1..]);
    }
  }

  // ---------- Sorting ----------

  ghost predicate Ascending(s: seq<Pair>) {
    forall i, j :: 0 <= i < j < |s| ==> CompareText(s[i].key, s[j].key) == Less
  }

  lemma {:induction false} InsertKeeps(e: Pair, s: seq<Pair>)
    ensures forall p :: p in Insert(e, s) <==> p == e || p in s
    ensures |Insert(e, s)| == |s| + 1
  {
    if s != [] {
      InsertKeeps(e, s[1..]);
      assert s == [s[0]] + s[1..];
    }
  }

  lemma {:induction false} InsertAscends(e: Pair, s: seq<Pair>)
    requires Ascending(s) && forall p :: p in s ==> p.key != e.key
    ensures Ascending(Insert(e, s))
  {
    if s != [] {
      TextEqual(e.key, s[0].key);
      assert s[0] in s;
      if CompareText(e.key, s[0].key) == Greater {
        InsertAscends(e, s[1..]);
        InsertKeeps(e, s[1..]);
        var r := Insert(e, s[1..]);
        forall j | 0 <= j < |r|
          ensures CompareText(s[0].key, r[j].key) == Less
        {
          assert r[j] in r;
          if r[j] != e {
            assert r[j] in s[1..];
            var i :| 0 <= i < |s[1..]| && s[1..][i] == r[j];
            assert s[i + 1] == r[j];
          }
        }
      } else {
        forall j | 0 <= j < |s|
          ensures CompareText(e.key, s[j].key) == Less
        {
          if j > 0 {
            TextTransitive(e.key, s[0].key, s[j].key);
          }
        }
      }
    }
  }

  lemma {:induction false} SortSorts(entries: seq<Pair>)
    requires forall i, j :: 0 <= i < j < |entries| ==> entries[i].key != entries[j].key
    ensures Ascending(SortByKey(entries))
    ensures forall p :: p in SortByKey(entries) <==> p in entries
    ensures |SortByKey(entries)| == |entries|
  {
    if entries != [] {
      SortSorts(entries[1..]);
      InsertKeeps(entries[0], SortByKey(entries[1..]));
      InsertAscends(entries[0], SortByKey(entries[1..]));
      assert entries == [entries[0]] + entries[1..];
    }
  }

  ghost predicate AscendingKeys(keys: seq<string>) {
    forall i, j :: 0 <= i < j < |keys| ==> CompareText(keys[i], keys[j]) == Less
  }

  /** An ascending list is determined by its elements. */
  lemma {:induction false} AscendingUnique(s: seq<string>, t: seq<string>)
    requires AscendingKeys(s) && AscendingKeys(t) && forall k :: k in s <==> k in t
    ensures s == t
  {
    if s == [] {
      assert forall i :: 0 <= i < |t| ==> t[i] in t;
    } else {
      assert s[0] in s && s[0] in t;
      assert t[0] in t && t[0] in s;
      TextEqual(s[0], t[0]);
      assert s[0] == t[0];
      TailMembers(s);
      TailMembers(t);
      AscendingUnique(s[1..], t[1..]);
      assert s == [s[0]] + s[1..];
    }
  }

  lemma TailMembers(s: seq<string>)
    requires s != [] && AscendingKeys(s)
    ensures forall k :: k in s[1..] <==> k in s && k != s[0]
  {
    TextEqual(s[0], s[0]);
    forall k | k in s && k != s[0]
      ensures k in s[1..]
    {
      var i :| 0 <= i < |s| && s[i] == k;
      assert s[1..][i - 1] == k;
    }
  }

  function KeysOf(s: seq<Pair>): (r: seq<string>)
    ensures |r| == |s| && forall i :: 0 <= i < |s| ==> r[i] == s[i].key
  {
    if s == [] then [] else [s[0].key] + KeysOf(s[1..])
  }

  /** Sorting an enumeration of a map lists its keys in ascending order, each with its value. */
  lemma SortedKeys(pairs: seq<Pair>, m: map<string, Value>)
    requires Enumerates(pairs, m)
    ensures var s := SortByKey(pairs);
      && AscendingKeys(KeysOf(s))
      && (forall k :: k in KeysOf(s) <==> k in m)
      && (forall i :: 0 <= i < |s| ==> s[i].key in m && m[s[i].key] == s[i].value)
  {
    hide SortByKey, CompareText, KeysOf;
    SortSorts(pairs);
    var s := SortByKey(pairs);
    assert AscendingKeys(KeysOf(s));
    forall i | 0 <= i < |s|
      ensures s[i].key in m && m[s[i].key] == s[i].value
    {
      assert s[i] in s;
    }
    forall k | k in m
      ensures k in KeysOf(s)
    {
      assert Pair(k, m[k]) in s;
      var i :| 0 <= i < |s| && s[i] == Pair(k, m[k]);
      assert KeysOf(s)[i] == k;
    }
  }

  lemma SortedUnique(m: map<string, Value>, a: seq<Pair>, a': seq<Pair>)
    requires Enumerates(a, m) && Enumerates(a', m)
    ensures SortByKey(a) == SortByKey(a') && |a| == |a'|
  {
    hide SortByKey, Enumerates, AscendingKeys;
    SortedKeys(a, m);
    SortedKeys(a', m);
    SortLength(a);
    SortLength(a');
    var s, t := SortByKey(a), SortByKey(a');
    AscendingUnique(KeysOf(s), KeysOf(t));
    assert |s| == |KeysOf(s)| == |t|;
    forall i | 0 <= i < |s|
      ensures s[i] == t[i]
    {
      assert KeysOf(s)[i] == KeysOf(t)[i];
    }
  }

  lemma {:induction false} SortLength(entries: seq<Pair>)
    ensures |SortByKey(entries)| == |entries|
  {
    if entries != [] {
      SortLength(entries[1..]);
      InsertKeeps(entries[0], SortByKey(entries[1..]));
    }
  }

  /** The result does not depend on the order in which either hash map is iterated. */
  lemma IterationOrderIrrelevant(m: map<string, Value>, n: map<string, Value>, order: ValueOrder,
                                 a: seq<Pair>, a': seq<Pair>, b: seq<Pair>, b': seq<Pair>)
    requires Enumerates(a, m) && Enumerates(a', m) && Enumerates(b, n) && Enumerates(b', n)
    ensures PartialCompare(a, b, order) == PartialCompare(a', b', order)
  {
    hide SortByKey, Enumerates;
    SortedUnique(m, a, a');
    SortedUnique(n, b, b');
  }

  // ---------- The laws ----------

  lemma PairReverses(a: Pair, b: Pair, order: ValueOrder)
    requires Lawful(order)
    ensures ComparePair(b, a, order) == Reversed(ComparePair(a, b, order))
  {
    TextEqual(a.key, b.key);
  }

  lemma {:induction false} SortedReverses(a: seq<Pair>, b: seq<Pair>, order: ValueOrder)
    requires Lawful(order)
    ensures CompareSorted(b, a, order) == Reversed(CompareSorted(a, b, order))
  {
    if a != [] && b != [] {
      hide Lawful, ComparePair;
      PairReverses(a[0], b[0], order);
      SortedReverses(a[1..], b[1..], order);
    }
  }

  /** Swapping the sides reverses the answer. */
  lemma Antisymmetric(a: seq<Pair>, b: seq<Pair>, order: ValueOrder)
    requires Lawful(order)
    ensures PartialCompare(b, a, order) == Reversed(PartialCompare(a, b, order))
  {
    SortedReverses(SortByKey(a), SortByKey(b), order);
  }

  lemma PairTransitive(a: Pair, b: Pair, c: Pair, order: ValueOrder)
    requires Lawful(order)
    ensures ComparePair(a, b, order) == Some(Equal) ==> ComparePair(a, c, order) == ComparePair(b, c, order)
    ensures ComparePair(b, c, order) == Some(Equal) ==> ComparePair(a, c, order) == ComparePair(a, b, order)
    ensures ComparePair(a, b, order) == Some(Less) && ComparePair(b, c, order) == Some(Less) ==>
      ComparePair(a, c, order) == Some(Less)
  {
    TextEqual(a.key, b.key);
    TextEqual(b.key, c.key);
    if CompareText(a.key, b.key) == Less && CompareText(b.key, c.key) == Less {
      TextTransitive(a.key, b.key, c.key);
    }
    if b.key == c.key && order(b.value, c.value) == Some(Equal) {
      PairReverses(b, c, order);
      assert order(c.value, a.value) == order(b.value, a.value);
      assert order(a.value, c.value) == Reversed(order(c.value, a.value));
      assert order(a.value, b.value) == Reversed(order(b.value, a.value));
    }
  }

  /** Equal lists are interchangeable, and "less" is transitive. */
  lemma {:induction false} SortedTransitive(a: seq<Pair>, b: seq<Pair>, c: seq<Pair>,
                                               order: ValueOrder)
    requires Lawful(order)
    ensures CompareSorted(a, b, order) == Some(Equal) ==> CompareSorted(a, c, order) == CompareSorted(b, c, order)
    ensures CompareSorted(a, b, order) == Some(Less) && CompareSorted(b, c, order) == Some(Less) ==>
      CompareSorted(a, c, order) == Some(Less)
  {
    if a != [] && b != [] && c != [] {
      hide Lawful, ComparePair;
      PairTransitive(a[0], b[0], c[0], order);
      SortedTransitive(a[1..], b[1..], c[1..], order);
    }
  }

  lemma Transitive(a: seq<Pair>, b: seq<Pair>, c: seq<Pair>, order: ValueOrder)
    requires Lawful(order)
    ensures PartialCompare(a, b, order) == Some(Equal) ==>
      PartialCompare(a, c, order) == PartialCompare(b, c, order)
    ensures PartialCompare(a, b, order) == Some(Less) && PartialCompare(b, c, order) == Some(Less) ==>
      PartialCompare(a, c, order) == Some(Less)
    ensures PartialCompare(a, b, order) == Some(Greater) && PartialCompare(b, c, order) == Some(Greater) ==>
      PartialCompare(a, c, order) == Some(Greater)
  {
    hide Lawful, CompareSorted;
    SortedTransitive(SortByKey(a), SortByKey(b), SortByKey(c), order);
    SortedTransitive(SortByKey(c), SortByKey(b), SortByKey(a), order);
    SortedReverses(SortByKey(a), SortByKey(b), order);
    SortedReverses(SortByKey(b), SortByKey(c), order);
    SortedReverses(SortByKey(a), SortByKey(c), order);
  }

  lemma {:induction false} SortedTotal(a: seq<Pair>, b: seq<Pair>, order: ValueOrder)
    requires forall p, q :: p in a && q in b ==> order(p.value, q.value).Some?
    ensures CompareSorted(a, b, order).Some?
  {
    if a != [] && b != [] {
      assert a[0] in a && b[0] in b;
      SortedTotal(a[1..], b[1..], order);
    }
  }

  /** Any two maps compare when their values do. */
  lemma Total(m: map<string, Value>, n: map<string, Value>, a: seq<Pair>, b: seq<Pair>, order: ValueOrder)
    requires Enumerates(a, m) && Enumerates(b, n)
    requires forall x, y :: x in m.Values && y in n.Values ==> order(x, y).Some?
    ensures PartialCompare(a, b, order).Some?
  {
    SortSorts(a);
    SortSorts(b);
    var s, t := SortByKey(a), SortByKey(b);
    forall p, q | p in s && q in t
      ensures order(p.value, q.value).Some?
    {
      assert m[p.key] == p.value && n[q.key] == q.value;
    }
    SortedTotal(s, t, order);
  }

  // ---------- Equality ----------

  lemma {:induction false} SortedEqual(a: seq<Pair>, b: seq<Pair>, order: ValueOrder)
    ensures CompareSorted(a, b, order) == Some(Equal) <==>
      |a| == |b| && forall i :: 0 <= i < |a| ==> a[i].key == b[i].key && order(a[i].value, b[i].value) == Some(Equal)
  {
    if a != [] && b != [] {
      TextEqual(a[0].key, b[0].key);
      SortedEqual(a[1..], b[1..], order);
      assert a == [a[0]] + a[1..] && b == [b[0]] + b[1..];
    }
  }

  lemma EqualMapsCompare(m: map<string, Value>, n: map<string, Value>, order: ValueOrder,
                            a: seq<Pair>, b: seq<Pair>)
    requires Enumerates(a, m) && Enumerates(b, n) && MapsEqual(m, n, order)
    ensures PartialCompare(a, b, order) == Some(Equal)
  {
    var s, t := SortByKey(a), SortByKey(b);
    SortedKeys(a, m);
    SortedKeys(b, n);
    SortSorts(a);
    SortSorts(b);
    AscendingUnique(KeysOf(s), KeysOf(t));
    assert |s| == |KeysOf(s)| == |t|;
    forall i | 0 <= i < |s|
      ensures s[i].key == t[i].key && order(s[i].value, t[i].value) == Some(Equal)
    {
      assert KeysOf(s)[i] == KeysOf(t)[i];
    }
    SortedEqual(s, t, order);
  }

  lemma ComparedMapsEqual(m: map<string, Value>, n: map<string, Value>, order: ValueOrder,
                             a: seq<Pair>, b: seq<Pair>)
    requires Enumerates(a, m) && Enumerates(b, n) && PartialCompare(a, b, order) == Some(Equal)
    ensures MapsEqual(m, n, order)
  {
    hide Ascending, Enumerates, SortByKey, CompareSorted;
    var s, t := SortByKey(a), SortByKey(b);
    SortedKeys(a, m);
    SortedKeys(b, n);
    SortedEqual(s, t, order);
    assert KeysOf(s) == KeysOf(t);
    forall k | k in m || k in n
      ensures k in m && k in n && order(m[k], n[k]) == Some(Equal)
    {
      assert k in KeysOf(s);
      var i :| 0 <= i < |KeysOf(s)| && KeysOf(s)[i] == k;
    }
  }

  /** Comparing answers "equal" exactly when the maps are equal. */
  lemma EqualIffMapsEqual(m: map<string, Value>, n: map<string, Value>, order: ValueOrder,
                             a: seq<Pair>, b: seq<Pair>)
    requires Enumerates(a, m) && Enumerates(b, n)
    ensures PartialCompare(a, b, order) == Some(Equal) <==> MapsEqual(m, n, order)
  {
    hide Enumerates, PartialCompare, MapsEqual;
    if MapsEqual(m, n, order) {
      EqualMapsCompare(m, n, order, a, b);
    }
    if PartialCompare(a, b, order) == Some(Equal) {
      ComparedMapsEqual(m, n, order, a, b);
    }
  }

  // ---------- What decides ----------

  /** `s` is bytewise before `t`: a proper prefix of it, or smaller at the first character that differs. */
  ghost predicate Before(s: string, t: string) {
    exists i :: 0 <= i <= |s| && i < |t| && s[..i] == t[..i] && (i < |s| ==> s[i] < t[i])
  }

  lemma {:induction false} LessIsBefore(s: string, t: string)
    ensures CompareText(s, t) == Less <==> Before(s, t)
  {
    if s == "" {
      if t != "" {
        assert s[..0] == t[..0];
      }
    } else if t != "" {
      LessIsBefore(s[1..], t[1..]);
      if s[0] < t[0] {
        assert s[..0] == t[..0];
      } else if s[0] == t[0] {
        TailBefore(s, t);
      }
    }
  }

  lemma TailBefore(s: string, t: string)
    requires s != "" && t != "" && s[0] == t[0]
    ensures Before(s, t) <==> Before(s[1..], t[1..])
  {
    if i :| 0 <= i <= |s| && i < |t| && s[..i] == t[..i] && (i < |s| ==> s[i] < t[i]) {
      assert i > 0;
      assert s[1..][..i - 1] == s[..i][1..] && t[1..][..i - 1] == t[..i][1..];
    }
    var x, y := s[1..], t[1..];
    if i :| 0 <= i <= |x| && i < |y| && x[..i] == y[..i] && (i < |x| ==> x[i] < y[i]) {
      assert s[..i + 1] == [s[0]] + s[1..][..i] && t[..i + 1] == [t[0]] + t[1..][..i];
    }
  }

  /** Both maps have the key, with equal values, or neither has it. */
  ghost predicate Agree(m: map<string, Value>, n: map<string, Value>, order: ValueOrder, k: string) {
    (k in m <==> k in n) && (k in m ==> order(m[k], n[k]) == Some(Equal))
  }

  /** The bytewise first key the maps do not agree at. */
  ghost predicate FirstDifference(m: map<string, Value>, n: map<string, Value>, order: ValueOrder, k: string) {
    !Agree(m, n, order, k) && forall j :: Before(j, k) ==> Agree(m, n, order, j)
  }

  lemma {:induction false} EnumerationSize(pairs: seq<Pair>, m: map<string, Value>)
    requires Enumerates(pairs, m)
    ensures |pairs| == |m|
  {
    if pairs == [] {
      NothingEnumerated(m);
    } else {
      hide Enumerates;
      var k := pairs[0].key;
      EnumeratesRest(pairs, m);
      EnumerationSize(pairs[1..], m - {k});
      assert m.Keys == (m - {k}).Keys + {k};
    }
  }

  lemma NothingEnumerated(m: map<string, Value>)
    requires Enumerates([], m)
    ensures m == map[]
  {
    assert m.Keys == {};
  }

  lemma EnumeratesRest(pairs: seq<Pair>, m: map<string, Value>)
    requires Enumerates(pairs, m) && pairs != []
    ensures pairs[0].key in m && Enumerates(pairs[1..], m - {pairs[0].key})
  {
    var first, rest := pairs[0], pairs[1..];
    assert first in pairs;
    assert pairs == [first] + rest;
    forall i, j | 0 <= i < j < |rest|
      ensures rest[i].key != rest[j].key
    {
      assert rest[i] == pairs[i + 1] && rest[j] == pairs[j + 1];
    }
    forall p | p in rest
      ensures p in pairs && p.key != first.key
    {
      var i :| 0 <= i < |rest| && rest[i] == p;
      assert pairs[i + 1] == p;
    }
    forall k | k in m - {first.key}
      ensures Pair(k, m[k]) in rest
    {
      assert Pair(k, m[k]) in pairs;
    }
  }

  /** Pairs that compare equal are skipped. */
  lemma {:induction false} EqualSkipped(a: seq<Pair>, b: seq<Pair>, i: nat, order: ValueOrder)
    requires i <= |a| && i <= |b| && forall j :: 0 <= j < i ==> ComparePair(a[j], b[j], order) == Some(Equal)
    ensures CompareSorted(a, b, order) == CompareSorted(a[i..], b[i..], order)
  {
    hide ComparePair;
    if i > 0 {
      EqualSkipped(a[1..], b[1..], i - 1, order);
      assert a[1..][i - 1..] == a[i..] && b[1..][i - 1..] == b[i..];
    }
  }

  lemma {:induction false} FirstUnequal(a: seq<Pair>, b: seq<Pair>, order: ValueOrder) returns (i: nat)
    requires |a| == |b|
    ensures i <= |a| && forall j :: 0 <= j < i ==> ComparePair(a[j], b[j], order) == Some(Equal)
    ensures i < |a| ==> ComparePair(a[i], b[i], order) != Some(Equal)
  {
    hide ComparePair;
    i := 0;
    while i < |a| && ComparePair(a[i], b[i], order) == Some(Equal)
      invariant i <= |a| && forall j :: 0 <= j < i ==> ComparePair(a[j], b[j], order) == Some(Equal)
    {
      i := i + 1;
    }
  }

  /** `s` lists the map in ascending order. */
  ghost predicate Sorted(s: seq<Pair>, m: map<string, Value>) {
    && Ascending(s) && (forall i :: 0 <= i < |s| ==> s[i].key in m && m[s[i].key] == s[i].value)
    && forall k :: k in m ==> exists i :: 0 <= i < |s| && s[i].key == k
  }

  lemma SortedIs(pairs: seq<Pair>, m: map<string, Value>)
    requires Enumerates(pairs, m)
    ensures Sorted(SortByKey(pairs), m)
  {
    hide SortByKey, CompareText, KeysOf, Enumerates;
    SortedKeys(pairs, m);
    var s := SortByKey(pairs);
    assert forall i :: 0 <= i < |s| ==> KeysOf(s)[i] == s[i].key;
    assert Ascending(s) by {
      forall i, j | 0 <= i < j < |s|
        ensures CompareText(s[i].key, s[j].key) == Less
      {
        assert KeysOf(s)[i] == s[i].key && KeysOf(s)[j] == s[j].key;
      }
    }
  }

  /** A key in one of the maps that comes before the keys at position `i` is at an earlier position of both. */
  lemma AgreeBefore(m: map<string, Value>, n: map<string, Value>, a: seq<Pair>, b: seq<Pair>, i: nat,
                    order: ValueOrder, k: string)
    requires Sorted(a, m) && Sorted(b, n) && i < |a| && i < |b|
    requires forall j :: 0 <= j < i ==> ComparePair(a[j], b[j], order) == Some(Equal)
    requires CompareText(k, a[i].key) == Less && CompareText(k, b[i].key) == Less
    ensures Agree(m, n, order, k)
  {
    hide CompareText;
    forall j | 0 <= j < i
      ensures a[j].key == b[j].key && order(a[j].value, b[j].value) == Some(Equal)
    {
      TextEqual(a[j].key, b[j].key);
    }
    if k in m {
      var j := PositionBefore(a, m, i, k);
      assert b[j].key == k;
    }
    if k in n {
      var j := PositionBefore(b, n, i, k);
      assert a[j].key == k;
    }
  }

  lemma PositionBefore(s: seq<Pair>, m: map<string, Value>, i: nat, k: string) returns (j: nat)
    requires Sorted(s, m) && i < |s| && k in m && CompareText(k, s[i].key) == Less
    ensures j < i && s[j].key == k
  {
    hide CompareText;
    j :| 0 <= j < |s| && s[j].key == k;
    TextEqual(k, s[i].key);
  }

  /** A key that is before the one at position `i` of `b`, and after all earlier ones of `b`, is not in `n`. */
  lemma NotIn(n: map<string, Value>, a: seq<Pair>, b: seq<Pair>, i: nat, order: ValueOrder)
    requires Sorted(b, n) && Ascending(a) && i < |a| && i < |b|
    requires forall j :: 0 <= j < i ==> ComparePair(a[j], b[j], order) == Some(Equal)
    requires CompareText(a[i].key, b[i].key) == Less
    ensures a[i].key !in n
  {
    hide CompareText;
    if a[i].key in n {
      var j := PositionBefore(b, n, i, a[i].key);
      TextEqual(a[j].key, b[j].key);
      TextEqual(a[i].key, a[i].key);
      assert false;
    }
  }

  /** Where the sorted lists first differ is the first difference of the maps. */
  lemma DifferenceAt(m: map<string, Value>, n: map<string, Value>, a: seq<Pair>, b: seq<Pair>, i: nat,
                     order: ValueOrder) returns (k: string)
    requires Sorted(a, m) && Sorted(b, n) && i < |a| && i < |b|
    requires forall j :: 0 <= j < i ==> ComparePair(a[j], b[j], order) == Some(Equal)
    requires ComparePair(a[i], b[i], order) != Some(Equal)
    ensures FirstDifference(m, n, order, k)
    ensures ComparePair(a[i], b[i], order) == Decision(m, n, order, k)
  {
    hide CompareText, Before, Agree, Sorted;
    TextEqual(a[i].key, b[i].key);
    k := if CompareText(a[i].key, b[i].key) == Greater then b[i].key else a[i].key;
    forall j | Before(j, k)
      ensures Agree(m, n, order, j)
    {
      LessIsBefore(j, k);
      OtherToo(j, a[i].key, b[i].key);
      AgreeBefore(m, n, a, b, i, order, j);
    }
    Differs(m, n, a, b, i, order);
  }

  lemma OtherToo(j: string, x: string, y: string)
    requires CompareText(j, if CompareText(x, y) == Greater then y else x) == Less
    ensures CompareText(j, x) == Less && CompareText(j, y) == Less
  {
    hide CompareText;
    TextEqual(x, y);
    TextEqual(y, x);
    if CompareText(x, y) == Greater {
      TextTransitive(j, y, x);
    } else if CompareText(x, y) == Less {
      TextTransitive(j, x, y);
    }
  }

  lemma Differs(m: map<string, Value>, n: map<string, Value>, a: seq<Pair>, b: seq<Pair>, i: nat, order: ValueOrder)
    requires Sorted(a, m) && Sorted(b, n) && i < |a| && i < |b|
    requires forall j :: 0 <= j < i ==> ComparePair(a[j], b[j], order) == Some(Equal)
    requires ComparePair(a[i], b[i], order) != Some(Equal)
    ensures var k := if CompareText(a[i].key, b[i].key) == Greater then b[i].key else a[i].key;
      !Agree(m, n, order, k) && ComparePair(a[i], b[i], order) == Decision(m, n, order, k)
  {
    hide CompareText;
    TextEqual(a[i].key, b[i].key);
    TextEqual(b[i].key, a[i].key);
    if CompareText(a[i].key, b[i].key) == Less {
      NotIn(n, a, b, i, order);
    } else if CompareText(a[i].key, b[i].key) == Greater {
      forall j | 0 <= j < i
        ensures ComparePair(b[j], a[j], KeysOnly) == Some(Equal)
      {
        TextEqual(a[j].key, b[j].key);
        TextEqual(b[j].key, a[j].key);
      }
      NotIn(m, b, a, i, KeysOnly);
    }
  }

  /** An order that tells no values apart. */
  function KeysOnly(x: Value, y: Value): Option<Ordering> {
    Some(Equal)
  }

  /** At a key the maps do not agree at: the values decide if both have it, otherwise the map that has it is the
      smaller one. */
  ghost function Decision(m: map<string, Value>, n: map<string, Value>, order: ValueOrder, k: string)
    : Option<Ordering>
  {
    if k in m && k in n then order(m[k], n[k]) else if k in m then Some(Less) else Some(Greater)
  }

  /** The smaller map comes first, whatever is in it. Of maps of one size the bytewise first key they do not
      agree at decides. */
  lemma Decided(m: map<string, Value>, n: map<string, Value>, a: seq<Pair>, b: seq<Pair>, order: ValueOrder)
    requires Enumerates(a, m) && Enumerates(b, n)
    ensures |m| < |n| ==> PartialCompare(a, b, order) == Some(Less)
    ensures |m| > |n| ==> PartialCompare(a, b, order) == Some(Greater)
    ensures |m| == |n| ==> forall k :: FirstDifference(m, n, order, k) ==>
      PartialCompare(a, b, order) == Decision(m, n, order, k)
  {
    hide Enumerates, SortByKey, CompareText, Ascending, Sorted, FirstDifference, ComparePair;
    EnumerationSize(a, m);
    EnumerationSize(b, n);
    if |m| == |n| {
      var s, t := SortByKey(a), SortByKey(b);
      SortedIs(a, m);
      SortedIs(b, n);
      SortLength(a);
      SortLength(b);
      var i := FirstUnequal(s, t, order);
      EqualSkipped(s, t, i, order);
      if i == |s| {
        EqualIffMapsEqual(m, n, order, a, b);
        forall k
          ensures !FirstDifference(m, n, order, k)
        {
          NoDifference(m, n, order, k);
        }
      } else {
        var k := DifferenceAt(m, n, s, t, i, order);
        forall l | FirstDifference(m, n, order, l)
          ensures l == k
        {
          OneDifference(m, n, order, k, l);
        }
      }
    }
  }

  lemma NoDifference(m: map<string, Value>, n: map<string, Value>, order: ValueOrder, k: string)
    requires MapsEqual(m, n, order)
    ensures !FirstDifference(m, n, order, k)
  {
    hide Before;
    assert k in m.Keys <==> k in n.Keys;
  }

  lemma OneDifference(m: map<string, Value>, n: map<string, Value>, order: ValueOrder, k: string, l: string)
    requires FirstDifference(m, n, order, k) && FirstDifference(m, n, order, l)
    ensures k == l
  {
    hide Before, Agree, CompareText;
    LessIsBefore(k, l);
    LessIsBefore(l, k);
    TextEqual(k, l);
  }

  /** The order is not the lexicographic one of the sorted pairs: the map of one later key comes before that of
      two keys, an earlier one among them. */
  lemma SizeBeforeKeys(v: Value, order: ValueOrder)
    ensures var a, b := [Pair("b", v)], [Pair("a", v), Pair("c", v)];
      && PartialCompare(a, b, order) == Some(Less)
      && CompareSorted(SortByKey(a), SortByKey(b), order) == Some(Greater)
  {
    var a, b, c := Pair("a", v), Pair("b", v), Pair("c", v);
    OneSorted(b);
    OneSorted(c);
    assert CompareText("a", "c") == Less && CompareText("b", "a") == Greater;
    assert [a, c][1..] == [c];
    assert SortByKey([a, c]) == Insert(a, [c]) == [a] + [c] == [a, c];
  }

  lemma OneSorted(p: Pair)
    ensures SortByKey([p]) == [p]
  {
    assert [p][1..] == [];
  }
}
