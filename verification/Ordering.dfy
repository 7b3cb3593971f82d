/**
 Sorting as the operator relies on it: `sort.Slice` returns some permutation
 that is sorted by the given comparison, and is not stable. When such a result
 is determined by the multiset that was sorted, regardless of its order.
 */
module Ordering {

  // ---------- Strings and keys ----------

  /** The order of Go's `<` on strings: lexicographic by code unit. */
  predicate StringLess(a: string, b: string)
    decreases |a|
  {
    b != [] && (a == [] || a[0] < b[0] || (a[0] == b[0] && StringLess(a[1..], b[1..])))
  }

  lemma {:induction false} StringTotal(a: string, b: string)
    ensures !StringLess(a, a)
    ensures a == b || StringLess(a, b) || StringLess(b, a)
    decreases |a|
  {
    if a != [] {
      StringTotal(a[1..], a[1..]);
    }
    if a != [] && b != [] {
      StringTotal(a[1..], b[1..]);
      assert a == [a[0]] + a[1..] && b == [b[0]] + b[1..];
    }
  }

  lemma {:induction false} StringTransitive(a: string, b: string, c: string)
    requires StringLess(a, b) && StringLess(b, c)
    ensures StringLess(a, c)
    decreases |a|
  {
    if a != [] && a[0] == b[0] && b[0] == c[0] {
      StringTransitive(a[1..], b[1..], c[1..]);
    }
  }

  /** The order of strings: a proper prefix comes first, otherwise the first difference decides. */
  ghost predicate SortsBefore(a: string, b: string) {
    || (a <= b && a != b)
    || exists k :: 0 <= k < |a| && k < |b| && a[..k] == b[..k] && a[k] < b[k]
  }

  lemma {:induction false} StringLessIff(a: string, b: string)
    ensures StringLess(a, b) <==> SortsBefore(a, b)
    decreases |a|
  {
    if a != [] && b != [] {
      StringLessIff(a[1..], b[1..]);
      assert a == [a[0]] + a[1..] && b == [b[0]] + b[1..];
      if a[0] < b[0] { assert a[..0] == b[..0]; }
      if a[0] == b[0] { SortsBeforeCons(a, b); }
    } else if b != [] {
      assert a <= b;
    }
  }

  lemma SortsBeforeCons(a: string, b: string)
    requires a != [] && b != [] && a[0] == b[0]
    ensures SortsBefore(a, b) <==> SortsBefore(a[1..], b[1..])
  {
    assert a == [a[0]] + a[1..] && b == [b[0]] + b[1..];
    forall k | 0 < k < |a| && k < |b|
      ensures a[..k] == b[..k] <==> a[1..][..k - 1] == b[1..][..k - 1]
      ensures a[k] == a[1..][k - 1] && b[k] == b[1..][k - 1]
    {
      assert a[..k] == [a[0]] + a[1..][..k - 1] && b[..k] == [b[0]] + b[1..][..k - 1];
      assert a[..k][1..] == a[1..][..k - 1] && b[..k][1..] == b[1..][..k - 1];
    }
    if k :| 0 <= k < |a[1..]| && k < |b[1..]| && a[1..][..k] == b[1..][..k] && a[1..][k] < b[1..][k] {
      assert a[..k + 1] == b[..k + 1] && a[k + 1] < b[k + 1];
    }
  }

  /** Lists of strings compared entry by entry. */
  predicate LexLess(a: seq<string>, b: seq<string>) {
    b != [] && (a == [] || StringLess(a[0], b[0]) || (a[0] == b[0] && LexLess(a[1..], b[1..])))
  }

  datatype KeyPart = Num(n: nat) | Text(s: string)

  /** A sort key: its parts are compared in turn. */
  datatype Key = End | More(head: KeyPart, tail: Key)

  predicate PartLess(a: KeyPart, b: KeyPart) {
    match (a, b)
    case (Num(m), Num(n)) => m < n
    case (Text(s), Text(t)) => StringLess(s, t)
    case (Num(_), Text(_)) => true
    case (Text(_), Num(_)) => false
  }

  predicate KeyLess(a: Key, b: Key) {
    b.More? && (a.End? || PartLess(a.head, b.head) || (a.head == b.head && KeyLess(a.tail, b.tail)))
  }

  function Texts(a: seq<string>): Key {
    if a == [] then End else More(Text(a[0]), Texts(a[1..]))
  }

  lemma {:induction false} TextsLess(a: seq<string>, b: seq<string>)
    ensures KeyLess(Texts(a), Texts(b)) <==> LexLess(a, b)
    decreases |a|
  {
    if a != [] && b != [] { TextsLess(a[1..], b[1..]); }
  }

  lemma PartTotal(a: KeyPart, b: KeyPart)
    ensures !PartLess(a, a)
    ensures a == b || PartLess(a, b) || PartLess(b, a)
  {
    if a.Text? { StringTotal(a.s, a.s); }
    if a.Text? && b.Text? { StringTotal(a.s, b.s); }
  }

  lemma PartTransitive(a: KeyPart, b: KeyPart, c: KeyPart)
    requires PartLess(a, b) && PartLess(b, c)
    ensures PartLess(a, c)
  {
    if a.Text? && b.Text? && c.Text? { StringTransitive(a.s, b.s, c.s); }
  }

  lemma {:induction false} KeyTotal(a: Key, b: Key)
    ensures !KeyLess(a, a)
    ensures a == b || KeyLess(a, b) || KeyLess(b, a)
    decreases a
  {
    if a.More? {
      PartTotal(a.head, a.head);
      KeyTotal(a.tail, a.tail);
      if b.More? {
        PartTotal(a.head, b.head);
        KeyTotal(a.tail, b.tail);
      }
    }
  }

  lemma {:induction false} KeyTransitive(a: Key, b: Key, c: Key)
    requires KeyLess(a, b) && KeyLess(b, c)
    ensures KeyLess(a, c)
    decreases a
  {
    if a.More? {
      if PartLess(a.head, b.head) && PartLess(b.head, c.head) {
        PartTransitive(a.head, b.head, c.head);
      } else if a.head == b.head == c.head && KeyLess(a.tail, b.tail) && KeyLess(b.tail, c.tail) {
        KeyTransitive(a.tail, b.tail, c.tail);
      }
    }
  }

  lemma KeyAntisymmetric(a: Key, b: Key)
    requires KeyLess(a, b)
    ensures !KeyLess(b, a)
  {
    if KeyLess(b, a) {
      KeyTransitive(a, b, a);
      KeyTotal(a, a);
    }
  }

  // ---------- Sorted permutations ----------

  /** The comparison `less` orders by `key`. */
  ghost predicate OrdersBy<T(!new)>(less: (T, T) -> bool, key: T -> Key) {
    forall x, y :: less(x, y) <==> KeyLess(key(x), key(y))
  }

  /** No element is less than one before it. */
  ghost predicate SortedBy<T>(less: (T, T) -> bool, s: seq<T>) {
    forall i, j :: 0 <= i < j < |s| ==> !less(s[j], s[i])
  }

  /** What `sort.Slice` promises of its result. */
  ghost predicate IsSortOf<T>(less: (T, T) -> bool, s: seq<T>, sorted: seq<T>) {
    multiset(sorted) == multiset(s) && SortedBy(less, sorted)
  }

  /** Elements with the same key are the same element. */
  ghost predicate KeysDistinguish<T>(key: T -> Key, s: seq<T>) {
    forall x, y :: x in s && y in s && key(x) == key(y) ==> x == y
  }

  /** A sorted result depends only on the multiset sorted, when keys tell its elements apart. */
  lemma {:induction false} SortUnique<T(!new)>(less: (T, T) -> bool, key: T -> Key, a: seq<T>, b: seq<T>)
    requires OrdersBy(less, key)
    requires multiset(a) == multiset(b) && SortedBy(less, a) && SortedBy(less, b)
    requires KeysDistinguish(key, a)
    ensures a == b
    decreases |a|
  {
    SameLength(a, b);
    if a != [] {
      SortFirst(less, key, a, b);
      DropFirst(a);
      DropFirst(b);
      SortTail(less, key, a);
      SortTail(less, key, b);
      SortUnique(less, key, a[1..], b[1..]);
      SameFromParts(a, b);
    }
  }

  lemma SortTail<T>(less: (T, T) -> bool, key: T -> Key, s: seq<T>)
    requires SortedBy(less, s) && s != []
    ensures SortedBy(less, s[1..])
    ensures KeysDistinguish(key, s) ==> KeysDistinguish(key, s[1..])
  {
  }

  lemma SameFromParts<T>(a: seq<T>, b: seq<T>)
    requires a != [] && b != [] && a[0] == b[0] && a[1..] == b[1..]
    ensures a == b
  {
  }

  lemma SortFirst<T(!new)>(less: (T, T) -> bool, key: T -> Key, a: seq<T>, b: seq<T>)
    requires OrdersBy(less, key)
    requires multiset(a) == multiset(b) && SortedBy(less, a) && SortedBy(less, b)
    requires KeysDistinguish(key, a) && a != [] && b != []
    ensures a[0] == b[0]
  {
    var p := Find(b, a, 0);
    var q := Find(a, b, 0);
    KeyTotal(key(a[0]), key(b[0]));
    assert !less(b[0], a[0]) by { if q > 0 { assert !less(a[q], a[0]); } else { KeyTotal(key(a[0]), key(a[0])); } }
    assert !less(a[0], b[0]) by { if p > 0 { assert !less(b[p], b[0]); } else { KeyTotal(key(a[0]), key(a[0])); } }
  }

  lemma SameLength<T>(a: seq<T>, b: seq<T>)
    requires multiset(a) == multiset(b)
    ensures |a| == |b|
  {
    assert |multiset(a)| == |a| && |multiset(b)| == |b|;
  }

  lemma DropFirst<T>(s: seq<T>)
    requires s != []
    ensures multiset(s[1..]) == multiset(s) - multiset{s[0]}
  {
    assert s == [s[0]] + s[1..];
  }

  /** Where `s` holds the element that its permutation `t` has at `i`. */
  lemma Find<T>(s: seq<T>, t: seq<T>, i: nat) returns (p: nat)
    requires multiset(s) == multiset(t) && i < |t|
    ensures p < |s| && s[p] == t[i]
  {
    assert t[i] in multiset(t);
    assert t[i] in s;
    p :| 0 <= p < |s| && s[p] == t[i];
  }

  lemma SameMembers<T>(a: seq<T>, b: seq<T>)
    requires multiset(a) == multiset(b)
    ensures forall x :: x in a <==> x in b
  {
    forall x
      ensures x in a <==> x in b
    {
      assert x in a <==> x in multiset(a);
      assert x in b <==> x in multiset(b);
    }
  }

  /** Conversely, two different elements with one key leave the sorted result open. */
  lemma SortAmbiguous<T(!new)>(less: (T, T) -> bool, key: T -> Key, s: seq<T>, i: nat, j: nat) returns (other: seq<T>)
    requires OrdersBy(less, key) && SortedBy(less, s)
    requires i < j < |s| && s[i] != s[j] && key(s[i]) == key(s[j])
    ensures IsSortOf(less, s, other) && other != s
  {
    other := s[i := s[j]][j := s[i]];
    SwapPermutes(s, i, j);
    forall m, n | 0 <= m < n < |s|
      ensures !less(other[n], other[m])
    {
      var m', n' := Swapped(m, i, j), Swapped(n, i, j);
      assert other[m] == s[m'] && other[n] == s[n'];
      if n' < m' {
        assert less(s[n'], s[m']) <==> KeyLess(key(s[n']), key(s[m']));
        BetweenEqualKeys(less, key, s, i, j, n');
        BetweenEqualKeys(less, key, s, i, j, m');
        KeyTotal(key(s[i]), key(s[i]));
      }
    }
  }

  function Swapped(m: nat, i: nat, j: nat): nat {
    if m == i then j else if m == j then i else m
  }

  lemma SwapPermutes<T>(s: seq<T>, i: nat, j: nat)
    requires i < j < |s|
    ensures multiset(s[i := s[j]][j := s[i]]) == multiset(s)
  {
  }

  lemma BetweenEqualKeys<T(!new)>(less: (T, T) -> bool, key: T -> Key, s: seq<T>, i: nat, j: nat, m: nat)
    requires OrdersBy(less, key) && SortedBy(less, s)
    requires i <= m <= j < |s| && key(s[i]) == key(s[j])
    ensures key(s[m]) == key(s[i])
  {
    KeyTotal(key(s[m]), key(s[i]));
    assert m > i ==> !less(s[m], s[i]);
    assert m < j ==> !less(s[j], s[m]);
  }

  /** One way to sort; callers rely on `IsSortOf` alone. */
  method Sort<T(!new)>(s: seq<T>, less: (T, T) -> bool, ghost key: T -> Key) returns (sorted: seq<T>)
    requires OrdersBy(less, key)
    ensures IsSortOf(less, s, sorted)
  {
    sorted := [];
    for n := 0 to |s|
      invariant multiset(sorted) == multiset(s[..n])
      invariant SortedBy(less, sorted)
    {
      InsertSorts(less, key, sorted, s[n]);
      sorted := Insert(less, sorted, s[n]);
      assert s[..n + 1] == s[..n] + [s[n]];
    }
    assert s[..|s|] == s;
  }

  /** Where `x` belongs in a sorted list: behind everything that it is not less than. */
  function Position<T>(less: (T, T) -> bool, s: seq<T>, x: T): (i: nat)
    ensures i <= |s| && (i > 0 ==> !less(x, s[i - 1])) && forall k :: i <= k < |s| ==> less(x, s[k])
  {
    if s == [] then 0 else if less(x, s[|s| - 1]) then Position(less, s[..|s| - 1], x) else |s|
  }

  function Insert<T>(less: (T, T) -> bool, s: seq<T>, x: T): seq<T> {
    s[..Position(less, s, x)] + [x] + s[Position(less, s, x)..]
  }

  lemma InsertSorts<T(!new)>(less: (T, T) -> bool, key: T -> Key, s: seq<T>, x: T)
    requires OrdersBy(less, key) && SortedBy(less, s)
    ensures SortedBy(less, Insert(less, s, x)) && multiset(Insert(less, s, x)) == multiset(s) + multiset{x}
  {
    var i := Position(less, s, x);
    assert s == s[..i] + s[i..];
    InsertSorted(s, x, i, less, key);
  }

  lemma InsertSorted<T(!new)>(s: seq<T>, x: T, i: nat, less: (T, T) -> bool, key: T -> Key)
    requires OrdersBy(less, key) && SortedBy(less, s) && i <= |s|
    requires i > 0 ==> !less(x, s[i - 1])
    requires forall k :: i <= k < |s| ==> less(x, s[k])
    ensures SortedBy(less, s[..i] + [x] + s[i..])
  {
    var r := s[..i] + [x] + s[i..];
    forall m, n | 0 <= m < n < |r|
      ensures !less(r[n], r[m])
    {
      InsertOrdered(s, x, i, less, key, m, n);
      assert r[m] == (if m < i then s[m] else if m == i then x else s[m - 1]);
      assert r[n] == (if n < i then s[n] else if n == i then x else s[n - 1]);
    }
  }

  lemma InsertOrdered<T(!new)>(s: seq<T>, x: T, i: nat, less: (T, T) -> bool, key: T -> Key, m: nat, n: nat)
    requires OrdersBy(less, key) && SortedBy(less, s) && i <= |s| && m < n <= |s|
    requires i > 0 ==> !less(x, s[i - 1])
    requires forall k :: i <= k < |s| ==> less(x, s[k])
    ensures var a := if m < i then s[m] else if m == i then x else s[m - 1];
            var b := if n < i then s[n] else if n == i then x else s[n - 1];
            !less(b, a)
  {
    if n == i {
      if m < i - 1 {
        assert !less(s[i - 1], s[m]);
        NotLessTransitive(key(s[m]), key(s[i - 1]), key(x));
      }
    } else if m == i {
      assert less(x, s[n - 1]);
      KeyAntisymmetric(key(x), key(s[n - 1]));
    }
  }

  lemma NotLessTransitive(a: Key, b: Key, c: Key)
    requires !KeyLess(b, a) && !KeyLess(c, b)
    ensures !KeyLess(c, a)
  {
    KeyTotal(a, b);
    KeyTotal(b, c);
    if KeyLess(c, a) && a != b && b != c {
      KeyTransitive(a, b, c);
      KeyAntisymmetric(a, c);
    }
  }

  lemma {:induction false} SortExists<T(!new)>(less: (T, T) -> bool, key: T -> Key, s: seq<T>) returns (sorted: seq<T>)
    requires OrdersBy(less, key)
    ensures IsSortOf(less, s, sorted)
    decreases |s|
  {
    sorted := [];
    if s != [] {
      var rest := SortExists(less, key, s[1..]);
      InsertSorts(less, key, rest, s[0]);
      sorted := Insert(less, rest, s[0]);
      assert s == [s[0]] + s[1..];
    }
  }

  /** Sorting has one possible result exactly when keys tell the elements apart. */
  lemma SortDeterminedIffKeysDistinguish<T(!new)>(less: (T, T) -> bool, key: T -> Key, s: seq<T>)
    requires OrdersBy(less, key)
    ensures (forall a, b :: IsSortOf(less, s, a) && IsSortOf(less, s, b) ==> a == b) <==> KeysDistinguish(key, s)
  {
    if KeysDistinguish(key, s) {
      forall a, b | IsSortOf(less, s, a) && IsSortOf(less, s, b)
        ensures a == b
      {
        SameMembers(a, s);
        SortUnique(less, key, a, b);
      }
    } else {
      var a := SortExists(less, key, s);
      SameMembers(a, s);
      var x, y :| x in s && y in s && key(x) == key(y) && x != y;
      var i :| 0 <= i < |a| && a[i] == x;
      var j :| 0 <= j < |a| && a[j] == y;
      var b := SortAmbiguous(less, key, a, if i < j then i else j, if i < j then j else i);
      assert IsSortOf(less, s, a) && IsSortOf(less, s, b) && a != b;
    }
  }

  // ---------- Gathering ----------

  /** The contributions of all sources, in order. */
  function Gather<A, B>(f: A -> seq<B>, xs: seq<A>): seq<B> {
    if xs == [] then [] else f(xs[0]) + Gather(f, xs[1..])
  }

  lemma {:induction false} GatherAppend<A, B>(f: A -> seq<B>, xs: seq<A>, ys: seq<A>)
    ensures Gather(f, xs + ys) == Gather(f, xs) + Gather(f, ys)
  {
    if xs == [] {
      assert xs + ys == ys;
    } else {
      assert (xs + ys)[1..] == xs[1..] + ys;
      GatherAppend(f, xs[1..], ys);
    }
  }

  lemma GatherNext<A, B>(f: A -> seq<B>, xs: seq<A>, i: nat)
    requires i < |xs|
    ensures Gather(f, xs[..i + 1]) == Gather(f, xs[..i]) + f(xs[i])
  {
    assert xs[..i + 1] == xs[..i] + [xs[i]];
    GatherAppend(f, xs[..i], [xs[i]]);
    assert [xs[i]][1..] == [];
    assert Gather(f, [xs[i]]) == f(xs[i]) + [];
  }

  lemma GatherSnoc<A, B>(f: A -> seq<B>, xs: seq<A>, x: A)
    ensures Gather(f, xs + [x]) == Gather(f, xs) + f(x)
  {
    GatherNext(f, xs + [x], |xs|);
    assert (xs + [x])[..|xs|] == xs && (xs + [x])[..|xs| + 1] == xs + [x];
  }

  lemma GatherOne<A, B>(f: A -> seq<B>, x: A)
    ensures Gather(f, [x]) == f(x)
  {
    GatherSnoc(f, [], x);
    assert [] + [x] == [x] && Gather(f, []) + f(x) == f(x);
  }

  lemma {:induction false} GatherMember<A, B>(f: A -> seq<B>, xs: seq<A>, y: B)
    requires y in Gather(f, xs)
    ensures exists x :: x in xs && y in f(x)
  {
    if y in f(xs[0]) {
      assert xs[0] in xs;
    } else {
      GatherMember(f, xs[1..], y);
    }
  }

  lemma {:induction false} GatherHolds<A, B>(f: A -> seq<B>, xs: seq<A>, x: A, y: B)
    requires x in xs && y in f(x)
    ensures y in Gather(f, xs)
  {
    if x != xs[0] {
      GatherHolds(f, xs[1..], x, y);
    }
  }

  /** Where a contribution stands. */
  lemma GatherAt<A, B>(f: A -> seq<B>, xs: seq<A>, i: nat, j: nat)
    requires i < |xs| && j < |f(xs[i])|
    ensures var n := |Gather(f, xs[..i])| + j; n < |Gather(f, xs)| && Gather(f, xs)[n] == f(xs[i])[j]
  {
    GatherNext(f, xs, i);
    GatherAppend(f, xs[..i + 1], xs[i + 1..]);
    assert xs == xs[..i + 1] + xs[i + 1..];
  }

  lemma GatherIff<A(!new), B(!new)>(f: A -> seq<B>, xs: seq<A>)
    ensures forall y :: y in Gather(f, xs) <==> exists x :: x in xs && y in f(x)
  {
    forall y
      ensures y in Gather(f, xs) <==> exists x :: x in xs && y in f(x)
    {
      if y in Gather(f, xs) { GatherMember(f, xs, y); }
      if x :| x in xs && y in f(x) { GatherHolds(f, xs, x, y); }
    }
  }

  lemma PrefixNext<T>(done: seq<T>, xs: seq<T>, j: nat)
    requires j < |xs|
    ensures done + xs[..j + 1] == done + xs[..j] + [xs[j]]
  {
  }

  /** Gathering from a reordered list yields a reordered result. */
  lemma {:induction false} GatherPermutes<A, B>(f: A -> seq<B>, xs: seq<A>, ys: seq<A>)
    requires multiset(xs) == multiset(ys)
    ensures multiset(Gather(f, xs)) == multiset(Gather(f, ys))
    decreases |xs|
  {
    SameLength(xs, ys);
    if xs != [] {
      var p := Find(ys, xs, 0);
      var rest := ys[..p] + ys[p + 1..];
      DropFirst(xs);
      DropAt(ys, p);
      GatherPermutes(f, xs[1..], rest);
      GatherWithout(f, ys, p);
    }
  }

  lemma GatherWithout<A, B>(f: A -> seq<B>, ys: seq<A>, p: nat)
    requires p < |ys|
    ensures multiset(Gather(f, ys)) == multiset(f(ys[p])) + multiset(Gather(f, ys[..p] + ys[p + 1..]))
  {
    SplitAt(ys, p);
    GatherMiddle(f, ys[..p], ys[p], ys[p + 1..]);
    GatherAppend(f, ys[..p], ys[p + 1..]);
    MiddleFirst(Gather(f, ys[..p]), f(ys[p]), Gather(f, ys[p + 1..]));
  }

  lemma SplitAt<T>(s: seq<T>, p: nat)
    requires p < |s|
    ensures s == s[..p] + [s[p]] + s[p + 1..]
  {
  }

  lemma GatherMiddle<A, B>(f: A -> seq<B>, a: seq<A>, x: A, b: seq<A>)
    ensures Gather(f, a + [x] + b) == Gather(f, a) + f(x) + Gather(f, b)
  {
    GatherAppend(f, a + [x], b);
    GatherSnoc(f, a, x);
  }

  lemma MiddleFirst<T>(a: seq<T>, m: seq<T>, b: seq<T>)
    ensures multiset(a + m + b) == multiset(m) + multiset(a + b)
  {
  }

  lemma DropAt<T>(s: seq<T>, p: nat)
    requires p < |s|
    ensures multiset(s[..p] + s[p + 1..]) == multiset(s) - multiset{s[p]}
  {
    assert s == s[..p] + [s[p]] + s[p + 1..];
  }

  /**
   A list gathered from sources and then sorted does not depend on the order
   of the sources, as long as keys tell the gathered elements apart.
   */
  lemma SortedGatherOrderIndependent<A, B(!new)>(
      f: A -> seq<B>, less: (B, B) -> bool, key: B -> Key, xs: seq<A>, ys: seq<A>, a: seq<B>, b: seq<B>)
    requires OrdersBy(less, key)
    requires multiset(xs) == multiset(ys)
    requires IsSortOf(less, Gather(f, xs), a) && IsSortOf(less, Gather(f, ys), b)
    requires KeysDistinguish(key, Gather(f, xs))
    ensures a == b
  {
    GatherPermutes(f, xs, ys);
    SameMembers(a, Gather(f, xs));
    SortUnique(less, key, a, b);
  }

  // ---------- Maps filled from gathered pairs ----------

  /** Later pairs win, as assigning to a Go map in a loop does. */
  function ToMap<K, V>(pairs: seq<(K, V)>): map<K, V> {
    if pairs == [] then map[]
    else ToMap(pairs[..|pairs| - 1])[pairs[|pairs| - 1].0 := pairs[|pairs| - 1].1]
  }

  lemma ToMapNext<K, V>(pairs: seq<(K, V)>, pair: (K, V))
    ensures ToMap(pairs + [pair]) == ToMap(pairs)[pair.0 := pair.1]
  {
  }

  ghost predicate DistinctKeys<K, V>(pairs: seq<(K, V)>) {
    forall i, j :: 0 <= i < j < |pairs| ==> pairs[i].0 != pairs[j].0
  }

  lemma {:induction false} ToMapMembers<K, V>(pairs: seq<(K, V)>)
    ensures forall i :: 0 <= i < |pairs| ==> pairs[i].0 in ToMap(pairs)
    ensures forall k :: k in ToMap(pairs) ==> (k, ToMap(pairs)[k]) in pairs
    decreases |pairs|
  {
    if pairs != [] {
      var n := |pairs| - 1;
      ToMapMembers(pairs[..n]);
      forall i | 0 <= i < |pairs|
        ensures pairs[i].0 in ToMap(pairs)
      {
        if i < n { assert pairs[..n][i] == pairs[i]; }
      }
      forall k | k in ToMap(pairs)
        ensures (k, ToMap(pairs)[k]) in pairs
      {
        if k == pairs[n].0 { assert pairs[n] == (k, ToMap(pairs)[k]); }
      }
    }
  }

  /** Of several pairs with one key the last is kept. */
  lemma {:induction false} LastPairWins<K, V>(pairs: seq<(K, V)>, i: nat)
    requires i < |pairs| && forall j :: i < j < |pairs| ==> pairs[j].0 != pairs[i].0
    ensures pairs[i].0 in ToMap(pairs) && ToMap(pairs)[pairs[i].0] == pairs[i].1
    decreases |pairs|
  {
    if i < |pairs| - 1 {
      assert pairs[..|pairs| - 1][i] == pairs[i];
      LastPairWins(pairs[..|pairs| - 1], i);
    }
  }

  /** When keys differ, every pair is kept. */
  lemma {:induction false} PairKept<K, V>(pairs: seq<(K, V)>, i: nat)
    requires DistinctKeys(pairs) && i < |pairs|
    ensures pairs[i].0 in ToMap(pairs) && ToMap(pairs)[pairs[i].0] == pairs[i].1
  {
    ToMapMembers(pairs);
    var j :| 0 <= j < |pairs| && pairs[j] == (pairs[i].0, ToMap(pairs)[pairs[i].0]);
    assert j == i;
  }

  /** Nothing is overwritten exactly when keys differ. */
  lemma {:induction false} MapSizeIffDistinct<K, V>(pairs: seq<(K, V)>)
    ensures |ToMap(pairs)| <= |pairs|
    ensures |ToMap(pairs)| == |pairs| <==> DistinctKeys(pairs)
    decreases |pairs|
  {
    if pairs != [] {
      var n := |pairs| - 1;
      MapSizeIffDistinct(pairs[..n]);
      DistinctNext(pairs, n);
      MapSizeNext(ToMap(pairs[..n]), pairs[n].0, pairs[n].1);
    }
  }

  lemma MapSizeNext<K, V>(m: map<K, V>, k: K, v: V)
    ensures |m[k := v]| == |m| + if k in m then 0 else 1
  {
    assert m[k := v].Keys == m.Keys + {k};
    assert |m| == |m.Keys| && |m[k := v]| == |m[k := v].Keys|;
  }

  lemma DistinctNext<K, V>(pairs: seq<(K, V)>, n: nat)
    requires |pairs| == n + 1
    ensures DistinctKeys(pairs) <==> DistinctKeys(pairs[..n]) && pairs[n].0 !in ToMap(pairs[..n])
  {
    ToMapMembers(pairs[..n]);
    if pairs[n].0 in ToMap(pairs[..n]) {
      var i :| 0 <= i < n && pairs[..n][i] == (pairs[n].0, ToMap(pairs[..n])[pairs[n].0]);
      assert pairs[i].0 == pairs[n].0;
    } else {
      forall i | 0 <= i < n
        ensures pairs[i].0 != pairs[n].0
      {
        assert pairs[..n][i].0 in ToMap(pairs[..n]);
      }
    }
    assert forall i :: 0 <= i < n ==> pairs[..n][i] == pairs[i];
  }

  /** When keys differ, the map does not depend on the order of the sources. */
  lemma GatheredMapOrderIndependent<A, K, V>(f: A -> seq<(K, V)>, xs: seq<A>, ys: seq<A>)
    requires multiset(xs) == multiset(ys) && DistinctKeys(Gather(f, xs))
    ensures ToMap(Gather(f, xs)) == ToMap(Gather(f, ys))
  {
    GatherPermutes(f, xs, ys);
    MapOrderIndependent(Gather(f, xs), Gather(f, ys));
  }

  lemma MapOrderIndependent<K, V>(a: seq<(K, V)>, b: seq<(K, V)>)
    requires multiset(a) == multiset(b) && DistinctKeys(a)
    ensures ToMap(a) == ToMap(b)
  {
    SameMembers(a, b);
    ToMapMembers(a);
    ToMapMembers(b);
    forall k | k in ToMap(b)
      ensures k in ToMap(a) && ToMap(a)[k] == ToMap(b)[k]
    {
      var i :| 0 <= i < |a| && a[i] == (k, ToMap(b)[k]);
      PairKept(a, i);
    }
    forall k | k in ToMap(a)
      ensures k in ToMap(b)
    {
      var i :| 0 <= i < |b| && b[i] == (k, ToMap(a)[k]);
    }
  }
}
