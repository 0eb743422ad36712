/** The stable sort by decreasing length that decides in which order values are looked for. */
module ByLength {
  import opened Prelude

  ghost predicate LongestFirst<T>(vs: seq<seq<T>>) {
    forall i, j :: 0 <= i < j < |vs| ==> |vs[i]| >= |vs[j]|
  }

  /** Puts `v` before the first value that is no longer than `v`. */
  function InsertByLength<T>(v: seq<T>, vs: seq<seq<T>>): seq<seq<T>> {
    if vs == [] || |vs[0]| <= |v| then [v] + vs else [vs[0]] + InsertByLength(v, vs[1..])
  }

  /** `vs.sort((a, b) => b.length - a.length)`, which is stable. */
  function SortByLength<T>(vs: seq<seq<T>>): seq<seq<T>> {
    if vs == [] then [] else InsertByLength(vs[0], SortByLength(vs[1..]))
  }

  function OfLength<T>(vs: seq<seq<T>>, n: nat): seq<seq<T>> {
    if vs == [] then [] else (if |vs[0]| == n then [vs[0]] else []) + OfLength(vs[1..], n)
  }

  lemma {:induction false} InsertKeepsAll<T>(v: seq<T>, vs: seq<seq<T>>)
    ensures multiset(InsertByLength(v, vs)) == multiset(vs) + multiset{v}
  {
    if vs != [] && |vs[0]| > |v| {
      InsertKeepsAll(v, vs[1..]);
      assert vs == [vs[0]] + vs[1..];
    }
  }

  lemma {:induction false} InsertKeepsOrder<T>(v: seq<T>, vs: seq<seq<T>>, bound: nat)
    requires LongestFirst(vs) && |v| <= bound && forall i :: 0 <= i < |vs| ==> |vs[i]| <= bound
    ensures LongestFirst(InsertByLength(v, vs))
    ensures forall i :: 0 <= i < |InsertByLength(v, vs)| ==> |InsertByLength(v, vs)[i]| <= bound
  {
    if vs != [] && |vs[0]| > |v| { InsertKeepsOrder(v, vs[1..], |vs[0]|); }
  }

  lemma {:induction false} SortKeepsAll<T>(vs: seq<seq<T>>)
    ensures multiset(SortByLength(vs)) == multiset(vs)
  {
    if vs != [] {
      SortKeepsAll(vs[1..]);
      InsertKeepsAll(vs[0], SortByLength(vs[1..]));
      assert vs == [vs[0]] + vs[1..];
    }
  }

  lemma {:induction false} SortOrders<T>(vs: seq<seq<T>>)
    ensures LongestFirst(SortByLength(vs))
  {
    if vs != [] {
      SortOrders(vs[1..]);
      var sorted := SortByLength(vs[1..]);
      InsertKeepsOrder(vs[0], sorted, if sorted == [] || |sorted[0]| < |vs[0]| then |vs[0]| else |sorted[0]|);
    }
  }

  lemma {:induction false} InsertIsStable<T>(v: seq<T>, vs: seq<seq<T>>, n: nat)
    ensures OfLength(InsertByLength(v, vs), n) == (if |v| == n then [v] else []) + OfLength(vs, n)
  {
    if vs == [] || |vs[0]| <= |v| {
      OfLengthCons(v, vs, n);
    } else {
      InsertIsStable(v, vs[1..], n);
      OfLengthCons(vs[0], InsertByLength(v, vs[1..]), n);
    }
  }

  lemma OfLengthCons<T>(v: seq<T>, vs: seq<seq<T>>, n: nat)
    ensures OfLength([v] + vs, n) == (if |v| == n then [v] else []) + OfLength(vs, n)
  {
    assert ([v] + vs)[1..] == vs;
  }

  /** Values of one length keep the order that they had. */
  lemma {:induction false} SortIsStable<T>(vs: seq<seq<T>>, n: nat)
    ensures OfLength(SortByLength(vs), n) == OfLength(vs, n)
  {
    if vs != [] {
      SortIsStable(vs[1..], n);
      InsertIsStable(vs[0], SortByLength(vs[1..]), n);
    }
  }

  /** `x` stands somewhere before `y`. */
  predicate Before<T(==)>(vs: seq<T>, x: T, y: T) {
    vs != [] && ((vs[0] == x && y in vs[1..]) || Before(vs[1..], x, y))
  }

  lemma {:induction false} BeforeIff<T>(vs: seq<T>, x: T, y: T)
    ensures Before(vs, x, y) <==> exists i, j :: 0 <= i < j < |vs| && vs[i] == x && vs[j] == y
  {
    if vs != [] {
      BeforeIff(vs[1..], x, y);
      if Before(vs[1..], x, y) {
        var i, j :| 0 <= i < j < |vs[1..]| && vs[1..][i] == x && vs[1..][j] == y;
        assert vs[i + 1] == x && vs[j + 1] == y;
      } else if i, j :| 0 <= i < j < |vs| && vs[i] == x && vs[j] == y {
        assert vs[1..][j - 1] == y;
        if i > 0 { assert vs[1..][i - 1] == x; }
      }
    }
  }

  lemma {:induction false} OfLengthHas<T>(vs: seq<seq<T>>, x: seq<T>)
    ensures x in OfLength(vs, |x|) <==> x in vs
  {
    if vs != [] {
      OfLengthHas(vs[1..], x);
      assert vs == [vs[0]] + vs[1..];
    }
  }

  lemma {:induction false} OfLengthBefore<T>(vs: seq<seq<T>>, x: seq<T>, y: seq<T>)
    requires |x| == |y|
    ensures Before(OfLength(vs, |x|), x, y) <==> Before(vs, x, y)
  {
    if vs != [] {
      OfLengthBefore(vs[1..], x, y);
      OfLengthHas(vs[1..], y);
      var rest := OfLength(vs[1..], |x|);
      if |vs[0]| == |x| {
        assert OfLength(vs, |x|) == [vs[0]] + rest && ([vs[0]] + rest)[1..] == rest;
      } else {
        assert OfLength(vs, |x|) == rest;
      }
    }
  }

  /** Of two values of one length the earlier one stays the earlier one. */
  lemma SortKeepsPlaces<T>(vs: seq<seq<T>>, x: seq<T>, y: seq<T>)
    requires |x| == |y|
    ensures Before(SortByLength(vs), x, y) <==> Before(vs, x, y)
  {
    SortIsStable(vs, |x|);
    OfLengthBefore(vs, x, y);
    OfLengthBefore(SortByLength(vs), x, y);
  }

  lemma SameElements<T>(a: seq<seq<T>>, b: seq<seq<T>>)
    requires multiset(a) == multiset(b)
    ensures forall v :: v in a <==> v in b
    ensures NoDuplicates(a) ==> NoDuplicates(b)
  {
    forall v ensures v in a <==> v in b {
      assert v in a <==> v in multiset(a);
      assert v in b <==> v in multiset(b);
    }
    if NoDuplicates(a) {
      forall i, j | 0 <= i < j < |b| ensures b[i] != b[j] {
        OnceEach(a, b[i]);
        assert b == b[..j] + [b[j]] + b[j + 1..];
        assert b[i] in multiset(b[..j]) by { assert b[..j][i] == b[i]; }
      }
    }
  }

  lemma {:induction false} OnceEach<T>(a: seq<seq<T>>, v: seq<T>)
    requires NoDuplicates(a)
    ensures multiset(a)[v] <= 1
  {
    if a != [] {
      OnceEach(a[1..], v);
      assert a == [a[0]] + a[1..];
      assert a[0] !in a[1..];
    }
  }
}
