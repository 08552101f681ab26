/** Shared vocabulary: an Option type for the source's null returns, the
    ordering QString uses, an ordered association list standing for QMap, and
    the cell assignments of a statically initialised table. */
module Common {

  /** A value or nothing; stands for a null QString or an unset slot. */
  datatype Option<+T> = None | Some(value: T) {
    function GetOr(default: T): T {
      match this
      case Some(v) => v
      case None => default
    }
  }

  // ---------------------------------------------------------------------------
  // String order (QString::operator<): lexicographic on characters.
  // ---------------------------------------------------------------------------

  predicate Less(a: string, b: string)
    decreases |a|
  {
    if |a| == 0 then |b| > 0
    else if |b| == 0 then false
    else a[0] < b[0] || (a[0] == b[0] && Less(a[1..], b[1..]))
  }

  lemma {:induction false} LessIrreflexive(a: string)
    ensures !Less(a, a)
    decreases |a|
  {
    if |a| > 0 {
      LessIrreflexive(a[1..]);
    }
  }

  lemma {:induction false} LessTransitive(a: string, b: string, c: string)
    requires Less(a, b) && Less(b, c)
    ensures Less(a, c)
    decreases |a|
  {
    if |a| > 0 && a[0] == b[0] && b[0] == c[0] {
      LessTransitive(a[1..], b[1..], c[1..]);
    }
  }

  lemma {:induction false} LessTotal(a: string, b: string)
    ensures a == b || Less(a, b) || Less(b, a)
    decreases |a|
  {
    if |a| > 0 && |b| > 0 && a[0] == b[0] {
      LessTotal(a[1..], b[1..]);
      if a[1..] == b[1..] {
        assert a == [a[0]] + a[1..] && b == [b[0]] + b[1..];
      }
    }
  }

  lemma LessAsymmetric(a: string, b: string)
    requires Less(a, b)
    ensures !Less(b, a)
  {
    if Less(b, a) {
      LessTransitive(a, b, a);
      LessIrreflexive(a);
    }
  }

  // ---------------------------------------------------------------------------
  // Ordered maps (QMap<QString, QString>): pairs kept in ascending key order, so that
  // walking the sequence is QMap's iteration order.
  // ---------------------------------------------------------------------------

  type OrderedMap = seq<(string, string)>

  ghost predicate Sorted(m: OrderedMap) {
    forall i, j :: 0 <= i < j < |m| ==> Less(m[i].0, m[j].0)
  }

  function KeySet(m: OrderedMap): set<string> {
    set p | p in m :: p.0
  }

  /** First binding of `k`; in a sorted map it is the only one. */
  function Get(m: OrderedMap, k: string): (r: Option<string>)
    ensures r.Some? <==> k in KeySet(m)
    ensures r.Some? ==> (k, r.value) in m
  {
    if |m| == 0 then None
    else if m[0].0 == k then Some(m[0].1)
    else
      assert KeySet(m) == {m[0].0} + KeySet(m[1..]) by {
        assert m == [m[0]] + m[1..];
      }
      Get(m[1..], k)
  }

  /** QMap::operator[] assignment: overwrite the binding of `k`, or insert it
      at its place in key order. */
  function Put(m: OrderedMap, k: string, v: string): (r: OrderedMap)
    ensures KeySet(r) == KeySet(m) + {k}
    ensures Get(r, k) == Some(v)
    ensures forall k' :: k' != k ==> Get(r, k') == Get(m, k')
    ensures |r| <= |m| + 1
  {
    if |m| == 0 then [(k, v)]
    else if m[0].0 == k then
      assert KeySet(m) == {m[0].0} + KeySet(m[1..]) by {
        assert m == [m[0]] + m[1..];
      }
      assert KeySet([(k, v)] + m[1..]) == {k} + KeySet(m[1..]);
      [(k, v)] + m[1..]
    else if Less(k, m[0].0) then
      assert KeySet([(k, v)] + m) == {k} + KeySet(m);
      [(k, v)] + m
    else
      assert KeySet(m) == {m[0].0} + KeySet(m[1..]) by {
        assert m == [m[0]] + m[1..];
      }
      var tail := Put(m[1..], k, v);
      assert KeySet([m[0]] + tail) == {m[0].0} + KeySet(tail);
      [m[0]] + tail
  }

  lemma {:induction false} PutSorted(m: OrderedMap, k: string, v: string)
    requires Sorted(m)
    ensures Sorted(Put(m, k, v))
    decreases |m|
  {
    if |m| == 0 {
    } else if m[0].0 == k {
      SortedTail(m);
      assert Put(m, k, v) == [(k, v)] + m[1..];
      ConsSorted(m[1..], k, v);
    } else if Less(k, m[0].0) {
      SortedTail(m);
      forall p | p in KeySet(m) ensures Less(k, p) {
        if p != m[0].0 {
          LessTransitive(k, m[0].0, p);
        }
      }
      assert Put(m, k, v) == [(k, v)] + m;
      ConsSorted(m, k, v);
    } else {
      LessTotal(k, m[0].0);
      SortedTail(m);
      PutSorted(m[1..], k, v);
      var tail := Put(m[1..], k, v);
      assert Put(m, k, v) == [m[0]] + tail;
      ConsSorted(tail, m[0].0, m[0].1);
    }
  }

  /** The tail of a sorted map is sorted and lies above its head key. */
  lemma SortedTail(m: OrderedMap)
    requires Sorted(m) && |m| > 0
    ensures Sorted(m[1..])
    ensures forall p :: p in KeySet(m[1..]) ==> Less(m[0].0, p)
    ensures KeySet(m) == {m[0].0} + KeySet(m[1..])
  {
    forall p | p in KeySet(m[1..]) ensures Less(m[0].0, p) {
      var q :| q in m[1..] && q.0 == p;
      var n :| 0 <= n < |m[1..]| && m[1..][n] == q;
      assert m[n + 1] == q;
    }
    assert m == [m[0]] + m[1..];
  }

  /** A key below every key of a sorted map may go in front of it. */
  lemma ConsSorted(m: OrderedMap, k: string, v: string)
    requires Sorted(m)
    requires forall p :: p in KeySet(m) ==> Less(k, p)
    ensures Sorted([(k, v)] + m)
  {
    var r := [(k, v)] + m;
    forall i, j | 0 <= i < j < |r| ensures Less(r[i].0, r[j].0) {
      if i == 0 {
        assert m[j - 1] in m;
      }
    }
  }

  /** In a sorted map every key occurs once. */
  lemma SortedKeysDistinct(m: OrderedMap, i: nat, j: nat)
    requires Sorted(m) && i < j < |m|
    ensures m[i].0 != m[j].0
  {
    LessIrreflexive(m[i].0);
  }

  /** No entry of `keys` occurs twice. */
  ghost predicate Distinct(keys: seq<string>) {
    forall i, j :: 0 <= i < j < |keys| ==> keys[i] != keys[j]
  }

  /** The hash map a constructor builds by inserting keys[i] -> i for
      i = 0 .. n - 1; with distinct keys every key finds its own index. */
  function IndexMap(keys: seq<string>, n: nat): (m: map<string, nat>)
    requires n <= |keys| && Distinct(keys)
    ensures forall i :: 0 <= i < n ==> keys[i] in m && m[keys[i]] == i
    ensures forall k :: k in m ==> m[k] < n && keys[m[k]] == k
  {
    if n == 0 then map[]
    else IndexMap(keys, n - 1)[keys[n - 1] := n - 1]
  }

  /** The first position at or after i where `keys` holds `k`. */
  function Find(keys: seq<string>, k: string, i: nat): (r: Option<nat>)
    requires i <= |keys|
    ensures r.Some? ==> i <= r.value < |keys| && keys[r.value] == k
    ensures r.None? ==> forall j :: i <= j < |keys| ==> keys[j] != k
    decreases |keys| - i
  {
    if i == |keys| then None
    else if keys[i] == k then Some(i)
    else Find(keys, k, i + 1)
  }

  // ---------------------------------------------------------------------------
  // Statically initialised transition tables: a list of cell assignments
  // (state, token) := target, as a constructor executes them.
  // ---------------------------------------------------------------------------

  datatype Assignment = Assign(state: nat, token: nat, target: nat)

  /** A sequence in reverse order. */
  function Reverse<T>(s: seq<T>): (r: seq<T>)
    ensures |r| == |s|
  {
    if |s| == 0 then [] else Reverse(s[1..]) + [s[0]]
  }
}
