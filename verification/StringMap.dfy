/** `std::map<std::string, std::string>` as its in-order sequence of entries. */
module StringMap {
  import opened Results

  datatype Entry = Entry(key: string, value: string)

  type StringMap = seq<Entry>

  /** `operator<` on strings. */
  predicate Less(a: string, b: string) {
    b != [] && (a == [] || a[0] < b[0] || (a[0] == b[0] && Less(a[1..], b[1..])))
  }

  ghost predicate Sorted(m: StringMap) {
    forall i, j | 0 <= i < j < |m| :: Less(m[i].key, m[j].key)
  }

  predicate HasKey(m: StringMap, k: string) {
    exists i :: 0 <= i < |m| && m[i].key == k
  }

  /** `m[k] = v`. */
  function Put(m: StringMap, k: string, v: string): StringMap {
    if m == [] then [Entry(k, v)]
    else if k == m[0].key then [Entry(k, v)] + m[1..]
    else if Less(k, m[0].key) then [Entry(k, v)] + m
    else [m[0]] + Put(m[1..], k, v)
  }

  /** `m.find(k)`. */
  function Find(m: StringMap, k: string): Option<string> {
    if m == [] then None else if m[0].key == k then Some(m[0].value) else Find(m[1..], k)
  }

  /** `m.count(k) ? m.at(k) : ""`. */
  function GetOrEmpty(m: StringMap, k: string): string {
    match Find(m, k)
    case Some(v) => v
    case None => ""
  }

  // ----- the order -----

  lemma {:induction false} LessIrreflexive(a: string)
    ensures !Less(a, a)
  {
    if a != [] {
      LessIrreflexive(a[1..]);
    }
  }

  lemma {:induction false} LessTransitive(a: string, b: string, c: string)
    requires Less(a, b) && Less(b, c)
    ensures Less(a, c)
  {
    if a != [] && a[0] == b[0] && b[0] == c[0] {
      LessTransitive(a[1..], b[1..], c[1..]);
    }
  }

  lemma {:induction false} LessTotal(a: string, b: string)
    ensures Less(a, b) || Less(b, a) || a == b
  {
    if a != [] && b != [] && a[0] == b[0] {
      LessTotal(a[1..], b[1..]);
      assert a == [a[0]] + a[1..] && b == [b[0]] + b[1..];
    }
  }

  lemma {:induction false} LessWithPrefix(p: string, a: string, b: string)
    ensures Less(p + a, p + b) == Less(a, b)
  {
    if p == [] {
      assert p + a == a && p + b == b;
    } else {
      assert (p + a)[1..] == p[1..] + a && (p + b)[1..] == p[1..] + b;
      LessWithPrefix(p[1..], a, b);
    }
  }

  // ----- the map -----

  lemma {:induction false} HasKeyAfterPut(m: StringMap, k: string, v: string, q: string)
    ensures HasKey(Put(m, k, v), q) <==> q == k || HasKey(m, q)
  {
    if m == [] {
      assert Put(m, k, v)[0].key == k;
    } else if k == m[0].key || Less(k, m[0].key) {
      var n := Put(m, k, v);
      assert n[0].key == k;
      if HasKey(m, q) {
        var i :| 0 <= i < |m| && m[i].key == q;
        assert n[if k == m[0].key then i else i + 1].key == q;
      }
      if HasKey(n, q) {
        var i :| 0 <= i < |n| && n[i].key == q;
        assert i == 0 || n[i] == m[if k == m[0].key then i else i - 1];
      }
    } else {
      HasKeyAfterPut(m[1..], k, v, q);
      HasKeyOfTail(m, q);
      HasKeyOfTail(Put(m, k, v), q);
    }
  }

  lemma HasKeyOfTail(m: StringMap, q: string)
    requires m != []
    ensures HasKey(m, q) <==> m[0].key == q || HasKey(m[1..], q)
  {
    if HasKey(m, q) {
      var i :| 0 <= i < |m| && m[i].key == q;
      assert i == 0 || m[1..][i - 1].key == q;
    }
    if HasKey(m[1..], q) {
      var i :| 0 <= i < |m[1..]| && m[1..][i].key == q;
      assert m[i + 1].key == q;
    }
  }

  /** Insertion keeps the entries in strictly increasing key order. */
  lemma {:induction false} PutKeepsSorted(m: StringMap, k: string, v: string)
    requires Sorted(m)
    ensures Sorted(Put(m, k, v))
  {
    var n := Put(m, k, v);
    if m == [] || k == m[0].key {
    } else if Less(k, m[0].key) {
      forall j | 0 < j < |n|
        ensures Less(k, n[j].key)
      {
        if j > 1 {
          LessTransitive(k, m[0].key, m[j - 1].key);
        }
      }
    } else {
      PutKeepsSorted(m[1..], k, v);
      LessTotal(k, m[0].key);
      forall j | 0 < j < |n|
        ensures Less(n[0].key, n[j].key)
      {
        assert n[j] == n[1..][j - 1];
        assert HasKey(n[1..], n[j].key);
        HasKeyAfterPut(m[1..], k, v, n[j].key);
        if n[j].key != k {
          var i :| 0 <= i < |m[1..]| && m[1..][i].key == n[j].key;
          assert m[i + 1].key == n[j].key;
        }
      }
      forall i, j | 0 <= i < j < |n|
        ensures Less(n[i].key, n[j].key)
      {
        if i > 0 {
          assert n[i] == n[1..][i - 1] && n[j] == n[1..][j - 1];
        }
      }
    }
  }

  lemma {:induction false} FindAfterPut(m: StringMap, k: string, v: string, q: string)
    ensures Find(Put(m, k, v), q) == if q == k then Some(v) else Find(m, q)
  {
    if m != [] && k != m[0].key && !Less(k, m[0].key) {
      FindAfterPut(m[1..], k, v, q);
    }
  }

  /** A key that was never put reads as the empty string, the last value put otherwise. */
  lemma GetOrEmptyAfterPut(m: StringMap, k: string, v: string, q: string)
    ensures GetOrEmpty([], q) == ""
    ensures GetOrEmpty(Put(m, k, v), q) == if q == k then v else GetOrEmpty(m, q)
  {
    FindAfterPut(m, k, v, q);
  }
}
