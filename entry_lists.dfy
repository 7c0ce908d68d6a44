/** In-order entry sequences of a dictionary: key order, range separation,
    the dictionary a sequence denotes, and insertion into a sorted sequence. */
module EntryLists {

  /** A dictionary entry: `(key, value)`, as the nodes' `info` carries them. */
  type Entry = (int, int)

  /** Keys strictly increase along `s` (no duplicate keys). */
  predicate Sorted(s: seq<Entry>) {
    forall i, j :: 0 <= i < j < |s| ==> s[i].0 < s[j].0
  }

  /** Every key of `s` is smaller than every key of `t`. */
  predicate Separated(s: seq<Entry>, t: seq<Entry>) {
    forall i, j :: 0 <= i < |s| && 0 <= j < |t| ==> s[i].0 < t[j].0
  }

  /** The set of keys that occur in `s`. */
  function KeysOf(s: seq<Entry>): set<int> {
    if s == [] then {} else {s[0].0} + KeysOf(s[1..])
  }

  lemma {:induction false} KeysOfIndex(s: seq<Entry>, k: int)
    ensures k in KeysOf(s) <==> exists i :: 0 <= i < |s| && s[i].0 == k
  {
    if s != [] {
      KeysOfIndex(s[1..], k);
      if k in KeysOf(s[1..]) {
        var i :| 0 <= i < |s| - 1 && s[1..][i].0 == k;
        assert s[i + 1].0 == k;
      }
      if exists i :: 0 <= i < |s| && s[i].0 == k {
        var i :| 0 <= i < |s| && s[i].0 == k;
        if i > 0 { assert s[1..][i - 1].0 == k; }
      }
    }
  }

  /** In a sorted sequence the first key is below every later key. */
  lemma SortedHead(s: seq<Entry>)
    requires Sorted(s) && s != []
    ensures forall k :: k in KeysOf(s[1..]) ==> s[0].0 < k
  {
    forall k | k in KeysOf(s[1..]) ensures s[0].0 < k {
      KeysOfIndex(s[1..], k);
      var i :| 0 <= i < |s| - 1 && s[1..][i].0 == k;
      assert s[i + 1].0 == k;
    }
  }

  lemma SortedConcat(s: seq<Entry>, t: seq<Entry>)
    ensures Sorted(s + t) <==> Sorted(s) && Sorted(t) && Separated(s, t)
  {
    if Sorted(s + t) {
      forall i, j | 0 <= i < |s| && 0 <= j < |t| ensures s[i].0 < t[j].0 {
        assert (s + t)[i] == s[i] && (s + t)[|s| + j] == t[j];
      }
      forall i, j | 0 <= i < j < |s| ensures s[i].0 < s[j].0 {
        assert (s + t)[i] == s[i] && (s + t)[j] == s[j];
      }
      forall i, j | 0 <= i < j < |t| ensures t[i].0 < t[j].0 {
        assert (s + t)[|s| + i] == t[i] && (s + t)[|s| + j] == t[j];
      }
    }
    if Sorted(s) && Sorted(t) && Separated(s, t) {
      forall i, j | 0 <= i < j < |s + t| ensures (s + t)[i].0 < (s + t)[j].0 {
        if j < |s| {
          assert (s + t)[i] == s[i] && (s + t)[j] == s[j];
        } else if i < |s| {
          assert (s + t)[i] == s[i] && (s + t)[j] == t[j - |s|];
        } else {
          assert (s + t)[i] == t[i - |s|] && (s + t)[j] == t[j - |s|];
        }
      }
    }
  }

  /** The dictionary denoted by `s`: a later entry for a key overrides an earlier one. */
  function ToMap(s: seq<Entry>): (m: map<int, int>)
    ensures m.Keys == KeysOf(s)
    decreases |s|
  {
    if s == [] then map[] else map[s[0].0 := s[0].1] + ToMap(s[1..])
  }

  lemma {:induction false} ToMapConcat(a: seq<Entry>, b: seq<Entry>)
    ensures ToMap(a + b) == ToMap(a) + ToMap(b)
  {
    if a == [] {
      assert a + b == b;
    } else {
      assert (a + b)[0] == a[0] && (a + b)[1..] == a[1..] + b;
      ToMapConcat(a[1..], b);
    }
  }

  /** Appending one entry updates the dictionary at that entry's key. */
  lemma ToMapSnoc(s: seq<Entry>, i: int)
    requires 0 <= i < |s|
    ensures ToMap(s[..i + 1]) == ToMap(s[..i])[s[i].0 := s[i].1]
  {
    assert s[..i + 1] == s[..i] + [s[i]];
    ToMapConcat(s[..i], [s[i]]);
    assert ToMap([s[i]]) == map[s[i].0 := s[i].1];
  }

  /** In a sorted sequence every entry is what the dictionary holds for its key. */
  lemma {:induction false} ToMapAt(s: seq<Entry>, i: int)
    requires Sorted(s) && 0 <= i < |s|
    ensures s[i].0 in ToMap(s) && ToMap(s)[s[i].0] == s[i].1
  {
    if i > 0 {
      ToMapAt(s[1..], i - 1);
      assert s[1..][i - 1] == s[i];
    } else {
      SortedHead(s);
    }
  }

  /** Two sorted sequences denoting the same dictionary are the same sequence. */
  lemma {:induction false} SortedUnique(s: seq<Entry>, t: seq<Entry>)
    requires Sorted(s) && Sorted(t) && ToMap(s) == ToMap(t)
    ensures s == t
    decreases |s|
  {
    assert |t| > 0 ==> t[0].0 in KeysOf(t);
    assert |s| > 0 ==> s[0].0 in KeysOf(s);
    if s != [] && t != [] {
      var a, b := s[0].0, t[0].0;
      assert a in KeysOf(t) && b in KeysOf(s);
      SortedHead(s);
      SortedHead(t);
      assert a == b;
      ToMapAt(s, 0);
      ToMapAt(t, 0);
      assert ToMap(s[1..]) == ToMap(s) - {a};
      assert ToMap(t[1..]) == ToMap(t) - {a};
      SortedUnique(s[1..], t[1..]);
      assert s == [s[0]] + s[1..] && t == [t[0]] + t[1..];
    }
  }

  /** Reference insert-or-update on a sorted sequence: the new entry replaces
      the entry with the same key, or goes where its key belongs. */
  function SortedInsert(s: seq<Entry>, k: int, v: int): (r: seq<Entry>)
    ensures r != [] && r[0].0 == (if s == [] || k <= s[0].0 then k else s[0].0)
  {
    if s == [] then [(k, v)]
    else if k == s[0].0 then [(k, v)] + s[1..]
    else if k < s[0].0 then [(k, v)] + s
    else [s[0]] + SortedInsert(s[1..], k, v)
  }

  /** The tail of a sorted sequence is sorted and starts above its head. */
  lemma SortedTail(s: seq<Entry>)
    requires Sorted(s) && s != []
    ensures Sorted(s[1..]) && (|s| > 1 ==> s[0].0 < s[1].0)
  {
    forall i, j | 0 <= i < j < |s| - 1 ensures s[1..][i].0 < s[1..][j].0 {
      assert s[1..][i] == s[i + 1] && s[1..][j] == s[j + 1];
    }
  }

  /** An entry below the head of a sorted sequence can be put in front of it. */
  lemma SortedCons(x: Entry, r: seq<Entry>)
    requires Sorted(r) && (r != [] ==> x.0 < r[0].0)
    ensures Sorted([x] + r)
  {
    forall i, j | 0 <= i < j < |r| + 1 ensures ([x] + r)[i].0 < ([x] + r)[j].0 {
      assert ([x] + r)[j] == r[j - 1];
      if i > 0 {
        assert ([x] + r)[i] == r[i - 1];
      } else if j > 1 {
        assert r[0].0 < r[j - 1].0;
      }
    }
  }

  /** Sorted insertion keeps the sequence sorted. */
  lemma {:induction false} SortedInsertSorted(s: seq<Entry>, k: int, v: int)
    requires Sorted(s)
    ensures Sorted(SortedInsert(s, k, v))
  {
    if s == [] {
    } else if k == s[0].0 {
      SortedTail(s);
      SortedCons((k, v), s[1..]);
    } else if k < s[0].0 {
      SortedCons((k, v), s);
    } else {
      SortedTail(s);
      SortedInsertSorted(s[1..], k, v);
      SortedCons(s[0], SortedInsert(s[1..], k, v));
    }
  }

  /** Sorted insertion denotes the dictionary updated at `k`. */
  lemma {:induction false} SortedInsertToMap(s: seq<Entry>, k: int, v: int)
    requires Sorted(s)
    ensures ToMap(SortedInsert(s, k, v)) == ToMap(s)[k := v]
  {
    if s != [] {
      var rest := s[1..];
      SortedHead(s);
      if k == s[0].0 {
        assert k !in ToMap(rest);
        assert ToMap([(k, v)] + rest) == map[k := v] + ToMap(rest) by {
          assert ([(k, v)] + rest)[1..] == rest;
        }
        UpdateFresh(map[k := v], map[s[0].0 := s[0].1], ToMap(rest), k, v);
      } else if k < s[0].0 {
        assert k !in ToMap(s);
        assert ToMap([(k, v)] + s) == map[k := v] + ToMap(s) by {
          assert ([(k, v)] + s)[1..] == s;
        }
      } else {
        SortedTail(s);
        SortedInsertToMap(rest, k, v);
        var r := SortedInsert(rest, k, v);
        assert ToMap([s[0]] + r) == map[s[0].0 := s[0].1] + ToMap(r) by {
          assert ([s[0]] + r)[1..] == r;
        }
        UnionUpdate(map[s[0].0 := s[0].1], ToMap(rest), k, v);
      }
    }
  }

  /** Sorted insertion keeps the sequence sorted and denotes the dictionary
      updated at `k`. */
  lemma SortedInsertCorrect(s: seq<Entry>, k: int, v: int)
    requires Sorted(s)
    ensures Sorted(SortedInsert(s, k, v))
    ensures ToMap(SortedInsert(s, k, v)) == ToMap(s)[k := v]
  {
    SortedInsertSorted(s, k, v);
    SortedInsertToMap(s, k, v);
  }

  lemma UpdateFresh(n: map<int, int>, m0: map<int, int>, rest: map<int, int>, k: int, v: int)
    requires n == map[k := v] && m0.Keys == {k} && k !in rest
    ensures (m0 + rest)[k := v] == n + rest
  {
  }

  /** Inserting a key below the first entry of `b` leaves `b` untouched. */
  lemma {:induction false} SortedInsertBefore(a: seq<Entry>, b: seq<Entry>, k: int, v: int)
    requires b != [] && k < b[0].0
    ensures SortedInsert(a + b, k, v) == SortedInsert(a, k, v) + b
  {
    if a == [] {
      assert a + b == b;
    } else {
      var x := a[0];
      assert (a + b)[0] == x && (a + b)[1..] == a[1..] + b;
      SortedInsertBefore(a[1..], b, k, v);
      if k == x.0 {
        assert SortedInsert(a + b, k, v) == [(k, v)] + (a[1..] + b);
      } else if k < x.0 {
        assert SortedInsert(a + b, k, v) == [(k, v)] + (a + b);
      } else {
        assert SortedInsert(a + b, k, v) == [x] + SortedInsert(a[1..] + b, k, v);
      }
    }
  }

  /** Inserting a key above every key of `a` leaves `a` untouched. */
  lemma {:induction false} SortedInsertAfter(a: seq<Entry>, b: seq<Entry>, k: int, v: int)
    requires forall i :: 0 <= i < |a| ==> a[i].0 < k
    ensures SortedInsert(a + b, k, v) == a + SortedInsert(b, k, v)
    decreases |a|
  {
    if a == [] {
      assert a + b == b;
      assert a + SortedInsert(b, k, v) == SortedInsert(b, k, v);
    } else {
      var x, rest := a[0], a[1..];
      assert a == [x] + rest;
      assert k > x.0;
      assert (a + b)[0] == x && (a + b)[1..] == rest + b;
      forall i | 0 <= i < |rest| ensures rest[i].0 < k {
        assert rest[i] == a[i + 1];
      }
      SortedInsertAfter(rest, b, k, v);
      calc {
        SortedInsert(a + b, k, v);
        [x] + SortedInsert(rest + b, k, v);
        [x] + (rest + SortedInsert(b, k, v));
        a + SortedInsert(b, k, v);
      }
    }
  }

  /** A sorted sequence whose first and last entries coincide has one entry. */
  lemma SortedEnds(s: seq<Entry>)
    requires Sorted(s) && s != []
    ensures s[0] == s[|s| - 1] ==> s == [s[0]]
  {
  }

  /** Range-separated sequences denote dictionaries with disjoint keys, so
      their union does not depend on the order. */
  lemma SeparatedUnion(s: seq<Entry>, t: seq<Entry>)
    requires Separated(s, t)
    ensures ToMap(t) + ToMap(s) == ToMap(s) + ToMap(t)
  {
    forall k | k in KeysOf(s) ensures k !in KeysOf(t) {
      KeysOfIndex(s, k);
      KeysOfIndex(t, k);
    }
  }

  /** A sorted sequence holding exactly the entries of two separated sorted
      sequences, in either order of union, is their concatenation. */
  lemma SeparatedJoin(s1: seq<Entry>, s2: seq<Entry>, r: seq<Entry>)
    requires Sorted(s1) && Sorted(s2) && Separated(s1, s2) && Sorted(r)
    requires ToMap(r) == ToMap(s1) + ToMap(s2) || ToMap(r) == ToMap(s2) + ToMap(s1)
    ensures r == s1 + s2
  {
    SortedConcat(s1, s2);
    ToMapConcat(s1, s2);
    SeparatedUnion(s1, s2);
    SortedUnique(r, s1 + s2);
  }

  /** Updating a union at one key updates its right operand. */
  lemma UnionUpdate(m: map<int, int>, n: map<int, int>, k: int, v: int)
    ensures (m + n)[k := v] == m + n[k := v]
  {
  }

  /** Every infix of a sorted sequence is sorted. */
  lemma SortedInfix(a: seq<Entry>, b: seq<Entry>, c: seq<Entry>)
    requires Sorted(a + b + c)
    ensures Sorted(b)
  {
    var s := a + b + c;
    forall i, j | 0 <= i < j < |b| ensures b[i].0 < b[j].0 {
      assert b[i] == s[|a| + i] && b[j] == s[|a| + j];
    }
  }

  /** Concatenation of three entry sequences is associative. */
  lemma ConcatAssoc(a: seq<Entry>, b: seq<Entry>, c: seq<Entry>)
    ensures a + (b + c) == a + b + c
  {
  }

  /** Five concatenated entry sequences, bracketed in each way the tree
      proofs produce them, all equal the flat left-to-right concatenation.
      Each bracketing is a separate fact because `+` on sequences is
      equated only extensionally, which the solver finds costly when it has
      to discover the regrouping itself. */
  lemma ConcatRegroup(a: seq<Entry>, b: seq<Entry>, c: seq<Entry>, d: seq<Entry>, e: seq<Entry>)
    // a node between its subtrees, or an ancestor after the cursor
    ensures a + (b + c + d) + e == a + b + c + d + e
    // a rotated node, or an ancestor's contribution after the cursor
    ensures a + b + (c + d + e) == a + b + c + d + e
    // a subtree's extra entries before a whole tree
    ensures a + (b + c + d + e) == a + b + c + d + e
    // a subtree's extra entries after a whole tree
    ensures a + b + c + (d + e) == a + b + c + d + e
  {
  }
}
