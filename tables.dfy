/** Row-level table operations the pipeline takes from pandas: boolean-mask
    filtering, `drop_duplicates` on a key column, and `concat`. */
module Tables {

  /** A boolean-mask selection `df[mask]`: the rows satisfying `p`, in order. */
  function Filter<T>(s: seq<T>, p: T -> bool): (r: seq<T>)
    ensures |r| <= |s|
    ensures forall x :: x in r ==> x in s && p(x)
    ensures forall x :: x in s && p(x) ==> x in r
  {
    if |s| == 0 then [] else (if p(s[0]) then [s[0]] else []) + Filter(s[1..], p)
  }

  /** `a` is `b` with some elements removed and the rest in their original order. */
  predicate IsSubsequence<T(==)>(a: seq<T>, b: seq<T>)
    decreases |b|
  {
    |a| == 0 ||
    (|b| > 0 && if a[0] == b[0] then IsSubsequence(a[1..], b[1..]) else IsSubsequence(a, b[1..]))
  }

  lemma {:induction false} SubsequenceTail<T>(a: seq<T>, b: seq<T>)
    requires |a| > 0 && IsSubsequence(a, b)
    ensures IsSubsequence(a[1..], b)
    decreases |b|
  {
    if |a| > 1 {
      if a[0] != b[0] {
        SubsequenceTail(a, b[1..]);
      }
      if a[1] == b[0] {
        SubsequenceTail(a[1..], b[1..]);
        assert a[1..][1..] == a[2..];
      }
    }
  }

  lemma SubsequenceCons<T>(a: seq<T>, x: T, b: seq<T>)
    requires IsSubsequence(a, b)
    ensures IsSubsequence(a, [x] + b)
  {
    assert ([x] + b)[1..] == b;
    if |a| > 0 && a[0] == x {
      SubsequenceTail(a, b);
    }
  }

  /** Elements placed in front of the larger sequence do not matter. */
  lemma {:induction false} SubsequencePrepend<T>(a: seq<T>, x: seq<T>, b: seq<T>)
    requires IsSubsequence(a, b)
    ensures IsSubsequence(a, x + b)
  {
    if |x| > 0 {
      SubsequencePrepend(a, x[1..], b);
      SubsequenceCons(a, x[0], x[1..] + b);
      assert [x[0]] + (x[1..] + b) == x + b;
    } else {
      assert x + b == b;
    }
  }

  /** A common prefix can be added to both sequences. */
  lemma {:induction false} SubsequencePrependBoth<T>(x: seq<T>, a: seq<T>, b: seq<T>)
    requires IsSubsequence(a, b)
    ensures IsSubsequence(x + a, x + b)
  {
    if |x| > 0 {
      SubsequencePrependBoth(x[1..], a, b);
      assert (x + a)[1..] == x[1..] + a;
      assert (x + b)[1..] == x[1..] + b;
    } else {
      assert x + a == a && x + b == b;
    }
  }

  lemma {:induction false} SubsequenceRefl<T>(a: seq<T>)
    ensures IsSubsequence(a, a)
  {
    if |a| > 0 {
      SubsequenceRefl(a[1..]);
    }
  }

  lemma {:induction false} SubsequenceTrans<T>(a: seq<T>, b: seq<T>, c: seq<T>)
    requires IsSubsequence(a, b) && IsSubsequence(b, c)
    ensures IsSubsequence(a, c)
    decreases |c|
  {
    if |a| > 0 {
      if b[0] == c[0] {
        if a[0] == b[0] {
          SubsequenceTrans(a[1..], b[1..], c[1..]);
        } else {
          SubsequenceTrans(a, b[1..], c[1..]);
        }
      } else {
        SubsequenceTrans(a, b, c[1..]);
        if a[0] == c[0] {
          SubsequenceTail(a, c[1..]);
        }
      }
    }
  }

  lemma {:induction false} SubsequenceMembers<T>(a: seq<T>, b: seq<T>)
    requires IsSubsequence(a, b)
    ensures forall x :: x in a ==> x in b
    decreases |b|
  {
    if |a| > 0 {
      if a[0] == b[0] {
        SubsequenceMembers(a[1..], b[1..]);
        assert forall x :: x in a ==> x == a[0] || x in a[1..];
      } else {
        SubsequenceMembers(a, b[1..]);
      }
    }
  }

  /** Filtering keeps the surviving rows in their relative order. */
  lemma {:induction false} FilterIsSubsequence<T>(s: seq<T>, p: T -> bool)
    ensures IsSubsequence(Filter(s, p), s)
  {
    if |s| > 0 {
      FilterIsSubsequence(s[1..], p);
      if p(s[0]) {
        assert ([s[0]] + Filter(s[1..], p))[1..] == Filter(s[1..], p);
      } else {
        assert Filter(s, p) == Filter(s[1..], p);
        SubsequenceCons(Filter(s[1..], p), s[0], s[1..]);
        assert [s[0]] + s[1..] == s;
      }
    }
  }

  /** `drop_duplicates(key)` scanning left to right, `seen` holding the keys already kept. */
  function DedupFrom<T, K(==)>(s: seq<T>, key: T -> K, seen: set<K>): seq<T>
  {
    if |s| == 0 then []
    else if key(s[0]) in seen then DedupFrom(s[1..], key, seen)
    else [s[0]] + DedupFrom(s[1..], key, seen + {key(s[0])})
  }

  /** `drop_duplicates(subset=key)` with pandas' default `keep="first"`. */
  function DropDuplicates<T, K(==)>(s: seq<T>, key: T -> K): seq<T> {
    DedupFrom(s, key, {})
  }

  /** No two rows of `r` share a key. */
  ghost predicate DistinctKeys<T, K>(r: seq<T>, key: T -> K) {
    forall i, j :: 0 <= i < j < |r| ==> key(r[i]) != key(r[j])
  }

  /** No kept row has a key seen before, and no two kept rows share a key. */
  lemma {:induction false} DedupDistinct<T, K>(s: seq<T>, key: T -> K, seen: set<K>)
    ensures forall x :: x in DedupFrom(s, key, seen) ==> key(x) !in seen
    ensures DistinctKeys(DedupFrom(s, key, seen), key)
  {
    if |s| > 0 {
      if key(s[0]) in seen {
        assert DedupFrom(s, key, seen) == DedupFrom(s[1..], key, seen);
        DedupDistinct(s[1..], key, seen);
      } else {
        var rest := DedupFrom(s[1..], key, seen + {key(s[0])});
        var r := [s[0]] + rest;
        assert DedupFrom(s, key, seen) == r;
        DedupDistinct(s[1..], key, seen + {key(s[0])});
        assert forall i :: 1 <= i < |r| ==> r[i] == rest[i - 1] && r[i] in rest;
        forall i, j | 0 <= i < j < |r| ensures key(r[i]) != key(r[j]) {
          assert r[j] in rest;
          if i > 0 {
            assert r[i] == rest[i - 1] && r[j] == rest[j - 1];
          }
        }
      }
    }
  }

  /** The kept rows are input rows, in input order. */
  lemma {:induction false} DedupSubsequence<T, K>(s: seq<T>, key: T -> K, seen: set<K>)
    ensures IsSubsequence(DedupFrom(s, key, seen), s)
  {
    if |s| > 0 {
      var seen' := if key(s[0]) in seen then seen else seen + {key(s[0])};
      DedupSubsequence(s[1..], key, seen');
      if key(s[0]) in seen {
        SubsequenceCons(DedupFrom(s[1..], key, seen), s[0], s[1..]);
        assert [s[0]] + s[1..] == s;
      } else {
        assert ([s[0]] + DedupFrom(s[1..], key, seen'))[1..] == DedupFrom(s[1..], key, seen');
      }
    }
  }

  /** The first row carrying a key not seen before is kept. */
  lemma {:induction false} DedupKeepsFirst<T, K>(s: seq<T>, key: T -> K, seen: set<K>, i: int)
    requires 0 <= i < |s| && key(s[i]) !in seen
    requires forall j :: 0 <= j < i ==> key(s[j]) != key(s[i])
    ensures s[i] in DedupFrom(s, key, seen)
  {
    if i > 0 {
      var seen' := if key(s[0]) in seen then seen else seen + {key(s[0])};
      DedupKeepsFirst(s[1..], key, seen', i - 1);
    }
  }

  /** A table whose keys are already distinct is left as it is. */
  lemma {:induction false} DedupOfDistinct<T, K>(s: seq<T>, key: T -> K, seen: set<K>)
    requires forall x :: x in s ==> key(x) !in seen
    requires DistinctKeys(s, key)
    ensures DedupFrom(s, key, seen) == s
  {
    if |s| > 0 {
      assert forall x :: x in s[1..] ==> x in s;
      assert forall i :: 0 <= i < |s| - 1 ==> s[1..][i] == s[i + 1];
      DedupOfDistinct(s[1..], key, seen + {key(s[0])});
    }
  }

  /** Dropping duplicates twice is dropping them once. */
  lemma DropDuplicatesIdempotent<T, K>(s: seq<T>, key: T -> K)
    ensures DropDuplicates(DropDuplicates(s, key), key) == DropDuplicates(s, key)
  {
    var r := DropDuplicates(s, key);
    assert r == DedupFrom(s, key, {});
    DedupDistinct(s, key, {});
    DedupOfDistinct(r, key, {});
  }

  /** `pd.concat(frames, ignore_index=True)`: the rows of every frame, frame by frame. */
  function Concat<T>(ss: seq<seq<T>>): seq<T> {
    if |ss| == 0 then [] else ss[0] + Concat(ss[1..])
  }

  /** A row of the concatenation comes from one of the frames. */
  lemma {:induction false} ConcatMember<T>(ss: seq<seq<T>>, x: T)
    requires x in Concat(ss)
    ensures exists i :: 0 <= i < |ss| && x in ss[i]
  {
    if x !in ss[0] {
      ConcatMember(ss[1..], x);
      var i :| 0 <= i < |ss[1..]| && x in ss[1..][i];
      assert x in ss[i + 1];
    }
  }

  lemma {:induction false} ConcatAppend<T>(ss: seq<seq<T>>, t: seq<T>)
    ensures Concat(ss + [t]) == Concat(ss) + t
  {
    if |ss| > 0 {
      assert (ss + [t])[1..] == ss[1..] + [t];
      ConcatAppend(ss[1..], t);
    } else {
      assert [t][1..] == [];
    }
  }

  /** Two successive mask selections are one selection by both masks. */
  lemma {:induction false} FilterFilter<T>(s: seq<T>, p: T -> bool, q: T -> bool, both: T -> bool)
    requires forall x :: both(x) == (p(x) && q(x))
    ensures Filter(Filter(s, p), q) == Filter(s, both)
  {
    if |s| > 0 {
      FilterFilter(s[1..], p, q, both);
      var rest := Filter(s[1..], p);
      if p(s[0]) {
        assert ([s[0]] + rest)[1..] == rest;
        assert Filter(Filter(s, p), q) == (if q(s[0]) then [s[0]] else []) + Filter(rest, q);
      } else {
        assert Filter(s, p) == [] + rest;
        assert [] + rest == rest;
        assert [] + Filter(s[1..], both) == Filter(s[1..], both);
      }
    }
  }

  /** A selection of a table with distinct keys has distinct keys. */
  lemma {:induction false} FilterDistinct<T, K>(s: seq<T>, p: T -> bool, key: T -> K)
    requires DistinctKeys(s, key)
    ensures DistinctKeys(Filter(s, p), key)
  {
    if |s| > 0 {
      var rest := Filter(s[1..], p);
      assert forall i, j :: 0 <= i < j < |s[1..]| ==> s[1..][i] == s[i + 1] && s[1..][j] == s[j + 1];
      FilterDistinct(s[1..], p, key);
      if p(s[0]) {
        var r := [s[0]] + rest;
        forall j | 0 < j < |r| ensures key(r[0]) != key(r[j]) {
          assert r[j] in rest;
          assert r[j] in s[1..];
          var m :| 0 <= m < |s[1..]| && s[1..][m] == r[j];
          assert s[m + 1] == r[j];
        }
        forall i, j | 0 <= i < j < |r| ensures key(r[i]) != key(r[j]) {
          if i > 0 {
            assert r[i] == rest[i - 1] && r[j] == rest[j - 1];
          }
        }
      } else {
        assert Filter(s, p) == [] + rest;
        assert [] + rest == rest;
      }
    }
  }

  /** A mask every row passes selects the whole table. */
  lemma {:induction false} FilterAllPass<T>(s: seq<T>, p: T -> bool)
    requires forall i :: 0 <= i < |s| ==> p(s[i])
    ensures Filter(s, p) == s
  {
    if |s| > 0 {
      assert forall i :: 0 <= i < |s[1..]| ==> s[1..][i] == s[i + 1];
      FilterAllPass(s[1..], p);
      assert [s[0]] + s[1..] == s;
    }
  }

  /** The first position at which `x` occurs. */
  lemma {:induction false} FirstOccurrence<T>(s: seq<T>, x: T) returns (i: int)
    requires x in s
    ensures 0 <= i < |s| && s[i] == x
    ensures forall j :: 0 <= j < i ==> s[j] != x
  {
    if s[0] == x {
      i := 0;
    } else {
      assert x in s[1..];
      var k := FirstOccurrence(s[1..], x);
      i := k + 1;
    }
  }
}
