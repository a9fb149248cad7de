/** Python's `sorted(list(d.keys()), reverse=True)` on string keys. */
module SortedKeys {
  import opened Sequences

  /** The order Python compares strings by. */
  predicate LexLe(a: string, b: string) {
    a == [] || (b != [] && (a[0] < b[0] || (a[0] == b[0] && LexLe(a[1..], b[1..]))))
  }

  lemma {:induction false} LexTotal(a: string, b: string)
    ensures LexLe(a, b) || LexLe(b, a)
  {
    if a != [] && b != [] {
      LexTotal(a[1..], b[1..]);
    }
  }

  lemma {:induction false} LexAntisymmetric(a: string, b: string)
    requires LexLe(a, b) && LexLe(b, a)
    ensures a == b
  {
    if a != [] && b != [] {
      LexAntisymmetric(a[1..], b[1..]);
      assert a == [a[0]] + a[1..] && b == [b[0]] + b[1..];
    }
  }

  lemma {:induction false} LexTransitive(a: string, b: string, c: string)
    requires LexLe(a, b) && LexLe(b, c)
    ensures LexLe(a, c)
  {
    if a != [] && b != [] && c != [] && a[0] == b[0] == c[0] {
      LexTransitive(a[1..], b[1..], c[1..]);
    }
  }

  lemma {:induction false} LexReflexive(a: string)
    ensures LexLe(a, a)
  {
    LexTotal(a, a);
  }

  /** The texts first differ at `k`, and `b` has the greater character there. */
  ghost predicate GreaterAt(a: string, b: string, k: nat) {
    k < |a| && k < |b| && a[..k] == b[..k] && a[k] < b[k]
  }

  lemma GreaterAtTail(a: string, b: string, k: nat)
    requires a != [] && b != []
    ensures GreaterAt(a, b, k + 1) <==> a[0] == b[0] && GreaterAt(a[1..], b[1..], k)
  {
    if k < |a| - 1 && k < |b| - 1 {
      assert a[..k + 1] == [a[0]] + a[1..][..k] && b[..k + 1] == [b[0]] + b[1..][..k];
      assert a[..k + 1][1..] == a[1..][..k] && b[..k + 1][1..] == b[1..][..k];
    }
  }

  lemma PrefixTail(a: string, b: string)
    requires a != [] && b != []
    ensures a <= b <==> a[0] == b[0] && a[1..] <= b[1..]
  {
    assert a == [a[0]] + a[1..] && b == [b[0]] + b[1..];
  }

  /** `b` continues `a`, or has the greater character where the two first differ. */
  lemma {:induction false} LexLeIff(a: string, b: string)
    ensures LexLe(a, b) <==> a <= b || exists k :: GreaterAt(a, b, k)
  {
    if a != [] && b != [] {
      hide GreaterAt;
      LexLeIff(a[1..], b[1..]);
      PrefixTail(a, b);
      assert GreaterAt(a, b, 0) <==> a[0] < b[0] by { GreaterAtFirst(a, b); }
      if k: nat :| GreaterAt(a[1..], b[1..], k) {
        GreaterAtTail(a, b, k);
      }
      if k: nat :| GreaterAt(a, b, k) && k > 0 {
        GreaterAtTail(a, b, k - 1);
      }
    } else {
      forall k: nat ensures !GreaterAt(a, b, k) {
      }
    }
  }

  lemma GreaterAtFirst(a: string, b: string)
    requires a != [] && b != []
    ensures GreaterAt(a, b, 0) <==> a[0] < b[0]
  {
  }

  predicate IsGreatest(keys: set<string>, m: string) {
    m in keys && forall k :: k in keys ==> LexLe(k, m)
  }

  lemma {:induction false} GreatestExists(keys: set<string>) returns (m: string)
    requires keys != {}
    ensures IsGreatest(keys, m)
  {
    var k :| k in keys;
    if keys == {k} {
      m := k;
      LexTotal(k, k);
    } else {
      var rest := keys - {k};
      m := GreatestExists(rest);
      LexTotal(k, m);
      LexTotal(k, k);
      if LexLe(m, k) {
        forall j | j in keys ensures LexLe(j, k) {
          if j != k {
            LexTransitive(j, m, k);
          }
        }
        m := k;
      }
    }
  }

  lemma GreatestUnique(keys: set<string>, m: string, n: string)
    requires IsGreatest(keys, m) && IsGreatest(keys, n)
    ensures m == n
  {
    LexAntisymmetric(m, n);
  }

  function Greatest(keys: set<string>): (m: string)
    requires keys != {}
    ensures IsGreatest(keys, m)
  {
    assert exists m :: IsGreatest(keys, m) by { var m := GreatestExists(keys); }
    assert forall m, n :: IsGreatest(keys, m) && IsGreatest(keys, n) ==> m == n by {
      forall m, n | IsGreatest(keys, m) && IsGreatest(keys, n) ensures m == n { GreatestUnique(keys, m, n); }
    }
    var m :| m in keys && IsGreatest(keys, m);
    m
  }

  ghost predicate Descending(s: seq<string>) {
    forall i, j :: 0 <= i < j < |s| ==> LexLe(s[j], s[i])
  }

  /** The keys, greatest first, each once. */
  function SortedDesc(keys: set<string>): seq<string>
    decreases |keys|
  {
    if keys == {} then [] else [Greatest(keys)] + SortedDesc(keys - {Greatest(keys)})
  }

  lemma GreatestMember(keys: set<string>)
    requires keys != {}
    ensures Greatest(keys) in keys
  {
  }

  lemma OneMoreKey(keys: set<string>, g: string, rest: seq<string>)
    requires g in keys && NoDup(rest) && Elems(rest) == keys - {g} && |rest| == |keys - {g}|
    ensures NoDup([g] + rest) && Elems([g] + rest) == keys && |[g] + rest| == |keys|
  {
    assert forall k :: k in rest ==> k in Elems(rest);
    assert Elems([g] + rest) == {g} + Elems(rest);
  }

  lemma {:induction false} SortedDescIsPermutation(keys: set<string>)
    ensures NoDup(SortedDesc(keys)) && Elems(SortedDesc(keys)) == keys && |SortedDesc(keys)| == |keys|
    decreases |keys|
  {
    hide IsGreatest, LexLe;
    if keys != {} {
      var g := Greatest(keys);
      assert g in keys by { GreatestMember(keys); }
      SortedDescIsPermutation(keys - {g});
      OneMoreKey(keys, g, SortedDesc(keys - {g}));
    }
  }

  lemma {:induction false} SortedDescIsSorted(keys: set<string>)
    ensures Descending(SortedDesc(keys))
    decreases |keys|
  {
    if keys != {} {
      var others := keys - {Greatest(keys)};
      SortedDescIsSorted(others);
      SortedDescIsPermutation(others);
      forall k | k in SortedDesc(others) ensures LexLe(k, Greatest(keys)) {
        assert k in Elems(SortedDesc(others));
      }
    }
  }

  ghost predicate IsLeast(keys: set<string>, m: string) {
    m in keys && forall k :: k in keys ==> LexLe(m, k)
  }

  /** The least key comes last. */
  lemma LeastIsLast(keys: set<string>, m: string)
    requires IsLeast(keys, m)
    ensures SortedDesc(keys) != [] && m == Last(SortedDesc(keys))
  {
    var s := SortedDesc(keys);
    SortedDescIsPermutation(keys);
    SortedDescIsSorted(keys);
    assert m in Elems(s);
    var k :| 0 <= k < |s| && s[k] == m;
    assert Last(s) in Elems(s);
    if k < |s| - 1 {
      assert LexLe(s[|s| - 1], s[k]);
      LexAntisymmetric(m, Last(s));
    }
  }
}
