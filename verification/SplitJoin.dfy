/** `split` and `join` on a single separator. */
module SplitJoin {
  import opened Sequences

  /** `s.split(sep)`: always at least one part. */
  function Split<T(==)>(s: seq<T>, sep: T): (parts: seq<seq<T>>)
    ensures parts != []
  {
    if s == [] then [[]]
    else
      var rest := Split(s[1..], sep);
      if s[0] == sep then [[]] + rest else [[s[0]] + rest[0]] + rest[1..]
  }

  /** `sep.join(parts)`. */
  function Join<T>(parts: seq<seq<T>>, sep: T): seq<T> {
    if parts == [] then [] else if |parts| == 1 then parts[0] else parts[0] + [sep] + Join(parts[1..], sep)
  }

  ghost predicate Free<T>(parts: seq<seq<T>>, sep: T) {
    forall k :: 0 <= k < |parts| ==> sep !in parts[k]
  }

  /** The parts of a split do not contain the separator. */
  lemma {:induction false} SplitFree<T>(s: seq<T>, sep: T)
    ensures Free(Split(s, sep), sep)
  {
    if s != [] {
      SplitFree(s[1..], sep);
      var rest := Split(s[1..], sep);
      assert sep !in rest[0];
    }
  }

  lemma {:induction false} SplitNoSeparator<T>(s: seq<T>, sep: T)
    requires sep !in s
    ensures Split(s, sep) == [s]
  {
    if s != [] {
      SplitNoSeparator(s[1..], sep);
      assert [s[0]] + s[1..] == s;
    }
  }

  /** Splitting cuts at the first separator. */
  lemma {:induction false} SplitFirst<T>(a: seq<T>, sep: T, b: seq<T>)
    requires sep !in a
    ensures Split(a + [sep] + b, sep) == [a] + Split(b, sep)
  {
    var s := a + [sep] + b;
    if a == [] {
      assert s[1..] == b;
    } else {
      SplitFirst(a[1..], sep, b);
      assert s[1..] == a[1..] + [sep] + b;
      assert [a[0]] + a[1..] == a;
      assert ([a[1..]] + Split(b, sep))[1..] == Split(b, sep);
    }
  }

  /** Splitting undoes joining when no part contains the separator. */
  lemma {:induction false} SplitOfJoin<T>(parts: seq<seq<T>>, sep: T)
    requires parts != [] && Free(parts, sep)
    ensures Split(Join(parts, sep), sep) == parts
    decreases |parts|
  {
    if |parts| == 1 {
      SplitNoSeparator(parts[0], sep);
      assert parts == [parts[0]];
    } else {
      SplitOfJoin(parts[1..], sep);
      SplitFirst(parts[0], sep, Join(parts[1..], sep));
      assert parts == [parts[0]] + parts[1..];
    }
  }

  /** Joining undoes splitting, always. */
  lemma {:induction false} JoinOfSplit<T>(s: seq<T>, sep: T)
    ensures Join(Split(s, sep), sep) == s
  {
    if s != [] {
      JoinOfSplit(s[1..], sep);
      var rest := Split(s[1..], sep);
      if s[0] == sep {
        assert ([[]] + rest)[1..] == rest;
      } else {
        var all := [[s[0]] + rest[0]] + rest[1..];
        assert all[1..] == rest[1..];
      }
    }
  }

  /** Appending joins the last part of one text with the first part of the other. */
  lemma {:induction false} SplitAppend<T>(a: seq<T>, b: seq<T>, sep: T)
    ensures Split(a + b, sep) == Init(Split(a, sep)) + [Last(Split(a, sep)) + Split(b, sep)[0]] + Split(b, sep)[1..]
    decreases |a|
  {
    if a == [] {
      var qs := Split(b, sep);
      assert a + b == b && Split(a, sep) == [[]];
      assert [] + qs[0] == qs[0] && Init([[]]) + [qs[0]] + qs[1..] == qs;
    } else {
      SplitAppend(a[1..], b, sep);
      assert (a + b)[0] == a[0] && (a + b)[1..] == a[1..] + b;
      SplitTail(a, sep);
      SplitTail(a + b, sep);
      PartsAppend(Split(a[1..], sep), Split(b, sep), a[0], sep);
    }
  }

  /** The parts of a text, from those of its tail. */
  function WithFirst<T(==)>(rest: seq<seq<T>>, x: T, sep: T): seq<seq<T>>
    requires rest != []
  {
    if x == sep then [[]] + rest else [[x] + rest[0]] + rest[1..]
  }

  lemma SplitTail<T>(s: seq<T>, sep: T)
    requires s != []
    ensures Split(s, sep) == WithFirst(Split(s[1..], sep), s[0], sep)
  {
  }

  lemma PartsAppend<T>(ps: seq<seq<T>>, qs: seq<seq<T>>, x: T, sep: T)
    requires ps != [] && qs != []
    ensures var joined := Init(ps) + [Last(ps) + qs[0]] + qs[1..];
            var ps' := WithFirst(ps, x, sep);
            WithFirst(joined, x, sep) == Init(ps') + [Last(ps') + qs[0]] + qs[1..]
  {
    var joined := Init(ps) + [Last(ps) + qs[0]] + qs[1..];
    var ps' := WithFirst(ps, x, sep);
    hide Split;
    if x != sep && |ps| == 1 {
      assert [x] + (ps[0] + qs[0]) == ([x] + ps[0]) + qs[0];
      assert joined[1..] == qs[1..];
    } else if x != sep {
      assert joined[0] == ps[0];
      assert Init(ps') == [[x] + ps[0]] + Init(ps)[1..];
    } else {
      assert Init(ps') == [[]] + Init(ps);
    }
  }
}
