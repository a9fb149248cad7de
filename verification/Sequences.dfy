/** Facts about finite sequences that the other modules share. */
module Sequences {

  datatype Option<+T> = None | Some(value: T)

  function Last<T>(s: seq<T>): T
    requires |s| > 0
  {
    s[|s| - 1]
  }

  function Init<T>(s: seq<T>): seq<T>
    requires |s| > 0
  {
    s[..|s| - 1]
  }

  /** The list with its last element replaced, as an in-place update of the top of a stack leaves it. */
  function SetLast<T>(s: seq<T>, x: T): (r: seq<T>)
    requires |s| > 0
    ensures |r| == |s| && Init(r) == Init(s) && Last(r) == x
  {
    s[..|s| - 1] + [x]
  }

  lemma InitLast<T>(s: seq<T>, x: T)
    ensures Init(s + [x]) == s && Last(s + [x]) == x
  {
  }

  ghost predicate NoDup<T>(s: seq<T>) {
    forall i, j :: 0 <= i < j < |s| ==> s[i] != s[j]
  }

  ghost function Elems<T>(s: seq<T>): set<T> {
    set x | x in s
  }

  lemma NoDupInit<T>(s: seq<T>)
    requires |s| > 0 && NoDup(s)
    ensures NoDup(Init(s))
    ensures Elems(Init(s)) == Elems(s) - {Last(s)}
    ensures Last(s) !in Init(s)
  {
    assert s == Init(s) + [Last(s)];
    forall x ensures x in Elems(Init(s)) <==> x in Elems(s) - {Last(s)} {
      if x in Init(s) {
        var k :| 0 <= k < |Init(s)| && Init(s)[k] == x;
        assert s[k] == x;
      }
    }
  }

  lemma NoDupSnoc<T>(s: seq<T>, x: T)
    requires NoDup(s) && x !in s
    ensures NoDup(s + [x])
    ensures Elems(s + [x]) == Elems(s) + {x}
  {
  }

  /** A list without repetition has as many entries as it has elements. */
  lemma {:induction false} NoDupSize<T>(s: seq<T>)
    requires NoDup(s)
    ensures |s| == |Elems(s)|
  {
    if s != [] {
      NoDupInit(s);
      NoDupSize(Init(s));
      assert Elems(s) == Elems(Init(s)) + {Last(s)};
    }
  }

  lemma {:induction false} SubsetSize<T>(a: set<T>, b: set<T>)
    requires a <= b
    ensures |a| <= |b|
  {
    assert b == a + (b - a);
  }

  /** `list.remove`: drops the first occurrence of `x`. */
  function Remove<T(==)>(s: seq<T>, x: T): seq<T> {
    if s == [] then [] else if s[0] == x then s[1..] else [s[0]] + Remove(s[1..], x)
  }

  lemma {:induction false} RemoveMembers<T>(s: seq<T>, x: T)
    ensures forall y :: y in Remove(s, x) ==> y in s
    ensures forall y :: y in s && y != x ==> y in Remove(s, x)
  {
    if s != [] {
      RemoveMembers(s[1..], x);
    }
  }

  /** On a list without repetition, `remove` takes out exactly one element. */
  lemma {:induction false} RemoveFromNoDup<T>(s: seq<T>, x: T)
    requires NoDup(s)
    ensures NoDup(Remove(s, x))
    ensures Elems(Remove(s, x)) == Elems(s) - {x}
  {
    if s != [] {
      RemoveFromNoDup(s[1..], x);
      RemoveMembers(s[1..], x);
      assert s == [s[0]] + s[1..];
      if s[0] != x {
        assert s[0] !in s[1..];
      }
      forall y ensures y in Elems(Remove(s, x)) <==> y in Elems(s) - {x} {
        assert y in Elems(Remove(s[1..], x)) <==> y in Elems(s[1..]) - {x};
      }
    }
  }
}
