/** Sequence vocabulary shared by the models. */
module Prelude {

  datatype Option<+T> = None | Some(value: T)

  /** The entry of a map, or None. */
  function Get<K, V>(m: map<K, V>, k: K): Option<V> {
    if k in m then Some(m[k]) else None
  }

  predicate NoDup<T(==)>(s: seq<T>) {
    forall i, j :: 0 <= i < j < |s| ==> s[i] != s[j]
  }

  /** `s` with every occurrence of `x` dropped, order kept. */
  function Without<T(==,!new)>(s: seq<T>, x: T): (r: seq<T>)
    ensures |r| <= |s|
    ensures forall y :: y in r <==> y in s && y != x
  {
    if s == [] then []
    else if s[0] == x then Without(s[1..], x)
    else [s[0]] + Without(s[1..], x)
  }

  lemma {:induction false} WithoutAbsent<T(!new)>(s: seq<T>, x: T)
    requires x !in s
    ensures Without(s, x) == s
  {
    if s != [] {
      WithoutAbsent(s[1..], x);
    }
  }

  lemma NoDupCons<T>(x: T, s: seq<T>)
    ensures NoDup([x] + s) <==> NoDup(s) && x !in s
  {
    var t := [x] + s;
    assert forall i :: 0 <= i < |s| ==> t[i + 1] == s[i];
    if x in s {
      var i :| 0 <= i < |s| && s[i] == x;
      assert t[0] == t[i + 1];
    }
  }

  lemma NoDupAppend<T>(s: seq<T>, t: seq<T>)
    requires NoDup(s) && NoDup(t)
    ensures NoDup(s + t) <==> forall j :: 0 <= j < |t| ==> t[j] !in s
  {
    var u := s + t;
    if NoDup(u) {
      forall j | 0 <= j < |t|
        ensures t[j] !in s
      {
        assert u[|s| + j] == t[j];
        assert forall i :: 0 <= i < |s| ==> u[i] == s[i];
      }
    } else {
      var i, j :| 0 <= i < j < |u| && u[i] == u[j];
      assert i < |s| <= j;
      assert t[j - |s|] == s[i];
    }
  }

  lemma {:induction false} WithoutNoDup<T(!new)>(s: seq<T>, x: T)
    requires NoDup(s)
    ensures NoDup(Without(s, x))
  {
    if s != [] {
      assert s == [s[0]] + s[1..];
      NoDupCons(s[0], s[1..]);
      WithoutNoDup(s[1..], x);
      NoDupCons(s[0], Without(s[1..], x));
    }
  }

  lemma {:induction false} WithoutAppend<T(!new)>(s: seq<T>, t: seq<T>, x: T)
    ensures Without(s + t, x) == Without(s, x) + Without(t, x)
  {
    if s == [] {
      assert s + t == t;
    } else {
      assert (s + t)[1..] == s[1..] + t;
      WithoutAppend(s[1..], t, x);
    }
  }

  /** Without is a projection. */
  lemma WithoutTwice<T(!new)>(s: seq<T>, x: T)
    ensures Without(Without(s, x), x) == Without(s, x)
  {
    WithoutAbsent(Without(s, x), x);
  }

  /** `r` is what `s` holds at the positions `at`, in order. */
  ghost predicate Selects<T>(s: seq<T>, at: seq<nat>, r: seq<T>) {
    && |r| == |at|
    && (forall i, j :: 0 <= i < j < |at| ==> at[i] < at[j])
    && forall i :: 0 <= i < |at| ==> at[i] < |s| && r[i] == s[at[i]]
  }

  /** The positions, one later. */
  function Shifted(at: seq<nat>): (r: seq<nat>)
    ensures |r| == |at| && forall i :: 0 <= i < |at| ==> r[i] == at[i] + 1
  {
    seq(|at|, i requires 0 <= i < |at| => at[i] + 1)
  }

  lemma InShifted(at: seq<nat>, i: nat)
    ensures i in Shifted(at) <==> i > 0 && i - 1 in at
  {
    if i > 0 && i - 1 in at {
      var j :| 0 <= j < |at| && at[j] == i - 1;
      assert Shifted(at)[j] == i;
    }
  }

  lemma ShiftedSelects<T>(s: seq<T>, at: seq<nat>, r: seq<T>)
    requires s != [] && Selects(s[1..], at, r)
    ensures Selects(s, Shifted(at), r)
  {
    assert forall i :: 0 <= i < |at| ==> s[Shifted(at)[i]] == s[1..][at[i]];
  }

  /** The positions of a selection from the tail, with the head's before them if it is selected. */
  function WithHead(at: seq<nat>, head: bool): seq<nat> {
    if head then [0] + Shifted(at) else Shifted(at)
  }

  lemma InWithHead(at: seq<nat>, head: bool, i: nat)
    ensures i in WithHead(at, head) <==> if i == 0 then head else i - 1 in at
  {
    InShifted(at, i);
  }

  lemma SelectsMore<T>(s: seq<T>, at: seq<nat>, r: seq<T>, head: bool)
    requires s != [] && Selects(s[1..], at, r)
    ensures Selects(s, WithHead(at, head), if head then [s[0]] + r else r)
  {
    ShiftedSelects(s, at, r);
    if head {
      SelectsCons(s, Shifted(at), r);
    }
  }

  /** A selection that leaves the head out can take it in. */
  lemma SelectsCons<T>(s: seq<T>, at: seq<nat>, r: seq<T>)
    requires s != [] && Selects(s, at, r) && forall i :: 0 <= i < |at| ==> at[i] > 0
    ensures Selects(s, [0] + at, [s[0]] + r)
  {
    var at', r' := [0] + at, [s[0]] + r;
    forall i, j | 0 <= i < j < |at'|
      ensures at'[i] < at'[j]
    {
      assert at'[j] == at[j - 1];
    }
    forall i | 0 <= i < |at'|
      ensures at'[i] < |s| && r'[i] == s[at'[i]]
    {
      if i > 0 {
        assert at'[i] == at[i - 1] && r'[i] == r[i - 1];
      }
    }
  }

  /** A selection from the rest is one from the whole list; the last element may come after it. */
  lemma SelectsLast<T>(s: seq<T>, at: seq<nat>, r: seq<T>, last: bool) returns (at': seq<nat>)
    requires s != [] && Selects(s[..|s| - 1], at, r)
    ensures Selects(s, at', r + (if last then [s[|s| - 1]] else []))
    ensures forall i: nat :: i in at' <==> i in at || (last && i == |s| - 1)
  {
    at' := at + (if last then [|s| - 1] else []);
    assert forall i :: 0 <= i < |at| ==> s[..|s| - 1][at[i]] == s[at[i]];
  }
}
