/**
 The id lists of the alarm cache: append-if-absent, and the deletion loop that
 shifts the backing array while it ranges over the list's original length.
 */
module IndexList {
  import opened Prelude

  function AddId<T(==,!new)>(s: seq<T>, x: T): (r: seq<T>)
    ensures x in r && s <= r
    ensures NoDup(s) ==> NoDup(r)
    ensures forall y :: y in r <==> y in s || y == x
  {
    if x in s then s else s + [x]
  }

  method Append<T(==,!new)>(s: seq<T>, x: T) returns (r: seq<T>, found: bool)
    ensures r == AddId(s, x)
    ensures found <==> x in s
  {
    found := false;
    for i := 0 to |s|
      invariant found ==> x in s
      invariant !found ==> x !in s[..i]
    {
      if s[i] == x {
        found := true;
        break;
      }
    }
    r := if found then s else s + [x];
  }

  /**
   What the deletion loop leaves. Removing the id at the cursor moves the next
   element under the cursor, which then advances past it: the element after a
   removed one is kept without being looked at.
   */
  function Swept<T(==,!new)>(s: seq<T>, x: T): seq<T> {
    if s == [] then []
    else if s[0] != x then [s[0]] + Swept(s[1..], x)
    else if |s| == 1 then []
    else [s[1]] + Swept(s[2..], x)
  }

  /** The list ends in the id and holds it earlier as well. */
  predicate Overruns<T(==,!new)>(s: seq<T>, x: T) {
    s != [] && s[|s| - 1] == x && x in s[..|s| - 1]
  }

  predicate Adjacent<T(==,!new)>(s: seq<T>, x: T) {
    exists i :: 0 <= i < |s| - 1 && s[i] == x && s[i + 1] == x
  }

  /** append(a[:i], a[i+1:len]...): one step to the left, last cell left stale. */
  method ShiftLeft<T>(a: array<T>, i: nat, len: nat)
    requires i < len <= a.Length
    modifies a
    ensures a[..] == old(a[..i]) + old(a[i + 1..len]) + old(a[len - 1..])
  {
    ghost var s := a[..];
    for k := i to len - 1
      invariant forall m :: i <= m < k ==> a[m] == s[m + 1]
      invariant forall m :: 0 <= m < i || k <= m < a.Length ==> a[m] == s[m]
    {
      a[k] := a[k + 1];
    }
    ghost var shifted := s[..i] + s[i + 1..len] + s[len - 1..];
    forall m | 0 <= m < a.Length
      ensures a[m] == shifted[m]
    {
      if i <= m < len - 1 {
        assert a[m] == s[m + 1];
      }
    }
  }

  /**
   The loop after `i` rounds over a list that was `s`: `cells` is the backing
   array, `len` the length of the shrunken slice. While the cursor is inside the
   slice, what lies ahead of it is the unread part of `s`.
   */
  ghost predicate Sweeping<T(!new)>(s: seq<T>, x: T, cells: seq<T>, i: nat, len: nat) {
    && |cells| == |s|
    && len <= |s|
    && i <= |s|
    && (i <= len ==> i + |s| - len <= |s|)
    && (i <= len ==> cells[i..len] == s[i + |s| - len..])
    && (i <= len ==> Swept(s, x) == cells[..i] + Swept(s[i + |s| - len..], x))
    && (i > len ==> cells[..len] == Swept(s, x))
    && (forall k :: len <= k < |s| ==> cells[k] == s[|s| - 1])
    && (len == |s| ==> x !in s[..i])
    && (len < |s| && i < |s| ==> x in s[..|s| - 1])
    && (i == |s| ==> !Overruns(s, x))
  }

  lemma SweepKeep<T(!new)>(s: seq<T>, x: T, cells: seq<T>, i: nat, len: nat)
    requires i < |s| && Sweeping(s, x, cells, i, len) && cells[i] != x
    ensures Sweeping(s, x, cells, i + 1, len)
  {
    if i < len {
      var c := i + |s| - len;
      assert cells[i] == cells[i..len][0] == s[c];
      assert cells[i + 1..len] == cells[i..len][1..] == s[c + 1..];
      assert s[c..][1..] == s[c + 1..];
      assert cells[..i] + [cells[i]] == cells[..i + 1];
    } else if i == len {
      assert s[|s|..] == [];
      assert cells[..i] + [] == cells[..len];
    }
  }

  lemma SweepDrop<T(!new)>(s: seq<T>, x: T, cells: seq<T>, i: nat, len: nat)
    requires i < |s| && Sweeping(s, x, cells, i, len) && cells[i] == x && i < len
    ensures Sweeping(s, x, cells[..i] + cells[i + 1..len] + cells[len - 1..], i + 1, len - 1)
  {
    var c := i + |s| - len;
    var next := cells[..i] + cells[i + 1..len] + cells[len - 1..];
    assert cells[i] == cells[i..len][0] == s[c];
    assert cells[len - 1] == s[|s| - 1] by {
      assert cells[len - 1] == cells[i..len][len - 1 - i];
    }
    if i + 1 < len {
      assert cells[i + 1] == cells[i..len][1] == s[c + 1];
      assert s[c..][2..] == s[c + 2..];
      assert next[..i + 1] == cells[..i] + [s[c + 1]];
      assert next[i + 1..len - 1] == cells[i..len][2..] == s[c + 2..];
    } else {
      assert s[c..] == [x];
      assert next[..len - 1] == cells[..i];
    }
    assert x in s[..|s| - 1] || c == |s| - 1 by {
      if c < |s| - 1 {
        assert s[..|s| - 1][c] == x;
      }
    }
  }

  /**
   The loop itself, over the backing array. It steps outside the slice exactly
   on the lists described by Overruns; otherwise it leaves Swept.
   */
  method SweepInPlace<T(==,!new)>(a: array<T>, x: T) returns (len: nat, overran: bool)
    modifies a
    ensures overran <==> Overruns(old(a[..]), x)
    ensures !overran ==> len <= a.Length && a[..len] == Swept(old(a[..]), x)
  {
    var n := a.Length;
    len, overran := n, false;
    ghost var s := a[..];
    for i := 0 to n
      invariant len <= n
      invariant Sweeping(s, x, a[..], i, len)
    {
      ghost var cells := a[..];
      if a[i] == x {
        if i + 1 > len {
          overran := true;
          return;
        }
        SweepDrop(s, x, cells, i, len);
        ShiftLeft(a, i, len);
        assert a[..] == cells[..i] + cells[i + 1..len] + cells[len - 1..];
        len := len - 1;
      } else {
        SweepKeep(s, x, cells, i, len);
      }
    }
  }

  /** The loop drops every copy of the id iff no two copies are neighbours. */
  lemma {:induction false} SweptExactly<T(!new)>(s: seq<T>, x: T)
    ensures Swept(s, x) == Without(s, x) <==> !Adjacent(s, x)
    ensures Adjacent(s, x) ==> x in Swept(s, x)
  {
    if s == [] {
    } else if s[0] != x {
      SweptExactly(s[1..], x);
      AdjacentTail(s, x);
      assert Swept(s, x)[1..] == Swept(s[1..], x);
      assert Without(s, x)[1..] == Without(s[1..], x);
    } else if |s| == 1 {
    } else {
      SweptExactly(s[2..], x);
      AdjacentTail(s, x);
      AdjacentTail(s[1..], x);
      assert s[1..][1..] == s[2..];
      assert Swept(s, x)[1..] == Swept(s[2..], x);
      if s[1] == x {
        assert s[1] in Swept(s, x);
      } else {
        assert Without(s, x)[1..] == Without(s[2..], x);
      }
    }
  }

  lemma AdjacentTail<T(!new)>(s: seq<T>, x: T)
    requires s != []
    ensures Adjacent(s, x) <==> Adjacent(s[1..], x) || (|s| > 1 && s[0] == x && s[1] == x)
  {
    if Adjacent(s[1..], x) {
      var i :| 0 <= i < |s[1..]| - 1 && s[1..][i] == x && s[1..][i + 1] == x;
      assert s[i + 1] == x && s[i + 2] == x;
    }
    if Adjacent(s, x) && !(|s| > 1 && s[0] == x && s[1] == x) {
      var i :| 0 <= i < |s| - 1 && s[i] == x && s[i + 1] == x;
      assert s[1..][i - 1] == x && s[1..][i] == x;
    }
  }

  /**
   The deletion is right, and stays in bounds, exactly on these lists; every list
   without duplicates, hence every list Append builds from nothing, is one.
   */
  predicate Deletable<T(==,!new)>(s: seq<T>, x: T) {
    !Overruns(s, x) && !Adjacent(s, x)
  }

  lemma NoDupDeletable<T(!new)>(s: seq<T>, x: T)
    requires NoDup(s)
    ensures Deletable(s, x)
  {
  }

  /** Two neighbouring ids overrun, and in front of another id one copy survives. */
  lemma SweepGoesWrong(g: string, h: string)
    requires g != h
    ensures Overruns([g, g], g)
    ensures !Overruns([g, g, h], g) && Swept([g, g, h], g) == [g, h]
  {
    assert [g, g][..1] == [g];
    assert [g, g, h][2..] == [h];
    assert [h][1..] == [];
    assert Swept([h], g) == [h] + Swept([], g);
  }
}
