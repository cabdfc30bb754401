/**
 * `stack_cnc` of detail/util/stack_cnc.hpp: a LIFO stack kept in a vector,
 * whose every operation runs under a spinlock. The model is the sequential
 * behaviour: each operation is one atomic step on the vector `items`, the
 * bottom of the stack first.
 *
 * The functions below describe the stack as a value; the methods of
 * `StackCnc` are proved against them, and the lemmas state the LIFO laws.
 */
module DetailStackCnc {

  /** The stack `s` after pushing `x`. */
  function Pushed<T>(s: seq<T>, x: T): (r: seq<T>)
    ensures |r| == |s| + 1 && r[..|s|] == s && r[|s|] == x
  {
    s + [x]
  }

  /** How many elements a bulk pop of `n` takes from a stack of `size` elements. */
  function Taken(size: nat, n: nat): (k: nat)
    ensures k <= size && k <= n && (k == size || k == n)
  {
    if size < n then size else n
  }

  /** The stack `s` after a bulk pop of `n`: what stays below the cut. */
  function Kept<T>(s: seq<T>, n: nat): (r: seq<T>)
    ensures |r| == |s| - Taken(|s|, n) && r == s[..|r|]
  {
    s[..|s| - Taken(|s|, n)]
  }

  /** What a bulk pop of `n` from `s` hands out, bottom to top. */
  function Popped<T>(s: seq<T>, n: nat): (r: seq<T>)
    ensures |r| == Taken(|s|, n) && r == s[|s| - |r|..]
  {
    s[|s| - Taken(|s|, n)..]
  }

  /** A bulk pop splits the stack: what stays and what is handed out make up the old stack. */
  lemma KeptPopped<T>(s: seq<T>, n: nat)
    ensures Kept(s, n) + Popped(s, n) == s
  {
    assert s == s[..|s| - Taken(|s|, n)] + s[|s| - Taken(|s|, n)..];
  }

  /** LIFO: popping right after a push gives back the pushed element and the old stack. */
  lemma PushThenPop<T>(s: seq<T>, x: T)
    ensures Popped(Pushed(s, x), 1) == [x] && Kept(Pushed(s, x), 1) == s
  {
  }

  /**
   * A bulk pop of exactly what a vector push added hands that vector back,
   * in the same order, and leaves the stack as it was.
   */
  lemma PushAllThenPopAll<T>(s: seq<T>, v: seq<T>)
    requires v != []
    ensures Popped(s + v, |v|) == v && Kept(s + v, |v|) == s
  {
    assert (s + v)[|s|..] == v;
    assert (s + v)[..|s|] == s;
  }

  /** Popping more than the stack holds empties it and hands out everything. */
  lemma PopAllOfSmall<T>(s: seq<T>, n: nat)
    requires |s| <= n
    ensures Popped(s, n) == s && Kept(s, n) == []
  {
  }

  class StackCnc<T> {
    /** `v_t`: the contents, bottom first. */
    var items: seq<T>

    /** `stack_cnc()`: an empty stack. */
    constructor ()
      ensures items == []
    {
      items := [];
    }

    /** `stack_cnc(v_other)`: a stack holding a copy of the vector, its last element on top. */
    constructor FromVector(v: seq<T>)
      ensures items == v
    {
      items := v;
    }

    /** `operator=(v_other)`: the contents are replaced by a copy of the vector. */
    method Assign(v: seq<T>)
      modifies this
      ensures items == v
    {
      items := v;
    }

    /** `clear()`: the stack becomes empty. */
    method Clear()
      modifies this
      ensures items == [] && Size() == 0 && Empty()
    {
      items := [];
    }

    /** `swap(stack_other)`: the two stacks exchange contents; swapping with itself changes nothing. */
    method Swap(other: StackCnc<T>)
      modifies this, other
      ensures other == this ==> items == old(items)
      ensures other != this ==> items == old(other.items) && other.items == old(items)
    {
      if other == this {
        return;
      }
      items, other.items := other.items, items;
    }

    /** `size()`: the number of elements. */
    function Size(): nat
      reads this
    {
      |items|
    }

    /** `empty()`: the stack holds no element, exactly when its size is 0. */
    function Empty(): (b: bool)
      reads this
      ensures b <==> Size() == 0
    {
      items == []
    }

    /**
     * `copy(v_other)`: the vector receives the contents bottom to top,
     * which is what a bulk pop of the whole stack would hand out; the
     * stack itself is unchanged.
     */
    method Copy() returns (v: seq<T>)
      ensures v == Popped(items, Size()) && Kept(items, Size()) == []
      ensures v == items
    {
      v := items;
    }

    /** `push_back(val)` and `emplace_back(args...)`: one element on top. */
    method PushBack(val: T)
      modifies this
      ensures items == Pushed(old(items), val)
      ensures Size() == old(Size()) + 1
    {
      items := items + [val];
    }

    /** `push_back(v_other)`: the elements of the vector are pushed one by one, in vector order. */
    method PushBackAll(v: seq<T>)
      modifies this
      ensures items == old(items) + v
    {
      var i := 0;
      while i < |v|
        invariant 0 <= i <= |v|
        invariant items == old(items) + v[..i]
      {
        PushBack(v[i]);
        assert v[..i + 1] == v[..i] + [v[i]];
        i := i + 1;
      }
      assert v[..i] == v;
    }

    /** `pop_back()`: the source requires a non-empty stack; the top element is removed. */
    method PopBack()
      requires items != []
      modifies this
      ensures items == Kept(old(items), 1)
      ensures Size() == old(Size()) - 1
    {
      items := items[..|items| - 1];
    }

    /**
     * `pop_copy_back(val)` and `pop_move_back(val)`: on an empty stack the
     * result is false and neither the stack nor `val` changes; otherwise
     * the top element is removed and handed out in `val`.
     */
    method PopOne(val0: T) returns (ok: bool, val: T)
      modifies this
      ensures ok <==> old(items) != []
      ensures !ok ==> val == val0 && items == old(items)
      ensures ok ==> [val] == Popped(old(items), 1) && items == Kept(old(items), 1)
    {
      if |items| == 0 {
        return false, val0;
      }
      val := items[|items| - 1];
      items := items[..|items| - 1];
      ok := true;
    }

    /**
     * `pop_copy_back(v_out, nelem)` and `pop_move_back(v1, nelem)`: the top
     * `min(size, nelem)` elements are appended to the vector, bottom to
     * top, and removed; the count is returned (0 on an empty stack, when
     * nothing changes).
     */
    method PopMany(vout: seq<T>, nelem: nat) returns (v: seq<T>, aux: nat)
      modifies this
      ensures aux == Taken(|old(items)|, nelem)
      ensures v == vout + Popped(old(items), nelem)
      ensures items == Kept(old(items), nelem)
      ensures old(items) == [] ==> aux == 0 && v == vout && items == []
    {
      v, aux := vout, 0;
      if |items| != 0 {
        aux := if |items| < nelem then |items| else nelem;
        var posIni := |items| - aux;
        var i := posIni;
        while i < |items|
          invariant posIni <= i <= |items|
          invariant items == old(items)
          invariant v == vout + items[posIni..i]
        {
          v := v + [items[i]];
          assert items[posIni..i + 1] == items[posIni..i] + [items[i]];
          i := i + 1;
        }
        items := items[..posIni];
      }
    }
  }
}
