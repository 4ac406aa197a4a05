/**
 * A stack over the linked list: Push appends at the tail, Pop unlinks the
 * tail by walking to the item before it. Popping an empty stack is not an
 * error: it yields the element type's default value.
 */
module SimpleStacks {
  import opened SimpleLists

  /**
   * What one Pop yields from contents `s` and what it leaves: Pop undoes the
   * Push of the newest value, and on an empty stack yields `default`.
   */
  function PopResult<T>(s: seq<T>, default: T): (r: (T, seq<T>))
    ensures |s| > 0 ==> r.1 + [r.0] == s
    ensures |s| == 0 ==> r == (default, [])
  {
    if |s| == 0 then (default, s) else (s[|s| - 1], s[..|s| - 1])
  }

  /** The values `n` successive Pops yield from `s`, in order, and what they leave. */
  function PopMany<T>(s: seq<T>, default: T, n: nat): (r: (seq<T>, seq<T>))
    ensures |r.0| == n
  {
    if n == 0 then ([], s)
    else
      var (v, rest) := PopResult(s, default);
      var (vs, left) := PopMany(rest, default, n - 1);
      ([v] + vs, left)
  }

  /** n Pops leave the oldest |s| - n values, or nothing once they outnumber the values. */
  lemma {:induction false} PopManyLeaves<T>(s: seq<T>, default: T, n: nat)
    ensures PopMany(s, default, n).1 == if n <= |s| then s[..|s| - n] else []
  {
    if n > 0 {
      var rest := PopResult(s, default).1;
      PopManyLeaves(rest, default, n - 1);
      if |s| > 0 {
        assert rest == s[..|s| - 1];
        if n <= |s| {
          assert rest[..|rest| - (n - 1)] == s[..|s| - n];
        }
      }
    } else {
      assert s[..|s|] == s;
    }
  }

  function Reverse<T>(s: seq<T>): (r: seq<T>)
    ensures |r| == |s|
    ensures forall k :: 0 <= k < |s| ==> r[k] == s[|s| - 1 - k]
  {
    if s == [] then [] else [s[|s| - 1]] + Reverse(s[..|s| - 1])
  }

  /** Popping as many times as values were pushed yields them newest first and restores the stack. */
  lemma {:induction false} PopsUndoPushes<T>(s: seq<T>, pushed: seq<T>, default: T)
    ensures PopMany(s + pushed, default, |pushed|) == (Reverse(pushed), s)
    decreases |pushed|
  {
    if pushed != [] {
      var n := |pushed|;
      var shorter := pushed[..n - 1];
      assert (s + pushed)[..|s + pushed| - 1] == s + shorter;
      assert PopResult(s + pushed, default) == (pushed[n - 1], s + shorter);
      PopsUndoPushes(s, shorter, default);
      assert PopMany(s + shorter, default, n - 1) == (Reverse(shorter), s);
      assert Reverse(pushed) == [pushed[n - 1]] + Reverse(shorter);
    } else {
      assert s + pushed == s;
    }
  }

  /** Popping an empty stack yields the default every time and leaves it empty. */
  lemma {:induction false} PopsOnEmpty<T>(default: T, n: nat)
    ensures PopMany([], default, n) == (seq(n, _ => default), [])
  {
    if n > 0 {
      PopsOnEmpty(default, n - 1);
      assert PopResult([], default) == (default, []);
      assert PopMany([], default, n) == ([default] + PopMany([], default, n - 1).0, PopMany([], default, n - 1).1);
      assert [default] + seq(n - 1, _ => default) == seq(n, _ => default);
    } else {
      assert seq(n, _ => default) == [];
    }
  }

  /** n + m Pops are n Pops followed by m Pops. */
  lemma {:induction false} PopManyAppend<T>(s: seq<T>, default: T, n: nat, m: nat)
    ensures PopMany(s, default, n + m).0 == PopMany(s, default, n).0 + PopMany(PopMany(s, default, n).1, default, m).0
    ensures PopMany(s, default, n + m).1 == PopMany(PopMany(s, default, n).1, default, m).1
  {
    if n > 0 {
      var v := PopResult(s, default).0;
      var rest := PopResult(s, default).1;
      PopManyAppend(rest, default, n - 1, m);
      var first := PopMany(rest, default, n - 1).0;
      var second := PopMany(PopMany(rest, default, n - 1).1, default, m).0;
      assert n - 1 + m == n + m - 1;
      assert [v] + first + second == [v] + (first + second);
    } else {
      assert [] + PopMany(s, default, m).0 == PopMany(s, default, m).0;
    }
  }

  /**
   * Push v1..vn onto an empty stack and Pop n + extra times: the Pops yield
   * vn..v1, then the default value, and the stack ends empty.
   */
  lemma LifoOrder<T>(pushed: seq<T>, default: T, extra: nat)
    ensures PopMany(pushed, default, |pushed| + extra) == (Reverse(pushed) + seq(extra, _ => default), [])
  {
    PopManyAppend(pushed, default, |pushed|, extra);
    assert [] + pushed == pushed;
    PopsUndoPushes([], pushed, default);
    PopsOnEmpty(default, extra);
  }

  class SimpleStack<T> {
    /** The list this stack is: Push and Pop work on its fields directly. */
    const items: SimpleList<T>

    ghost predicate Valid()
      reads items, items.Repr
    {
      items.Valid()
    }

    constructor ()
      ensures Valid() && fresh(items) && fresh(items.Repr) && items.Contents == []
    {
      items := new SimpleList();
    }

    method Push(item: T)
      requires Valid()
      modifies items.Repr
      ensures Valid() && fresh(items.Repr - old(items.Repr))
      ensures items.Contents == old(items.Contents) + [item]
    {
      items.Add(item);
    }

    /**
     * Removes and returns the newest value; on an empty stack returns
     * `default` (the element type's default value) and leaves Count at 0.
     */
    method Pop(default: T) returns (res: T)
      requires Valid()
      modifies items.Repr
      ensures Valid() && items.Repr == old(items.Repr)
      ensures (res, items.Contents) == PopResult(old(items.Contents), default)
      ensures items.count == if old(items.count) == 0 then 0 else old(items.count) - 1
    {
      res := default;
      if items.count == 0 {
        return;
      }
      if items.count == 1 {
        res := items.first.data;
        items.first := null;
        items.last := null;
      } else {
        var newLast := items.GetItem(items.count - 2);
        res := newLast.value.next.data;
        items.last := newLast.value;
        newLast.value.next := null;
      }
      items.count := items.count - 1;
      items.Nodes := items.Nodes[..items.count];
      items.Contents := items.Contents[..items.count];
    }
  }
}
