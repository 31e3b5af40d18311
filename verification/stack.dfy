/**
 `class Stack<T>`: the traversal's frontier of directories still to list.
 The backing list grows at its end; `pop` takes from the end, so the last
 element pushed is the first one popped.
 */
module Stack {
  import opened Wrappers

  /** The backing `items` list, bottom of the stack first. */
  type Stack<T> = seq<T>

  /** `count()` */
  function Count<T>(s: Stack<T>): nat
  {
    |s|
  }

  /** `push(element)`: `items.add(count(), element)`. */
  function Push<T>(s: Stack<T>, x: T): (r: Stack<T>)
    ensures Count(r) == Count(s) + 1
  {
    s + [x]
  }

  /**
   `pop()`: `null` on an empty stack, otherwise `items.removeAt(count() - 1)`;
   the pair holds the returned element and the stack left behind.
   */
  function Pop<T>(s: Stack<T>): (r: (Option<T>, Stack<T>))
    ensures r.0.None? <==> Count(s) == 0
    ensures r.0.None? ==> r.1 == s
    ensures r.0.Some? ==> Count(r.1) == Count(s) - 1
  {
    if |s| == 0 then (None, s) else (Some(s[|s| - 1]), s[..|s| - 1])
  }

  /** Popping right after a push hands back the pushed element and the stack as it was. */
  lemma PopPush<T>(s: Stack<T>, x: T)
    ensures Pop(Push(s, x)) == (Some(x), s)
  {
    assert (s + [x])[..|s|] == s;
  }

  /** Pushing back what a pop returned restores the stack. */
  lemma PushPop<T>(s: Stack<T>)
    requires Count(s) > 0
    ensures Push(Pop(s).1, Pop(s).0.value) == s
  {
  }

  /** Every element other than the popped one is still there, in its place. */
  lemma PopKeeps<T>(s: Stack<T>)
    requires Count(s) > 0
    ensures forall i :: 0 <= i < |Pop(s).1| ==> Pop(s).1[i] == s[i]
    ensures Pop(s).0.value == s[|s| - 1]
  {
  }
}
