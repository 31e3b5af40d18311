/**
 The directory walk of `class FSystemScan`: a stack of directories still to
 list, seeded with the top node, and the map `SubTree.ok2Traverse` from
 inode text to a flag, which guards against descending into a directory
 twice.

 The filesystem is an input. `Listing` is what iterating `Files.list` over a
 directory produced: one entry per item, `None` where building the
 `FSysNode` failed with a `FileSystemException` (the item is skipped), and
 `complete` false when the listing itself failed part way or not at all
 (the walk then goes on with the next directory, and the directory's flag is
 left as it was).
 */
module Traversal {
  import opened Wrappers
  import opened FSysNode
  import opened Stack

  datatype Listing = Listing(entries: seq<Option<Node>>, complete: bool)

  /** The listing of each directory, by `path`; a path missing here cannot be listed. */
  type FileSystem = map<string, Listing>

  function ListingOf(fs: FileSystem, path: string): Listing
  {
    if path in fs then fs[path] else Listing([], false)
  }

  /** `skipList` */
  const SkipList: set<string> := {"/proc", "/media"}

  /** A directory entry the walk goes into when its inode is new. */
  predicate Descends(n: Node)
  {
    n.noFollow.isDirectory && !n.noFollow.isSymbolicLink && n.path !in SkipList
  }

  function Item(e: Option<Node>): seq<Node>
  {
    if e.Some? then [e.value] else []
  }

  /** The entries whose node could be built, in listing order. */
  function Present(es: seq<Option<Node>>): (r: seq<Node>)
    ensures |r| <= |es|
    ensures forall n :: n in r <==> Some(n) in es
  {
    if |es| == 0 then [] else Item(es[0]) + Present(es[1..])
  }

  /** Everything the listings of `ds` write, in order. */
  function Emitted(fs: FileSystem, ds: seq<Node>): seq<Node>
  {
    if |ds| == 0 then []
    else Emitted(fs, ds[..|ds| - 1]) + Present(ListingOf(fs, ds[|ds| - 1].path).entries)
  }

  function Inodes(ns: seq<Node>): set<string>
  {
    set n | n in ns :: n.inode
  }

  predicate DistinctInodes(ns: seq<Node>)
  {
    forall i, j :: 0 <= i < j < |ns| ==> ns[i].inode != ns[j].inode
  }

  /** Every inode any listing mentions: the walk can mark no other. */
  function AllInodes(fs: FileSystem): set<string>
  {
    set p, n | p in fs && n in Present(fs[p].entries) :: n.inode
  }

  /** The walk's state: the stack, `ok2Traverse`, and the records handed to the recorder. */
  datatype Walk = Walk(stack: Stack<Node>, visited: map<string, bool>, written: seq<Node>)

  /**
   One item of a listing: the node is written, then pushed and marked when
   it is a directory to descend whose inode is not yet a key.
   */
  function Enter(w: Walk, e: Option<Node>): (r: Walk)
    ensures e.None? ==> r == w
    ensures r.written == w.written + Item(e)
    ensures e.Some? && Descends(e.value) ==> e.value.inode in r.visited
    ensures w.visited.Keys <= r.visited.Keys
  {
    match e
    case None => w
    case Some(n) =>
      if Descends(n) && n.inode !in w.visited then
        Walk(Push(w.stack, n), w.visited[n.inode := true], w.written + [n])
      else
        w.(written := w.written + [n])
  }

  /** The `while (currentItem.hasNext())` loop over one listing. */
  function EnterAll(w: Walk, es: seq<Option<Node>>): (r: Walk)
    ensures r.written == w.written + Present(es)
    ensures w.visited.Keys <= r.visited.Keys
    decreases |es|
  {
    if |es| == 0 then w
    else
      Assoc(w.written, Item(es[0]), Present(es[1..]));
      EnterAll(Enter(w, es[0]), es[1..])
  }

  lemma Assoc<T>(a: seq<T>, b: seq<T>, c: seq<T>)
    ensures (a + b) + c == a + (b + c)
  {
  }

  // ---------------------------------------------------------------------
  // What a listing does to the walk.
  // ---------------------------------------------------------------------

  /**
   The state of the walk against the directories already listed: the
   flag keys are exactly the inodes listed or waiting on the stack, each of
   them once, and every directory waiting is flagged `true`.
   */
  predicate Good(w: Walk, listed: seq<Node>)
  {
    && w.visited.Keys == Inodes(listed) + Inodes(w.stack)
    && DistinctInodes(listed) && DistinctInodes(w.stack)
    && Inodes(listed) !! Inodes(w.stack)
    && (forall x :: x in w.stack ==> x.inode in w.visited && w.visited[x.inode])
  }

  lemma InodesSnoc(ns: seq<Node>, x: Node)
    ensures Inodes(ns + [x]) == Inodes(ns) + {x.inode}
  {
    assert forall n :: n in ns + [x] <==> n in ns || n == x;
  }

  lemma InodeOf(ns: seq<Node>, i: nat)
    requires i < |ns|
    ensures ns[i].inode in Inodes(ns)
  {
  }

  lemma DistinctSnoc(ns: seq<Node>, x: Node)
    requires DistinctInodes(ns) && x.inode !in Inodes(ns)
    ensures DistinctInodes(ns + [x])
  {
    forall i, j | 0 <= i < j < |ns| + 1 ensures (ns + [x])[i].inode != (ns + [x])[j].inode {
      InodeOf(ns, i);
    }
  }

  /** One item keeps the walk good, keeps every old flag, and pushes only directories it wrote. */
  lemma EnterKeeps(w: Walk, listed: seq<Node>, e: Option<Node>)
    requires Good(w, listed)
    ensures var r := Enter(w, e);
      && Good(r, listed)
      && (forall k :: k in w.visited ==> r.visited[k] == w.visited[k])
      && r.visited.Keys <= w.visited.Keys + (if e.Some? then {e.value.inode} else {})
      && (r.visited.Keys == w.visited.Keys ==> r.stack == w.stack)
      && (forall x :: x in r.stack ==> x in w.stack || (e.Some? && x == e.value && Descends(x)))
  {
    if e.Some? && Descends(e.value) && e.value.inode !in w.visited {
      var n := e.value;
      InodesSnoc(w.stack, n);
      DistinctSnoc(w.stack, n);
      assert n.inode in Enter(w, e).visited.Keys - w.visited.Keys;
    }
  }

  /** A whole listing keeps the walk good and keeps every old flag. */
  lemma {:induction false} EnterAllKeeps(w: Walk, listed: seq<Node>, es: seq<Option<Node>>)
    requires Good(w, listed)
    ensures var r := EnterAll(w, es);
      && Good(r, listed)
      && (forall k :: k in w.visited ==> r.visited[k] == w.visited[k])
      && r.visited.Keys <= w.visited.Keys + Inodes(Present(es))
      && (r.visited.Keys == w.visited.Keys ==> r.stack == w.stack)
      && (forall x :: x in r.stack ==> x in w.stack || (x in Present(es) && Descends(x)))
    decreases |es|
  {
    if |es| > 0 {
      var w1 := Enter(w, es[0]);
      EnterKeeps(w, listed, es[0]);
      EnterAllKeeps(w1, listed, es[1..]);
      PresentCons(es);
    }
  }

  lemma PresentCons(es: seq<Option<Node>>)
    requires |es| > 0
    ensures Inodes(Present(es)) == (if es[0].Some? then {es[0].value.inode} else {}) + Inodes(Present(es[1..]))
    ensures forall x :: x in Present(es[1..]) ==> x in Present(es)
    ensures es[0].Some? ==> es[0].value in Present(es)
  {
  }

  /** Every directory entry of a listing to descend ends up with a flag. */
  lemma {:induction false} EnterAllMarks(w: Walk, es: seq<Option<Node>>)
    ensures forall n :: n in Present(es) && Descends(n) ==> n.inode in EnterAll(w, es).visited
    decreases |es|
  {
    if |es| > 0 {
      EnterAllMarks(Enter(w, es[0]), es[1..]);
      PresentCons(es);
    }
  }

  // ---------------------------------------------------------------------
  // The main loop.
  // ---------------------------------------------------------------------

  /** Before `mainloop`: the top node written, pushed, and flagged `true`. */
  function Start(top: Node): Walk
  {
    Walk([top], map[top.inode := true], [top])
  }

  /**
   One pass of `mainloop` for the popped directory `d` (already off the
   stack of `w`): list it when its flag is `true`, then set the flag to
   `false` unless the listing failed.
   */
  function Visit(fs: FileSystem, w: Walk, d: Node): Walk
  {
    var ok := if d.inode in w.visited then w.visited[d.inode] else false;
    var listing := ListingOf(fs, d.path);
    if ok then
      var r := EnterAll(w, listing.entries);
      if listing.complete then r.(visited := r.visited[d.inode := false]) else r
    else
      w.(visited := w.visited[d.inode := false])
  }

  /** The directories listed, and what they wrote, as the loop has them. */
  predicate Trace(fs: FileSystem, top: Node, listed: seq<Node>, w: Walk)
  {
    && w.written == [top] + Emitted(fs, listed)
    && (|listed| == 0 ==> w.stack == [top])
    && (|listed| > 0 ==> listed[0] == top)
    && (forall i :: 0 < i < |listed| ==> Descends(listed[i]) && listed[i] in w.written)
    && (|listed| > 0 ==> forall x :: x in w.stack ==> Descends(x) && x in w.written)
  }

  /** Every directory the listings so far turned up has a flag. */
  predicate Marked(fs: FileSystem, listed: seq<Node>, w: Walk)
  {
    forall n :: n in Emitted(fs, listed) && Descends(n) ==> n.inode in w.visited
  }

  /** A listed directory's flag is `false` exactly when its listing went through. */
  predicate Flags(fs: FileSystem, listed: seq<Node>, w: Walk)
  {
    forall x :: x in listed ==> x.inode in w.visited && w.visited[x.inode] == !ListingOf(fs, x.path).complete
  }

  datatype Outcome =
    | ResultsNotDirectory  // the results directory's own attributes say it is no directory
    | TopNotDirectory      // the top node's own attributes say it is no directory
    | Scanned(written: seq<Node>, listed: seq<Node>, visited: map<string, bool>)

  /**
   `FSystemScan`'s `init`: check the results directory and the top node,
   then walk. `written` is every node handed to the recorder, `listed` the
   directories in the order they were popped, `visited` the final
   `ok2Traverse`.
   */
  method Scan(fs: FileSystem, results: Node, top: Node) returns (o: Outcome)
    ensures o.ResultsNotDirectory? <==> !results.noFollow.isDirectory
    ensures o.TopNotDirectory? <==> results.noFollow.isDirectory && !top.noFollow.isDirectory
    ensures o.Scanned? ==>
      && o.written == [top] + Emitted(fs, o.listed)
      && |o.listed| > 0 && o.listed[0] == top
      && (forall i :: 0 < i < |o.listed| ==> Descends(o.listed[i]) && o.listed[i] in o.written)
      && DistinctInodes(o.listed)
      && o.visited.Keys == Inodes(o.listed)
      && (forall n :: n in o.written && Descends(n) ==> n.inode in Inodes(o.listed))
      && (forall x :: x in o.listed ==> o.visited[x.inode] == !ListingOf(fs, x.path).complete)
  {
    if !results.noFollow.isDirectory {
      return ResultsNotDirectory;
    }
    if !top.noFollow.isDirectory {
      return TopNotDirectory;
    }
    var written, listed, visited := WalkFrom(fs, top);
    o := Scanned(written, listed, visited);
  }

  /**
   `mainloop`, from the top node: every directory is listed once, each
   listed directory other than the top is one to descend that a listing
   wrote, and every directory to descend that was written was listed.
   */
  method WalkFrom(fs: FileSystem, top: Node) returns (written: seq<Node>, listed: seq<Node>, visited: map<string, bool>)
    ensures written == [top] + Emitted(fs, listed)
    ensures |listed| > 0 && listed[0] == top
    ensures forall i :: 0 < i < |listed| ==> Descends(listed[i]) && listed[i] in written
    ensures DistinctInodes(listed) && visited.Keys == Inodes(listed)
    ensures forall n :: n in written && Descends(n) ==> n.inode in Inodes(listed)
    ensures forall x :: x in listed ==> visited[x.inode] == !ListingOf(fs, x.path).complete
  {
    ghost var universe := AllInodes(fs) + {top.inode};
    var w := Start(top);
    StartKeeps(fs, top);
    listed := [];
    while Count(w.stack) != 0
      invariant Good(w, listed) && w.visited.Keys <= universe
      invariant Trace(fs, top, listed, w)
      invariant Marked(fs, listed, w) && Flags(fs, listed, w)
      decreases |universe - w.visited.Keys|, |w.stack|
    {
      var (popped, rest) := Pop(w.stack);
      PushPop(w.stack);
      var d := popped.value;
      ghost var before := w;
      w := Visit(fs, w.(stack := rest), d);
      StepKeeps(fs, top, listed, before, d, rest, universe);
      listed := listed + [d];
    }
    EndKeeps(fs, top, listed, w);
    written, visited := w.written, w.visited;
  }

  /** With the stack empty, the invariants give the walk's outcome. */
  lemma EndKeeps(fs: FileSystem, top: Node, listed: seq<Node>, w: Walk)
    requires |w.stack| == 0
    requires Good(w, listed) && Trace(fs, top, listed, w) && Marked(fs, listed, w) && Flags(fs, listed, w)
    ensures w.written == [top] + Emitted(fs, listed)
    ensures |listed| > 0 && listed[0] == top
    ensures forall i :: 0 < i < |listed| ==> Descends(listed[i]) && listed[i] in w.written
    ensures DistinctInodes(listed) && w.visited.Keys == Inodes(listed)
    ensures forall n :: n in w.written && Descends(n) ==> n.inode in Inodes(listed)
    ensures forall x :: x in listed ==> w.visited[x.inode] == !ListingOf(fs, x.path).complete
  {
    assert Inodes(w.stack) == {};
    forall n | n in w.written && Descends(n) ensures n.inode in Inodes(listed) {
      if n != top {
        assert n in Emitted(fs, listed);
      }
    }
  }

  /** The walk as it enters `mainloop`. */
  lemma StartKeeps(fs: FileSystem, top: Node)
    ensures var w := Start(top);
      && Good(w, []) && w.visited.Keys <= AllInodes(fs) + {top.inode}
      && Trace(fs, top, [], w) && Marked(fs, [], w) && Flags(fs, [], w)
  {
    var w := Start(top);
    assert Inodes([top]) == {top.inode} by {
      InodesSnoc([], top);
      assert [] + [top] == [top];
    }
    assert Inodes([]) == {};
  }

  lemma EmittedSnoc(fs: FileSystem, ds: seq<Node>, d: Node)
    ensures Emitted(fs, ds + [d]) == Emitted(fs, ds) + Present(ListingOf(fs, d.path).entries)
  {
    assert (ds + [d])[..|ds|] == ds;
  }

  lemma ListingInodes(fs: FileSystem, path: string)
    ensures Inodes(Present(ListingOf(fs, path).entries)) <= AllInodes(fs)
  {
  }

  /** Popping `d` moves it from the stack to the listed directories; its flag is `true`. */
  lemma PopGood(w: Walk, listed: seq<Node>, d: Node, rest: Stack<Node>)
    requires w.stack == rest + [d] && Good(w, listed)
    ensures Good(w.(stack := rest), listed + [d])
    ensures d.inode in w.visited && w.visited[d.inode]
  {
    InodesSnoc(rest, d);
    InodesSnoc(listed, d);
    assert DistinctInodes(rest) by {
      forall i, j | 0 <= i < j < |rest| ensures rest[i].inode != rest[j].inode {
        assert rest[i] == w.stack[i] && rest[j] == w.stack[j];
      }
    }
    assert d.inode !in Inodes(rest) by {
      forall i | 0 <= i < |rest| ensures rest[i].inode != d.inode {
        assert rest[i] == w.stack[i] && d == w.stack[|rest|];
      }
    }
    DistinctSnoc(listed, d);
    assert d in w.stack;
    forall x | x in rest ensures x in w.stack {
    }
  }

  /** Setting a listed directory's flag to `false` keeps the walk good. */
  lemma MarkGood(w: Walk, listed: seq<Node>, d: Node)
    requires Good(w, listed) && d in listed
    ensures Good(w.(visited := w.visited[d.inode := false]), listed)
  {
    assert d.inode in Inodes(listed);
  }

  /** A set that grows strictly inside a bound leaves less of the bound. */
  lemma Shrinks(u: set<string>, a: set<string>, b: set<string>)
    requires a <= b <= u && a != b
    ensures |u - b| < |u - a|
  {
    var x :| x in b && x !in a;
    assert u - a == (u - b) + (b - a);
    assert (u - b) * (b - a) == {};
    assert x in b - a;
  }

  lemma StepKeeps(fs: FileSystem, top: Node, listed: seq<Node>, w: Walk, d: Node, rest: Stack<Node>, universe: set<string>)
    requires w.stack == rest + [d]
    requires Good(w, listed) && w.visited.Keys <= universe && AllInodes(fs) <= universe
    requires Trace(fs, top, listed, w) && Marked(fs, listed, w) && Flags(fs, listed, w)
    ensures var r := Visit(fs, w.(stack := rest), d);
      && Good(r, listed + [d]) && r.visited.Keys <= universe
      && Trace(fs, top, listed + [d], r)
      && Marked(fs, listed + [d], r) && Flags(fs, listed + [d], r)
      && (|universe - r.visited.Keys| < |universe - w.visited.Keys|
          || (r.visited.Keys == w.visited.Keys && |r.stack| < |w.stack|))
  {
    var listed' := listed + [d];
    var w1 := w.(stack := rest);
    var listing := ListingOf(fs, d.path);
    PopGood(w, listed, d, rest);
    var r1 := EnterAll(w1, listing.entries);
    EnterAllKeeps(w1, listed', listing.entries);
    EnterAllMarks(w1, listing.entries);
    var r := Visit(fs, w1, d);
    assert r == if listing.complete then r1.(visited := r1.visited[d.inode := false]) else r1;
    if listing.complete {
      MarkGood(r1, listed', d);
    }
    assert r.visited.Keys == r1.visited.Keys;
    ListingInodes(fs, d.path);
    EmittedSnoc(fs, listed, d);
    StepTrace(fs, top, listed, w, d, rest, r1, r);
    StepMarked(fs, listed, w, d, r);
    StepFlags(fs, listed, w, d, r1, r);
    if r.visited.Keys != w.visited.Keys {
      Shrinks(universe, w.visited.Keys, r.visited.Keys);
    }
  }

  lemma TraceIntro(fs: FileSystem, top: Node, listed: seq<Node>, w: Walk)
    requires w.written == [top] + Emitted(fs, listed)
    requires |listed| == 0 ==> w.stack == [top]
    requires |listed| > 0 ==> listed[0] == top
    requires forall i :: 0 < i < |listed| ==> Descends(listed[i]) && listed[i] in w.written
    requires |listed| > 0 ==> forall x :: x in w.stack ==> Descends(x) && x in w.written
    ensures Trace(fs, top, listed, w)
  {
  }

  /** The first pass pops the top node, and only it. */
  lemma FirstPop(top: Node, d: Node, rest: Stack<Node>)
    requires rest + [d] == [top]
    ensures rest == [] && d == top
  {
    assert |rest| == 0;
    assert (rest + [d])[0] == d;
  }

  lemma StepTrace(fs: FileSystem, top: Node, listed: seq<Node>, w: Walk, d: Node, rest: Stack<Node>, r1: Walk, r: Walk)
    requires w.stack == rest + [d] && Trace(fs, top, listed, w)
    requires var es := ListingOf(fs, d.path).entries;
      && r1.written == w.written + Present(es)
      && (forall x :: x in r1.stack ==> x in rest || (x in Present(es) && Descends(x)))
    requires r.written == r1.written && r.stack == r1.stack
    ensures Trace(fs, top, listed + [d], r)
  {
    var es := ListingOf(fs, d.path).entries;
    WrittenStep(fs, top, listed, d, w.written, r.written);
    if |listed| == 0 {
      FirstPop(top, d, rest);
      TraceIntro(fs, top, [d], r);
    } else {
      LaterListed(listed, d, w.written, r.written);
      LaterStack(w.stack, rest, d, r.stack, Present(es), w.written, r.written);
      TraceIntro(fs, top, listed + [d], r);
    }
  }

  lemma WrittenStep(fs: FileSystem, top: Node, listed: seq<Node>, d: Node, written: seq<Node>, written': seq<Node>)
    requires written == [top] + Emitted(fs, listed)
    requires written' == written + Present(ListingOf(fs, d.path).entries)
    ensures written' == [top] + Emitted(fs, listed + [d])
    ensures forall x :: x in written ==> x in written'
  {
    EmittedSnoc(fs, listed, d);
  }

  lemma LaterStack(stack: seq<Node>, rest: seq<Node>, d: Node, stack': seq<Node>, present: seq<Node>, written: seq<Node>, written': seq<Node>)
    requires stack == rest + [d]
    requires forall x :: x in stack ==> Descends(x) && x in written
    requires forall x :: x in stack' ==> x in rest || (x in present && Descends(x))
    requires written' == written + present
    ensures forall x :: x in stack' ==> Descends(x) && x in written'
  {
    assert forall x :: x in rest ==> x in stack;
  }

  /** Once the walk is under way, a popped directory is one to descend, and written. */
  lemma LaterListed(listed: seq<Node>, d: Node, written: seq<Node>, written': seq<Node>)
    requires forall i :: 0 < i < |listed| ==> Descends(listed[i]) && listed[i] in written
    requires Descends(d) && d in written
    requires forall x :: x in written ==> x in written'
    ensures forall i :: 0 < i < |listed + [d]| ==> Descends((listed + [d])[i]) && (listed + [d])[i] in written'
  {
    forall i | 0 < i < |listed + [d]| ensures Descends((listed + [d])[i]) && (listed + [d])[i] in written' {
      if i < |listed| {
        assert (listed + [d])[i] == listed[i];
      }
    }
  }

  lemma StepMarked(fs: FileSystem, listed: seq<Node>, w: Walk, d: Node, r: Walk)
    requires Marked(fs, listed, w) && w.visited.Keys <= r.visited.Keys
    requires forall n :: n in Present(ListingOf(fs, d.path).entries) && Descends(n) ==> n.inode in r.visited
    ensures Marked(fs, listed + [d], r)
  {
    EmittedSnoc(fs, listed, d);
  }

  lemma StepFlags(fs: FileSystem, listed: seq<Node>, w: Walk, d: Node, r1: Walk, r: Walk)
    requires Flags(fs, listed, w) && DistinctInodes(listed + [d])
    requires d.inode in w.visited && w.visited[d.inode]
    requires forall k :: k in w.visited ==> k in r1.visited && r1.visited[k] == w.visited[k]
    requires r.visited == if ListingOf(fs, d.path).complete then r1.visited[d.inode := false] else r1.visited
    ensures Flags(fs, listed + [d], r)
  {
    forall x | x in listed ensures x.inode != d.inode {
      var i :| 0 <= i < |listed| && listed[i] == x;
      assert (listed + [d])[i] == x && (listed + [d])[|listed|] == d;
    }
  }
}
