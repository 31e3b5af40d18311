/**
 The final phase of the recorder: a k-way merge of the sorted carton files
 (`FSysRecorder.Cupboard`, `processNextEntry`, `mergeTheCartons`).

 Each carton file is a `Box`: the line last read from it (`BoxTop.csv`)
 and the lines still unread. The shelf is a `TreeMap` from a box's current
 key to the box. The merge repeatedly writes out the line of the box with
 the least key, advances that box and puts it back under the key of its
 next line. Putting a box under a key that another box already holds
 replaces that other box; the replaced box is recorded as an orphan, its
 unread lines never reach the output and its file is never deleted.

 What the key of a line is is the point of a finding: the code uses the
 text after the last TAB of the line (`KeyRule.LastTabField`), which for a
 symbolic link is the path followed by ` -> target`, whereas the cartons are
 ordered by the absolute path the line was stored under
 (`KeyRule.CartonPath`). Everything here holds for either rule, given a
 shelf whose boxes are each sorted by that rule.
 */
module Cupboard {
  import opened Lex
  import opened Wrappers
  import opened TreeMap
  import opened Fields

  /** A rendered line together with the carton key (absolute path) it was stored under. */
  datatype Entry = Entry(path: string, line: string)

  datatype KeyRule =
    | LastTabField  // `csv.split(Str.tab).last()`, as the code reads it
    | CartonPath    // the absolute path the carton is ordered by

  function Key(rule: KeyRule, e: Entry): string
  {
    match rule
    case LastTabField => MergeKey(e.line)
    case CartonPath => e.path
  }

  /** `BoxTop`: the carton's number, its current line and its unread lines. */
  datatype Box = Box(fileNo: nat, csv: Entry, rest: seq<Entry>)

  /** The lines of a box not yet written out, current line first. */
  function Lines(b: Box): seq<Entry>
  {
    [b.csv] + b.rest
  }

  datatype Cupboard = Cupboard(
    shelf: TreeMap<Box>,
    out: seq<Entry>,     // the lines written to the final sorted file, in order
    deleted: seq<nat>,   // carton files closed and deleted, in order
    orphans: seq<Box>)   // boxes displaced from the shelf by a key collision

  /** Every line still held by the boxes on a shelf. */
  function Contents(shelf: TreeMap<Box>): multiset<Entry>
  {
    if |shelf| == 0 then multiset{} else multiset(Lines(shelf[0].1)) + Contents(shelf[1..])
  }

  /** The carton numbers of the boxes on a shelf. */
  function FileNos(shelf: TreeMap<Box>): multiset<nat>
  {
    if |shelf| == 0 then multiset{} else multiset{shelf[0].1.fileNo} + FileNos(shelf[1..])
  }

  function Stock(boxes: seq<Box>): multiset<Entry>
  {
    if |boxes| == 0 then multiset{} else multiset(Lines(boxes[0])) + Stock(boxes[1..])
  }

  function StockNos(boxes: seq<Box>): multiset<nat>
  {
    if |boxes| == 0 then multiset{} else multiset{boxes[0].fileNo} + StockNos(boxes[1..])
  }

  lemma Associative<T>(a: multiset<T>, b: multiset<T>, c: multiset<T>)
    ensures a + (b + c) == (a + b) + c
  {
    assert forall e :: (a + (b + c))[e] == ((a + b) + c)[e];
  }

  /** Moving `o` across an equation: from `p + d == s + b` to `p + (o + d) == (s + o) + b`. */
  lemma Rearrange<T>(p: multiset<T>, o: multiset<T>, d: multiset<T>, s: multiset<T>, b: multiset<T>)
    requires p + d == s + b
    ensures p + (o + d) == (s + o) + b
  {
    forall e ensures (p + (o + d))[e] == ((s + o) + b)[e] {
      assert (p + d)[e] == (s + b)[e];
    }
  }

  lemma {:induction false} StockAppend(boxes: seq<Box>, more: seq<Box>)
    ensures Stock(boxes + more) == Stock(boxes) + Stock(more)
    ensures StockNos(boxes + more) == StockNos(boxes) + StockNos(more)
  {
    if |boxes| > 0 {
      assert (boxes + more)[0] == boxes[0];
      assert (boxes + more)[1..] == boxes[1..] + more;
      StockAppend(boxes[1..], more);
      Associative(multiset(Lines(boxes[0])), Stock(boxes[1..]), Stock(more));
      Associative(multiset{boxes[0].fileNo}, StockNos(boxes[1..]), StockNos(more));
    } else {
      assert boxes + more == more;
    }
  }

  /** The lines of every box, wherever it sits on the shelf, are part of the contents. */
  lemma {:induction false} BoxInContents(shelf: TreeMap<Box>, p: (string, Box))
    requires p in shelf
    ensures multiset(Lines(p.1)) <= Contents(shelf)
    ensures p.1.fileNo in FileNos(shelf)
  {
    if shelf[0] != p {
      assert p in shelf[1..];
      BoxInContents(shelf[1..], p);
    }
  }

  /** What a box displaced by `m[k] = b` held, if any. */
  function Displaced(m: TreeMap<Box>, k: string): seq<Box>
  {
    match Get(m, k)
    case Some(prev) => [prev]
    case None => []
  }

  lemma ConsShelf(x: (string, Box), t: TreeMap<Box>)
    ensures Contents([x] + t) == multiset(Lines(x.1)) + Contents(t)
    ensures FileNos([x] + t) == multiset{x.1.fileNo} + FileNos(t)
  {
    assert ([x] + t)[1..] == t;
  }

  /** Past a first key that differs from `k`, `m[k] = b` works on the rest of the map. */
  lemma PutPastFirst(m: TreeMap<Box>, k: string, b: Box)
    requires Ordered(m) && |m| > 0 && m[0].0 != k && !Less(k, m[0].0)
    ensures Put(m, k, b) == [m[0]] + Put(m[1..], k, b)
    ensures Displaced(m, k) == Displaced(m[1..], k)
  {
  }

  lemma PutReplaces(m: TreeMap<Box>, k: string, b: Box)
    requires Ordered(m) && |m| > 0 && m[0].0 == k
    ensures Contents(Put(m, k, b)) + Stock(Displaced(m, k)) == Contents(m) + multiset(Lines(b))
    ensures FileNos(Put(m, k, b)) + StockNos(Displaced(m, k)) == FileNos(m) + multiset{b.fileNo}
  {
    FirstBelowRest(m);
    assert Put(m, k, b) == [(k, b)] + m[1..];
    assert Displaced(m, k) == [m[0].1];
    FirstSplit(m);
    ConsShelf((k, b), m[1..]);
    StockOne(m[0].1);
    Swap(multiset(Lines(b)), Contents(m[1..]), multiset(Lines(m[0].1)));
    Swap(multiset{b.fileNo}, FileNos(m[1..]), multiset{m[0].1.fileNo});
  }

  lemma PutInserts(m: TreeMap<Box>, k: string, b: Box)
    requires Ordered(m) && (|m| == 0 || (m[0].0 != k && Less(k, m[0].0)))
    ensures Contents(Put(m, k, b)) + Stock(Displaced(m, k)) == Contents(m) + multiset(Lines(b))
    ensures FileNos(Put(m, k, b)) + StockNos(Displaced(m, k)) == FileNos(m) + multiset{b.fileNo}
  {
    InsertFront(m, k, b);
    ConsShelf((k, b), m);
    Swap(multiset(Lines(b)), Contents(m), multiset{});
    Swap(multiset{b.fileNo}, FileNos(m), multiset{});
  }

  /** A key below every key of the map goes in front and displaces nothing. */
  lemma InsertFront(m: TreeMap<Box>, k: string, b: Box)
    requires Ordered(m) && (|m| == 0 || (m[0].0 != k && Less(k, m[0].0)))
    ensures Put(m, k, b) == [(k, b)] + m
    ensures Displaced(m, k) == []
  {
    if |m| > 0 {
      FirstBelowRest(m);
      if k in Keys(m[1..]) {
        Trichotomy(k, m[0].0);
      }
    }
  }

  lemma Swap<T>(x: multiset<T>, t: multiset<T>, y: multiset<T>)
    ensures (x + t) + y == (y + t) + x
  {
    assert forall e :: ((x + t) + y)[e] == ((y + t) + x)[e];
  }

  lemma StockOne(x: Box)
    ensures Stock([x]) == multiset(Lines(x))
    ensures StockNos([x]) == multiset{x.fileNo}
  {
    assert [x][1..] == [];
  }

  lemma AddFront<T>(a: multiset<T>, x: multiset<T>, y: multiset<T>, z: multiset<T>, w: multiset<T>)
    requires x + y == z + w
    ensures (a + x) + y == (a + z) + w
  {
    forall e ensures ((a + x) + y)[e] == ((a + z) + w)[e] {
      assert (x + y)[e] == (z + w)[e];
    }
  }

  /** The same box in front of both sides keeps a balance of lines and numbers. */
  lemma ConsKeeps(x: (string, Box), t: TreeMap<Box>, rest: TreeMap<Box>, d: seq<Box>, b: Box)
    requires Contents(t) + Stock(d) == Contents(rest) + multiset(Lines(b))
    requires FileNos(t) + StockNos(d) == FileNos(rest) + multiset{b.fileNo}
    ensures Contents([x] + t) + Stock(d) == Contents([x] + rest) + multiset(Lines(b))
    ensures FileNos([x] + t) + StockNos(d) == FileNos([x] + rest) + multiset{b.fileNo}
  {
    ConsShelf(x, t);
    ConsShelf(x, rest);
    AddFront(multiset(Lines(x.1)), Contents(t), Stock(d), Contents(rest), multiset(Lines(b)));
    AddFront(multiset{x.1.fileNo}, FileNos(t), StockNos(d), FileNos(rest), multiset{b.fileNo});
  }

  /** `m[k] = b` adds the box's lines and number and drops those of the box it replaces. */
  lemma {:induction false} PutContents(m: TreeMap<Box>, k: string, b: Box)
    requires Ordered(m)
    ensures Contents(Put(m, k, b)) + Stock(Displaced(m, k)) == Contents(m) + multiset(Lines(b))
    ensures FileNos(Put(m, k, b)) + StockNos(Displaced(m, k)) == FileNos(m) + multiset{b.fileNo}
  {
    if |m| > 0 && m[0].0 == k {
      PutReplaces(m, k, b);
    } else if |m| == 0 || Less(k, m[0].0) {
      PutInserts(m, k, b);
    } else {
      OrderedTail(m);
      PutContents(m[1..], k, b);
      PutPastFirst(m, k, b);
      assert m == [m[0]] + m[1..];
      ConsKeeps(m[0], Put(m[1..], k, b), m[1..], Displaced(m[1..], k), b);
    }
  }

  /**
   `shelf[key] = box`: the box goes on the shelf under the key of its current
   line, and a box already under that key is displaced.
   */
  function Shelve(c: Cupboard, b: Box, rule: KeyRule): (r: Cupboard)
    requires Ordered(c.shelf)
    ensures Ordered(r.shelf)
    ensures Get(r.shelf, Key(rule, b.csv)) == Some(b)
    ensures r.out == c.out && r.deleted == c.deleted
    ensures r.orphans == c.orphans <==> Key(rule, b.csv) !in Keys(c.shelf)
    ensures Contents(r.shelf) + Stock(r.orphans) == Contents(c.shelf) + Stock(c.orphans) + multiset(Lines(b))
    ensures FileNos(r.shelf) + StockNos(r.orphans) == FileNos(c.shelf) + StockNos(c.orphans) + multiset{b.fileNo}
    ensures |r.orphans| >= |c.orphans| && r.orphans[..|c.orphans|] == c.orphans
    ensures Stock(c.orphans) <= Stock(r.orphans) && |Stock(r.orphans)| >= |Stock(c.orphans)|
  {
    var k := Key(rule, b.csv);
    PutGet(c.shelf, k, b, k);
    var d := Displaced(c.shelf, k);
    PutContents(c.shelf, k, b);
    StockAppend(c.orphans, d);
    Rearrange(Contents(Put(c.shelf, k, b)), Stock(c.orphans), Stock(d), Contents(c.shelf), multiset(Lines(b)));
    Rearrange(FileNos(Put(c.shelf, k, b)), StockNos(c.orphans), StockNos(d), FileNos(c.shelf), multiset{b.fileNo});
    assert (c.orphans + d)[..|c.orphans|] == c.orphans;
    c.(shelf := Put(c.shelf, k, b), orphans := c.orphans + d)
  }

  /** Shelving a sorted box under its current key keeps every box filed under its current key. */
  lemma ShelveSorted(c: Cupboard, b: Box, rule: KeyRule)
    requires Ordered(c.shelf) && ShelfSorted(c.shelf, rule) && SortedBy(Lines(b), rule)
    ensures ShelfSorted(Shelve(c, b, rule).shelf, rule)
  {
    PutMembers(c.shelf, Key(rule, b.csv), b);
  }

  /** The number of lines still to be written: what the merge loop uses up. */
  function Pending(c: Cupboard): nat
  {
    |Contents(c.shelf)|
  }

  /** The lines, numbers and boxes that the merge neither creates nor destroys. */
  predicate Conserved(c: Cupboard, c': Cupboard)
  {
    && multiset(c'.out) + Contents(c'.shelf) + Stock(c'.orphans)
       == multiset(c.out) + Contents(c.shelf) + Stock(c.orphans)
    && multiset(c'.deleted) + FileNos(c'.shelf) + StockNos(c'.orphans)
       == multiset(c.deleted) + FileNos(c.shelf) + StockNos(c.orphans)
    && |c'.out| >= |c.out| && c'.out[..|c.out|] == c.out
    && |c'.orphans| >= |c.orphans| && c'.orphans[..|c.orphans|] == c.orphans
  }

  lemma ConservedTransitive(c: Cupboard, c': Cupboard, c'': Cupboard)
    requires Conserved(c, c') && Conserved(c', c'')
    ensures Conserved(c, c'')
  {
    PrefixOfPrefix(c.out, c'.out, c''.out);
    PrefixOfPrefix(c.orphans, c'.orphans, c''.orphans);
    ConservedIntro(c, c'');
  }

  lemma PrefixOfPrefix<T>(a: seq<T>, b: seq<T>, d: seq<T>)
    requires |b| >= |a| && b[..|a|] == a && |d| >= |b| && d[..|b|] == b
    ensures d[..|a|] == a
  {
    assert d[..|a|] == d[..|b|][..|a|];
  }

  lemma WholePrefix<T>(a: seq<T>, t: seq<T>)
    ensures (a + t)[..|a|] == a && a + [] == a
  {
  }

  /** The four facts `Conserved` is made of, stated one by one. */
  lemma ConservedIntro(c: Cupboard, r: Cupboard)
    requires multiset(r.out) + Contents(r.shelf) + Stock(r.orphans)
       == multiset(c.out) + Contents(c.shelf) + Stock(c.orphans)
    requires multiset(r.deleted) + FileNos(r.shelf) + StockNos(r.orphans)
       == multiset(c.deleted) + FileNos(c.shelf) + StockNos(c.orphans)
    requires |r.out| >= |c.out| && r.out[..|c.out|] == c.out
    requires |r.orphans| >= |c.orphans| && r.orphans[..|c.orphans|] == c.orphans
    ensures Conserved(c, r)
  {
  }

  /**
   `processNextEntry`: write the line of the box with the least key, then
   put the box back under the key of its next line, or, when it has none,
   close and delete its file. `None` stands for the exception the code
   throws when the shelf is empty.
   */
  function ProcessNextEntry(c: Cupboard, rule: KeyRule): (r: Option<Cupboard>)
    requires Ordered(c.shelf)
    ensures r.None? <==> |c.shelf| == 0
    ensures r.Some? ==> Ordered(r.value.shelf) && |r.value.shelf| >= |c.shelf| - 1
    ensures r.Some? ==> r.value.out == c.out + [c.shelf[0].1.csv]
  {
    if |c.shelf| == 0 then None
    else
      var minKey := c.shelf[0].0;
      var b := c.shelf[0].1;
      var c1 := c.(shelf := Remove(c.shelf, minKey), out := c.out + [b.csv]);
      if |b.rest| > 0 then
        Some(Shelve(c1, Box(b.fileNo, b.rest[0], b.rest[1..]), rule))
      else
        Some(c1.(deleted := c1.deleted + [b.fileNo]))
  }

  /** Taking a line `x` out of the contents to the output, with `n` going back on the shelf. */
  lemma Balance<T>(o: multiset<T>, x: multiset<T>, n: multiset<T>, c1: multiset<T>,
                   s: multiset<T>, c2: multiset<T>, s2: multiset<T>)
    requires c2 + s2 == (c1 + s) + n
    ensures ((o + x) + c2) + s2 == (o + ((x + n) + c1)) + s
  {
    forall e ensures (((o + x) + c2) + s2)[e] == ((o + ((x + n) + c1)) + s)[e] {
      assert (c2 + s2)[e] == ((c1 + s) + n)[e];
    }
  }

  lemma ReshelveBalance<T>(d: multiset<T>, f: multiset<T>, f1: multiset<T>, s: multiset<T>,
                           f2: multiset<T>, s2: multiset<T>)
    requires f2 + s2 == (f1 + s) + f
    ensures (d + f2) + s2 == (d + (f + f1)) + s
  {
    forall e ensures ((d + f2) + s2)[e] == ((d + (f + f1)) + s)[e] {
      assert (f2 + s2)[e] == ((f1 + s) + f)[e];
    }
  }

  lemma SizeBalance<T>(c2: multiset<T>, s2: multiset<T>, c1: multiset<T>, s: multiset<T>, n: multiset<T>, x: T)
    requires c2 + s2 == (c1 + s) + n && |s2| >= |s| && s <= s2
    ensures |c2| < |(multiset{x} + n) + c1|
    ensures c2 + multiset{x} <= (multiset{x} + n) + c1
  {
    forall e ensures (c2 + multiset{x})[e] <= ((multiset{x} + n) + c1)[e] {
      assert (c2 + s2)[e] == ((c1 + s) + n)[e];
      assert s[e] <= s2[e];
    }
    assert |c2 + s2| == |c2| + |s2|;
    assert |(c1 + s) + n| == |c1| + |s| + |n|;
    assert |(multiset{x} + n) + c1| == 1 + |n| + |c1|;
  }

  /** Putting the advanced box back: what it still holds is what the shelf gains. */
  lemma ReshelveConserves(c: Cupboard, b: Box, tail: TreeMap<Box>, r: Cupboard)
    requires Contents(c.shelf) == multiset(Lines(b)) + Contents(tail)
    requires FileNos(c.shelf) == multiset{b.fileNo} + FileNos(tail)
    requires |b.rest| > 0
    requires r.out == c.out + [b.csv] && r.deleted == c.deleted
    requires Contents(r.shelf) + Stock(r.orphans) == Contents(tail) + Stock(c.orphans) + multiset(b.rest)
    requires FileNos(r.shelf) + StockNos(r.orphans) == FileNos(tail) + StockNos(c.orphans) + multiset{b.fileNo}
    requires |r.orphans| >= |c.orphans| && r.orphans[..|c.orphans|] == c.orphans
    requires |Stock(r.orphans)| >= |Stock(c.orphans)| && Stock(c.orphans) <= Stock(r.orphans)
    ensures Conserved(c, r) && Pending(r) < Pending(c)
    ensures Contents(r.shelf) + multiset{b.csv} <= Contents(c.shelf)
  {
    assert multiset(Lines(b)) == multiset{b.csv} + multiset(b.rest);
    assert multiset(c.out + [b.csv]) == multiset(c.out) + multiset{b.csv};
    assert (c.out + [b.csv])[..|c.out|] == c.out;
    Balance(multiset(c.out), multiset{b.csv}, multiset(b.rest), Contents(tail), Stock(c.orphans),
            Contents(r.shelf), Stock(r.orphans));
    ReshelveBalance(multiset(c.deleted), multiset{b.fileNo}, FileNos(tail), StockNos(c.orphans),
                    FileNos(r.shelf), StockNos(r.orphans));
    SizeBalance(Contents(r.shelf), Stock(r.orphans), Contents(tail), Stock(c.orphans), multiset(b.rest), b.csv);
  }

  /** Taking `x` off the contents `c` to the output `o`: the total stays and the contents shrink. */
  lemma TakeOne<T>(o: multiset<T>, x: T, c: multiset<T>, t: multiset<T>, s: multiset<T>)
    requires c == multiset{x} + t
    ensures ((o + multiset{x}) + t) + s == (o + c) + s
    ensures t + multiset{x} <= c && |t| < |c|
  {
    forall e ensures (((o + multiset{x}) + t) + s)[e] == ((o + c) + s)[e] {
    }
  }

  lemma DeleteLines(c: Cupboard, b: Box, tail: TreeMap<Box>, r: Cupboard)
    requires Contents(c.shelf) == multiset(Lines(b)) + Contents(tail)
    requires |b.rest| == 0
    requires r.shelf == tail && r.orphans == c.orphans && r.out == c.out + [b.csv]
    ensures multiset(r.out) + Contents(r.shelf) + Stock(r.orphans) == multiset(c.out) + Contents(c.shelf) + Stock(c.orphans)
    ensures Contents(r.shelf) + multiset{b.csv} <= Contents(c.shelf) && |Contents(r.shelf)| < |Contents(c.shelf)|
  {
    assert Lines(b) == [b.csv];
    assert multiset(r.out) == multiset(c.out) + multiset{b.csv};
    TakeOne(multiset(c.out), b.csv, Contents(c.shelf), Contents(tail), Stock(c.orphans));
  }

  lemma DeleteNos(c: Cupboard, b: Box, tail: TreeMap<Box>, r: Cupboard)
    requires FileNos(c.shelf) == multiset{b.fileNo} + FileNos(tail)
    requires r.shelf == tail && r.orphans == c.orphans && r.deleted == c.deleted + [b.fileNo]
    ensures multiset(r.deleted) + FileNos(r.shelf) + StockNos(r.orphans) == multiset(c.deleted) + FileNos(c.shelf) + StockNos(c.orphans)
  {
    assert multiset(r.deleted) == multiset(c.deleted) + multiset{b.fileNo};
    TakeOne(multiset(c.deleted), b.fileNo, FileNos(c.shelf), FileNos(tail), StockNos(c.orphans));
  }

  /** Closing an exhausted box: its number joins the deleted files. */
  lemma DeleteConserves(c: Cupboard, b: Box, tail: TreeMap<Box>, r: Cupboard)
    requires Contents(c.shelf) == multiset(Lines(b)) + Contents(tail)
    requires FileNos(c.shelf) == multiset{b.fileNo} + FileNos(tail)
    requires |b.rest| == 0
    requires r.shelf == tail && r.orphans == c.orphans
    requires r.out == c.out + [b.csv] && r.deleted == c.deleted + [b.fileNo]
    ensures Conserved(c, r) && Pending(r) < Pending(c)
    ensures Contents(r.shelf) + multiset{b.csv} <= Contents(c.shelf)
  {
    DeleteLines(c, b, tail, r);
    DeleteNos(c, b, tail, r);
    WholePrefix(c.out, [b.csv]);
    WholePrefix(c.orphans, []);
    ConservedIntro(c, r);
  }

  /** A step of the merge loses nothing and leaves fewer lines to write. */
  lemma ProcessConserves(c: Cupboard, rule: KeyRule)
    requires Ordered(c.shelf) && |c.shelf| > 0
    ensures Conserved(c, ProcessNextEntry(c, rule).value)
    ensures Pending(ProcessNextEntry(c, rule).value) < Pending(c)
    ensures Contents(ProcessNextEntry(c, rule).value.shelf) + multiset{c.shelf[0].1.csv} <= Contents(c.shelf)
  {
    var b := c.shelf[0].1;
    var tail := c.shelf[1..];
    var r := ProcessNextEntry(c, rule).value;
    FirstSplit(c.shelf);
    ProcessShape(c, rule);
    if |b.rest| > 0 {
      Advance(b);
      ReshelveConserves(c, b, tail, r);
    } else {
      DeleteConserves(c, b, tail, r);
    }
  }

  /** The box advanced to its next line holds exactly the unread lines. */
  lemma Advance(b: Box)
    requires |b.rest| > 0
    ensures Lines(Box(b.fileNo, b.rest[0], b.rest[1..])) == b.rest
    ensures Lines(b)[1..] == b.rest
  {
  }

  /** The first box's lines and number, and those of the rest of the shelf. */
  lemma FirstSplit(shelf: TreeMap<Box>)
    requires |shelf| > 0
    ensures Contents(shelf) == multiset(Lines(shelf[0].1)) + Contents(shelf[1..])
    ensures FileNos(shelf) == multiset{shelf[0].1.fileNo} + FileNos(shelf[1..])
  {
  }

  /** What `processNextEntry` does to each part of the cupboard. */
  lemma ProcessShape(c: Cupboard, rule: KeyRule)
    requires Ordered(c.shelf) && |c.shelf| > 0
    ensures Ordered(c.shelf[1..])
    ensures var b := c.shelf[0].1;
      var c1 := c.(shelf := c.shelf[1..], out := c.out + [b.csv]);
      var r := ProcessNextEntry(c, rule).value;
      && (|b.rest| > 0 ==> r == Shelve(c1, Box(b.fileNo, b.rest[0], b.rest[1..]), rule))
      && (|b.rest| == 0 ==> r.shelf == c.shelf[1..] && r.orphans == c.orphans
                            && r.out == c.out + [b.csv] && r.deleted == c.deleted + [b.fileNo])
  {
    FirstIsMin(c.shelf);
    OrderedTail(c.shelf);
  }

  /** `while (Cupboard.shelf.size > 1) processNextEntry(...)` */
  function MergeLoop(c: Cupboard, rule: KeyRule): (r: Cupboard)
    requires Ordered(c.shelf)
    ensures Ordered(r.shelf) && Conserved(c, r)
    ensures |r.shelf| <= 1 && (|c.shelf| > 0 ==> |r.shelf| == 1)
    ensures |c.shelf| <= 1 ==> r == c
    decreases Pending(c)
  {
    if |c.shelf| > 1 then
      ProcessConserves(c, rule);
      var c' := ProcessNextEntry(c, rule).value;
      var r := MergeLoop(c', rule);
      ConservedTransitive(c, c', r);
      r
    else
      assert c.out[..|c.out|] == c.out && c.orphans[..|c.orphans|] == c.orphans;
      c
  }

  /**
   `mergeTheCartons`: run the loop down to one box, then write that box's
   current line and all its unread lines and delete its file. The box
   stays on the shelf, as in the code. `None` stands for the exception
   `keys.last()` throws when the shelf is empty.
   */
  function MergeTheCartons(c: Cupboard, rule: KeyRule): (r: Option<Cupboard>)
    requires Ordered(c.shelf)
    ensures r.None? <==> |c.shelf| == 0
    ensures r.Some? ==> |r.value.out| >= |c.out| && r.value.out[..|c.out|] == c.out
  {
    if |c.shelf| == 0 then None
    else
      var c1 := MergeLoop(c, rule);
      var last := c1.shelf[|c1.shelf| - 1].1;
      assert (c1.out + Lines(last))[..|c.out|] == c1.out[..|c.out|];
      Some(c1.(out := c1.out + Lines(last), deleted := c1.deleted + [last.fileNo]))
  }

  /** Writing out the one box left: its lines join the output and its number the deleted files. */
  lemma FinishConserves(c: Cupboard, c1: Cupboard, r: Cupboard)
    requires Conserved(c, c1) && |c1.shelf| == 1
    requires r == c1.(out := c1.out + Lines(c1.shelf[0].1), deleted := c1.deleted + [c1.shelf[0].1.fileNo])
    ensures multiset(r.out) + Stock(r.orphans) == multiset(c.out) + Contents(c.shelf) + Stock(c.orphans)
    ensures multiset(r.deleted) + StockNos(r.orphans) == multiset(c.deleted) + FileNos(c.shelf) + StockNos(c.orphans)
  {
    var p := c1.shelf[0];
    assert c1.shelf == [p] + [];
    ConsShelf(p, []);
    assert multiset(r.out) == multiset(c1.out) + multiset(Lines(p.1));
    assert multiset(r.deleted) == multiset(c1.deleted) + multiset{p.1.fileNo};
  }

  /** The merge writes every line the shelf held and deletes every carton file on it, orphans aside. */
  lemma MergeConserves(c: Cupboard, rule: KeyRule)
    requires Ordered(c.shelf) && |c.shelf| > 0
    ensures var r := MergeTheCartons(c, rule).value;
      && multiset(r.out) + Stock(r.orphans) == multiset(c.out) + Contents(c.shelf) + Stock(c.orphans)
      && multiset(r.deleted) + StockNos(r.orphans) == multiset(c.deleted) + FileNos(c.shelf) + StockNos(c.orphans)
  {
    var c1 := MergeLoop(c, rule);
    FinishConserves(c, c1, MergeTheCartons(c, rule).value);
  }

  // ---------------------------------------------------------------------
  // Ordering: the merge writes lines in key order when every box is sorted.
  // ---------------------------------------------------------------------

  /** Non-decreasing keys: what a sorted carton file and the sorted output look like. */
  predicate SortedBy(s: seq<Entry>, rule: KeyRule)
  {
    forall i, j :: 0 <= i < j < |s| ==> LessEq(Key(rule, s[i]), Key(rule, s[j]))
  }

  /** Every box is filed under the key of its current line, and its lines are sorted. */
  predicate ShelfSorted(shelf: TreeMap<Box>, rule: KeyRule)
  {
    forall p :: p in shelf ==> p.0 == Key(rule, p.1.csv) && SortedBy(Lines(p.1), rule)
  }

  /** The merge invariant: the output is sorted and no line still on the shelf sorts before it. */
  predicate Merging(c: Cupboard, rule: KeyRule)
  {
    && Ordered(c.shelf)
    && ShelfSorted(c.shelf, rule)
    && SortedBy(c.out, rule)
    && forall i, x :: 0 <= i < |c.out| && x in Contents(c.shelf) ==> LessEq(Key(rule, c.out[i]), Key(rule, x))
  }

  /** The current line of a sorted box has the least key of its lines. */
  lemma BoxMin(b: Box, rule: KeyRule)
    requires SortedBy(Lines(b), rule)
    ensures forall x :: x in multiset(Lines(b)) ==> LessEq(Key(rule, b.csv), Key(rule, x))
  {
    forall x | x in multiset(Lines(b)) ensures LessEq(Key(rule, b.csv), Key(rule, x)) {
      assert x in Lines(b);
      var j :| 0 <= j < |Lines(b)| && Lines(b)[j] == x;
      if j == 0 {
        Reflexive(Key(rule, x));
      } else {
        assert Lines(b)[0] == b.csv;
      }
    }
  }

  lemma ShelfSortedTail(shelf: TreeMap<Box>, rule: KeyRule)
    requires ShelfSorted(shelf, rule) && |shelf| > 0
    ensures ShelfSorted(shelf[1..], rule)
  {
    forall p | p in shelf[1..] ensures p in shelf {
    }
  }

  /** The least key on a sorted shelf is a lower bound of every line it holds. */
  lemma {:induction false} ShelfMin(shelf: TreeMap<Box>, rule: KeyRule)
    requires Ordered(shelf) && ShelfSorted(shelf, rule) && |shelf| > 0
    ensures forall x :: x in Contents(shelf) ==> LessEq(shelf[0].0, Key(rule, x))
  {
    assert shelf[0] in shelf;
    BoxMin(shelf[0].1, rule);
    if |shelf| > 1 {
      OrderedTail(shelf);
      ShelfSortedTail(shelf, rule);
      ShelfMin(shelf[1..], rule);
      assert Less(shelf[0].0, shelf[1].0);
      forall x | x in Contents(shelf[1..]) ensures LessEq(shelf[0].0, Key(rule, x)) {
        Transitive(shelf[0].0, shelf[1].0, Key(rule, x));
      }
    }
  }

  /** A suffix of a sorted sequence is sorted. */
  lemma SortedSuffix(s: seq<Entry>, k: nat, rule: KeyRule)
    requires SortedBy(s, rule) && k <= |s|
    ensures SortedBy(s[k..], rule)
  {
    forall i, j | 0 <= i < j < |s[k..]| ensures LessEq(Key(rule, s[k..][i]), Key(rule, s[k..][j])) {
      assert s[k..][i] == s[k + i] && s[k..][j] == s[k + j];
    }
  }

  /** Appending a sorted run that no earlier line exceeds keeps a sequence sorted. */
  lemma SortedConcat(s: seq<Entry>, t: seq<Entry>, rule: KeyRule)
    requires SortedBy(s, rule) && SortedBy(t, rule)
    requires forall i, j :: 0 <= i < |s| && 0 <= j < |t| ==> LessEq(Key(rule, s[i]), Key(rule, t[j]))
    ensures SortedBy(s + t, rule)
  {
    forall i, j | 0 <= i < j < |s + t| ensures LessEq(Key(rule, (s + t)[i]), Key(rule, (s + t)[j])) {
      if j < |s| {
        assert (s + t)[i] == s[i] && (s + t)[j] == s[j];
      } else if i < |s| {
        assert (s + t)[i] == s[i] && (s + t)[j] == t[j - |s|];
      } else {
        assert (s + t)[i] == t[i - |s|] && (s + t)[j] == t[j - |s|];
      }
    }
  }

  /** A step of the merge leaves every box on the shelf filed by its current line and sorted. */
  lemma ProcessKeepsShelfSorted(c: Cupboard, rule: KeyRule)
    requires Ordered(c.shelf) && ShelfSorted(c.shelf, rule) && |c.shelf| > 0
    ensures ShelfSorted(ProcessNextEntry(c, rule).value.shelf, rule)
  {
    var b := c.shelf[0].1;
    var tail := c.shelf[1..];
    FirstIsMin(c.shelf);
    OrderedTail(c.shelf);
    ShelfSortedTail(c.shelf, rule);
    if |b.rest| > 0 {
      var next := Box(b.fileNo, b.rest[0], b.rest[1..]);
      assert c.shelf[0] in c.shelf;
      SortedSuffix(Lines(b), 1, rule);
      Advance(b);
      PutMembers(tail, Key(rule, next.csv), next);
      assert ProcessNextEntry(c, rule).value.shelf == Put(tail, Key(rule, next.csv), next);
    }
  }

  /** Writing `x` after `out` keeps the invariant when `x` is no greater than anything left. */
  lemma StepKeepsMerging(c: Cupboard, c': Cupboard, x: Entry, rule: KeyRule)
    requires Merging(c, rule)
    requires Ordered(c'.shelf) && ShelfSorted(c'.shelf, rule)
    requires x in Contents(c.shelf) && c'.out == c.out + [x]
    requires forall y :: y in Contents(c'.shelf) ==> y in Contents(c.shelf)
    requires forall y :: y in Contents(c.shelf) ==> LessEq(Key(rule, x), Key(rule, y))
    ensures Merging(c', rule)
  {
    SortedConcat(c.out, [x], rule);
    forall i, y | 0 <= i < |c'.out| && y in Contents(c'.shelf)
      ensures LessEq(Key(rule, c'.out[i]), Key(rule, y))
    {
      if i == |c.out| {
        assert c'.out[i] == x;
      } else {
        assert c'.out[i] == c.out[i];
      }
    }
  }

  /** One step of the merge keeps the invariant. */
  lemma ProcessKeepsMerging(c: Cupboard, rule: KeyRule)
    requires Merging(c, rule) && |c.shelf| > 0
    ensures Merging(ProcessNextEntry(c, rule).value, rule)
  {
    var c' := ProcessNextEntry(c, rule).value;
    var csv := c.shelf[0].1.csv;
    assert ShelfSorted(c'.shelf, rule) by {
      ProcessKeepsShelfSorted(c, rule);
    }
    assert forall y :: y in Contents(c'.shelf) ==> y in Contents(c.shelf) by {
      ProcessConserves(c, rule);
    }
    assert forall y :: y in Contents(c.shelf) ==> LessEq(Key(rule, csv), Key(rule, y)) by {
      ShelfMin(c.shelf, rule);
      assert c.shelf[0] in c.shelf;
    }
    assert csv in Contents(c.shelf) by {
      assert csv in multiset(Lines(c.shelf[0].1));
      BoxInContents(c.shelf, c.shelf[0]);
    }
    StepKeepsMerging(c, c', csv, rule);
  }

  /** One turn of `while (Cupboard.shelf.size > 1)`. */
  lemma MergeLoopStep(c: Cupboard, rule: KeyRule)
    requires Ordered(c.shelf) && |c.shelf| > 1
    ensures MergeLoop(c, rule) == MergeLoop(ProcessNextEntry(c, rule).value, rule)
  {
  }

  lemma {:induction false} MergeLoopSorted(c: Cupboard, rule: KeyRule)
    requires Merging(c, rule)
    ensures Merging(MergeLoop(c, rule), rule)
    decreases Pending(c)
  {
    if |c.shelf| > 1 {
      var c' := ProcessNextEntry(c, rule).value;
      assert Merging(c', rule) by {
        ProcessKeepsMerging(c, rule);
      }
      assert Pending(c') < Pending(c) by {
        ProcessConserves(c, rule);
      }
      MergeLoopSorted(c', rule);
      MergeLoopStep(c, rule);
    }
  }

  /** Sorted boxes merge into a sorted output. */
  lemma MergeSorted(c: Cupboard, rule: KeyRule)
    requires Merging(c, rule) && |c.shelf| > 0
    ensures SortedBy(MergeTheCartons(c, rule).value.out, rule)
  {
    MergeLoopSorted(c, rule);
    var c1 := MergeLoop(c, rule);
    var p := c1.shelf[|c1.shelf| - 1];
    assert p in c1.shelf;
    OutBelowBox(c1, p, rule);
    SortedConcat(c1.out, Lines(p.1), rule);
  }

  /** While merging, every line written so far sorts no later than any line of a box on the shelf. */
  lemma OutBelowBox(c: Cupboard, p: (string, Box), rule: KeyRule)
    requires Merging(c, rule) && p in c.shelf
    ensures SortedBy(Lines(p.1), rule)
    ensures forall i, j :: 0 <= i < |c.out| && 0 <= j < |Lines(p.1)| ==> LessEq(Key(rule, c.out[i]), Key(rule, Lines(p.1)[j]))
  {
    BoxInContents(c.shelf, p);
    forall i, j | 0 <= i < |c.out| && 0 <= j < |Lines(p.1)|
      ensures LessEq(Key(rule, c.out[i]), Key(rule, Lines(p.1)[j]))
    {
      assert Lines(p.1)[j] in multiset(Lines(p.1));
    }
  }

  // ---------------------------------------------------------------------
  // No collisions: distinct keys leave no orphans.
  // ---------------------------------------------------------------------

  /** Every line held once, and no two lines sharing a key. */
  predicate Unique(m: multiset<Entry>, rule: KeyRule)
  {
    && (forall x :: x in m ==> m[x] == 1)
    && forall x, y :: x in m && y in m && Key(rule, x) == Key(rule, y) ==> x == y
  }

  lemma UniqueSub(m: multiset<Entry>, m': multiset<Entry>, rule: KeyRule)
    requires Unique(m, rule) && m' <= m
    ensures Unique(m', rule)
  {
    forall x | x in m' ensures m'[x] == 1 {
      assert m'[x] <= m[x];
    }
  }

  /** A line of a box taken off a shelf of unique lines has a key no box left on the shelf holds. */
  lemma UniqueKeyFree(shelf: TreeMap<Box>, b: Box, x: Entry, rule: KeyRule)
    requires ShelfSorted(shelf, rule) && Unique(multiset(Lines(b)) + Contents(shelf), rule)
    requires x in multiset(Lines(b))
    ensures Key(rule, x) !in Keys(shelf)
  {
    forall i | 0 <= i < |shelf| ensures shelf[i].0 != Key(rule, x) {
      assert shelf[i] in shelf;
      BoxInContents(shelf, shelf[i]);
      assert shelf[i].1.csv in Contents(shelf);
    }
    InKeys(shelf, Key(rule, x));
  }

  lemma SubOfPlus<T>(a: multiset<T>, x: T, b: multiset<T>)
    requires a + multiset{x} <= b
    ensures a <= b
  {
    forall e ensures a[e] <= b[e] {
      assert (a + multiset{x})[e] <= b[e];
    }
  }

  /** On a shelf of unique lines, the next line of the least box has a key no other box holds. */
  lemma NextKeyFree(c: Cupboard, rule: KeyRule)
    requires Ordered(c.shelf) && ShelfSorted(c.shelf, rule) && |c.shelf| > 0
    requires Unique(Contents(c.shelf), rule) && |c.shelf[0].1.rest| > 0
    ensures Key(rule, c.shelf[0].1.rest[0]) !in Keys(c.shelf[1..])
  {
    var b := c.shelf[0].1;
    var tail := c.shelf[1..];
    FirstSplit(c.shelf);
    ShelfSortedTail(c.shelf, rule);
    assert b.rest[0] in multiset(Lines(b));
    UniqueKeyFree(tail, b, b.rest[0], rule);
  }

  /** A step of the merge on a shelf of unique lines orphans nothing. */
  lemma ProcessNoOrphan(c: Cupboard, rule: KeyRule)
    requires Ordered(c.shelf) && ShelfSorted(c.shelf, rule) && |c.shelf| > 0
    requires Unique(Contents(c.shelf), rule)
    ensures ProcessNextEntry(c, rule).value.orphans == c.orphans
  {
    FirstIsMin(c.shelf);
    if |c.shelf[0].1.rest| > 0 {
      NextKeyFree(c, rule);
    }
  }

  /** What stays on the shelf after a step is still unique. */
  lemma ProcessKeepsUnique(c: Cupboard, rule: KeyRule)
    requires Ordered(c.shelf) && |c.shelf| > 0 && Unique(Contents(c.shelf), rule)
    ensures Unique(Contents(ProcessNextEntry(c, rule).value.shelf), rule)
  {
    var c' := ProcessNextEntry(c, rule).value;
    assert Contents(c'.shelf) <= Contents(c.shelf) by {
      ProcessConserves(c, rule);
      SubOfPlus(Contents(c'.shelf), c.shelf[0].1.csv, Contents(c.shelf));
    }
    UniqueSub(Contents(c.shelf), Contents(c'.shelf), rule);
  }

  lemma {:induction false} MergeLoopNoOrphan(c: Cupboard, rule: KeyRule)
    requires Ordered(c.shelf) && ShelfSorted(c.shelf, rule) && Unique(Contents(c.shelf), rule)
    ensures MergeLoop(c, rule).orphans == c.orphans
    decreases Pending(c)
  {
    if |c.shelf| > 1 {
      var c' := ProcessNextEntry(c, rule).value;
      assert c'.orphans == c.orphans by {
        ProcessNoOrphan(c, rule);
      }
      assert Unique(Contents(c'.shelf), rule) by {
        ProcessKeepsUnique(c, rule);
      }
      assert ShelfSorted(c'.shelf, rule) by {
        ProcessKeepsShelfSorted(c, rule);
      }
      assert Pending(c') < Pending(c) by {
        ProcessConserves(c, rule);
      }
      MergeLoopNoOrphan(c', rule);
      MergeLoopStep(c, rule);
    }
  }

  lemma Cancel<T>(a: multiset<T>, s: multiset<T>, b: multiset<T>)
    requires a + s == b + s
    ensures a == b
  {
    forall e ensures a[e] == b[e] {
      assert (a + s)[e] == (b + s)[e];
    }
  }

  /**
   The merge of sorted boxes whose lines are unique under the key rule
   writes every line exactly once, in key order, and deletes every carton
   file exactly once.
   */
  lemma MergeComplete(c: Cupboard, rule: KeyRule)
    requires Merging(c, rule) && |c.shelf| > 0 && Unique(Contents(c.shelf), rule)
    ensures var r := MergeTheCartons(c, rule).value;
      && SortedBy(r.out, rule)
      && r.orphans == c.orphans
      && multiset(r.out) == multiset(c.out) + Contents(c.shelf)
      && multiset(r.deleted) == multiset(c.deleted) + FileNos(c.shelf)
  {
    var r := MergeTheCartons(c, rule).value;
    assert r.orphans == c.orphans by {
      MergeLoopNoOrphan(c, rule);
    }
    MergeSorted(c, rule);
    MergeConserves(c, rule);
    Cancel(multiset(r.out), Stock(r.orphans), multiset(c.out) + Contents(c.shelf));
    Cancel(multiset(r.deleted), StockNos(r.orphans), multiset(c.deleted) + FileNos(c.shelf));
  }

  // ---------------------------------------------------------------------
  // The key rule as written: a symbolic link's line sorts by its target.
  // ---------------------------------------------------------------------

  /** The shelf after dumping carton 1 (lines `e1`, `e2`) and then carton 2 (line `e3`). */
  function TwoCartons(e1: Entry, e2: Entry, e3: Entry, rule: KeyRule): Cupboard
  {
    Shelve(Shelve(Cupboard([], [], [], []), Box(1, e1, [e2]), rule), Box(2, e3, []), rule)
  }

  /** When carton 2's line has the smaller key, it is written before both lines of carton 1. */
  lemma TwoCartonMerge(e1: Entry, e2: Entry, e3: Entry, rule: KeyRule)
    requires Less(Key(rule, e3), Key(rule, e1))
    ensures Ordered(TwoCartons(e1, e2, e3, rule).shelf)
    ensures var r := MergeTheCartons(TwoCartons(e1, e2, e3, rule), rule);
      r.Some? && r.value.out == [e3, e1, e2] && r.value.orphans == []
  {
    TwoShelved(e1, e2, e3, rule);
    MergeTwo(TwoCartons(e1, e2, e3, rule), rule);
  }

  /**
   A two-box shelf whose first box has no unread line and whose second has
   one: the merge writes the first box's line, then both lines of the second.
   */
  lemma MergeTwo(c: Cupboard, rule: KeyRule)
    requires |c.shelf| == 2 && Ordered(c.shelf) && c.shelf[0].1.rest == [] && |c.shelf[1].1.rest| == 1
    ensures MergeTheCartons(c, rule).value.out == c.out + [c.shelf[0].1.csv, c.shelf[1].1.csv, c.shelf[1].1.rest[0]]
    ensures MergeTheCartons(c, rule).value.orphans == c.orphans
  {
    var x, b := c.shelf[0].1.csv, c.shelf[1].1;
    var c1 := ProcessNextEntry(c, rule).value;
    FirstOut(c, rule);
    assert c1.out == c.out + [x] && c1.shelf == [c.shelf[1]] && c1.orphans == c.orphans;
    LoopTwo(c, rule);
    LastBox(c, c1, rule);
    AppendLines(c.out, x, b);
  }

  lemma AppendLines(out: seq<Entry>, x: Entry, b: Box)
    requires |b.rest| == 1
    ensures out + [x] + Lines(b) == out + [x, b.csv, b.rest[0]]
  {
  }

  /** Shelving carton 1 and then carton 2, whose key is smaller, puts carton 2 first. */
  lemma TwoShelved(e1: Entry, e2: Entry, e3: Entry, rule: KeyRule)
    requires Less(Key(rule, e3), Key(rule, e1))
    ensures TwoCartons(e1, e2, e3, rule)
         == Cupboard([(Key(rule, e3), Box(2, e3, [])), (Key(rule, e1), Box(1, e1, [e2]))], [], [], [])
  {
    var k1, k3 := Key(rule, e1), Key(rule, e3);
    var b1, b2 := Box(1, e1, [e2]), Box(2, e3, []);
    var c0 := Shelve(Cupboard([], [], [], []), b1, rule);
    assert c0 == Cupboard([(k1, b1)], [], [], []);
    assert k3 != k1;
    assert Put(c0.shelf, k3, b2) == [(k3, b2), (k1, b1)];
  }

  /** One step on a two-box shelf writes the first box's line and, with no line left, deletes its file. */
  lemma FirstOut(c: Cupboard, rule: KeyRule)
    requires |c.shelf| == 2 && Ordered(c.shelf) && c.shelf[0].1.rest == []
    ensures ProcessNextEntry(c, rule)
         == Some(c.(shelf := [c.shelf[1]], out := c.out + [c.shelf[0].1.csv], deleted := c.deleted + [c.shelf[0].1.fileNo]))
  {
    FirstIsMin(c.shelf);
    assert c.shelf[1..] == [c.shelf[1]];
  }

  /** On a two-box shelf whose first box has no line left, the loop stops after one step. */
  lemma LoopTwo(c: Cupboard, rule: KeyRule)
    requires |c.shelf| == 2 && Ordered(c.shelf) && c.shelf[0].1.rest == []
    ensures MergeLoop(c, rule) == ProcessNextEntry(c, rule).value
  {
    FirstOut(c, rule);
  }

  /** A merge whose loop ends on one box writes that box's lines after the loop's output. */
  lemma LastBox(c: Cupboard, c1: Cupboard, rule: KeyRule)
    requires Ordered(c.shelf) && |c.shelf| > 0 && MergeLoop(c, rule) == c1 && |c1.shelf| == 1
    ensures MergeTheCartons(c, rule).value.out == c1.out + Lines(c1.shelf[0].1)
    ensures MergeTheCartons(c, rule).value.orphans == c1.orphans
  {
  }

  /**
   Carton 1 holds a link `/a` to `/t` and a file `/a !`, in path order;
   carton 2 holds `/a #`. Under the last-TAB-field key the link's line sorts
   as `/a -> /t`, after `/a #`, so the merge writes `/a #` first and the
   output is not in path order, though each carton is. Its own carton is not
   sorted under that key either, which is what the merge relies on.
   */
  lemma LinkKeyMisorders(h1: string, h2: string, h3: string)
    ensures var e1 := Entry("/a", h1 + [Tab] + "/a -> /t");
      var e2 := Entry("/a !", h2 + [Tab] + "/a !");
      var e3 := Entry("/a #", h3 + [Tab] + "/a #");
      var r := MergeTheCartons(TwoCartons(e1, e2, e3, LastTabField), LastTabField);
      && SortedBy([e1, e2], CartonPath)
      && !SortedBy([e1, e2], LastTabField)
      && r.Some? && r.value.out == [e3, e1, e2]
      && !SortedBy(r.value.out, CartonPath)
  {
    var e1 := Entry("/a", h1 + [Tab] + "/a -> /t");
    var e2 := Entry("/a !", h2 + [Tab] + "/a !");
    var e3 := Entry("/a #", h3 + [Tab] + "/a #");
    LinkKeys(h1, h2, h3);
    TwoCartonMerge(e1, e2, e3, LastTabField);
    SortedPair(e1, e2, CartonPath);
    SortedPair(e1, e2, LastTabField);
    var out := MergeTheCartons(TwoCartons(e1, e2, e3, LastTabField), LastTabField).value.out;
    assert !LessEq(Key(CartonPath, out[0]), Key(CartonPath, out[1]));
  }

  /** Two lines are sorted exactly when the first key is at most the second. */
  lemma SortedPair(a: Entry, b: Entry, rule: KeyRule)
    ensures SortedBy([a, b], rule) <==> LessEq(Key(rule, a), Key(rule, b))
  {
    var s := [a, b];
    assert s[0] == a && s[1] == b;
  }

  /** The literal facts the example rests on: its three keys under the last-TAB-field rule and how they compare. */
  lemma LinkKeys(h1: string, h2: string, h3: string)
    ensures Key(LastTabField, Entry("/a", h1 + [Tab] + "/a -> /t")) == "/a -> /t"
    ensures Key(LastTabField, Entry("/a !", h2 + [Tab] + "/a !")) == "/a !"
    ensures Key(LastTabField, Entry("/a #", h3 + [Tab] + "/a #")) == "/a #"
    ensures Less("/a #", "/a -> /t") && !LessEq("/a -> /t", "/a !")
    ensures LessEq("/a", "/a !") && !LessEq("/a #", "/a")
  {
    assert Tab !in "/a -> /t" && Tab !in "/a !" && Tab !in "/a #";
    MergeKeyAfterTab(h1, "/a -> /t");
    MergeKeyAfterTab(h2, "/a !");
    MergeKeyAfterTab(h3, "/a #");
    TargetOrder();
    PathOrder();
  }

  /** `/a #` and `/a !` both sort before `/a -> /t`: they differ from it first at `#` and `!` against `-`. */
  lemma TargetOrder()
    ensures Less("/a #", "/a -> /t") && !LessEq("/a -> /t", "/a !")
  {
    assert "/a #" == "/a " + ['#'] + "" && "/a !" == "/a " + ['!'] + "";
    assert "/a -> /t" == "/a " + ['-'] + "> /t";
    FirstDifference("/a ", '#', "", '-', "> /t");
    FirstDifference("/a ", '!', "", '-', "> /t");
    Trichotomy("/a !", "/a -> /t");
  }

  /** `/a` is a prefix of `/a !` and of `/a #`, so it sorts before both. */
  lemma PathOrder()
    ensures LessEq("/a", "/a !") && !LessEq("/a #", "/a")
  {
    assert "/a !" == "/a" + " !" && "/a #" == "/a" + " #";
    PrefixFirst("/a", " !");
    PrefixFirst("/a", " #");
    Trichotomy("/a", "/a #");
  }

}
