/**
 `FSysRecorder`: every scanned entry is rendered once, appended to the raw
 file in scan order, and filed in the carton under its absolute path. A
 full carton (`cartonLimit` entries) is written out in path order as a
 numbered carton file and put on the merge shelf; `finalize` files the
 last, partly filled carton and merges all carton files into the sorted
 output.

 File contents are sequences of lines; the model keeps each line together
 with the path it was filed under (`Cupboard.Entry`), from which the merge
 key is taken according to the `KeyRule`.
 */
module Recorder {
  import opened Lex
  import opened Wrappers
  import opened TreeMap
  import opened RecordNumber
  import opened FSysNode
  import opened Cupboard

  datatype Recorder = Recorder(
    limit: nat,               // entries per carton file: `cartonLimit`, 4096 in the code
    counter: Counter,         // `RecordNumber`
    raw: seq<Entry>,          // the `.tox.raw` file, in scan order
    carton: TreeMap<string>,  // absolute path to rendered line
    cartonCount: nat,         // number of the next carton file
    cupboard: Cupboard,
    rule: KeyRule)

  /** A fresh recorder: empty raw file, empty carton, first carton file number 1. */
  function Init(limit: nat, rule: KeyRule): Recorder
  {
    Recorder(limit, Initial(), [], [], 1, Cupboard([], [], [], []), rule)
  }

  /** The carton's pairs in key order, as the lines of its carton file. */
  function CartonEntries(carton: TreeMap<string>): (r: seq<Entry>)
    ensures |r| == |carton|
    ensures forall i :: 0 <= i < |carton| ==> r[i] == Entry(carton[i].0, carton[i].1)
  {
    seq(|carton|, i requires 0 <= i < |carton| => Entry(carton[i].0, carton[i].1))
  }

  /**
   `dumpCarton`: the carton, in key order, becomes carton file number
   `cartonCount`; its first line goes on the shelf under that line's key,
   and the carton is cleared.
   */
  function DumpCarton(r: Recorder): (r': Recorder)
    requires Ordered(r.cupboard.shelf) && |r.carton| > 0
    ensures r'.carton == [] && r'.cartonCount == r.cartonCount + 1
    ensures r'.raw == r.raw && r'.counter == r.counter && r'.limit == r.limit && r'.rule == r.rule
    ensures Ordered(r'.cupboard.shelf)
    ensures Contents(r'.cupboard.shelf) + Stock(r'.cupboard.orphans)
         == Contents(r.cupboard.shelf) + Stock(r.cupboard.orphans) + multiset(CartonEntries(r.carton))
    ensures FileNos(r'.cupboard.shelf) + StockNos(r'.cupboard.orphans)
         == FileNos(r.cupboard.shelf) + StockNos(r.cupboard.orphans) + multiset{r.cartonCount}
  {
    var lines := CartonEntries(r.carton);
    var box := Box(r.cartonCount, lines[0], lines[1..]);
    assert Lines(box) == lines;
    r.(carton := [], cartonCount := r.cartonCount + 1, cupboard := Shelve(r.cupboard, box, r.rule))
  }

  /** Append the line to the raw file and file it in the carton under `path`. */
  function Stow(r: Recorder, path: string, line: string): (r': Recorder)
    requires Ordered(r.carton)
    ensures Ordered(r'.carton) && Get(r'.carton, path) == Some(line)
    ensures r'.raw == r.raw + [Entry(path, line)]
    ensures r'.limit == r.limit && r'.rule == r.rule && r'.counter == r.counter
    ensures r'.cartonCount == r.cartonCount && r'.cupboard == r.cupboard
  {
    PutGet(r.carton, path, line, path);
    r.(raw := r.raw + [Entry(path, line)], carton := Put(r.carton, path, line))
  }

  /** Stow the line, then dump the carton when its size reaches a multiple of the limit. */
  function FileLine(r: Recorder, path: string, line: string): (r': Recorder)
    requires r.limit > 0 && Ordered(r.carton) && Ordered(r.cupboard.shelf)
    ensures r'.limit == r.limit && r'.rule == r.rule && r'.counter == r.counter && r'.cartonCount >= r.cartonCount
    ensures Ordered(r'.carton) && Ordered(r'.cupboard.shelf)
    ensures r'.raw == r.raw + [Entry(path, line)]
  {
    var r1 := Stow(r, path, line);
    if |r1.carton| % r.limit == 0 then DumpCarton(r1) else r1
  }

  /**
   How `write` renders an entry under a record tag. The scanner renders with
   `FSysNode.FlatView`; the recorder's bookkeeping does not depend on it.
   */
  type Render = (Node, string) -> string

  /**
   `write`: render the entry under the next record tag, append the line to
   the raw file, file it in the carton under the entry's absolute path, and
   dump the carton when its size reaches a multiple of the limit.
   */
  function Write(r: Recorder, n: Node, render: Render): (r': Recorder)
    requires r.limit > 0 && Ordered(r.carton) && Ordered(r.cupboard.shelf)
    ensures r'.limit == r.limit && r'.rule == r.rule && r'.cartonCount >= r.cartonCount
    ensures Ordered(r'.carton) && Ordered(r'.cupboard.shelf)
    ensures Tally(r'.counter) == Tally(r.counter) + 1
    ensures r'.raw == r.raw + [Entry(n.absolutePath, render(n, Tag(Tally(r.counter))))]
  {
    var (tag, counter) := Update(r.counter);
    FileLine(r.(counter := counter), n.absolutePath, render(n, tag))
  }

  /** One `write` per node, in order. */
  function WriteAll(r: Recorder, nodes: seq<Node>, render: Render): (r': Recorder)
    requires r.limit > 0 && Ordered(r.carton) && Ordered(r.cupboard.shelf)
    ensures r'.limit == r.limit && r'.rule == r.rule && r'.cartonCount >= r.cartonCount
    ensures Ordered(r'.carton) && Ordered(r'.cupboard.shelf)
    ensures Tally(r'.counter) == Tally(r.counter) + |nodes|
    decreases |nodes|
  {
    if |nodes| == 0 then r else WriteAll(Write(r, nodes[0], render), nodes[1..], render)
  }

  /** The raw-file lines of `nodes`, node `i` rendered under the tag of count `t + i`. */
  function RawLines(nodes: seq<Node>, t: nat, render: Render): (lines: seq<Entry>)
    ensures |lines| == |nodes|
    decreases |nodes|
  {
    if |nodes| == 0 then []
    else [Entry(nodes[0].absolutePath, render(nodes[0], Tag(t)))] + RawLines(nodes[1..], t + 1, render)
  }

  lemma {:induction false} RawLinesAt(nodes: seq<Node>, t: nat, render: Render, i: nat)
    requires i < |nodes|
    ensures RawLines(nodes, t, render)[i] == Entry(nodes[i].absolutePath, render(nodes[i], Tag(t + i)))
    decreases |nodes|
  {
    if i > 0 {
      RawLinesAt(nodes[1..], t + 1, render, i - 1);
      assert nodes[1..][i - 1] == nodes[i];
    }
  }

  /**
   The raw file gets one line per node, in scan order, each under the tag of
   the next count.
   */
  lemma {:induction false} WriteAllRaw(r: Recorder, nodes: seq<Node>, render: Render)
    requires r.limit > 0 && Ordered(r.carton) && Ordered(r.cupboard.shelf)
    ensures WriteAll(r, nodes, render).raw == r.raw + RawLines(nodes, Tally(r.counter), render)
    decreases |nodes|
  {
    if |nodes| > 0 {
      var t := Tally(r.counter);
      var r1 := Write(r, nodes[0], render);
      var e := Entry(nodes[0].absolutePath, render(nodes[0], Tag(t)));
      WriteAllRaw(r1, nodes[1..], render);
      assert Tally(r1.counter) == t + 1;
      assert r1.raw == r.raw + [e];
      assert WriteAll(r, nodes, render).raw == WriteAll(r1, nodes[1..], render).raw;
      assert WriteAll(r1, nodes[1..], render).raw == r1.raw + RawLines(nodes[1..], t + 1, render);
      assert RawLines(nodes, t, render) == [e] + RawLines(nodes[1..], t + 1, render);
      AppendStep(WriteAll(r, nodes, render).raw, r.raw, r1.raw, e, RawLines(nodes[1..], t + 1, render),
                 RawLines(nodes, t, render));
    }
  }

  /** Appending one line and then the rest appends their concatenation. */
  lemma AppendStep<T>(whole: seq<T>, before: seq<T>, after1: seq<T>, e: T, rest: seq<T>, lines: seq<T>)
    requires after1 == before + [e] && whole == after1 + rest && lines == [e] + rest
    ensures whole == before + lines
  {
    assert (before + [e]) + rest == before + ([e] + rest);
  }

  /** The first half of `finalize`: a carton that still holds entries is dumped. */
  function CloseCarton(r: Recorder): (r': Recorder)
    requires Ordered(r.cupboard.shelf)
    ensures r'.carton == [] && Ordered(r'.cupboard.shelf)
    ensures r'.raw == r.raw && r'.rule == r.rule
    ensures |r.carton| > 0 ==> |r'.cupboard.shelf| > 0 && r'.cartonCount == r.cartonCount + 1
    ensures |r.carton| == 0 ==> r' == r
  {
    if |r.carton| > 0 then
      var r' := DumpCarton(r);
      var box := Box(r.cartonCount, CartonEntries(r.carton)[0], CartonEntries(r.carton)[1..]);
      assert r'.cupboard == Shelve(r.cupboard, box, r.rule);
      assert Key(r.rule, box.csv) in Keys(r'.cupboard.shelf);
      r'
    else r
  }

  /**
   `finalize`: close the carton, then merge. `None` stands for the exception
   the merge throws when nothing was ever written.
   */
  function Finalize(r: Recorder): (out: Option<Cupboard>)
    requires Ordered(r.cupboard.shelf)
    ensures out.None? <==> |r.carton| == 0 && |r.cupboard.shelf| == 0
  {
    MergeTheCartons(CloseCarton(r).cupboard, r.rule)
  }

  // ---------------------------------------------------------------------
  // The recorder invariant under distinct absolute paths and the path key.
  // ---------------------------------------------------------------------

  /** The carton file numbers `1 .. k`. */
  function Numbers(k: nat): multiset<nat>
  {
    if k == 0 then multiset{} else Numbers(k - 1) + multiset{k}
  }

  predicate DistinctPaths(s: seq<Entry>)
  {
    forall i, j :: 0 <= i < j < |s| ==> s[i].path != s[j].path
  }

  /**
   The state between writes, under the path key: nothing has been merged or
   orphaned yet, the raw file's paths are distinct, every line of the raw
   file is in the carton or on the shelf exactly once, every box is filed
   under its current path and sorted, and the shelf holds the carton files
   `1 .. cartonCount - 1`.
   */
  predicate Filed(r: Recorder)
  {
    && r.rule == CartonPath && r.cartonCount >= 1
    && Ordered(r.carton)
    && r.cupboard.out == [] && r.cupboard.deleted == [] && r.cupboard.orphans == []
    && Ordered(r.cupboard.shelf) && ShelfSorted(r.cupboard.shelf, CartonPath)
    && DistinctPaths(r.raw)
    && multiset(r.raw) == multiset(CartonEntries(r.carton)) + Contents(r.cupboard.shelf)
    && FileNos(r.cupboard.shelf) == Numbers(r.cartonCount - 1)
  }

  /** `Filed`, with the carton below the limit. */
  predicate Valid(r: Recorder)
  {
    Filed(r) && r.limit > 0 && |r.carton| < r.limit
  }

  lemma InitValid(limit: nat)
    requires limit > 0
    ensures Valid(Init(limit, CartonPath))
  {
  }

  /** Distinct paths make every line unique under the path key. */
  lemma DistinctUnique(s: seq<Entry>)
    requires DistinctPaths(s)
    ensures Unique(multiset(s), CartonPath)
  {
    forall x | x in multiset(s) ensures multiset(s)[x] == 1 {
      var i :| 0 <= i < |s| && s[i] == x;
      DistinctCount(s, i);
    }
    forall x, y | x in multiset(s) && y in multiset(s) && x.path == y.path ensures x == y {
      var i :| 0 <= i < |s| && s[i] == x;
      var j :| 0 <= j < |s| && s[j] == y;
    }
  }

  lemma {:induction false} DistinctCount(s: seq<Entry>, i: nat)
    requires DistinctPaths(s) && i < |s|
    ensures multiset(s)[s[i]] == 1
  {
    if i == |s| - 1 {
      var p := s[..|s| - 1];
      assert s == p + [s[i]];
      assert s[i] !in p by {
        forall j | 0 <= j < |p| ensures p[j] != s[i] {
          assert p[j] == s[j];
        }
      }
    } else {
      var p := s[..|s| - 1];
      assert s == p + [s[|s| - 1]];
      assert DistinctPaths(p) by {
        forall a, b | 0 <= a < b < |p| ensures p[a].path != p[b].path {
          assert p[a] == s[a] && p[b] == s[b];
        }
      }
      DistinctCount(p, i);
      assert p[i] == s[i];
      assert s[|s| - 1].path != s[i].path;
    }
  }

  lemma ConsCarton(x: (string, string), t: TreeMap<string>)
    ensures CartonEntries([x] + t) == [Entry(x.0, x.1)] + CartonEntries(t)
  {
  }

  lemma PutPast(m: TreeMap<string>, k: string, v: string)
    requires Ordered(m) && |m| > 0 && m[0].0 != k && !Less(k, m[0].0)
    ensures Put(m, k, v) == [m[0]] + Put(m[1..], k, v)
  {
  }

  /** Filing a line under a new path adds exactly that entry to the carton. */
  lemma {:induction false} CartonPutNew(m: TreeMap<string>, k: string, v: string)
    requires Ordered(m) && k !in Keys(m)
    ensures multiset(CartonEntries(Put(m, k, v))) == multiset(CartonEntries(m)) + multiset{Entry(k, v)}
  {
    if |m| == 0 {
      assert CartonEntries(Put(m, k, v)) == [Entry(k, v)];
    } else if Less(k, m[0].0) {
      assert Put(m, k, v) == [(k, v)] + m;
      ConsCarton((k, v), m);
    } else {
      assert m[0].0 in Keys(m);
      OrderedTail(m);
      assert k !in Keys(m[1..]);
      CartonPutNew(m[1..], k, v);
      PutPast(m, k, v);
      ConsCarton(m[0], Put(m[1..], k, v));
      ConsCarton(m[0], m[1..]);
      assert m == [m[0]] + m[1..];
    }
  }

  /** A carton's lines are in strictly ascending path order. */
  lemma CartonSorted(m: TreeMap<string>)
    requires Ordered(m)
    ensures SortedBy(CartonEntries(m), CartonPath)
  {
  }

  /** A path that no raw line carries is not a carton key. */
  lemma NewPathFree(r: Recorder, k: string)
    requires Filed(r) && forall i :: 0 <= i < |r.raw| ==> r.raw[i].path != k
    ensures k !in Keys(r.carton)
  {
    var lines := CartonEntries(r.carton);
    forall i | 0 <= i < |r.carton| ensures r.carton[i].0 != k {
      assert lines[i] in multiset(lines);
      assert lines[i] in multiset(r.raw);
      var j :| 0 <= j < |r.raw| && r.raw[j] == lines[i];
    }
    InKeys(r.carton, k);
  }

  /**
   Dumping a non-empty carton under the path key keeps the recorder filed:
   its first path is on no shelved box, so nothing is orphaned, and the
   carton's lines move onto the shelf as carton file `cartonCount`.
   */
  lemma DumpKeepsFiled(r: Recorder)
    requires Filed(r) && |r.carton| > 0
    ensures Filed(DumpCarton(r))
  {
    DumpNoOrphan(r);
    DumpShelfSorted(r);
    FiledAfterDump(r, DumpCarton(r));
  }

  /** The bookkeeping of a dump that orphans nothing and keeps the shelf sorted. */
  lemma FiledAfterDump(r: Recorder, r': Recorder)
    requires r.rule == CartonPath && r.cartonCount >= 1 && DistinctPaths(r.raw)
    requires r.cupboard.out == [] && r.cupboard.deleted == [] && r.cupboard.orphans == []
    requires multiset(r.raw) == multiset(CartonEntries(r.carton)) + Contents(r.cupboard.shelf)
    requires FileNos(r.cupboard.shelf) == Numbers(r.cartonCount - 1)
    requires r'.carton == [] && r'.cartonCount == r.cartonCount + 1 && r'.raw == r.raw && r'.rule == r.rule
    requires r'.cupboard.out == r.cupboard.out && r'.cupboard.deleted == r.cupboard.deleted
    requires r'.cupboard.orphans == r.cupboard.orphans
    requires Ordered(r'.cupboard.shelf) && ShelfSorted(r'.cupboard.shelf, CartonPath)
    requires Contents(r'.cupboard.shelf) + Stock(r'.cupboard.orphans)
          == Contents(r.cupboard.shelf) + Stock(r.cupboard.orphans) + multiset(CartonEntries(r.carton))
    requires FileNos(r'.cupboard.shelf) + StockNos(r'.cupboard.orphans)
          == FileNos(r.cupboard.shelf) + StockNos(r.cupboard.orphans) + multiset{r.cartonCount}
    ensures Filed(r')
  {
    DumpedLines(r.raw, CartonEntries(r.carton), r.cupboard.shelf, r'.cupboard.shelf, r.cupboard.orphans);
    DumpedFiles(r.cupboard.shelf, r'.cupboard.shelf, r.cupboard.orphans, r.cartonCount);
    EmptyCarton(r');
  }

  lemma EmptyCarton(r: Recorder)
    requires r.carton == []
    ensures multiset(CartonEntries(r.carton)) == multiset([]) && Ordered(r.carton)
  {
    assert CartonEntries(r.carton) == [];
  }

  /** The carton's lines move from the carton onto the shelf. */
  lemma DumpedLines(raw: seq<Entry>, lines: seq<Entry>, shelf: TreeMap<Box>, shelf': TreeMap<Box>, orphans: seq<Box>)
    requires orphans == [] && multiset(raw) == multiset(lines) + Contents(shelf)
    requires Contents(shelf') + Stock(orphans) == Contents(shelf) + Stock(orphans) + multiset(lines)
    ensures multiset(raw) == multiset([]) + Contents(shelf')
  {
    assert Stock(orphans) == multiset{};
    DropEmpty(Contents(shelf'), Contents(shelf), multiset(lines), Stock(orphans));
    SwapSides(multiset(raw), multiset(lines), Contents(shelf), Contents(shelf'));
  }

  /** The dumped carton joins the shelf as the next carton file. */
  lemma DumpedFiles(shelf: TreeMap<Box>, shelf': TreeMap<Box>, orphans: seq<Box>, k: nat)
    requires orphans == [] && k >= 1 && FileNos(shelf) == Numbers(k - 1)
    requires FileNos(shelf') + StockNos(orphans) == FileNos(shelf) + StockNos(orphans) + multiset{k}
    ensures FileNos(shelf') == Numbers(k)
  {
    assert StockNos(orphans) == multiset{};
    DropEmpty(FileNos(shelf'), FileNos(shelf), multiset{k}, StockNos(orphans));
    NumbersStep(FileNos(shelf'), FileNos(shelf), k);
  }

  lemma NumbersStep(next: multiset<nat>, prev: multiset<nat>, k: nat)
    requires k >= 1 && prev == Numbers(k - 1) && next == prev + multiset{k}
    ensures next == Numbers(k)
  {
  }

  /** Under the path key, the dumped carton's first path is on no shelved box. */
  lemma DumpNoOrphan(r: Recorder)
    requires Filed(r) && |r.carton| > 0
    ensures DumpCarton(r).cupboard.orphans == r.cupboard.orphans
  {
    var lines := CartonEntries(r.carton);
    var box := Box(r.cartonCount, lines[0], lines[1..]);
    assert Lines(box) == lines;
    assert DumpCarton(r).cupboard == Shelve(r.cupboard, box, CartonPath);
    DistinctUnique(r.raw);
    assert box.csv in multiset(Lines(box));
    UniqueKeyFree(r.cupboard.shelf, box, box.csv, CartonPath);
  }

  /** The dumped carton is sorted by path, so the shelf stays sorted box by box. */
  lemma DumpShelfSorted(r: Recorder)
    requires Filed(r) && |r.carton| > 0
    ensures ShelfSorted(DumpCarton(r).cupboard.shelf, CartonPath)
  {
    var lines := CartonEntries(r.carton);
    var box := Box(r.cartonCount, lines[0], lines[1..]);
    assert Lines(box) == lines;
    assert DumpCarton(r).cupboard == Shelve(r.cupboard, box, CartonPath);
    CartonSorted(r.carton);
    ShelveSorted(r.cupboard, box, CartonPath);
  }

  lemma DropEmpty<T>(after: multiset<T>, before: multiset<T>, added: multiset<T>, none: multiset<T>)
    requires none == multiset{} && after + none == before + none + added
    ensures after == before + added
  {
    forall e ensures after[e] == (before + added)[e] {
      assert (after + none)[e] == (before + none + added)[e];
    }
  }

  lemma SwapSides<T>(raw: multiset<T>, moved: multiset<T>, before: multiset<T>, after: multiset<T>)
    requires raw == moved + before && after == before + moved
    ensures raw == multiset([]) + after
  {
    forall e ensures raw[e] == (multiset([]) + after)[e] {
      assert (moved + before)[e] == (before + moved)[e];
    }
  }

  /**
   A `write` of an entry whose path is new keeps the recorder valid: the
   line joins the carton (which cannot already hold the path), and a carton
   that reaches the limit is dumped.
   */
  lemma WriteKeepsValid(r: Recorder, n: Node, render: Render)
    requires Valid(r) && forall i :: 0 <= i < |r.raw| ==> r.raw[i].path != n.absolutePath
    ensures Valid(Write(r, n, render))
  {
    var (tag, counter) := Update(r.counter);
    CounterFree(r, counter);
    FileLineKeepsValid(r.(counter := counter), n.absolutePath, render(n, tag));
  }

  /** Validity does not depend on the record counter. */
  lemma CounterFree(r: Recorder, c: Counter)
    requires Valid(r)
    ensures Valid(r.(counter := c))
  {
    SameFiles(r, r.(counter := c));
  }

  /** Filing a line under a new path keeps the recorder valid. */
  lemma FileLineKeepsValid(r: Recorder, path: string, line: string)
    requires Valid(r) && forall i :: 0 <= i < |r.raw| ==> r.raw[i].path != path
    ensures Valid(FileLine(r, path, line))
  {
    var r1 := Stow(r, path, line);
    StowKeepsFiled(r, path, line);
    FullCarton(|r1.carton|, r.limit);
    if |r1.carton| % r.limit == 0 {
      DumpKeepsFiled(r1);
    }
  }

  /**
   For any key rule and any path, new or repeated: a carton below the limit
   stays below it after filing a line, and carton file `cartonCount` is
   spilled exactly when the line fills the carton to the limit.
   */
  lemma FileLineBound(r: Recorder, path: string, line: string)
    requires r.limit > 0 && Ordered(r.carton) && Ordered(r.cupboard.shelf) && |r.carton| < r.limit
    ensures var r' := FileLine(r, path, line);
      && |r'.carton| < r.limit
      && (r'.cartonCount == r.cartonCount + 1 <==> |Put(r.carton, path, line)| == r.limit)
      && (r'.cartonCount == r.cartonCount || r'.cartonCount == r.cartonCount + 1)
  {
    var c := Put(r.carton, path, line);
    assert 0 < |c| <= r.limit;
    var r1 := Stow(r, path, line);
    assert r1.carton == c;
    FullCarton(|c|, r.limit);
  }

  /** `write` keeps the carton below the limit, whatever the key rule and the path. */
  lemma CartonBound(r: Recorder, n: Node, render: Render)
    requires r.limit > 0 && Ordered(r.carton) && Ordered(r.cupboard.shelf) && |r.carton| < r.limit
    ensures |Write(r, n, render).carton| < r.limit
  {
    var (tag, counter) := Update(r.counter);
    FileLineBound(r.(counter := counter), n.absolutePath, render(n, tag));
  }

  /** Any run of writes keeps the carton below the limit, whatever the key rule and the paths. */
  lemma {:induction false} WriteAllBound(r: Recorder, nodes: seq<Node>, render: Render)
    requires r.limit > 0 && Ordered(r.carton) && Ordered(r.cupboard.shelf) && |r.carton| < r.limit
    ensures |WriteAll(r, nodes, render).carton| < r.limit
    decreases |nodes|
  {
    if |nodes| > 0 {
      CartonBound(r, nodes[0], render);
      WriteAllBound(Write(r, nodes[0], render), nodes[1..], render);
    }
  }

  /** A carton one past a size below the limit is a multiple of the limit only when full. */
  lemma FullCarton(size: nat, limit: nat)
    requires 0 < size <= limit
    ensures size % limit == 0 <==> size == limit
  {
    if size < limit {
      assert size % limit == size;
    }
  }

  /** Stowing a line under a new path adds exactly that line to the carton. */
  lemma StowKeepsFiled(r: Recorder, path: string, line: string)
    requires Filed(r) && forall i :: 0 <= i < |r.raw| ==> r.raw[i].path != path
    ensures Filed(Stow(r, path, line)) && |Stow(r, path, line).carton| == |r.carton| + 1
  {
    var r1 := Stow(r, path, line);
    assert r1.carton == Put(r.carton, path, line);
    NewPathFree(r, path);
    CartonPutNew(r.carton, path, line);
    FiledAfterStow(r, r1, Entry(path, line));
  }

  /** The bookkeeping of stowing one line under a new path. */
  lemma FiledAfterStow(r: Recorder, r1: Recorder, e: Entry)
    requires Filed(r) && forall i :: 0 <= i < |r.raw| ==> r.raw[i].path != e.path
    requires r1.cupboard == r.cupboard && r1.cartonCount == r.cartonCount && r1.rule == r.rule
    requires Ordered(r1.carton) && r1.raw == r.raw + [e]
    requires multiset(CartonEntries(r1.carton)) == multiset(CartonEntries(r.carton)) + multiset{e}
    ensures Filed(r1)
  {
    assert DistinctPaths(r1.raw) by {
      forall i, j | 0 <= i < j < |r1.raw| ensures r1.raw[i].path != r1.raw[j].path {
        if j < |r.raw| {
          assert r1.raw[i] == r.raw[i] && r1.raw[j] == r.raw[j];
        } else {
          assert r1.raw[i] == r.raw[i] && r1.raw[j] == e;
        }
      }
    }
    assert multiset(r1.raw) == multiset(r.raw) + multiset{e};
    AddOne(multiset(r.raw), multiset(CartonEntries(r.carton)), Contents(r.cupboard.shelf), e,
           multiset(CartonEntries(r1.carton)));
    SameFiles(r, r1);
  }

  lemma SameFiles(r: Recorder, r': Recorder)
    requires r.cartonCount >= 1 && FileNos(r.cupboard.shelf) == Numbers(r.cartonCount - 1)
    requires r'.cupboard == r.cupboard && r'.cartonCount == r.cartonCount
    ensures FileNos(r'.cupboard.shelf) == Numbers(r'.cartonCount - 1)
  {
  }

  lemma AddOne<T>(raw: multiset<T>, carton: multiset<T>, shelf: multiset<T>, e: T, carton': multiset<T>)
    requires raw == carton + shelf && carton' == carton + multiset{e}
    ensures raw + multiset{e} == carton' + shelf
  {
    forall x ensures (raw + multiset{e})[x] == (carton' + shelf)[x] {
      assert (carton + shelf)[x] == raw[x];
    }
  }

  predicate DistinctNodes(nodes: seq<Node>)
  {
    forall i, j :: 0 <= i < j < |nodes| ==> nodes[i].absolutePath != nodes[j].absolutePath
  }

  /** Writing entries with pairwise distinct paths, none already written, keeps the recorder valid. */
  lemma {:induction false} WriteAllValid(r: Recorder, nodes: seq<Node>, render: Render)
    requires Valid(r) && DistinctNodes(nodes)
    requires forall i, j :: 0 <= i < |r.raw| && 0 <= j < |nodes| ==> r.raw[i].path != nodes[j].absolutePath
    ensures Valid(WriteAll(r, nodes, render))
    decreases |nodes|
  {
    if |nodes| > 0 {
      var r1 := Write(r, nodes[0], render);
      WriteKeepsValid(r, nodes[0], render);
      assert r1.raw == r.raw + [Entry(nodes[0].absolutePath, render(nodes[0], Tag(Tally(r.counter))))];
      assert DistinctNodes(nodes[1..]) by {
        forall i, j | 0 <= i < j < |nodes[1..]| ensures nodes[1..][i].absolutePath != nodes[1..][j].absolutePath {
          assert nodes[1..][i] == nodes[i + 1] && nodes[1..][j] == nodes[j + 1];
        }
      }
      forall i, j | 0 <= i < |r1.raw| && 0 <= j < |nodes[1..]| ensures r1.raw[i].path != nodes[1..][j].absolutePath {
        assert nodes[1..][j] == nodes[j + 1];
        if i < |r.raw| {
          assert r1.raw[i] == r.raw[i];
        }
      }
      WriteAllValid(r1, nodes[1..], render);
      assert WriteAll(r, nodes, render).raw == WriteAll(r1, nodes[1..], render).raw;
    }
  }

  /** The number of carton files `finalize` leaves for the merge. */
  function CartonFiles(r: Recorder): nat
    requires r.cartonCount >= 1
  {
    if |r.carton| > 0 then r.cartonCount else r.cartonCount - 1
  }

  /**
   `finalize` on a filed recorder: nothing was written exactly when the
   merge fails on an empty shelf; otherwise the output holds every raw line
   exactly once, sorted by path, no box is orphaned, and every carton file
   is closed and deleted once.
   */
  lemma FinalizeComplete(r: Recorder)
    requires Filed(r)
    ensures var out := Finalize(r);
      && (out.None? <==> |r.raw| == 0)
      && (out.Some? ==>
            && SortedBy(out.value.out, CartonPath)
            && multiset(out.value.out) == multiset(r.raw)
            && out.value.orphans == []
            && multiset(out.value.deleted) == Numbers(CartonFiles(r)))
  {
    var r1 := CloseCarton(r);
    CloseKeepsFiled(r);
    var c := r1.cupboard;
    assert Finalize(r) == MergeTheCartons(c, CartonPath);
    if |c.shelf| > 0 {
      DistinctUnique(r.raw);
      MergeFiled(c, r.raw, CartonFiles(r));
    } else {
      assert multiset(r.raw) == multiset{};
    }
  }

  /** Closing the carton keeps the recorder filed and leaves every raw line on the shelf. */
  lemma CloseKeepsFiled(r: Recorder)
    requires Filed(r)
    ensures var r1 := CloseCarton(r);
      && Filed(r1) && r1.cartonCount - 1 == CartonFiles(r)
      && multiset(r.raw) == Contents(r1.cupboard.shelf)
  {
    var r1 := CloseCarton(r);
    if |r.carton| > 0 {
      DumpKeepsFiled(r);
      assert r1 == DumpCarton(r);
    }
    assert CartonEntries(r1.carton) == [];
    assert multiset(CartonEntries(r1.carton)) == multiset{};
  }

  /** Merging a filed shelf of unique lines writes them all once, sorted, and deletes every carton file once. */
  lemma MergeFiled(c: Cupboard, raw: seq<Entry>, k: nat)
    requires Ordered(c.shelf) && ShelfSorted(c.shelf, CartonPath) && |c.shelf| > 0
    requires c.out == [] && c.deleted == [] && c.orphans == []
    requires Unique(multiset(raw), CartonPath) && multiset(raw) == Contents(c.shelf) && FileNos(c.shelf) == Numbers(k)
    ensures var o := MergeTheCartons(c, CartonPath).value;
      && SortedBy(o.out, CartonPath) && multiset(o.out) == multiset(raw)
      && o.orphans == [] && multiset(o.deleted) == Numbers(k)
  {
    assert Merging(c, CartonPath);
    MergeComplete(c, CartonPath);
    assert multiset(c.out) == multiset{} && multiset(c.deleted) == multiset{};
  }

  /**
   The whole recorder under the path key: the raw file holds entry `i`
   rendered under the tag of count `i`, in scan order; `finalize` fails
   exactly when there were no entries, and otherwise writes every raw line
   once, in path order, deleting each carton file once and orphaning none.
   */
  lemma RecorderComplete(limit: nat, nodes: seq<Node>, render: Render)
    requires limit > 0 && DistinctNodes(nodes)
    ensures var r := WriteAll(Init(limit, CartonPath), nodes, render);
      && r.raw == RawLines(nodes, 0, render)
      && var out := Finalize(r);
      && (out.None? <==> |nodes| == 0)
      && (out.Some? ==>
            && SortedBy(out.value.out, CartonPath)
            && multiset(out.value.out) == multiset(r.raw)
            && out.value.orphans == []
            && multiset(out.value.deleted) == Numbers(CartonFiles(r)))
  {
    var r0 := Init(limit, CartonPath);
    InitValid(limit);
    WriteAllRaw(r0, nodes, render);
    WriteAllValid(r0, nodes, render);
    FinalizeComplete(WriteAll(r0, nodes, render));
  }
}
