/**
 One filesystem entry as the scanner records it (`class FSysNode`). The
 attribute reads are inputs: `noFollow` is what `Files.readAttributes(path,
 ..., NOFOLLOW_LINKS)` returned, `followed` what the link-following read
 returned (consulted only for a symbolic link), `realTarget` what
 `toRealPath()` returned, and `modTime` the already formatted
 `yyyyMMdd.HHmmss` text.
 */
module FSysNode {
  import opened Radix
  import opened Fields

  datatype Perm =
    | OwnerRead | OwnerWrite | OwnerExecute
    | GroupRead | GroupWrite | GroupExecute
    | OthersRead | OthersWrite | OthersExecute

  /** Owner r/w/x, group r/w/x, others r/w/x: the order of the rendered bits. */
  const PermOrder: seq<Perm> := [OwnerRead, OwnerWrite, OwnerExecute,
                                 GroupRead, GroupWrite, GroupExecute,
                                 OthersRead, OthersWrite, OthersExecute]

  datatype Attrs = Attrs(isDirectory: bool, isRegularFile: bool, isSymbolicLink: bool, isOther: bool)

  datatype Node = Node(
    path: string,          // `path.toString()`
    absolutePath: string,  // `f.absolutePath`
    perms: set<Perm>,      // `pAttr.permissions()`
    noFollow: Attrs,       // `bAttr`
    followed: Attrs,       // the link-following read behind `bAttrL`
    modTime: string,
    size: nat,             // `bAttr.size()`
    inode: string,         // `iNodeStr`, `bAttr.fileKey().toString()`
    realTarget: string)    // `f.toPath().toRealPath()`

  /** `FSysNode.bitMap()` */
  function BitMask(p: Perm): nat
  {
    match p
    case OwnerRead => 0x100
    case OwnerWrite => 0x80
    case OwnerExecute => 0x40
    case GroupRead => 0x20
    case GroupWrite => 0x10
    case GroupExecute => 0x8
    case OthersRead => 0x4
    case OthersWrite => 0x2
    case OthersExecute => 0x1
  }

  /** The leading bit that keeps the rendered string nine characters wide. */
  const Sentinel: nat := 0x200

  function Masked(perms: set<Perm>, p: Perm): nat
  {
    if p in perms then BitMask(p) else 0
  }

  /**
   `permBits`: the sentinel or'ed with the mask of every granted permission.
   The masks are distinct single bits, so or-ing them is adding them.
   */
  function PermBits(perms: set<Perm>): nat
  {
    Sentinel
    + Masked(perms, OwnerRead) + Masked(perms, OwnerWrite) + Masked(perms, OwnerExecute)
    + Masked(perms, GroupRead) + Masked(perms, GroupWrite) + Masked(perms, GroupExecute)
    + Masked(perms, OthersRead) + Masked(perms, OthersWrite) + Masked(perms, OthersExecute)
  }

  function BitChar(b: bool): char
  {
    if b then '1' else '0'
  }

  /** One character per permission, in `PermOrder`. */
  function Granted(perms: set<Perm>): (r: string)
    ensures |r| == 9 && forall i :: 0 <= i < 9 ==> r[i] == BitChar(PermOrder[i] in perms)
  {
    seq(9, i requires 0 <= i < 9 => BitChar(PermOrder[i] in perms))
  }

  function BitValue(b: bool): nat
  {
    if b then 1 else 0
  }

  lemma FromRadixSnoc(s: string, c: char, base: nat)
    ensures FromRadix(s + [c], base) == FromRadix(s, base) * base + DigitValue(c)
  {
    assert (s + [c])[..|s|] == s;
  }

  /** The value of the sentinel followed by the first `k` permission bits. */
  function Accumulated(perms: set<Perm>, k: nat): nat
    requires k <= 9
  {
    if k == 0 then 1 else 2 * Accumulated(perms, k - 1) + BitValue(PermOrder[k - 1] in perms)
  }

  lemma {:induction false} AccumulatedDigits(perms: set<Perm>, k: nat)
    requires k <= 9
    ensures FromRadix(['1'] + Granted(perms)[..k], 2) == Accumulated(perms, k)
  {
    if k > 0 {
      AccumulatedDigits(perms, k - 1);
      var g := Granted(perms);
      assert ['1'] + g[..k] == (['1'] + g[..k - 1]) + [g[k - 1]];
      FromRadixSnoc(['1'] + g[..k - 1], g[k - 1], 2);
    }
  }

  /** The weighted sum of the permission bits under the sentinel, owner read weighing most. */
  function Weighted(perms: set<Perm>): nat
  {
    512
    + 256 * BitValue(OwnerRead in perms) + 128 * BitValue(OwnerWrite in perms) + 64 * BitValue(OwnerExecute in perms)
    + 32 * BitValue(GroupRead in perms) + 16 * BitValue(GroupWrite in perms) + 8 * BitValue(GroupExecute in perms)
    + 4 * BitValue(OthersRead in perms) + 2 * BitValue(OthersWrite in perms) + 1 * BitValue(OthersExecute in perms)
  }

  lemma AccumulatedIsPermBits(perms: set<Perm>)
    ensures Accumulated(perms, 9) == PermBits(perms)
  {
    AccumulatedWeighted(perms);
    PermBitsWeighted(perms);
  }

  lemma AccumulatedWeighted(perms: set<Perm>)
    ensures Accumulated(perms, 9) == Weighted(perms)
  {
    assert PermOrder[0] == OwnerRead && PermOrder[1] == OwnerWrite && PermOrder[2] == OwnerExecute;
    assert PermOrder[3] == GroupRead && PermOrder[4] == GroupWrite && PermOrder[5] == GroupExecute;
    assert PermOrder[6] == OthersRead && PermOrder[7] == OthersWrite && PermOrder[8] == OthersExecute;
    AccumulatedThree(perms, 3);
    AccumulatedThree(perms, 6);
    AccumulatedThree(perms, 9);
  }

  /** Three more permission bits multiply the value by eight and add their own weights. */
  lemma AccumulatedThree(perms: set<Perm>, k: nat)
    requires 3 <= k <= 9
    ensures Accumulated(perms, k) == 8 * Accumulated(perms, k - 3)
      + 4 * BitValue(PermOrder[k - 3] in perms) + 2 * BitValue(PermOrder[k - 2] in perms)
      + BitValue(PermOrder[k - 1] in perms)
  {
    assert Accumulated(perms, k - 1) == 2 * Accumulated(perms, k - 2) + BitValue(PermOrder[k - 2] in perms);
  }

  lemma PermBitsWeighted(perms: set<Perm>)
    ensures PermBits(perms) == Weighted(perms)
  {
  }

  /** The sentinel followed by one bit per permission is the binary text of `PermBits`. */
  lemma PermBitsBinary(perms: set<Perm>)
    ensures ToRadix(PermBits(perms), 2) == ['1'] + Granted(perms)
  {
    var g := Granted(perms);
    var s := ['1'] + g;
    assert Canonical(s, 2);
    AccumulatedDigits(perms, 9);
    assert g[..9] == g;
    AccumulatedIsPermBits(perms);
    ToFromRadix(s, 2);
  }

  /**
   `permBitString`: nine characters, one per permission in owner/group/others
   r/w/x order, `1` exactly when that permission is granted.
   */
  function PermBitString(perms: set<Perm>): (r: string)
    ensures |r| == 9
    ensures forall i :: 0 <= i < 9 ==> (r[i] == '1' || r[i] == '0')
    ensures forall i :: 0 <= i < 9 ==> (r[i] == '1' <==> PermOrder[i] in perms)
  {
    Granted(perms)
  }

  /**
   The source computes the field as `permBits.toString(2).substring(1)`: the
   binary text of the sentinel-led mask with the sentinel digit dropped. That
   is the same nine characters.
   */
  lemma PermBitStringBinary(perms: set<Perm>)
    ensures PermBitString(perms) == ToRadix(PermBits(perms), 2)[1..]
  {
    PermBitsBinary(perms);
    assert (['1'] + Granted(perms))[1..] == Granted(perms);
  }

  /** `typeFDLU`: the first of D, F, L, O that the attributes claim, else U. */
  function TypeLetter(a: Attrs): char
  {
    if a.isDirectory then 'D'
    else if a.isRegularFile then 'F'
    else if a.isSymbolicLink then 'L'
    else if a.isOther then 'O'
    else 'U'
  }

  /** `"L" == typeFDLU(bAttr)`: what the scanner treats as a symbolic link. */
  predicate IsLink(n: Node)
  {
    TypeLetter(n.noFollow) == 'L'
  }

  /**
   `typeCode`: `L` and the letter of the link-following attributes for a
   link, `X` and the letter of the entry's own attributes otherwise.
   */
  function TypeCode(n: Node): (r: string)
    ensures |r| == 2 && r[1] in "DFLOU" && 'A' <= r[0] <= 'Z' && 'A' <= r[1] <= 'Z'
    ensures r[0] == 'L' <==> IsLink(n)
    ensures r[0] == 'X' <==> !IsLink(n)
    ensures !IsLink(n) ==> r[1] != 'L' && r[1] == TypeLetter(n.noFollow)
    ensures IsLink(n) ==> r[1] == TypeLetter(n.followed)
  {
    var first := TypeLetter(n.noFollow);
    if first == 'L' then ['L', TypeLetter(n.followed)] else ['X', first]
  }

  /** `realPath`: ` -> target` for a link, empty otherwise. */
  function RealPath(n: Node): (r: string)
    ensures r == "" <==> !IsLink(n)
  {
    if IsLink(n) then " -> " + n.realTarget else ""
  }

  /** `%010d` of the size: at least ten decimal digits. */
  function SizeField(size: nat): (r: string)
    ensures |r| >= 10
    ensures forall i :: 0 <= i < |r| ==> '0' <= r[i] <= '9'
  {
    var digits := ToRadix(size, 10);
    PadLeftZeros(digits, 10);
    PadLeft(digits, 10)
  }

  /** The size field reads back as the size. */
  lemma SizeFieldValue(size: nat)
    ensures FromRadix(SizeField(size), 10) == size
  {
    var digits := ToRadix(size, 10);
    FromToRadix(size, 10);
    PadLeftZeros(digits, 10);
    LeadingZeros(|SizeField(size)| - |digits|, digits, 10);
  }

  /** The five fields before the TAB, in record order. */
  function Header(n: Node, tag: string): seq<string>
  {
    [tag, TypeCode(n), PermBitString(n.perms), n.modTime, SizeField(n.size)]
  }

  /** `flatView(recordTag)`: `tag^Atype^Aperm^Amtime^Asize TAB absolutePath realPath`. */
  function FlatView(n: Node, tag: string): string
  {
    Join(Header(n, tag), CtrlA) + [Tab] + (n.absolutePath + RealPath(n))
  }

  /** The merge key of a record is its path and link suffix, when they hold no TAB. */
  lemma FlatViewMergeKey(n: Node, tag: string)
    requires Tab !in n.absolutePath + RealPath(n)
    ensures MergeKey(FlatView(n, tag)) == n.absolutePath + RealPath(n)
  {
    MergeKeyAfterTab(Join(Header(n, tag), CtrlA), n.absolutePath + RealPath(n));
  }

  /**
   A record reads back field by field: before the first TAB, the ^A-separated
   fields are the tag, type code, permission bits, time and size, as long as
   the tag and the time hold neither separator.
   */
  lemma FlatViewFields(n: Node, tag: string)
    requires Tab !in tag && CtrlA !in tag && Tab !in n.modTime && CtrlA !in n.modTime
    ensures var line := FlatView(n, tag);
      && Split(Split(line, Tab)[0], CtrlA) == Header(n, tag)
      && FromRadix(Split(Split(line, Tab)[0], CtrlA)[4], 10) == n.size
  {
    HeaderClean(n, tag);
    SizeFieldValue(n.size);
    RecordFields(Header(n, tag), n.absolutePath + RealPath(n));
  }

  /** No header field holds either separator when the tag and the time hold none. */
  lemma HeaderClean(n: Node, tag: string)
    requires Tab !in tag && CtrlA !in tag && Tab !in n.modTime && CtrlA !in n.modTime
    ensures forall i :: 0 <= i < |Header(n, tag)| ==> CtrlA !in Header(n, tag)[i] && Tab !in Header(n, tag)[i]
  {
    var h := Header(n, tag);
    forall i | 0 <= i < |h| ensures CtrlA !in h[i] && Tab !in h[i] {
      if i == 1 {
        Visible(TypeCode(n));
      } else if i == 2 {
        Visible(PermBitString(n.perms));
      } else if i == 4 {
        Visible(SizeField(n.size));
      }
    }
  }

  /** Text of printable characters holds neither separator. */
  lemma Visible(s: string)
    requires forall i :: 0 <= i < |s| ==> ' ' < s[i]
    ensures Tab !in s && CtrlA !in s
  {
    assert forall i :: 0 <= i < |s| ==> s[i] != Tab && s[i] != CtrlA;
  }

  /** A record whose fields hold neither separator splits back into those fields before its first TAB. */
  lemma RecordFields(fields: seq<string>, rest: string)
    requires |fields| > 0 && forall i :: 0 <= i < |fields| ==> CtrlA !in fields[i] && Tab !in fields[i]
    ensures Split(Split(Join(fields, CtrlA) + [Tab] + rest, Tab)[0], CtrlA) == fields
  {
    var front := Join(fields, CtrlA);
    JoinAvoids(fields, CtrlA, Tab);
    SplitAround(front, Tab, rest);
    NoSeparator(front, Tab);
    SplitJoin(fields, CtrlA);
  }

  /** Joining pieces free of `d` with a separator other than `d` gives text free of `d`. */
  lemma {:induction false} JoinAvoids(pieces: seq<string>, c: char, d: char)
    requires |pieces| > 0 && c != d && forall i :: 0 <= i < |pieces| ==> d !in pieces[i]
    ensures d !in Join(pieces, c)
  {
    if |pieces| > 1 {
      JoinAvoids(pieces[1..], c, d);
    }
  }
}
