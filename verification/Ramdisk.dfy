/**
 The ramdisk: a V7 tar image, byte by byte, and the parser that turns it into a
 numbered table of nodes. Offsets are relative to the start of the image, which the
 boot loader places on a 512-byte boundary.
 */
module Ramdisk {
  import opened Basics

  type byte = x: nat | x < 256

  const BLOCK: nat := 512
  const NAME_FIELD: nat := 100
  const SIZE_FIELD: nat := 124
  const TYPE_FIELD: nat := 156
  const SLASH: byte := 47
  const ZERO: byte := 48
  const DIRECTORY: byte := 53

  // ---------------------------------------------------------- the directory tree

  datatype Tree = File(content: seq<byte>) | Dir(children: seq<Child>)
  datatype Child = Child(name: seq<byte>, tree: Tree)

  predicate GoodName(name: seq<byte>) {
    name != [] && SLASH !in name && 0 !in name
  }

  /** The full name of a child: directories end in a slash. */
  function PathOf(dir: seq<byte>, c: Child): seq<byte> {
    if c.tree.Dir? then dir + c.name + [SLASH] else dir + c.name
  }

  ghost predicate NamesDiffer(children: seq<Child>) {
    forall i: nat, j: nat :: i < j < |children| ==> children[i].name != children[j].name
  }

  /** Names are distinct within a directory and free of slashes, and every full name
      fits its field with a terminator. */
  ghost predicate Good(path: seq<byte>, t: Tree)
    decreases t
  {
    && path != [] && |path| < NAME_FIELD && 0 !in path
    && match t
       case File(content) => |content| < 0x2_0000_0000
       case Dir(children) => NamesDiffer(children) && GoodAll(path, children)
  }

  ghost predicate GoodAll(dir: seq<byte>, children: seq<Child>)
    decreases children
  {
    children == [] ||
      (GoodName(children[0].name) && Good(PathOf(dir, children[0]), children[0].tree) && GoodAll(dir, children[1..]))
  }

  // --------------------------------------------------------------------- headers

  lemma WholeBlocks(y: nat)
    ensures y / BLOCK * BLOCK == y - y % BLOCK && y / BLOCK * BLOCK % BLOCK == 0
  {
    var k := y / BLOCK;
    assert y == k * BLOCK + y % BLOCK;
  }

  /** The end of the block in which x bytes end. */
  function RoundUp(x: nat): (r: nat)
    ensures r % BLOCK == 0 && x <= r < x + BLOCK
  {
    WholeBlocks(x + BLOCK - 1);
    (x + BLOCK - 1) / BLOCK * BLOCK
  }

  lemma RoundUpShift(a: nat, x: nat)
    requires a % BLOCK == 0
    ensures RoundUp(a + x) == a + RoundUp(x)
  {}

  predicate IsOctal(s: seq<byte>) {
    forall k: nat :: k < |s| ==> ZERO <= s[k] < ZERO + 8
  }

  function Octal(s: seq<byte>): nat
    requires IsOctal(s)
  {
    if s == [] then 0 else 8 * Octal(s[..|s| - 1]) + (s[|s| - 1] - ZERO)
  }

  /** A header for this name, size and kind stands at `off`; every other field is
      free. */
  predicate HeaderAt(image: seq<byte>, off: nat, path: seq<byte>, size: nat, isDir: bool) {
    && off % BLOCK == 0 && off + BLOCK <= |image| && |path| < NAME_FIELD
    && image[off..off + |path|] == path && image[off + |path|] == 0
    && (image[off + TYPE_FIELD] == DIRECTORY <==> isDir)
    && var digits := image[off + SIZE_FIELD..off + SIZE_FIELD + 11];
       IsOctal(digits) && Octal(digits) == size
  }

  /** A file takes its header and the blocks its contents begin. */
  function Length(t: Tree): (n: nat)
    ensures t.File? ==> n % BLOCK == 0 && BLOCK + |t.content| <= n < BLOCK + |t.content| + BLOCK
  {
    match t
    case File(content) => BLOCK + RoundUp(|content|)
    case Dir(children) => BLOCK + LengthAll(children)
  }

  function LengthAll(children: seq<Child>): nat {
    if children == [] then 0 else Length(children[0].tree) + LengthAll(children[1..])
  }

  /** The image holds this tree at `off`: each directory's header before those of
      everything in it, in order, each under its full name. */
  ghost predicate Holds(image: seq<byte>, off: nat, path: seq<byte>, t: Tree)
    decreases t
  {
    match t
    case File(content) =>
      && HeaderAt(image, off, path, |content|, false)
      && off + BLOCK + |content| <= |image| && image[off + BLOCK..off + BLOCK + |content|] == content
    case Dir(children) =>
      HeaderAt(image, off, path, 0, true) && HoldsAll(image, off + BLOCK, path, children)
  }

  ghost predicate HoldsAll(image: seq<byte>, off: nat, dir: seq<byte>, children: seq<Child>)
    decreases children
  {
    children == [] ||
      (Holds(image, off, PathOf(dir, children[0]), children[0].tree)
      && HoldsAll(image, off + Length(children[0].tree), dir, children[1..]))
  }

  /** What stands at `off` is not named below `path`. */
  predicate Outside(image: seq<byte>, off: nat, path: seq<byte>) {
    off + BLOCK <= |image| && |path| < NAME_FIELD && image[off..off + |path|] != path
  }

  // ------------------------------------------------------------------- the table

  datatype DirEntry = DirEntry(inode: nat, hash: nat, name: seq<byte>)
  datatype INode = DirNode(entries: seq<DirEntry>) | FileNode(fileSize: nat, data: nat)

  function Hash(s: seq<byte>): nat {
    if s == [] then 5381 else (Hash(s[..|s| - 1]) * 33 + s[|s| - 1]) % WORD_LIMIT
  }

  function Count(t: Tree): nat {
    match t
    case File(_) => 1
    case Dir(children) => CountAll(children) + 1
  }

  function CountAll(children: seq<Child>): nat {
    if children == [] then 0 else Count(children[0].tree) + CountAll(children[1..])
  }

  /** The nodes of a tree that stands at `off`, numbered from `base` + 1: everything
      in a directory before the directory itself. */
  function NodesOf(t: Tree, off: nat, base: nat): (s: seq<INode>)
    ensures |s| == Count(t)
  {
    match t
    case File(content) => [FileNode(|content|, off + BLOCK)]
    case Dir(children) => NodesOfAll(children, off + BLOCK, base) + [DirNode(EntriesOf(children, base))]
  }

  function NodesOfAll(children: seq<Child>, off: nat, base: nat): (s: seq<INode>)
    ensures |s| == CountAll(children)
  {
    if children == [] then []
    else
      var t := children[0].tree;
      NodesOf(t, off, base) + NodesOfAll(children[1..], off + Length(t), base + Count(t))
  }

  function EntriesOf(children: seq<Child>, base: nat): (s: seq<DirEntry>)
    ensures |s| == |children|
  {
    if children == [] then []
    else
      var last := base + Count(children[0].tree);
      [DirEntry(last, Hash(children[0].name), children[0].name)] + EntriesOf(children[1..], last)
  }

  /** Node `num` of the table is the root of this tree. */
  ghost predicate Represents(image: seq<byte>, nodes: seq<INode>, num: nat, t: Tree)
    decreases num, 1, 0
  {
    1 <= num <= |nodes| &&
    match t
    case File(content) =>
      var n := nodes[num - 1];
      n.FileNode? && n.fileSize == |content| && n.data + n.fileSize <= |image|
        && image[n.data..n.data + n.fileSize] == content
    case Dir(children) =>
      var n := nodes[num - 1];
      n.DirNode? && RepresentsAll(image, nodes, num, n.entries, children)
  }

  /** Entry by entry the names agree, the hashes are right, and the numbers, all below
      `num`, stand for the subtrees. */
  ghost predicate RepresentsAll(image: seq<byte>, nodes: seq<INode>, num: nat, entries: seq<DirEntry>,
      children: seq<Child>)
    decreases num, 0, |entries|
  {
    if entries == [] then children == []
    else
      children != [] && var e := entries[0];
      && e.name == children[0].name && e.hash == Hash(e.name) && e.inode < num
      && Represents(image, nodes, e.inode, children[0].tree)
      && RepresentsAll(image, nodes, num, entries[1..], children[1..])
  }

  // ------------------------------------------------------- where a subtree ends

  /** The byte after a name in its header ends the name. */
  lemma HeaderOf(image: seq<byte>, off: nat, path: seq<byte>, t: Tree)
    requires Holds(image, off, path, t)
    ensures off % BLOCK == 0 && off + BLOCK <= |image| && |path| < NAME_FIELD
    ensures image[off..off + |path|] == path && image[off + |path|] == 0
    ensures image[off + TYPE_FIELD] == DIRECTORY <==> t.Dir?
  {}

  lemma GoodPath(path: seq<byte>, t: Tree)
    requires Good(path, t)
    ensures path != [] && |path| < NAME_FIELD && 0 !in path
  {}

  lemma HeaderSize(image: seq<byte>, off: nat, path: seq<byte>, t: Tree)
    requires Holds(image, off, path, t)
    ensures off + BLOCK <= |image|
    ensures var digits := image[off + SIZE_FIELD..off + SIZE_FIELD + 11];
      IsOctal(digits) && Octal(digits) == if t.Dir? then 0 else |t.content|
  {}

  lemma Deeper(image: seq<byte>, off: nat, dir: seq<byte>, path: seq<byte>)
    requires Outside(image, off, dir) && dir <= path && |path| < NAME_FIELD
    ensures Outside(image, off, path)
  {
    assert image[off..off + |dir|] == image[off..off + |path|][..|dir|];
    assert path[..|dir|] == dir;
  }

  /** The header of a sibling is not below a directory: names differ and hold neither
      slashes nor terminators. */
  lemma SiblingOutside(image: seq<byte>, off: nat, dir: seq<byte>, c: Child, d: Child)
    requires GoodName(c.name) && GoodName(d.name) && c.name != d.name && c.tree.Dir?
    requires Holds(image, off, PathOf(dir, d), d.tree) && |PathOf(dir, c)| < NAME_FIELD
    ensures Outside(image, off, PathOf(dir, c))
  {
    var k := WhereNamesPart(image, off, dir, c, d);
    var p := PathOf(dir, c);
    assert image[off..off + |p|][k] == image[off + k];
  }

  lemma WhereNamesPart(image: seq<byte>, off: nat, dir: seq<byte>, c: Child, d: Child) returns (k: nat)
    requires GoodName(c.name) && GoodName(d.name) && c.name != d.name && c.tree.Dir?
    requires Holds(image, off, PathOf(dir, d), d.tree) && |PathOf(dir, c)| < NAME_FIELD
    ensures k < |PathOf(dir, c)| && off + BLOCK <= |image| && image[off + k] != PathOf(dir, c)[k]
  {
    var p, q := PathOf(dir, c), PathOf(dir, d);
    hide Holds;
    HeaderOf(image, off, q, d.tree);
    var m, n := |c.name|, |d.name|;
    assert m == n && (forall j: nat :: j < m ==> c.name[j] == d.name[j]) ==> c.name == d.name;
    if j: nat :| j < m && j < n && c.name[j] != d.name[j] {
      k := |dir| + j;
      Slice(image, off, q, k);
    } else if n > m {
      k := |dir| + m;
      Slice(image, off, q, k);
      assert q[k] == d.name[m] && d.name[m] in d.name;
    } else if n < m {
      k := |dir| + n;
      if d.tree.Dir? { Slice(image, off, q, k); }
      assert p[k] == c.name[n] && c.name[n] in c.name;
    } else {
      assert false;
    }
  }

  lemma Slice(image: seq<byte>, off: nat, s: seq<byte>, k: nat)
    requires off + |s| <= |image| && image[off..off + |s|] == s && k < |s|
    ensures image[off + k] == s[k]
  {}

  /** Whatever follows the first child of a directory lies outside that child. */
  lemma NextOutside(image: seq<byte>, off: nat, dir: seq<byte>, children: seq<Child>)
    requires children != [] && GoodAll(dir, children) && NamesDiffer(children) && HoldsAll(image, off, dir, children)
    requires Outside(image, off + LengthAll(children), dir)
    ensures children[0].tree.Dir? ==> Outside(image, off + Length(children[0].tree), PathOf(dir, children[0]))
  {
    hide Holds, HoldsAll, GoodName, Outside;
    var c := children[0];
    if c.tree.Dir? {
      GoodPath(PathOf(dir, c), c.tree);
      if |children| == 1 {
        assert LengthAll(children[1..]) == 0;
        Deeper(image, off + Length(c.tree), dir, PathOf(dir, c));
      } else {
        SecondChild(image, off, dir, children);
        SiblingOutside(image, off + Length(c.tree), dir, c, children[1]);
      }
    }
  }

  lemma SecondChild(image: seq<byte>, off: nat, dir: seq<byte>, children: seq<Child>)
    requires |children| > 1 && GoodAll(dir, children) && HoldsAll(image, off, dir, children)
    ensures GoodName(children[0].name) && GoodName(children[1].name)
    ensures Holds(image, off + Length(children[0].tree), PathOf(dir, children[1]), children[1].tree)
  {
    hide Holds, GoodName, PathOf;
    var rest := children[1..];
    assert rest[0] == children[1] && GoodAll(dir, rest);
    assert HoldsAll(image, off + Length(children[0].tree), dir, rest);
  }

  // -------------------------------------------------------------------- numbers

  /** A character as the signed number it is here. */
  function Signed(c: byte): int { if c < 128 then c else c - 256 }

  /** What any field stands for, digits or not. */
  function FieldValue(s: seq<byte>): int {
    if s == [] then 0
    else
      var c := s[|s| - 1];
      8 * FieldValue(s[..|s| - 1]) + (if c < 128 then c as int - 48 else c as int - 256 - 48)
  }

  lemma {:induction false} OctalValue(s: seq<byte>)
    requires IsOctal(s) && |s| <= 11
    ensures FieldValue(s) == Octal(s) && FieldValue(s) % WORD_LIMIT == Octal(s)
  {
    ValueIsOctal(s);
    var bounds := [1, 8, 64, 512, 0x1000, 0x8000, 0x4_0000, 0x20_0000, 0x100_0000, 0x800_0000, 0x4000_0000,
      0x2_0000_0000];
    OctalBound(s, bounds);
    assert bounds[|s|] <= WORD_LIMIT;
  }

  lemma {:induction false} ValueIsOctal(s: seq<byte>)
    requires IsOctal(s)
    ensures FieldValue(s) == Octal(s)
  {
    if s != [] { ValueIsOctal(s[..|s| - 1]); }
  }

  lemma {:induction false} OctalBound(s: seq<byte>, bounds: seq<nat>)
    requires IsOctal(s) && |s| < |bounds| && bounds[0] == 1
    requires forall i: nat {:trigger bounds[i]} :: 0 < i < |bounds| ==> bounds[i] == 8 * bounds[i - 1]
    ensures Octal(s) < bounds[|s|]
  {
    if s != [] { OctalBound(s[..|s| - 1], bounds); }
  }

  /** The number field read digit by digit from the right, in 64-bit arithmetic. */
  method GetSize(image: seq<byte>, header: nat) returns (result: nat)
    requires header + BLOCK <= |image|
    ensures var field := image[header + SIZE_FIELD..header + SIZE_FIELD + 11];
      result == FieldValue(field) % WORD_LIMIT && (IsOctal(field) ==> result == Octal(field))
  {
    hide Octal, FieldValue;
    ghost var digits := image[header + SIZE_FIELD..header + SIZE_FIELD + 11];
    var base := 1;
    var i := 11;
    result := 0;
    ghost var sum := 0;
    assert digits[..11] == digits;
    NoDigits();
    while i > 0
      invariant 0 <= i <= 11 && result == sum % WORD_LIMIT
      invariant sum + base * FieldValue(digits[..i]) == FieldValue(digits)
    {
      LastDigit(digits, i);
      assert digits[i - 1] == image[header + SIZE_FIELD + i - 1];
      var d := Signed(image[header + SIZE_FIELD + i - 1]) - ZERO;
      Distribute(base, FieldValue(digits[..i - 1]), d);
      WrappingSum(sum, d * base);
      result := (result + d * base) % WORD_LIMIT;
      sum := sum + d * base;
      i := i - 1;
      base := base * 8;
    }
    if IsOctal(digits) { OctalValue(digits); }
  }

  lemma WrappingSum(a: int, b: int)
    ensures (a % WORD_LIMIT + b) % WORD_LIMIT == (a + b) % WORD_LIMIT
  {
    var q := a / WORD_LIMIT;
    assert a + b == a % WORD_LIMIT + b + q * WORD_LIMIT;
    SameRemainder(a % WORD_LIMIT + b, q);
  }

  lemma SameRemainder(x: int, q: int)
    ensures (x + q * WORD_LIMIT) % WORD_LIMIT == x % WORD_LIMIT
  {}

  lemma LastDigit(s: seq<byte>, i: nat)
    requires 0 < i <= |s|
    ensures FieldValue(s[..i]) == 8 * FieldValue(s[..i - 1]) + (Signed(s[i - 1]) - ZERO)
  {
    assert s[..i][..i - 1] == s[..i - 1];
  }

  lemma NoDigits()
    ensures FieldValue([]) == 0
  {}

  lemma Distribute(base: int, v: int, d: int)
    ensures base * (8 * v + d) == base * 8 * v + d * base
  {}

  /** The digits of a number below 8 to the n. */
  function Digits(x: nat, n: nat): (s: seq<byte>)
    ensures |s| == n && IsOctal(s)
  {
    if n == 0 then [] else Digits(x / 8, n - 1) + [ZERO + x % 8]
  }

  function Power8(n: nat): nat { if n == 0 then 1 else 8 * Power8(n - 1) }

  lemma {:induction false} DigitsRoundTrip(x: nat, n: nat)
    requires x < Power8(n)
    ensures Octal(Digits(x, n)) == x
  {
    if n > 0 {
      DigitsRoundTrip(x / 8, n - 1);
      var s := Digits(x, n);
      assert s[..n - 1] == Digits(x / 8, n - 1);
    }
  }

  // --------------------------------------------------------------------- parsing

  /** Below a directory's header stands the full name of the child. */
  lemma ChildHeader(image: seq<byte>, off: nat, dir: seq<byte>, c: Child)
    requires GoodName(c.name) && Good(PathOf(dir, c), c.tree) && Holds(image, off, PathOf(dir, c), c.tree)
    ensures off + BLOCK <= |image| && image[off..off + |dir|] == dir
    ensures var n := |c.name| + if c.tree.Dir? then 1 else 0;
      && |dir| + n < NAME_FIELD && image[off + |dir| + n] == 0
      && image[off + |dir|..off + |dir| + n] == (if c.tree.Dir? then c.name + [SLASH] else c.name)
      && 0 !in image[off + |dir|..off + |dir| + n]
  {
    hide Holds, Good;
    var path := PathOf(dir, c);
    HeaderOf(image, off, path, c.tree);
    assert image[off..off + |dir|] == image[off..off + |path|][..|dir|];
    assert image[off + |dir|..off + |path|] == image[off..off + |path|][|dir|..];
  }

  lemma FirstOfAll(image: seq<byte>, off: nat, dir: seq<byte>, children: seq<Child>)
    requires children != [] && GoodAll(dir, children) && NamesDiffer(children) && HoldsAll(image, off, dir, children)
    ensures GoodName(children[0].name)
    ensures Good(PathOf(dir, children[0]), children[0].tree) && GoodAll(dir, children[1..])
      && NamesDiffer(children[1..])
    ensures Holds(image, off, PathOf(dir, children[0]), children[0].tree)
    ensures HoldsAll(image, off + Length(children[0].tree), dir, children[1..])
  {
    hide Good, Holds, GoodName;
  }

  lemma {:induction false} LengthIsBlocks(t: Tree)
    ensures Length(t) % BLOCK == 0 && Length(t) >= BLOCK
  {
    if t.Dir? { LengthAllIsBlocks(t.children); }
  }

  lemma {:induction false} LengthAllIsBlocks(children: seq<Child>)
    ensures LengthAll(children) % BLOCK == 0
  {
    if children != [] {
      LengthIsBlocks(children[0].tree);
      LengthAllIsBlocks(children[1..]);
    }
  }

  /** Nothing is left exactly when the next header is not below the directory. */
  lemma AtEndIffOutside(image: seq<byte>, off: nat, dir: seq<byte>, children: seq<Child>)
    requires GoodAll(dir, children) && NamesDiffer(children) && HoldsAll(image, off, dir, children)
    requires Outside(image, off + LengthAll(children), dir)
    ensures off + BLOCK <= |image|
    ensures image[off..off + |dir|] == dir <==> children != []
  {
    hide Good, Holds, GoodName, NamesDiffer;
    if children != [] {
      FirstOfAll(image, off, dir, children);
      ChildHeader(image, off, dir, children[0]);
    }
  }

  /** Where the loop over a directory stands: `rest` is still to come at `cur`, and
      once it is parsed the nodes and entries will be the wanted ones. */
  ghost predicate Pending(image: seq<byte>, path: seq<byte>, rest: seq<Child>, cur: nat, end: nat,
                          nodes: seq<INode>, entries: seq<DirEntry>, wanted: seq<INode>, wantedEntries: seq<DirEntry>)
  {
    && HoldsAll(image, cur, path, rest) && GoodAll(path, rest) && NamesDiffer(rest)
    && cur + LengthAll(rest) == end && Outside(image, end, path)
    && nodes + NodesOfAll(rest, cur, |nodes|) == wanted
    && entries + EntriesOf(rest, |nodes|) == wantedEntries
  }

  lemma PendingStart(image: seq<byte>, header: nat, path: seq<byte>, t: Tree, nodes: seq<INode>)
    requires t.Dir? && Good(path, t) && Holds(image, header, path, t) && Outside(image, header + Length(t), path)
    ensures Pending(image, path, t.children, header + BLOCK, header + Length(t), nodes, [],
                    nodes + NodesOfAll(t.children, header + BLOCK, |nodes|), EntriesOf(t.children, |nodes|))
  {}

  lemma PendingSame(image: seq<byte>, path: seq<byte>, rest: seq<Child>, cur: nat, end: nat,
                    nodes: seq<INode>, entries: seq<DirEntry>, wanted: seq<INode>, wantedEntries: seq<DirEntry>)
    requires Pending(image, path, rest, cur, end, nodes, entries, wanted, wantedEntries)
    ensures cur + BLOCK <= |image| && |path| < NAME_FIELD
    ensures image[cur..cur + |path|] == path <==> rest != []
  {
    hide HoldsAll, GoodAll, NamesDiffer, NodesOfAll, EntriesOf, LengthAll;
    AtEndIffOutside(image, cur, path, rest);
  }

  lemma PendingChild(image: seq<byte>, path: seq<byte>, rest: seq<Child>, cur: nat, end: nat,
                     nodes: seq<INode>, entries: seq<DirEntry>, wanted: seq<INode>, wantedEntries: seq<DirEntry>)
    requires Pending(image, path, rest, cur, end, nodes, entries, wanted, wantedEntries) && rest != []
    ensures var c := rest[0];
      && GoodName(c.name) && Good(PathOf(path, c), c.tree) && Holds(image, cur, PathOf(path, c), c.tree)
      && (c.tree.Dir? ==> Outside(image, cur + Length(c.tree), PathOf(path, c)))
  {
    hide Good, Holds, GoodName, GoodAll, HoldsAll, NamesDiffer, Outside, NodesOfAll, NodesOf, EntriesOf, Length,
      LengthAll, PathOf;
    FirstOfAll(image, cur, path, rest);
    NextOutside(image, cur, path, rest);
  }

  lemma PendingNext(image: seq<byte>, path: seq<byte>, rest: seq<Child>, cur: nat, end: nat,
                    nodes: seq<INode>, entries: seq<DirEntry>, wanted: seq<INode>, wantedEntries: seq<DirEntry>)
    requires Pending(image, path, rest, cur, end, nodes, entries, wanted, wantedEntries) && rest != []
    ensures var c := rest[0]; var nodes' := nodes + NodesOf(c.tree, cur, |nodes|);
      Pending(image, path, rest[1..], cur + Length(c.tree), end, nodes',
              entries + [DirEntry(|nodes'|, Hash(c.name), c.name)], wanted, wantedEntries)
  {
    hide Good, Holds, GoodName, Outside, NamesDiffer, GoodAll, HoldsAll, NodesOf, NodesOfAll, EntriesOf, LengthAll,
      Length;
    FirstOfAll(image, cur, path, rest);
    AllSteps(rest, cur, |nodes|);
    var c := rest[0];
    var nodes' := nodes + NodesOf(c.tree, cur, |nodes|);
    assert nodes' + NodesOfAll(rest[1..], cur + Length(c.tree), |nodes'|) == wanted;
    var e := DirEntry(|nodes'|, Hash(c.name), c.name);
    assert entries + [e] + EntriesOf(rest[1..], |nodes'|) == wantedEntries;
  }

  lemma AllSteps(rest: seq<Child>, off: nat, base: nat)
    requires rest != []
    ensures var t := rest[0].tree; var last := base + Count(t);
      && NodesOfAll(rest, off, base) == NodesOf(t, off, base) + NodesOfAll(rest[1..], off + Length(t), last)
      && EntriesOf(rest, base) == [DirEntry(last, Hash(rest[0].name), rest[0].name)] + EntriesOf(rest[1..], last)
      && LengthAll(rest) == Length(t) + LengthAll(rest[1..])
  {
    hide *;
    NodesStep(rest, off, base);
    EntriesStep(rest, base);
    LengthStep(rest);
  }

  lemma NodesStep(rest: seq<Child>, off: nat, base: nat)
    requires rest != []
    ensures var t := rest[0].tree;
      NodesOfAll(rest, off, base) == NodesOf(t, off, base) + NodesOfAll(rest[1..], off + Length(t), base + Count(t))
  {
    hide NodesOf, Length, Count;
  }

  lemma EntriesStep(rest: seq<Child>, base: nat)
    requires rest != []
    ensures var last := base + Count(rest[0].tree);
      EntriesOf(rest, base) == [DirEntry(last, Hash(rest[0].name), rest[0].name)] + EntriesOf(rest[1..], last)
  {
    hide Hash, Count;
  }

  lemma LengthStep(rest: seq<Child>)
    requires rest != []
    ensures LengthAll(rest) == Length(rest[0].tree) + LengthAll(rest[1..])
  {
    hide Length;
  }

  lemma PendingEnd(image: seq<byte>, path: seq<byte>, cur: nat, end: nat,
                   nodes: seq<INode>, entries: seq<DirEntry>, wanted: seq<INode>, wantedEntries: seq<DirEntry>)
    requires Pending(image, path, [], cur, end, nodes, entries, wanted, wantedEntries)
    ensures cur == end && nodes == wanted && entries == wantedEntries
  {
    assert nodes + [] == nodes && entries + [] == entries;
  }

  lemma DirIs(t: Tree, off: nat, nodes: seq<INode>)
    requires t.Dir?
    ensures nodes + NodesOfAll(t.children, off + BLOCK, |nodes|) + [DirNode(EntriesOf(t.children, |nodes|))]
         == nodes + NodesOf(t, off, |nodes|)
  {}

  lemma FileIs(t: Tree, off: nat, nodes: seq<INode>)
    requires t.File?
    ensures NodesOf(t, off, |nodes|) == [FileNode(|t.content|, off + BLOCK)]
    ensures Length(t) == BLOCK + RoundUp(|t.content|)
  {}

  class RamdiskFsSuperblock {
    const image: seq<byte>
    var nodes: seq<INode>

    constructor (image: seq<byte>)
      ensures this.image == image && nodes == []
    {
      this.image, nodes := image, [];
    }

    method StrLen(str: nat, ghost len: nat) returns (n: nat)
      requires str + len < |image| && image[str + len] == 0 && 0 !in image[str..str + len]
      ensures n == len
    {
      ghost var s := image[str..str + len];
      n := 0;
      while image[str + n] != 0
        invariant n <= len && (n < len ==> s[n] == image[str + n] && s[n] in s)
        decreases len - n
      {
        n := n + 1;
        assert n < len ==> s[n] in s;
      }
    }

    method StrEqN(str1: nat, str2: nat, n: nat) returns (same: bool)
      requires str1 + n <= |image| && str2 + n <= |image|
      ensures same <==> image[str1..str1 + n] == image[str2..str2 + n]
    {
      var i := 0;
      while i < n
        invariant i <= n && image[str1..str1 + i] == image[str2..str2 + i]
      {
        if image[str1 + i] != image[str2 + i] {
          assert image[str1..str1 + n][i] != image[str2..str2 + n][i];
          return false;
        }
        assert image[str1..str1 + i + 1] == image[str1..str1 + i] + [image[str1 + i]];
        assert image[str2..str2 + i + 1] == image[str2..str2 + i] + [image[str2 + i]];
        i := i + 1;
      }
      same := true;
    }

    method StrHash(str: seq<byte>) returns (hash: nat)
      ensures hash == Hash(str)
    {
      hash := 5381;
      var i := 0;
      assert str[..0] == [];
      while i < |str|
        invariant i <= |str| && hash == Hash(str[..i])
      {
        assert str[..i + 1][..i] == str[..i];
        hash := (hash * 32 + hash + str[i]) % WORD_LIMIT;
        i := i + 1;
      }
      assert str[..i] == str;
    }

    method Next(header: nat, ghost size: nat) returns (next: nat)
      requires header % BLOCK == 0 && header + BLOCK <= |image|
      requires var digits := image[header + SIZE_FIELD..header + SIZE_FIELD + 11];
        IsOctal(digits) && Octal(digits) == size
      ensures next == header + BLOCK + RoundUp(size)
      ensures next % BLOCK == 0 && header + BLOCK + size <= next < header + BLOCK + size + BLOCK
    {
      var s := GetSize(image, header);
      hide IsOctal, Octal;
      RoundUpShift(header + BLOCK, s);
      next := RoundUp(header + BLOCK + s);
    }

    /** The last part of a child's name, without the slash that ends directories. */
    method EntryName(entryName: nat, ghost dir: seq<byte>, ghost c: Child) returns (cpy: seq<byte>)
      requires |dir| <= entryName && GoodName(c.name)
      requires Good(PathOf(dir, c), c.tree) && Holds(image, entryName - |dir|, PathOf(dir, c), c.tree)
      ensures cpy == c.name
    {
      hide Good, Holds;
      ChildHeader(image, entryName - |dir|, dir, c);
      var len := StrLen(entryName, |c.name| + if c.tree.Dir? then 1 else 0);
      cpy := image[entryName..entryName + len];
      var cpylen := |cpy|;
      assert c.name[|c.name| - 1] in c.name;
      if cpy[cpylen - 1] == SLASH {
        cpy := cpy[..cpylen - 1];
      }
    }

    /** Parses the tree at `header`: its nodes are appended in post-order, the result
        is the number of its root, and the lookahead is the first header after it. */
    method ParseHeader(header: nat, ghost path: seq<byte>, ghost t: Tree) returns (inode: nat, lookahead: nat)
      requires Good(path, t) && Holds(image, header, path, t)
      requires t.Dir? ==> Outside(image, header + Length(t), path)
      modifies `nodes
      ensures nodes == old(nodes) + NodesOf(t, header, |old(nodes)|)
      ensures inode == |nodes| && lookahead == header + Length(t)
      decreases t
    {
      hide Holds, HoldsAll, Good, GoodAll, NamesDiffer, NodesOf, NodesOfAll, EntriesOf, Outside, Pending, Length,
        LengthAll, PathOf, IsOctal, Octal, Hash, GoodName, HeaderAt;
      HeaderOf(image, header, path, t);
      HeaderSize(image, header, path, t);
      GoodPath(path, t);
      if image[header + TYPE_FIELD] == DIRECTORY {
        var namelen := StrLen(header, |path|);
        var entries: seq<DirEntry> := [];
        var cur := Next(header, 0);
        ghost var wanted := nodes + NodesOfAll(t.children, cur, |nodes|);
        ghost var wantedEntries, end := EntriesOf(t.children, |nodes|), header + Length(t);
        ghost var i, rest := 0, t.children;
        PendingStart(image, header, path, t, nodes);
        PendingSame(image, path, rest, cur, end, nodes, entries, wanted, wantedEntries);
        var same := StrEqN(header, cur, namelen);
        while same
          invariant i <= |t.children| && rest == t.children[i..] && same == (rest != [])
          invariant Pending(image, path, rest, cur, end, nodes, entries, wanted, wantedEntries)
          decreases |rest|
        {
          ghost var c := rest[0];
          PendingChild(image, path, rest, cur, end, nodes, entries, wanted, wantedEntries);
          PendingNext(image, path, rest, cur, end, nodes, entries, wanted, wantedEntries);
          var cpy := EntryName(cur + namelen, path, c);
          var result, next := ParseHeader(cur, PathOf(path, c), c.tree);
          var hash := StrHash(cpy);
          entries := entries + [DirEntry(result, hash, cpy)];
          cur := next;
          rest := rest[1..];
          i := i + 1;
          PendingSame(image, path, rest, cur, end, nodes, entries, wanted, wantedEntries);
          same := StrEqN(header, cur, namelen);
        }
        PendingEnd(image, path, cur, end, nodes, entries, wanted, wantedEntries);
        DirIs(t, header, old(nodes));
        lookahead := cur;
        nodes := nodes + [DirNode(entries)];
        inode := |nodes|;
      } else {
        var fileSize := GetSize(image, header);
        nodes := nodes + [FileNode(fileSize, header + BLOCK)];
        FileIs(t, header, old(nodes));
        lookahead := Next(header, fileSize);
        inode := |nodes|;
      }
    }

    /** The whole image: the table represents exactly the tree, its root is the last
        node. What follows the tree must not carry the root's name. */
    method Mount(ghost path: seq<byte>, ghost t: Tree)
      requires nodes == [] && Good(path, t) && Holds(image, 0, path, t)
      requires t.Dir? ==> Outside(image, Length(t), path)
      modifies `nodes
      ensures Represents(image, nodes, GetRootNum(), t) && |nodes| == Count(t)
    {
      hide Good, Holds, Outside, Represents, NodesOf;
      var inode, cur := ParseHeader(0, path, t);
      assert nodes == NodesOf(t, 0, 0);
      assert nodes[0..0 + Count(t)] == nodes;
      NodesRepresent(image, nodes, 0, 0, path, t);
    }

    function GetRootNum(): nat
      reads `nodes
    {
      |nodes|
    }

    /** Searching a directory by hash and name finds the child of that name, if there
        is one, and otherwise 0. */
    method Lookup(num: nat, name: seq<byte>, ghost children: seq<Child>) returns (inode: nat)
      requires Represents(image, nodes, num, Dir(children)) && NamesDiffer(children)
      ensures inode == 0 <==> forall i: nat :: i < |children| ==> children[i].name != name
      ensures forall i: nat :: i < |children| && children[i].name == name ==>
        Represents(image, nodes, inode, children[i].tree)
    {
      var entries := nodes[num - 1].entries;
      EntriesMatch(image, nodes, num, entries, children);
      hide Represents, RepresentsAll, NamesDiffer;
      var hash := StrHash(name);
      var i := 0;
      while i < |entries|
        invariant i <= |entries|
        invariant forall j: nat :: j < i ==> children[j].name != name
      {
        if entries[i].hash == hash && entries[i].name == name {
          Alone(children, i);
          return entries[i].inode;
        }
        i := i + 1;
      }
      inode := 0;
    }
  }

  lemma Alone(children: seq<Child>, i: nat)
    requires NamesDiffer(children) && i < |children|
    ensures forall j: nat :: j < |children| && children[j].name == children[i].name ==> j == i
  {}

  // ------------------------------------------------------ the table is the tree

  lemma {:induction false} EntriesMatch(image: seq<byte>, nodes: seq<INode>, num: nat, entries: seq<DirEntry>,
      children: seq<Child>)
    requires RepresentsAll(image, nodes, num, entries, children)
    ensures |entries| == |children|
    ensures forall i: nat :: i < |entries| ==>
      (entries[i].name == children[i].name && entries[i].hash == Hash(entries[i].name) && entries[i].inode > 0
        && Represents(image, nodes, entries[i].inode, children[i].tree))
  {
    if entries != [] {
      EntriesMatch(image, nodes, num, entries[1..], children[1..]);
      forall i: nat | i < |entries|
        ensures entries[i].name == children[i].name && entries[i].hash == Hash(entries[i].name) && entries[i].inode > 0
        ensures Represents(image, nodes, entries[i].inode, children[i].tree)
      {
        if i > 0 { assert entries[i] == entries[1..][i - 1] && children[i] == children[1..][i - 1]; }
      }
    }
  }

  /** A table whose stretch from `base` holds the post-order nodes of a tree
      represents that tree at the end of the stretch. */
  lemma {:induction false} NodesRepresent(image: seq<byte>, nodes: seq<INode>, base: nat, off: nat, path: seq<byte>,
      t: Tree)
    requires Holds(image, off, path, t)
    requires base + Count(t) <= |nodes| && nodes[base..base + Count(t)] == NodesOf(t, off, base)
    ensures Represents(image, nodes, base + Count(t), t)
    decreases t
  {
    hide Holds, HoldsAll, NodesOf, NodesOfAll, EntriesOf, Represents, RepresentsAll;
    match t
    case File(content) => FileRepresents(image, nodes, base, off, path, content);
    case Dir(children) =>
      DirParts(image, nodes, base, off, path, children);
      AllRepresent(image, nodes, base + Count(t), base, off + BLOCK, path, children);
      DirRepresents(image, nodes, base + Count(t), EntriesOf(children, base), children);
  }

  lemma FileRepresents(image: seq<byte>, nodes: seq<INode>, base: nat, off: nat, path: seq<byte>, content: seq<byte>)
    requires Holds(image, off, path, File(content))
    requires base < |nodes| && nodes[base..base + 1] == NodesOf(File(content), off, base)
    ensures Represents(image, nodes, base + 1, File(content))
  {
    assert nodes[base] == nodes[base..base + 1][0];
  }

  lemma DirParts(image: seq<byte>, nodes: seq<INode>, base: nat, off: nat, path: seq<byte>, children: seq<Child>)
    requires Holds(image, off, path, Dir(children)) && base + CountAll(children) + 1 <= |nodes|
    requires nodes[base..base + CountAll(children) + 1] == NodesOf(Dir(children), off, base)
    ensures HoldsAll(image, off + BLOCK, path, children)
    ensures nodes[base..base + CountAll(children)] == NodesOfAll(children, off + BLOCK, base)
    ensures nodes[base + CountAll(children)] == DirNode(EntriesOf(children, base))
  {
    hide HoldsAll, NodesOfAll, EntriesOf, CountAll;
    var s := nodes[base..base + CountAll(children) + 1];
    assert nodes[base..base + CountAll(children)] == s[..CountAll(children)];
    assert nodes[base + CountAll(children)] == s[CountAll(children)];
  }

  lemma DirRepresents(image: seq<byte>, nodes: seq<INode>, num: nat, entries: seq<DirEntry>, children: seq<Child>)
    requires 1 <= num <= |nodes| && nodes[num - 1] == DirNode(entries)
    requires RepresentsAll(image, nodes, num, entries, children)
    ensures Represents(image, nodes, num, Dir(children))
  {}

  lemma NoneRepresents(image: seq<byte>, nodes: seq<INode>, num: nat)
    ensures RepresentsAll(image, nodes, num, [], []) && forall base :: EntriesOf([], base) == []
  {}

  lemma ConsRepresents(image: seq<byte>, nodes: seq<INode>, num: nat, e: DirEntry, entries: seq<DirEntry>,
      children: seq<Child>)
    requires children != [] && e == DirEntry(e.inode, Hash(children[0].name), children[0].name) && e.inode < num
    requires Represents(image, nodes, e.inode, children[0].tree)
    requires RepresentsAll(image, nodes, num, entries, children[1..])
    ensures RepresentsAll(image, nodes, num, [e] + entries, children)
  {
    var all := [e] + entries;
    assert all[0] == e && all[1..] == entries;
  }

  lemma HoldsFirst(image: seq<byte>, off: nat, dir: seq<byte>, children: seq<Child>)
    requires children != [] && HoldsAll(image, off, dir, children)
    ensures Holds(image, off, PathOf(dir, children[0]), children[0].tree)
    ensures HoldsAll(image, off + Length(children[0].tree), dir, children[1..])
  {}

  lemma {:induction false} AllRepresent(image: seq<byte>, nodes: seq<INode>, num: nat, base: nat, off: nat,
                                        dir: seq<byte>, children: seq<Child>)
    requires HoldsAll(image, off, dir, children)
    requires base + CountAll(children) < num <= |nodes|
    requires nodes[base..base + CountAll(children)] == NodesOfAll(children, off, base)
    ensures RepresentsAll(image, nodes, num, EntriesOf(children, base), children)
    decreases children
  {
    hide Holds, HoldsAll, NodesOf, NodesOfAll, EntriesOf, Represents, RepresentsAll, Length, LengthAll, PathOf, Count;
    if children == [] {
      NoneRepresents(image, nodes, num);
    } else {
      var t := children[0].tree;
      HoldsFirst(image, off, dir, children);
      AllSteps(children, off, base);
      Middle(nodes, base, Count(t), CountAll(children), NodesOf(t, off, base),
        NodesOfAll(children[1..], off + Length(t), base + Count(t)));
      NodesRepresent(image, nodes, base, off, PathOf(dir, children[0]), t);
      AllRepresent(image, nodes, num, base + Count(t), off + Length(t), dir, children[1..]);
      ConsRepresents(image, nodes, num, DirEntry(base + Count(t), Hash(children[0].name), children[0].name),
                     EntriesOf(children[1..], base + Count(t)), children);
    }
  }

  lemma Middle(nodes: seq<INode>, base: nat, m: nat, n: nat, first: seq<INode>, rest: seq<INode>)
    requires m <= n && base + n <= |nodes| && |first| == m && nodes[base..base + n] == first + rest
    ensures nodes[base..base + m] == first && nodes[base + m..base + n] == rest
  {
    var s := nodes[base..base + n];
    assert nodes[base..base + m] == s[..m] && nodes[base + m..base + n] == s[m..];
  }

  /** A table represents at most one tree under one number. */
  lemma {:induction false} RepresentsOneTree(image: seq<byte>, nodes: seq<INode>, num: nat, t: Tree, u: Tree)
    requires Represents(image, nodes, num, t) && Represents(image, nodes, num, u)
    ensures t == u
    decreases num, 1, 0
  {
    if t.Dir? { AllOneTree(image, nodes, num, nodes[num - 1].entries, t.children, u.children); }
  }

  lemma {:induction false} AllOneTree(image: seq<byte>, nodes: seq<INode>, num: nat, entries: seq<DirEntry>,
      a: seq<Child>, b: seq<Child>)
    requires RepresentsAll(image, nodes, num, entries, a) && RepresentsAll(image, nodes, num, entries, b)
    ensures a == b
    decreases num, 0, |entries|
  {
    if entries != [] {
      RepresentsOneTree(image, nodes, entries[0].inode, a[0].tree, b[0].tree);
      AllOneTree(image, nodes, num, entries[1..], a[1..], b[1..]);
      assert a == [a[0]] + a[1..] && b == [b[0]] + b[1..];
    }
  }

  // --------------------------------------------------------------- serialisation

  function Zeros(n: nat): (s: seq<byte>)
    ensures |s| == n && forall k: nat :: k < n ==> s[k] == 0
  {
    if n == 0 then [] else Zeros(n - 1) + [0]
  }

  function HeaderBytes(path: seq<byte>, size: nat, isDir: bool): (s: seq<byte>)
    requires |path| < NAME_FIELD
    ensures |s| == BLOCK
  {
    path + Zeros(NAME_FIELD - |path|) + Zeros(24) + Digits(size, 11) + Zeros(21)
      + [if isDir then DIRECTORY else ZERO] + Zeros(355)
  }

  /** A tree as a tar archive: a header, then the padded contents, or everything in
      the directory. */
  ghost function Serialise(path: seq<byte>, t: Tree): (s: seq<byte>)
    requires Good(path, t)
    ensures |s| == Length(t)
    ensures t.File? ==> |s| % BLOCK == 0 && BLOCK + |t.content| <= |s| < BLOCK + |t.content| + BLOCK
    ensures t.File? ==> s[BLOCK..BLOCK + |t.content|] == t.content
    ensures t.File? ==> forall k: nat :: BLOCK + |t.content| <= k < |s| ==> s[k] == 0
    decreases t
  {
    match t
    case File(content) => HeaderBytes(path, |content|, false) + content + Zeros(RoundUp(|content|) - |content|)
    case Dir(children) => HeaderBytes(path, 0, true) + SerialiseAll(path, children)
  }

  ghost function SerialiseAll(dir: seq<byte>, children: seq<Child>): (s: seq<byte>)
    requires GoodAll(dir, children)
    ensures |s| == LengthAll(children)
    decreases children
  {
    if children == [] then []
    else Serialise(PathOf(dir, children[0]), children[0].tree) + SerialiseAll(dir, children[1..])
  }

  lemma HeaderParts(path: seq<byte>, size: nat, isDir: bool)
    requires |path| < NAME_FIELD
    ensures var h := HeaderBytes(path, size, isDir);
      && h[..|path|] == path && h[|path|] == 0 && h[SIZE_FIELD..SIZE_FIELD + 11] == Digits(size, 11)
      && h[TYPE_FIELD] == if isDir then DIRECTORY else ZERO
  {
    hide Digits;
  }

  lemma HeaderStands(pre: seq<byte>, path: seq<byte>, size: nat, isDir: bool, post: seq<byte>)
    requires |pre| % BLOCK == 0 && |path| < NAME_FIELD && size < 0x2_0000_0000
    ensures HeaderAt(pre + HeaderBytes(path, size, isDir) + post, |pre|, path, size, isDir)
  {
    var h := HeaderBytes(path, size, isDir);
    var image := pre + h + post;
    assert Power8(11) == 0x2_0000_0000;
    DigitsRoundTrip(size, 11);
    HeaderParts(path, size, isDir);
    hide HeaderBytes, Digits, Octal, Power8;
    assert image[|pre|..|pre| + |path|] == h[..|path|] == path;
    assert image[|pre| + |path|] == h[|path|] == 0;
    assert image[|pre| + SIZE_FIELD..|pre| + SIZE_FIELD + 11] == h[SIZE_FIELD..SIZE_FIELD + 11] == Digits(size, 11);
    assert image[|pre| + TYPE_FIELD] == h[TYPE_FIELD];
  }

  /** The image of a well-formed tree holds it: with `Mount`, serialising and parsing
      gives the tree back. */
  lemma {:induction false} SerialisedHolds(pre: seq<byte>, path: seq<byte>, t: Tree, post: seq<byte>)
    requires |pre| % BLOCK == 0 && Good(path, t)
    ensures Holds(pre + Serialise(path, t) + post, |pre|, path, t)
    decreases t
  {
    hide Holds, HoldsAll, Serialise, SerialiseAll, HeaderBytes, HeaderAt, Good, GoodAll, NamesDiffer;
    match t
    case File(content) => FileStands(pre, path, content, post);
    case Dir(children) =>
      GoodDir(path, children);
      var h, all := HeaderBytes(path, 0, true), SerialiseAll(path, children);
      HeaderStands(pre, path, 0, true, all + post);
      Regroup(pre, h, all, post);
      SerialisedHoldsAll(pre + h, path, children, post);
      HoldsDir(pre + (h + all) + post, |pre|, path, children);
  }

  lemma GoodDir(path: seq<byte>, children: seq<Child>)
    requires Good(path, Dir(children))
    ensures |path| < NAME_FIELD && GoodAll(path, children)
    ensures Serialise(path, Dir(children)) == HeaderBytes(path, 0, true) + SerialiseAll(path, children)
  {}

  lemma HoldsDir(image: seq<byte>, off: nat, path: seq<byte>, children: seq<Child>)
    requires HeaderAt(image, off, path, 0, true) && HoldsAll(image, off + BLOCK, path, children)
    ensures Holds(image, off, path, Dir(children))
  {}

  lemma HoldsNone(image: seq<byte>, off: nat, dir: seq<byte>)
    ensures HoldsAll(image, off, dir, [])
  {}

  lemma HoldsCons(image: seq<byte>, off: nat, dir: seq<byte>, children: seq<Child>)
    requires children != [] && Holds(image, off, PathOf(dir, children[0]), children[0].tree)
    requires HoldsAll(image, off + Length(children[0].tree), dir, children[1..])
    ensures HoldsAll(image, off, dir, children)
  {}

  lemma GoodFirst(dir: seq<byte>, children: seq<Child>)
    requires children != [] && GoodAll(dir, children)
    ensures Good(PathOf(dir, children[0]), children[0].tree) && GoodAll(dir, children[1..])
    ensures SerialiseAll(dir, children) ==
      Serialise(PathOf(dir, children[0]), children[0].tree) + SerialiseAll(dir, children[1..])
  {}

  lemma FileStands(pre: seq<byte>, path: seq<byte>, content: seq<byte>, post: seq<byte>)
    requires |pre| % BLOCK == 0 && Good(path, File(content))
    ensures Holds(pre + Serialise(path, File(content)) + post, |pre|, path, File(content))
  {
    hide HeaderAt, HeaderBytes, Zeros;
    var h, pad := HeaderBytes(path, |content|, false), Zeros(RoundUp(|content|) - |content|);
    HeaderStands(pre, path, |content|, false, content + pad + post);
    var image := pre + (h + content + pad) + post;
    assert image == pre + h + (content + pad + post);
    assert image[|pre| + BLOCK..|pre| + BLOCK + |content|] == content;
  }

  lemma Regroup(a: seq<byte>, b: seq<byte>, c: seq<byte>, d: seq<byte>)
    ensures a + (b + c) + d == a + b + (c + d)
    ensures a + (b + c) + d == (a + b) + c + d
  {}

  lemma {:induction false} SerialisedHoldsAll(pre: seq<byte>, dir: seq<byte>, children: seq<Child>, post: seq<byte>)
    requires |pre| % BLOCK == 0 && GoodAll(dir, children)
    ensures HoldsAll(pre + SerialiseAll(dir, children) + post, |pre|, dir, children)
    decreases children
  {
    hide Holds, HoldsAll, Serialise, SerialiseAll, Good, GoodAll, PathOf, Length, LengthAll;
    if children == [] {
      HoldsNone(pre + SerialiseAll(dir, children) + post, |pre|, dir);
    } else {
      var c := children[0];
      GoodFirst(dir, children);
      var first, rest := Serialise(PathOf(dir, c), c.tree), SerialiseAll(dir, children[1..]);
      LengthIsBlocks(c.tree);
      Regroup(pre, first, rest, post);
      SerialisedHolds(pre, PathOf(dir, c), c.tree, rest + post);
      SerialisedHoldsAll(pre + first, dir, children[1..], post);
      HoldsCons(pre + (first + rest) + post, |pre|, dir, children);
    }
  }
}
