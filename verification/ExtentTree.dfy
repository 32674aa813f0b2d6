/** kernel/extent_tree.c: the search tree of free extents. Linking and the library's
    rebalancing are modelled on an immutable shape; rebalancing is any sequence of rotations. */
module ExtentTree {
  import opened Types
  import opened ExtentOrder
  import opened Bitmap
  import opened FreeScan

  datatype Tree = Leaf | Node(left: Tree, ext: Extent, right: Tree)

  function InOrder(t: Tree): seq<Extent> {
    match t
    case Leaf => []
    case Node(l, e, r) => InOrder(l) + [e] + InOrder(r)
  }

  // ---------------------------------------------------------------- rotations

  datatype Side = Left | Right

  /** One rotation by the rebalancing code, at the node the path leads to. */
  datatype Rotation = Rotation(path: seq<Side>, towards: Side)

  function Rotate(t: Tree, path: seq<Side>, towards: Side): Tree
    decreases t
  {
    match t
    case Leaf => Leaf
    case Node(l, e, r) =>
      if path != [] then
        match path[0]
        case Left => Node(Rotate(l, path[1..], towards), e, r)
        case Right => Node(l, e, Rotate(r, path[1..], towards))
      else
        match towards
        case Left => if r.Node? then Node(Node(l, e, r.left), r.ext, r.right) else t
        case Right => if l.Node? then Node(l.left, l.ext, Node(l.right, e, r)) else t
  }

  lemma {:induction false} RotationKeepsOrder(t: Tree, path: seq<Side>, towards: Side)
    ensures InOrder(Rotate(t, path, towards)) == InOrder(t)
    decreases t
  {
    if t.Node? {
      if path != [] {
        match path[0]
        case Left => RotationKeepsOrder(t.left, path[1..], towards);
        case Right => RotationKeepsOrder(t.right, path[1..], towards);
      } else {
        match towards
        case Left =>
          if t.right.Node? {
            var a, b, c := InOrder(t.left), InOrder(t.right.left), InOrder(t.right.right);
            assert (a + [t.ext] + b) + [t.right.ext] + c == a + [t.ext] + (b + [t.right.ext] + c);
          }
        case Right =>
          if t.left.Node? {
            var a, b, c := InOrder(t.left.left), InOrder(t.left.right), InOrder(t.right);
            assert a + [t.left.ext] + (b + [t.ext] + c) == (a + [t.left.ext] + b) + [t.ext] + c;
          }
      }
    }
  }

  // ---------------------------------------------------------------- walking down

  /** One step down from the root: what was left behind. */
  datatype Step = WentLeft(ext: Extent, right: Tree) | WentRight(left: Tree, ext: Extent)

  /** The tree with `t` in the place the walk has reached. */
  function Plug(path: seq<Step>, t: Tree): Tree {
    if path == [] then t
    else
      var up := path[..|path| - 1];
      match path[|path| - 1]
      case WentLeft(e, r) => Plug(up, Node(t, e, r))
      case WentRight(l, e) => Plug(up, Node(l, e, t))
  }

  function LeftOf(path: seq<Step>): seq<Extent> {
    if path == [] then []
    else
      var up := LeftOf(path[..|path| - 1]);
      match path[|path| - 1]
      case WentLeft(_, _) => up
      case WentRight(l, e) => up + InOrder(l) + [e]
  }

  function RightOf(path: seq<Step>): seq<Extent> {
    if path == [] then []
    else
      var up := RightOf(path[..|path| - 1]);
      match path[|path| - 1]
      case WentLeft(e, r) => [e] + InOrder(r) + up
      case WentRight(_, _) => up
  }

  lemma {:induction false} PlugInOrder(path: seq<Step>, t: Tree)
    ensures InOrder(Plug(path, t)) == LeftOf(path) + InOrder(t) + RightOf(path)
    decreases |path|
  {
    if path != [] {
      var up := path[..|path| - 1];
      var a, b := LeftOf(up), RightOf(up);
      match path[|path| - 1]
      case WentLeft(e, r) =>
        PlugInOrder(up, Node(t, e, r));
        Regroup(a, InOrder(t), [e], InOrder(r), b);
      case WentRight(l, e) =>
        PlugInOrder(up, Node(l, e, t));
        Regroup(a, InOrder(l), [e], InOrder(t), b);
    }
  }

  lemma Regroup(a: seq<Extent>, b: seq<Extent>, c: seq<Extent>, d: seq<Extent>, e: seq<Extent>)
    ensures a + (b + c + d) + e == a + b + (c + d + e)
    ensures a + (b + c + d) + e == (a + b + c) + d + e
  {
  }

  /** In an ordered walk nothing right of a node precedes it, and it precedes nothing left. */
  lemma OrderedAround(a: seq<Extent>, e: Extent, b: seq<Extent>, s: seq<Extent>)
    requires s == a + [e] + b && Ordered(s)
    ensures forall x | x in a :: !Before(e, x)
    ensures forall x | x in b :: !Before(x, e)
  {
    assert s[|a|] == e;
    forall x | x in a ensures !Before(e, x) {
      var i :| 0 <= i < |a| && a[i] == x;
      assert s[i] == x;
    }
    forall x | x in b ensures !Before(x, e) {
      var i :| 0 <= i < |b| && b[i] == x;
      assert s[|a| + 1 + i] == x;
    }
  }

  /** Where a new extent belongs: nothing left of the hole follows it, all to the right do. */
  ghost predicate Brackets(path: seq<Step>, ext: Extent) {
    && (forall x | x in LeftOf(path) :: !Before(ext, x))
    && (forall x | x in RightOf(path) :: Before(ext, x))
  }

  /** Turning at a node on the comparison with its extent keeps the new extent bracketed. */
  lemma StepDown(path: seq<Step>, link: Tree, ext: Extent, step: Step)
    requires link.Node? && Ordered(InOrder(Plug(path, link))) && Brackets(path, ext)
    requires step == if Before(ext, link.ext) then WentLeft(link.ext, link.right)
                                              else WentRight(link.left, link.ext)
    ensures Brackets(path + [step], ext)
    ensures Plug(path + [step], if step.WentLeft? then link.left else link.right) == Plug(path, link)
  {
    PlugInOrder(path, link);
    var a, b := InOrder(link.left), InOrder(link.right);
    OrderedAround(LeftOf(path) + a, link.ext, b + RightOf(path), InOrder(Plug(path, link)));
    assert (path + [step])[..|path|] == path;
    forall x | x in RightOf(path + [step]) ensures Before(ext, x) {
      assert x in RightOf(path) || (step.WentLeft? && (x == link.ext || x in b));
      assert x in b ==> x in b + RightOf(path);
    }
    forall x | x in LeftOf(path + [step]) ensures !Before(ext, x) {
      assert x in LeftOf(path) || (step.WentRight? && (x == link.ext || x in a));
      assert x in a ==> x in LeftOf(path) + a;
    }
  }

  /** The new node hung in the hole lands where list insertion puts it. */
  lemma HangNode(path: seq<Step>, ext: Extent)
    requires Ordered(InOrder(Plug(path, Leaf))) && Brackets(path, ext)
    ensures var s := InOrder(Plug(path, Leaf));
      && InOrder(Plug(path, Node(Leaf, ext, Leaf))) == InsertInto(s, ext)
      && Ordered(InsertInto(s, ext))
  {
    PlugInOrder(path, Leaf);
    PlugInOrder(path, Node(Leaf, ext, Leaf));
    assert InOrder(Leaf) == [] && InOrder(Node(Leaf, ext, Leaf)) == [ext];
    assert InOrder(Plug(path, Leaf)) == LeftOf(path) + RightOf(path);
    InsertIntoAt(LeftOf(path), RightOf(path), ext);
    var k := InsertIntoSplits(InOrder(Plug(path, Leaf)), ext);
  }

  function Appended(emitted: seq<Extent>, ext: Extent): (r: seq<Extent>)
    ensures r == emitted + [ext]
    ensures SortAll(r) == InsertInto(SortAll(emitted), ext)
  {
    assert (emitted + [ext])[..|emitted|] == emitted;
    emitted + [ext]
  }

  lemma ScanSortsStrictly(used: set<nat>, lo: nat, hi: nat)
    requires lo <= hi
    ensures StrictlyOrdered(SortAll(Scan(used, lo, hi, 0)))
  {
    ScanExact(used, lo, hi);
    SortApartStrict(Scan(used, lo, hi, 0));
  }

  // ---------------------------------------------------------------- the tree object

  class FreeExtentTree {
    var root: Tree

    ghost predicate Valid()
      reads this
    {
      Ordered(InOrder(root))
    }

    constructor ()
      ensures Valid() && root == Leaf
    {
      root := Leaf;
    }

    /** portfs_extent_tree_insert: walk down to a null link, hang the new node there, then
        let the library rebalance. */
    method Insert(ext: Extent)
      requires Valid()
      modifies this
      ensures Valid() && InOrder(root) == InsertInto(old(InOrder(root)), ext)
    {
      var path: seq<Step> := [];
      var link := root;
      while link.Node?
        invariant root == old(root) && Plug(path, link) == root
        invariant Brackets(path, ext)
        decreases link
      {
        var step := if Before(ext, link.ext) then WentLeft(link.ext, link.right)
                                             else WentRight(link.left, link.ext);
        StepDown(path, link, ext, step);
        path := path + [step];
        link := if step.WentLeft? then link.left else link.right;
      }
      HangNode(path, ext);
      root := Plug(path, Node(Leaf, ext, Leaf));
      Rebalance();
    }

    /** rb_insert_color, as far as order is concerned: any rotations anywhere. */
    method Rebalance()
      modifies this
      ensures InOrder(root) == old(InOrder(root))
    {
      var rotations: seq<Rotation> := *;
      for i := 0 to |rotations|
        invariant InOrder(root) == old(InOrder(root))
      {
        RotationKeepsOrder(root, rotations[i].path, rotations[i].towards);
        root := Rotate(root, rotations[i].path, rotations[i].towards);
      }
    }

    /** portfs_build_extent_tree. */
    method Build(bitmap: array<bv8>, dataStart: nat, totalBlocks: nat)
      requires Valid() && root == Leaf
      requires dataStart <= totalBlocks <= 8 * bitmap.Length
      modifies this
      ensures Valid()
      ensures InOrder(root) == SortAll(Scan(Allocated(bitmap[..]), dataStart, totalBlocks, 0))
      ensures StrictlyOrdered(InOrder(root))
    {
      ghost var used := Allocated(bitmap[..]);
      ghost var emitted: seq<Extent> := [];
      var length := 0;
      for i := dataStart to totalBlocks
        invariant Valid() && length <= i
        invariant InOrder(root) == SortAll(emitted)
        invariant Scan(used, dataStart, totalBlocks, 0) == emitted + Scan(used, i, totalBlocks, length)
      {
        if !IsBlockAllocated(bitmap, i) && length < MAX_EXTENT_LENGTH {
          length := length + 1;
        } else if length > 0 {
          var ext := Extent(i - length, length);
          Insert(ext);
          emitted := Appended(emitted, ext);
          length := 0;
        }
      }
      if length > 0 {
        var ext := Extent(totalBlocks - length, length);
        Insert(ext);
        emitted := Appended(emitted, ext);
      }
      assert Scan(used, dataStart, totalBlocks, 0) == emitted;
      ScanSortsStrictly(used, dataStart, totalBlocks);
    }

    /** portfs_destroy_extent_tree: take the first node until none is left. */
    method Destroy() returns (visited: seq<Extent>)
      modifies this
      ensures root == Leaf && visited == old(InOrder(root))
    {
      visited := [];
      while root.Node?
        invariant visited + InOrder(root) == old(InOrder(root))
        decreases |InOrder(root)|
      {
        EraseFirstDrops(root);
        visited := visited + [First(root)];
        root := EraseFirst(root);
      }
    }
  }

  /** rb_first. */
  function First(t: Tree): Extent
    requires t.Node?
  {
    if t.left.Leaf? then t.ext else First(t.left)
  }

  function EraseFirst(t: Tree): Tree
    requires t.Node?
  {
    if t.left.Leaf? then t.right else Node(EraseFirst(t.left), t.ext, t.right)
  }

  lemma {:induction false} EraseFirstDrops(t: Tree)
    requires t.Node?
    ensures InOrder(t) == [First(t)] + InOrder(EraseFirst(t))
  {
    if t.left.Node? {
      EraseFirstDrops(t.left);
    }
  }
}
