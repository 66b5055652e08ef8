/**
 Isolation trees (services/anomaly-detector/isolationforest.py).

 The random generator is an arbitrary stream of integer and real draws, read by
 position. Growing a tree is specified over that stream; the conservation laws
 hold for every stream. Rows may differ in length: reading a feature that a row
 lacks is the index error the source raises.
 */
module IsolationForest {
  import opened Wrappers
  import opened Moments
  import opened RealArith

  type Row = seq<real>

  datatype Error = IndexOutOfRange

  datatype Tree = Leaf(size: nat) | Node(feature: nat, split: real, left: Tree, right: Tree)

  /** The generator's future: the k-th draw as an integer and as a real in [0, 1). */
  datatype Stream = Stream(ints: nat -> nat, reals: nat -> real)

  ghost predicate Rectangular(data: seq<Row>, width: nat) {
    forall i :: 0 <= i < |data| ==> |data[i]| == width
  }

  /** Every row has the feature. */
  predicate Covers(data: seq<Row>, f: nat) {
    forall i :: 0 <= i < |data| ==> f < |data[i]|
  }

  // ---- Splitting -------------------------------------------------------------

  function Column(data: seq<Row>, f: nat): (col: seq<real>)
    requires Covers(data, f)
    ensures |col| == |data| && forall i :: 0 <= i < |data| ==> col[i] == data[i][f]
  {
    seq(|data|, i requires 0 <= i < |data| => data[i][f])
  }

  /** The rows on one side of a split, in order. */
  function Side(data: seq<Row>, f: nat, split: real, below: bool): (rows: seq<Row>)
    requires Covers(data, f)
    ensures |rows| <= |data|
    ensures forall i :: 0 <= i < |rows| ==> rows[i] in data && f < |rows[i]| && (rows[i][f] < split) == below
  {
    if data == [] then []
    else
      var n := |data| - 1;
      Side(data[..n], f, split, below) + if (data[n][f] < split) == below then [data[n]] else []
  }

  /** A feature and split value that leave rows on both sides, or None. */
  type Split = Option<(nat, real)>

  function SplitPoint(lo: real, hi: real, r: real): real {
    lo + r * (hi - lo)
  }

  /** One attempt at position pos: the split it yields and the next position. */
  function Attempt(src: Stream, pos: nat, data: seq<Row>): (Result<Split, Error>, nat)
    requires data != [] && data[0] != []
  {
    var f := src.ints(pos) % |data[0]|;
    if !Covers(data, f) then (Err(IndexOutOfRange), pos + 1)
    else
      var lo, hi := MinOf(Column(data, f)), MaxOf(Column(data, f));
      if lo == hi then (Ok(None), pos + 1)
      else
        var v := SplitPoint(lo, hi, src.reals(pos + 1));
        if Side(data, f, v, true) == [] || Side(data, f, v, false) == [] then (Ok(None), pos + 2)
        else (Ok(Some((f, v))), pos + 2)
  }

  /** The first success among a number of attempts. */
  function Search(src: Stream, pos: nat, data: seq<Row>, tries: nat): (Result<Split, Error>, nat)
    requires data != [] && (tries > 0 ==> data[0] != [])
    decreases tries
  {
    if tries == 0 then (Ok(None), pos)
    else
      var (split, next) := Attempt(src, pos, data);
      if split == Ok(None) then Search(src, next, data, tries - 1) else (split, next)
  }

  lemma {:induction false} SearchSound(src: Stream, pos: nat, data: seq<Row>, tries: nat)
    requires data != [] && (tries > 0 ==> data[0] != [])
    ensures var split := Search(src, pos, data, tries).0;
            split.Ok? && split.value.Some? ==>
              var (f, v) := split.value.value;
              && f < |data[0]| && Covers(data, f)
              && Side(data, f, v, true) != [] && Side(data, f, v, false) != []
    decreases tries
  {
    if tries == 0 {
    } else if Attempt(src, pos, data).0 == Ok(None) {
      SearchSound(src, Attempt(src, pos, data).1, data, tries - 1);
    }
  }

  /** The tree grown from position pos, and the position after it. */
  function Grow(src: Stream, pos: nat, data: seq<Row>, depth: nat, maxDepth: nat): (Result<Tree, Error>, nat)
    decreases if depth < maxDepth then maxDepth - depth else 0
  {
    if depth >= maxDepth || |data| <= 1 then (Ok(Leaf(|data|)), pos)
    else
      var (split, next) := Search(src, pos, data, |data[0]|);
      SearchSound(src, pos, data, |data[0]|);
      if split.Err? then (Err(split.error), next)
      else if split.value.None? then (Ok(Leaf(|data|)), next)
      else
        var (f, v) := split.value.value;
        var (left, afterLeft) := Grow(src, next, Side(data, f, v, true), depth + 1, maxDepth);
        if left.Err? then (left, afterLeft)
        else
          var (right, afterRight) := Grow(src, afterLeft, Side(data, f, v, false), depth + 1, maxDepth);
          if right.Err? then (right, afterRight)
          else (Ok(Node(f, v, left.value, right.value)), afterRight)
  }

  class Random {
    const stream: Stream
    var pos: nat

    constructor (stream: Stream)
      ensures this.stream == stream && pos == 0
    {
      this.stream := stream;
      pos := 0;
    }

    method Randrange(n: nat) returns (r: nat)
      requires n > 0
      modifies this
      ensures r == stream.ints(old(pos)) % n && pos == old(pos) + 1
    {
      r := stream.ints(pos) % n;
      pos := pos + 1;
    }

    method Real() returns (r: real)
      modifies this
      ensures r == stream.reals(old(pos)) && pos == old(pos) + 1
    {
      r := stream.reals(pos);
      pos := pos + 1;
    }
  }

  method FeatureRange(data: seq<Row>, f: nat) returns (range: Result<(real, real), Error>)
    requires data != []
    ensures range.Ok? <==> Covers(data, f)
    ensures range.Ok? ==> range.value == (MinOf(Column(data, f)), MaxOf(Column(data, f)))
  {
    if f >= |data[0]| {
      return Err(IndexOutOfRange);
    }
    var lo, hi := data[0][f], data[0][f];
    ghost var a, b := 0, 0;
    for i := 0 to |data|
      invariant 0 <= a < |data| && 0 <= b < |data| && f < |data[a]| && f < |data[b]| && lo == data[a][f] && hi == data[b][f]
      invariant forall j :: 0 <= j < i ==> f < |data[j]| && lo <= data[j][f] <= hi
    {
      if f >= |data[i]| {
        return Err(IndexOutOfRange);
      }
      if data[i][f] < lo {
        lo, a := data[i][f], i;
      }
      if data[i][f] > hi {
        hi, b := data[i][f], i;
      }
    }
    ExtremesOf(Column(data, f), a, b);
    return Ok((lo, hi));
  }

  lemma ExtremesOf(col: seq<real>, a: nat, b: nat)
    requires a < |col| && b < |col| && forall j :: 0 <= j < |col| ==> col[a] <= col[j] <= col[b]
    ensures MinOf(col) == col[a] && MaxOf(col) == col[b]
  {
  }

  method BuildTree(data: seq<Row>, depth: nat, maxDepth: nat, rng: Random) returns (tree: Result<Tree, Error>)
    modifies rng
    ensures (tree, rng.pos) == Grow(rng.stream, old(rng.pos), data, depth, maxDepth)
    decreases if depth < maxDepth then maxDepth - depth else 0
  {
    hide Attempt, Side;
    if depth >= maxDepth || |data| <= 1 {
      return Ok(Leaf(|data|));
    }
    var numFeatures := |data[0]|;
    var tried := 0;
    while tried < numFeatures
      invariant 0 <= tried <= numFeatures
      invariant Search(rng.stream, old(rng.pos), data, numFeatures) == Search(rng.stream, rng.pos, data, numFeatures - tried)
    {
      var split := TrySplit(data, rng);
      if split.Err? {
        return Err(split.error);
      }
      if split.value.Some? {
        var (f, v) := split.value.value;
        SearchSound(rng.stream, old(rng.pos), data, numFeatures);
        var left := BuildTree(Side(data, f, v, true), depth + 1, maxDepth, rng);
        if left.Err? {
          return left;
        }
        var right := BuildTree(Side(data, f, v, false), depth + 1, maxDepth, rng);
        if right.Err? {
          return right;
        }
        return Ok(Node(f, v, left.value, right.value));
      }
      tried := tried + 1;
    }
    return Ok(Leaf(|data|));
  }

  /** The body of the attempt loop: draw a feature, then a split value inside its range. */
  method TrySplit(data: seq<Row>, rng: Random) returns (split: Result<Split, Error>)
    requires data != [] && data[0] != []
    modifies rng
    ensures (split, rng.pos) == Attempt(rng.stream, old(rng.pos), data)
  {
    hide SplitPoint, Side, MinOf, MaxOf;
    var f := rng.Randrange(|data[0]|);
    var range := FeatureRange(data, f);
    if range.Err? {
      return Err(IndexOutOfRange);
    }
    var (lo, hi) := range.value;
    if lo == hi {
      return Ok(None);
    }
    var r := rng.Real();
    var v := SplitPoint(lo, hi, r);
    var left, right := Side(data, f, v, true), Side(data, f, v, false);
    if left == [] || right == [] {
      return Ok(None);
    }
    return Ok(Some((f, v)));
  }

  // ---- Routing and path length -----------------------------------------------

  /** The tree is a partition of the data: leaves count their rows, splits have rows on both sides. */
  ghost predicate Partitions(t: Tree, data: seq<Row>) {
    match t
    case Leaf(n) => n == |data|
    case Node(f, v, left, right) =>
      && Covers(data, f) && Side(data, f, v, true) != [] && Side(data, f, v, false) != []
      && Partitions(left, Side(data, f, v, true))
      && Partitions(right, Side(data, f, v, false))
  }

  /** Every split of the tree is on one of the first width features. */
  predicate Uses(t: Tree, width: nat) {
    t.Node? ==> t.feature < width && Uses(t.left, width) && Uses(t.right, width)
  }

  /** Every feature on x's way to its leaf is one that x has. */
  predicate Routable(x: Row, t: Tree) {
    t.Node? ==> t.feature < |x| && Routable(x, if x[t.feature] < t.split then t.left else t.right)
  }

  ghost predicate AllRoutable(data: seq<Row>, t: Tree) {
    forall i :: 0 <= i < |data| ==> Routable(data[i], t)
  }

  lemma {:induction false} UsesRoutable(x: Row, t: Tree)
    requires Uses(t, |x|)
    ensures Routable(x, t)
  {
    match t
    case Leaf(_) =>
    case Node(f, v, left, right) => UsesRoutable(x, if x[f] < v then left else right);
  }

  function Height(t: Tree): nat {
    if t.Leaf? then 0 else 1 + if Height(t.left) > Height(t.right) then Height(t.left) else Height(t.right)
  }

  /** The turns x takes to its leaf; true is left. */
  function Route(x: Row, t: Tree): (turns: seq<bool>)
    requires Routable(x, t)
    ensures IsLeafAt(t, turns) && |turns| <= Height(t)
  {
    if t.Leaf? then []
    else if x[t.feature] < t.split then [true] + Route(x, t.left)
    else [false] + Route(x, t.right)
  }

  predicate IsLeafAt(t: Tree, turns: seq<bool>) {
    if t.Leaf? then turns == []
    else turns != [] && IsLeafAt(if turns[0] then t.left else t.right, turns[1..])
  }

  function SizeAt(t: Tree, turns: seq<bool>): nat
    requires IsLeafAt(t, turns)
  {
    if t.Leaf? then t.size else SizeAt(if turns[0] then t.left else t.right, turns[1..])
  }

  /** Edges walked plus the correction c for the rows left together at the leaf. */
  function PathLength(c: nat -> real, x: Row, t: Tree, depth: nat): real
    requires Routable(x, t)
  {
    if t.Leaf? then depth as real + c(t.size)
    else if x[t.feature] < t.split then PathLength(c, x, t.left, depth + 1)
    else PathLength(c, x, t.right, depth + 1)
  }

  lemma {:induction false} PathLengthIsRoute(c: nat -> real, x: Row, t: Tree, depth: nat)
    requires Routable(x, t)
    ensures PathLength(c, x, t, depth) == (depth + |Route(x, t)|) as real + c(SizeAt(t, Route(x, t)))
  {
    match t
    case Leaf(_) =>
    case Node(f, v, left, right) =>
      if x[f] < v {
        PathLengthIsRoute(c, x, left, depth + 1);
        assert Route(x, t)[1..] == Route(x, left);
      } else {
        PathLengthIsRoute(c, x, right, depth + 1);
        assert Route(x, t)[1..] == Route(x, right);
      }
  }

  // ---- Conservation ----------------------------------------------------------

  /** Growth from any draws either hits the index error, or partitions the data within the depth allowed. */
  lemma {:induction false} GrowPartitions(src: Stream, pos: nat, data: seq<Row>, depth: nat, maxDepth: nat)
    ensures var t := Grow(src, pos, data, depth, maxDepth).0;
            t.Ok? ==> Partitions(t.value, data) && Height(t.value) <= if depth < maxDepth then maxDepth - depth else 0
    decreases if depth < maxDepth then maxDepth - depth else 0
  {
    hide Search, Side;
    if depth >= maxDepth || |data| <= 1 {
    } else {
      var (split, next) := Search(src, pos, data, |data[0]|);
      SearchSound(src, pos, data, |data[0]|);
      if split.Ok? && split.value.Some? {
        var (f, v) := split.value.value;
        var left := Side(data, f, v, true);
        GrowPartitions(src, next, left, depth + 1, maxDepth);
        GrowPartitions(src, Grow(src, next, left, depth + 1, maxDepth).1, Side(data, f, v, false), depth + 1, maxDepth);
      }
    }
  }

  /** A tree that partitions the data routes every row of it. */
  lemma {:induction false} PartitionRoutes(t: Tree, data: seq<Row>)
    requires Partitions(t, data)
    ensures AllRoutable(data, t)
    decreases t
  {
    hide Side;
    match t
    case Leaf(_) =>
    case Node(f, v, left, right) =>
      PartitionRoutes(left, Side(data, f, v, true));
      PartitionRoutes(right, Side(data, f, v, false));
      forall i | 0 <= i < |data|
        ensures Routable(data[i], t)
      {
        var b := data[i][f] < v;
        SideMember(data, f, v, b, i);
        var k :| 0 <= k < |Side(data, f, v, b)| && Side(data, f, v, b)[k] == data[i];
      }
  }

  lemma {:induction false} SideMember(data: seq<Row>, f: nat, split: real, below: bool, i: nat)
    requires Covers(data, f) && i < |data| && (data[i][f] < split) == below
    ensures data[i] in Side(data, f, split, below)
  {
    if i == |data| - 1 {
    } else {
      SideMember(data[..|data|-1], f, split, below, i);
    }
  }

  /** The rows on either side go on being routed. */
  lemma SideRoutable(data: seq<Row>, t: Tree, below: bool)
    requires AllRoutable(data, t) && t.Node?
    ensures Covers(data, t.feature)
    ensures AllRoutable(Side(data, t.feature, t.split, below), if below then t.left else t.right)
  {
    hide Side;
    var rows := Side(data, t.feature, t.split, below);
    forall i | 0 <= i < |rows|
      ensures Routable(rows[i], if below then t.left else t.right)
    {
      var k :| 0 <= k < |data| && data[k] == rows[i];
      assert Routable(data[k], t);
    }
  }

  /** How many rows the tree routes to the leaf at the given turns. */
  function Routed(data: seq<Row>, t: Tree, turns: seq<bool>): nat
    requires AllRoutable(data, t)
  {
    if data == [] then 0
    else
      var n := |data| - 1;
      Routed(data[..n], t, turns) + if Route(data[n], t) == turns then 1 else 0
  }

  lemma {:induction false} RoutedToLeaf(data: seq<Row>, size: nat)
    ensures Routed(data, Leaf(size), []) == |data|
  {
    if data == [] {
    } else {
      RoutedToLeaf(data[..|data|-1], size);
    }
  }

  /** Rows reach a leaf below a split from exactly one side of it. */
  lemma {:induction false} RoutedSplits(data: seq<Row>, t: Tree, turns: seq<bool>)
    requires AllRoutable(data, t) && t.Node? && turns != []
    ensures var child := if turns[0] then t.left else t.right;
            && Covers(data, t.feature) && AllRoutable(Side(data, t.feature, t.split, turns[0]), child)
            && Routed(data, t, turns) == Routed(Side(data, t.feature, t.split, turns[0]), child, turns[1..])
  {
    SideRoutable(data, t, turns[0]);
    if data == [] {
    } else {
      var n, b := |data| - 1, turns[0];
      RoutedSplits(data[..n], t, turns);
      var rest := Side(data[..n], t.feature, t.split, b);
      RouteTurns(data[n], t, turns);
      if (data[n][t.feature] < t.split) == b {
        assert Side(data, t.feature, t.split, b) == rest + [data[n]];
        assert (rest + [data[n]])[..|rest|] == rest;
      } else {
        assert Side(data, t.feature, t.split, b) == rest;
      }
    }
  }

  lemma RouteTurns(x: Row, t: Tree, turns: seq<bool>)
    requires Routable(x, t) && t.Node? && turns != []
    ensures Route(x, t) == turns
            <==> (x[t.feature] < t.split) == turns[0] && Route(x, if x[t.feature] < t.split then t.left else t.right) == turns[1..]
  {
  }

  /** Every leaf's recorded size is the number of training rows that _path_length sends to it. */
  lemma {:induction false} LeafSizeIsRoutedCount(t: Tree, data: seq<Row>, turns: seq<bool>)
    requires Partitions(t, data) && AllRoutable(data, t) && IsLeafAt(t, turns)
    ensures SizeAt(t, turns) == Routed(data, t, turns)
    ensures data != [] ==> SizeAt(t, turns) > 0
    decreases t
  {
    hide Side, Routed;
    match t
    case Leaf(n) =>
      RoutedToLeaf(data, n);
    case Node(f, v, left, right) =>
      RoutedSplits(data, t, turns);
      LeafSizeIsRoutedCount(if turns[0] then left else right, Side(data, f, v, turns[0]), turns[1..]);
  }

  function TotalEdges(data: seq<Row>, t: Tree): nat
    requires AllRoutable(data, t)
  {
    if data == [] then 0
    else
      var n := |data| - 1;
      TotalEdges(data[..n], t) + |Route(data[n], t)|
  }

  /** The rows present at each internal node, summed over the internal nodes. */
  function InternalRows(t: Tree, data: seq<Row>): nat
    requires AllRoutable(data, t)
  {
    if t.Leaf? then 0
    else
      SideRoutable(data, t, true);
      SideRoutable(data, t, false);
      |data| + InternalRows(t.left, Side(data, t.feature, t.split, true))
             + InternalRows(t.right, Side(data, t.feature, t.split, false))
  }

  /** Both sides of the split keep routing. */
  ghost predicate Splits(data: seq<Row>, t: Tree) {
    && AllRoutable(data, t) && t.Node? && Covers(data, t.feature)
    && AllRoutable(Side(data, t.feature, t.split, true), t.left)
    && AllRoutable(Side(data, t.feature, t.split, false), t.right)
  }

  lemma SplitsOf(data: seq<Row>, t: Tree)
    requires AllRoutable(data, t) && t.Node?
    ensures Splits(data, t)
  {
    SideRoutable(data, t, true);
    SideRoutable(data, t, false);
  }

  lemma {:induction false} EdgesSplit(data: seq<Row>, t: Tree)
    requires Splits(data, t)
    ensures TotalEdges(data, t)
         == |data| + TotalEdges(Side(data, t.feature, t.split, true), t.left)
                   + TotalEdges(Side(data, t.feature, t.split, false), t.right)
  {
    if data == [] {
    } else {
      var n := |data| - 1;
      SplitsOf(data[..n], t);
      EdgesSplit(data[..n], t);
      SideEdges(data, t, true);
      SideEdges(data, t, false);
    }
  }

  lemma SideEdges(data: seq<Row>, t: Tree, b: bool)
    requires data != [] && Splits(data, t) && Splits(data[..|data|-1], t)
    ensures var n, child := |data| - 1, if b then t.left else t.right;
            TotalEdges(Side(data, t.feature, t.split, b), child)
            == TotalEdges(Side(data[..n], t.feature, t.split, b), child)
               + if (data[n][t.feature] < t.split) == b then |Route(data[n], child)| else 0
  {
    var n := |data| - 1;
    var rest := Side(data[..n], t.feature, t.split, b);
    if (data[n][t.feature] < t.split) == b {
      assert Side(data, t.feature, t.split, b) == rest + [data[n]];
      assert (rest + [data[n]])[..|rest|] == rest;
    } else {
      assert Side(data, t.feature, t.split, b) == rest;
    }
  }

  lemma {:induction false} NoEdgesAtLeaf(data: seq<Row>, size: nat)
    ensures TotalEdges(data, Leaf(size)) == 0
  {
    if data == [] {
    } else {
      NoEdgesAtLeaf(data[..|data|-1], size);
    }
  }

  /** Edges walked, summed over rows, equal rows present, summed over internal nodes. */
  lemma {:induction false} EdgesEqualInternalRows(t: Tree, data: seq<Row>)
    requires AllRoutable(data, t)
    ensures TotalEdges(data, t) == InternalRows(t, data)
    decreases t
  {
    hide Side, TotalEdges;
    match t
    case Leaf(n) =>
      NoEdgesAtLeaf(data, n);
    case Node(f, v, left, right) =>
      SplitsOf(data, t);
      EdgesEqualInternalRows(left, Side(data, f, v, true));
      EdgesEqualInternalRows(right, Side(data, f, v, false));
      EdgesSplit(data, t);
  }

  /** The conservation laws of a tree: every training row is routed, leaf sizes count the rows routed to them,
      and edges walked equal rows present. */
  ghost predicate Conserves(t: Tree, data: seq<Row>) {
    && AllRoutable(data, t)
    && (forall turns :: IsLeafAt(t, turns) ==> SizeAt(t, turns) == Routed(data, t, turns))
    && (data != [] ==> forall turns :: IsLeafAt(t, turns) ==> SizeAt(t, turns) > 0)
    && TotalEdges(data, t) == InternalRows(t, data)
  }

  /** They hold of every grown tree, for any data and any draws. */
  lemma GrownTreeConserves(src: Stream, pos: nat, data: seq<Row>, maxDepth: nat)
    ensures var t := Grow(src, pos, data, 0, maxDepth).0;
            t.Ok? ==> Height(t.value) <= maxDepth && Conserves(t.value, data)
  {
    hide Grow, Side, Routed, TotalEdges, InternalRows, SizeAt, AllRoutable;
    var grown := Grow(src, pos, data, 0, maxDepth).0;
    if grown.Ok? {
      var t := grown.value;
      GrowPartitions(src, pos, data, 0, maxDepth);
      PartitionRoutes(t, data);
      forall turns | IsLeafAt(t, turns)
        ensures SizeAt(t, turns) == Routed(data, t, turns)
        ensures data != [] ==> SizeAt(t, turns) > 0
      {
        LeafSizeIsRoutedCount(t, data, turns);
      }
      EdgesEqualInternalRows(t, data);
    }
  }

  // ---- When rows differ in length --------------------------------------------

  /** Rows of one width never meet the index error, and no split is on a feature past that width. */
  lemma {:induction false} RectangularGrows(src: Stream, pos: nat, data: seq<Row>, width: nat, depth: nat, maxDepth: nat)
    requires Rectangular(data, width)
    ensures var t := Grow(src, pos, data, depth, maxDepth).0;
            t.Ok? && Uses(t.value, width)
    decreases if depth < maxDepth then maxDepth - depth else 0
  {
    hide Search, Side;
    if depth >= maxDepth || |data| <= 1 {
    } else {
      var (split, next) := Search(src, pos, data, width);
      SearchSound(src, pos, data, width);
      RectangularSearches(src, pos, data, width, width);
      if split.value.Some? {
        var (f, v) := split.value.value;
        var left, right := Side(data, f, v, true), Side(data, f, v, false);
        SubsampleRectangular(data, width, left);
        SubsampleRectangular(data, width, right);
        RectangularGrows(src, next, left, width, depth + 1, maxDepth);
        RectangularGrows(src, Grow(src, next, left, depth + 1, maxDepth).1, right, width, depth + 1, maxDepth);
      }
    }
  }

  lemma {:induction false} RectangularSearches(src: Stream, pos: nat, data: seq<Row>, width: nat, tries: nat)
    requires Rectangular(data, width) && data != [] && (tries > 0 ==> width > 0)
    ensures Search(src, pos, data, tries).0.Ok?
    decreases tries
  {
    hide Side, MinOf, MaxOf, SplitPoint;
    if tries == 0 {
    } else if Attempt(src, pos, data).0 == Ok(None) {
      RectangularSearches(src, Attempt(src, pos, data).1, data, width, tries - 1);
    }
  }

  /** But when a row is shorter than the first one, some draws meet it, whatever else the data holds. */
  lemma RaggedCanFail(data: seq<Row>, i: nat, maxDepth: nat)
    requires i < |data| && |data[i]| < |data[0]| && maxDepth > 0
    ensures exists src :: Grow(src, 0, data, 0, maxDepth).0 == Err(IndexOutOfRange)
  {
    var src := Stream(_ => |data[i]|, _ => 0.0);
    assert src.ints(0) % |data[0]| == |data[i]|;
    assert !Covers(data, |data[i]|);
    assert Attempt(src, 0, data).0 == Err(IndexOutOfRange);
    assert Search(src, 0, data, |data[0]|).0 == Err(IndexOutOfRange);
    assert Grow(src, 0, data, 0, maxDepth).0 == Err(IndexOutOfRange);
  }

  // ---- When a node is left unsplit -------------------------------------------

  lemma {:induction false} SideEmpty(data: seq<Row>, f: nat, split: real, below: bool)
    requires Covers(data, f)
    requires forall i :: 0 <= i < |data| ==> (data[i][f] < split) != below
    ensures Side(data, f, split, below) == []
  {
    if data == [] {
    } else {
      SideEmpty(data[..|data|-1], f, split, below);
    }
  }

  lemma SplitPointInside(lo: real, hi: real, r: real)
    requires lo < hi && 0.0 <= r < 1.0
    ensures lo <= SplitPoint(lo, hi, r) < hi
    ensures SplitPoint(lo, hi, r) == lo <==> r == 0.0
  {
    ScaleGrows(r, 1.0, hi - lo);
    if r > 0.0 {
      ScaleGrows(0.0, r, hi - lo);
    }
  }

  /** An attempt raises exactly when some row lacks the drawn feature; and it fails exactly when the feature is
      constant over the data or the split draw is zero: no other split can leave a side empty. */
  lemma AttemptFailsIff(src: Stream, pos: nat, data: seq<Row>)
    requires data != [] && data[0] != []
    requires 0.0 <= src.reals(pos + 1) < 1.0
    ensures var f, split := src.ints(pos) % |data[0]|, Attempt(src, pos, data).0;
            && (split.Err? <==> exists i :: 0 <= i < |data| && f >= |data[i]|)
            && (split.Ok? ==>
                 (split.value.None?
                  <==> (forall i, j :: 0 <= i < |data| && 0 <= j < |data| ==> data[i][f] == data[j][f])
                       || src.reals(pos + 1) == 0.0))
  {
    hide MinOf, MaxOf, Side, SplitPoint;
    var f, r := src.ints(pos) % |data[0]|, src.reals(pos + 1);
    if Covers(data, f) {
      var col := Column(data, f);
      var lo, hi := MinOf(col), MaxOf(col);
      var a :| 0 <= a < |col| && col[a] == lo;
      var b :| 0 <= b < |col| && col[b] == hi;
      assert data[a][f] == lo && data[b][f] == hi;
      if lo == hi {
        assert forall i :: 0 <= i < |data| ==> lo <= col[i] <= hi;
      } else {
        SplitPointInside(lo, hi, r);
        var v := SplitPoint(lo, hi, r);
        SideMember(data, f, v, false, b);
        if r == 0.0 {
          assert forall i :: 0 <= i < |data| ==> lo <= col[i];
          SideEmpty(data, f, v, true);
        } else {
          SideMember(data, f, v, true, a);
        }
      }
    }
  }

  // ---- What growth does with its draws ---------------------------------------

  /** Every real draw lies in [0, 1). */
  ghost predicate UnitDraws(src: Stream) {
    forall k: nat :: 0.0 <= src.reals(k) < 1.0
  }

  /** The feature is the same in every row. */
  predicate Constant(data: seq<Row>, f: nat)
    requires Covers(data, f)
  {
    forall i, j :: 0 <= i < |data| && 0 <= j < |data| ==> data[i][f] == data[j][f]
  }

  /** The feature that the integer draw at p picks. */
  function FeatureAt(src: Stream, p: nat, data: seq<Row>): nat
    requires data != [] && data[0] != []
  {
    src.ints(p) % |data[0]|
  }

  /** The attempt that starts at draw p cannot split: its feature is constant, or its split draw is zero. */
  predicate Stuck(src: Stream, p: nat, data: seq<Row>)
    requires data != [] && data[0] != []
  {
    var f := FeatureAt(src, p, data);
    Covers(data, f) && (Constant(data, f) || src.reals(p + 1) == 0.0)
  }

  /** Where the j-th attempt starts, when the ones before it could not split: one draw goes on a constant feature, two otherwise. */
  function DrawsAt(src: Stream, pos: nat, data: seq<Row>, j: nat): nat
    requires data != [] && data[0] != []
  {
    if j == 0 then pos
    else
      var p := DrawsAt(src, pos, data, j - 1);
      var f := FeatureAt(src, p, data);
      if Covers(data, f) && !Constant(data, f) then p + 2 else p + 1
  }

  /** The value lies the given part of the way from the least to the greatest value of the column. */
  ghost predicate LiesAt(v: real, data: seq<Row>, f: nat, part: real)
    requires Covers(data, f)
  {
    exists a, b :: 0 <= a < |data| && 0 <= b < |data|
      && (forall i :: 0 <= i < |data| ==> data[a][f] <= data[i][f] <= data[b][f])
      && v == data[a][f] + Times(part, data[b][f] - data[a][f])
  }

  /** What one attempt comes to, told from its draws and the rows. */
  lemma AttemptIs(src: Stream, p: nat, data: seq<Row>)
    requires data != [] && data[0] != [] && UnitDraws(src)
    ensures var (split, next) := Attempt(src, p, data);
            var f := FeatureAt(src, p, data);
            && (split.Err? <==> !Covers(data, f))
            && (split == Ok(None) <==> Stuck(src, p, data))
            && (split == Ok(None) ==> next == if Constant(data, f) then p + 1 else p + 2)
            && (split.Ok? && split.value.Some? ==>
                  split.value.value.0 == f && LiesAt(split.value.value.1, data, f, src.reals(p + 1)) && next == p + 2)
  {
    hide MinOf, MaxOf, Side, Column, LiesAt, Constant, SplitPoint, UnitDraws;
    var f := FeatureAt(src, p, data);
    DrawsInUnit(src, p + 1);
    AttemptFailsIff(src, p, data);
    CoversIff(data, f);
    if Covers(data, f) {
      ColumnRange(data, f, src.reals(p + 1));
    }
  }

  lemma DrawsInUnit(src: Stream, k: nat)
    requires UnitDraws(src)
    ensures 0.0 <= src.reals(k) < 1.0
  {
  }

  lemma CoversIff(data: seq<Row>, f: nat)
    ensures !Covers(data, f) <==> exists i :: 0 <= i < |data| && f >= |data[i]|
    ensures Covers(data, f) ==> (Constant(data, f) <==> forall i, j :: 0 <= i < |data| && 0 <= j < |data| ==> data[i][f] == data[j][f])
  {
  }

  lemma SplitPointIs(lo: real, hi: real, r: real)
    ensures SplitPoint(lo, hi, r) == lo + Times(r, hi - lo)
  {
  }

  /** The column's extremes are values of it, and they agree exactly if the feature is constant. */
  lemma ColumnRange(data: seq<Row>, f: nat, r: real)
    requires Covers(data, f) && data != []
    ensures var lo, hi := MinOf(Column(data, f)), MaxOf(Column(data, f));
            LiesAt(SplitPoint(lo, hi, r), data, f, r) && (lo == hi <==> Constant(data, f))
  {
    hide MinOf, MaxOf, Times, SplitPoint, Constant, LiesAt, Column;
    var a, b := ColumnExtremes(data, f);
    SplitPointIs(data[a][f], data[b][f], r);
    LiesAtBetween(data, f, r, a, b);
    ConstantIff(data, f, a, b);
  }

  lemma ColumnExtremes(data: seq<Row>, f: nat) returns (a: nat, b: nat)
    requires Covers(data, f) && data != []
    ensures a < |data| && b < |data|
    ensures MinOf(Column(data, f)) == data[a][f] && MaxOf(Column(data, f)) == data[b][f]
    ensures forall i :: 0 <= i < |data| ==> data[a][f] <= data[i][f] <= data[b][f]
  {
    hide MinOf, MaxOf;
    var col := Column(data, f);
    a :| 0 <= a < |col| && col[a] == MinOf(col);
    b :| 0 <= b < |col| && col[b] == MaxOf(col);
    forall i | 0 <= i < |data|
      ensures data[a][f] <= data[i][f] <= data[b][f]
    {
      assert MinOf(col) <= col[i] <= MaxOf(col);
      assert col[i] == data[i][f] && col[a] == data[a][f] && col[b] == data[b][f];
    }
  }

  lemma LiesAtBetween(data: seq<Row>, f: nat, part: real, a: nat, b: nat)
    requires Covers(data, f) && a < |data| && b < |data|
    requires forall i :: 0 <= i < |data| ==> data[a][f] <= data[i][f] <= data[b][f]
    ensures LiesAt(data[a][f] + Times(part, data[b][f] - data[a][f]), data, f, part)
  {
    hide Times;
  }

  lemma ConstantIff(data: seq<Row>, f: nat, a: nat, b: nat)
    requires Covers(data, f) && a < |data| && b < |data|
    requires forall i :: 0 <= i < |data| ==> data[a][f] <= data[i][f] <= data[b][f]
    ensures Constant(data, f) <==> data[a][f] == data[b][f]
  {
  }

  /** After one attempt that cannot split, the rest read their draws from where it stopped. */
  lemma {:induction false} DrawsShift(src: Stream, pos: nat, next: nat, data: seq<Row>, j: nat)
    requires data != [] && data[0] != [] && next == DrawsAt(src, pos, data, 1)
    ensures DrawsAt(src, next, data, j) == DrawsAt(src, pos, data, j + 1)
  {
    if j == 0 {
    } else {
      DrawsShift(src, pos, next, data, j - 1);
    }
  }

  ghost predicate AllStuck(src: Stream, pos: nat, data: seq<Row>, tries: nat)
    requires data != [] && (tries > 0 ==> data[0] != [])
  {
    forall j: nat :: j < tries ==> Stuck(src, DrawsAt(src, pos, data, j), data)
  }

  /** The search fails exactly when every attempt is stuck, and otherwise is the first attempt that is not. */
  lemma {:induction false} SearchDecides(src: Stream, pos: nat, data: seq<Row>, tries: nat)
    requires data != [] && (tries > 0 ==> data[0] != []) && UnitDraws(src)
    ensures Search(src, pos, data, tries).0 == Ok(None) <==> AllStuck(src, pos, data, tries)
    ensures forall j: nat :: j < tries && AllStuck(src, pos, data, j) && !Stuck(src, DrawsAt(src, pos, data, j), data) ==>
              Search(src, pos, data, tries) == Attempt(src, DrawsAt(src, pos, data, j), data)
    ensures AllStuck(src, pos, data, tries) ==>
              Search(src, pos, data, tries).1 == if tries == 0 then pos else DrawsAt(src, pos, data, tries)
    decreases tries
  {
    hide Attempt, Stuck, DrawsAt, FeatureAt, AllStuck;
    if tries == 0 {
      NoneStuck(src, pos, data);
    } else {
      AttemptIs(src, pos, data);
      FirstStuck(src, pos, data);
      if Stuck(src, pos, data) {
        var next := DrawsAt(src, pos, data, 1);
        SearchDecides(src, next, data, tries - 1);
        forall k: nat | k < tries
          ensures AllStuck(src, pos, data, k + 1) <==> AllStuck(src, next, data, k)
          ensures DrawsAt(src, next, data, k) == DrawsAt(src, pos, data, k + 1)
        {
          DrawsShift(src, pos, next, data, k);
          StuckShift(src, pos, next, data, k);
        }
        forall j: nat | j < tries && AllStuck(src, pos, data, j) && !Stuck(src, DrawsAt(src, pos, data, j), data)
          ensures Search(src, pos, data, tries) == Attempt(src, DrawsAt(src, pos, data, j), data)
        {
          assert j > 0;
          assert AllStuck(src, pos, data, j - 1 + 1) && AllStuck(src, next, data, j - 1);
        }
      }
    }
  }

  lemma NoneStuck(src: Stream, pos: nat, data: seq<Row>)
    requires data != []
    ensures AllStuck(src, pos, data, 0)
  {
  }

  /** The first attempt starts at once, and all later ones presuppose that it is stuck. */
  lemma FirstStuck(src: Stream, pos: nat, data: seq<Row>)
    requires data != [] && data[0] != []
    ensures DrawsAt(src, pos, data, 0) == pos
    ensures forall k: nat :: k > 0 && AllStuck(src, pos, data, k) ==> Stuck(src, pos, data)
    ensures Stuck(src, pos, data) ==>
              DrawsAt(src, pos, data, 1) == if Constant(data, FeatureAt(src, pos, data)) then pos + 1 else pos + 2
  {
    hide Constant;
    forall k: nat | k > 0 && AllStuck(src, pos, data, k)
      ensures Stuck(src, pos, data)
    {
      assert Stuck(src, DrawsAt(src, pos, data, 0), data);
    }
  }

  lemma StuckCovers(src: Stream, p: nat, data: seq<Row>)
    requires data != [] && data[0] != [] && Stuck(src, p, data)
    ensures Covers(data, FeatureAt(src, p, data))
  {
  }

  lemma StuckShift(src: Stream, pos: nat, next: nat, data: seq<Row>, k: nat)
    requires data != [] && data[0] != [] && next == DrawsAt(src, pos, data, 1) && Stuck(src, pos, data)
    ensures AllStuck(src, pos, data, k + 1) <==> AllStuck(src, next, data, k)
  {
    hide Stuck;
    assert DrawsAt(src, pos, data, 0) == pos;
    forall j: nat
      ensures DrawsAt(src, next, data, j) == DrawsAt(src, pos, data, j + 1)
    {
      DrawsShift(src, pos, next, data, j);
    }
    if AllStuck(src, next, data, k) {
      forall j: nat | j < k + 1
        ensures Stuck(src, DrawsAt(src, pos, data, j), data)
      {
        assert j > 0 ==> DrawsAt(src, next, data, j - 1) == DrawsAt(src, pos, data, j);
      }
    }
    if AllStuck(src, pos, data, k + 1) {
      forall j: nat | j < k
        ensures Stuck(src, DrawsAt(src, next, data, j), data)
      {
        assert DrawsAt(src, next, data, j) == DrawsAt(src, pos, data, j + 1);
      }
    }
  }

  /** Exactly when a node above the depth limit with more than one row stays a leaf: each of as many attempts as the
      first row has features draws a constant feature or a zero. */
  lemma StaysLeafIff(src: Stream, pos: nat, data: seq<Row>, depth: nat, maxDepth: nat)
    requires UnitDraws(src) && depth < maxDepth && |data| > 1
    ensures var t := Grow(src, pos, data, depth, maxDepth).0;
            t.Ok? && t.value.Leaf? <==> AllStuck(src, pos, data, |data[0]|)
    ensures AllStuck(src, pos, data, |data[0]|) ==>
              Grow(src, pos, data, depth, maxDepth) == (Ok(Leaf(|data|)), if data[0] == [] then pos else DrawsAt(src, pos, data, |data[0]|))
  {
    hide Search, Side, AllStuck;
    SearchDecides(src, pos, data, |data[0]|);
    SearchSound(src, pos, data, |data[0]|);
  }

  /** Otherwise the first attempt that is not stuck decides. It raises if a row lacks its feature; else the node splits
      that feature at the drawn part of its range, and its two subtrees are grown, left first, from the rows on either
      side, with the draws that follow. */
  lemma SplitsAtFirst(src: Stream, pos: nat, data: seq<Row>, depth: nat, maxDepth: nat, j: nat)
    requires UnitDraws(src) && depth < maxDepth && |data| > 1 && j < |data[0]|
    requires AllStuck(src, pos, data, j) && !Stuck(src, DrawsAt(src, pos, data, j), data)
    ensures var (t, after) := Grow(src, pos, data, depth, maxDepth);
            var p := DrawsAt(src, pos, data, j);
            var f := FeatureAt(src, p, data);
            if !Covers(data, f) then t == Err(IndexOutOfRange)
            else
              exists v: real ::
                && LiesAt(v, data, f, src.reals(p + 1))
                && Side(data, f, v, true) != [] && Side(data, f, v, false) != []
                && var (left, afterLeft) := Grow(src, p + 2, Side(data, f, v, true), depth + 1, maxDepth);
                   var (right, afterRight) := Grow(src, afterLeft, Side(data, f, v, false), depth + 1, maxDepth);
                   if left.Err? then t == left
                   else if right.Err? then t == right
                   else t == Ok(Node(f, v, left.value, right.value)) && after == afterRight
  {
    hide Search, Side, AllStuck, Stuck, LiesAt;
    var p := DrawsAt(src, pos, data, j);
    SearchDecides(src, pos, data, |data[0]|);
    SearchSound(src, pos, data, |data[0]|);
    AttemptIs(src, p, data);
  }

  /** No feature is the same in every row. */
  ghost predicate Varied(data: seq<Row>, width: nat)
    requires Rectangular(data, width)
  {
    forall f :: 0 <= f < width ==> !Constant(data, f)
  }

  /** Growth splits whenever it can: with no constant feature and no draw of zero, the first feature drawn is split at
      the drawn part of its range. */
  lemma SplitsWheneverItCan(src: Stream, pos: nat, data: seq<Row>, width: nat, depth: nat, maxDepth: nat)
    requires (forall k: nat :: 0.0 < src.reals(k) < 1.0) && depth < maxDepth && |data| > 1
    requires Rectangular(data, width) && width > 0 && Varied(data, width)
    ensures var t := Grow(src, pos, data, depth, maxDepth).0;
            && t.Ok? && t.value.Node? && t.value.feature == src.ints(pos) % width
            && LiesAt(t.value.split, data, t.value.feature, src.reals(pos + 1))
  {
    hide Grow, Side, LiesAt, Constant;
    assert Varied(data, width) && !Constant(data, src.ints(pos) % width);
    assert DrawsAt(src, pos, data, 0) == pos && AllStuck(src, pos, data, 0);
    SplitsAtFirst(src, pos, data, depth, maxDepth, 0);
    RectangularGrows(src, pos, data, width, depth, maxDepth);
  }

  /** Every leaf is forced: it sits at the depth limit, or holds at most one row, or some feature is constant on its rows. */
  ghost predicate Forced(t: Tree, data: seq<Row>, depth: nat, maxDepth: nat) {
    match t
    case Leaf(_) => depth >= maxDepth || |data| <= 1 || data[0] == [] || SomeConstant(data)
    case Node(f, v, left, right) =>
      && Covers(data, f)
      && Forced(left, Side(data, f, v, true), depth + 1, maxDepth)
      && Forced(right, Side(data, f, v, false), depth + 1, maxDepth)
  }

  ghost predicate SomeConstant(data: seq<Row>) {
    exists f: nat :: Covers(data, f) && Constant(data, f)
  }

  /** With no draw of zero, no grown tree stops early anywhere. */
  lemma {:induction false} LeavesAreForced(src: Stream, pos: nat, data: seq<Row>, depth: nat, maxDepth: nat)
    requires forall k: nat :: 0.0 < src.reals(k) < 1.0
    ensures var t := Grow(src, pos, data, depth, maxDepth).0;
            t.Ok? ==> Forced(t.value, data, depth, maxDepth)
    decreases if depth < maxDepth then maxDepth - depth else 0
  {
    hide Search, Side, Constant;
    if depth >= maxDepth || |data| <= 1 {
    } else {
      var (split, next) := Search(src, pos, data, |data[0]|);
      SearchSound(src, pos, data, |data[0]|);
      SearchDecides(src, pos, data, |data[0]|);
      if split == Ok(None) {
        if data[0] != [] {
          assert Stuck(src, DrawsAt(src, pos, data, 0), data);
          assert Constant(data, FeatureAt(src, pos, data));
        }
      } else if split.Ok? {
        var (f, v) := split.value.value;
        var left := Side(data, f, v, true);
        LeavesAreForced(src, next, left, depth + 1, maxDepth);
        LeavesAreForced(src, Grow(src, next, left, depth + 1, maxDepth).1, Side(data, f, v, false), depth + 1, maxDepth);
      }
    }
  }

  // ---- The forest and its score ----------------------------------------------

  /** What is used of the path-length correction: c(0) = c(1) = 0, c(2) = 1, never decreasing. */
  ghost predicate IsCorrection(c: nat -> real) {
    c(0) == 0.0 && c(1) == 0.0 && c(2) == 1.0 && forall m: nat, n: nat :: m <= n ==> 0.0 <= c(m) <= c(n)
  }

  /** What is used of exponentiation to base two. */
  ghost predicate IsExp2(exp2: real -> real) {
    exp2(0.0) == 1.0 && (forall y: real :: exp2(y) > 0.0) && forall y: real, z: real :: y <= z ==> exp2(y) <= exp2(z)
  }

  datatype Forest = Forest(trees: seq<Tree>, subsampleSize: nat, norm: real)

  function CeilLog2(n: nat): nat {
    if n <= 1 then 0 else 1 + CeilLog2((n + 1) / 2)
  }

  function Pow2(k: nat): nat {
    if k == 0 then 1 else 2 * Pow2(k - 1)
  }

  /** The depth limit is the least height at which a balanced tree could isolate n rows. */
  lemma {:induction false} CeilLog2Exact(n: nat)
    requires n >= 2
    ensures CeilLog2(n) >= 1 && Pow2(CeilLog2(n) - 1) < n <= Pow2(CeilLog2(n))
  {
    var m := (n + 1) / 2;
    if m >= 2 {
      CeilLog2Exact(m);
      assert CeilLog2(n) == 1 + CeilLog2(m);
      assert Pow2(CeilLog2(m)) == 2 * Pow2(CeilLog2(m) - 1);
    } else {
      assert n == 2 && CeilLog2(1) == 0;
    }
  }

  function DepthLimit(n: nat): nat {
    CeilLog2(if n < 2 then 2 else n)
  }

  /** The limit of a forest: the least depth whose power of two covers the subsample, and one for the smallest. */
  lemma DepthLimitExact(n: nat)
    ensures DepthLimit(n) >= 1
    ensures if n < 2 then DepthLimit(n) == 1 else Pow2(DepthLimit(n) - 1) < n <= Pow2(DepthLimit(n))
  {
    CeilLog2Exact(if n < 2 then 2 else n);
    if n < 2 {
      assert CeilLog2(1) == 0;
    }
  }

  /** A draw of n distinct row numbers out of total. */
  ghost predicate ValidPick(pick: seq<nat>, n: nat, total: nat) {
    && |pick| == n && (forall i :: 0 <= i < n ==> pick[i] < total)
    && (forall i, j :: 0 <= i < j < n ==> pick[i] != pick[j])
  }

  /** The subsample: all rows when n covers them, else the rows drawn. */
  function Subsample(data: seq<Row>, n: nat, pick: seq<nat>): (sample: seq<Row>)
    requires n < |data| ==> ValidPick(pick, n, |data|)
    ensures |sample| == if n < |data| then n else |data|
    ensures forall r :: r in sample ==> r in data
    ensures if n < |data| then forall i :: 0 <= i < n ==> sample[i] == data[pick[i]] else sample == data
  {
    if n >= |data| then data else seq(n, i requires 0 <= i < n => data[pick[i]])
  }

  /** The tree partitions a sample of n rows of the data. */
  ghost predicate FittedTo(t: Tree, data: seq<Row>, n: nat) {
    exists sample: seq<Row> :: |sample| == n && (forall r :: r in sample ==> r in data) && Partitions(t, sample)
  }

  ghost predicate Fitted(forest: Forest, data: seq<Row>, c: nat -> real) {
    && forest.norm == c(forest.subsampleSize)
    && forall k :: 0 <= k < |forest.trees| ==>
         FittedTo(forest.trees[k], data, forest.subsampleSize) && Height(forest.trees[k]) <= DepthLimit(forest.subsampleSize)
  }

  /** No tree splits on a feature past the width. */
  ghost predicate AllUse(trees: seq<Tree>, width: nat) {
    forall k :: 0 <= k < |trees| ==> Uses(trees[k], width)
  }

  /** The first k trees, each grown on its own pick with the draws that follow those of the one before. */
  function FitTrees(src: Stream, pos: nat, data: seq<Row>, n: nat, picks: nat -> seq<nat>, k: nat): (Result<seq<Tree>, Error>, nat)
    requires n < |data| ==> forall i: nat :: ValidPick(picks(i), n, |data|)
  {
    if k == 0 then (Ok([]), pos)
    else
      var (trees, next) := FitTrees(src, pos, data, n, picks, k - 1);
      if trees.Err? then (trees, next)
      else
        var (tree, after) := Grow(src, next, Subsample(data, n, picks(k - 1)), 0, DepthLimit(n));
        if tree.Err? then (Err(tree.error), after) else (Ok(trees.value + [tree.value]), after)
  }

  method FitIsolationForest(data: seq<Row>, numTrees: int, requestedSize: nat, c: nat -> real,
                            rng: Random, picks: nat -> seq<nat>)
    returns (forest: Result<Forest, Error>)
    requires requestedSize < |data| ==> forall k: nat :: ValidPick(picks(k), requestedSize, |data|)
    modifies rng
    ensures var n := if requestedSize < |data| then requestedSize else |data|;
            var (trees, after) := FitTrees(rng.stream, old(rng.pos), data, n, picks, if numTrees < 0 then 0 else numTrees);
            forest == (if trees.Err? then Err(trees.error) else Ok(Forest(trees.value, n, c(n))))
    ensures forest.Ok? ==>
              && |forest.value.trees| == (if numTrees < 0 then 0 else numTrees)
              && forest.value.subsampleSize == (if requestedSize < |data| then requestedSize else |data|)
              && Fitted(forest.value, data, c)
    ensures forall width: nat :: Rectangular(data, width) ==> forest.Ok? && AllUse(forest.value.trees, width)
  {
    hide Grow, FitTrees;
    var n := if requestedSize > |data| then |data| else requestedSize;
    var maxDepth := DepthLimit(n);
    var trees := [];
    var k := 0;
    ghost var start := rng.pos;
    ghost var total := if numTrees < 0 then 0 else numTrees;
    FitNone(rng.stream, start, data, n, picks);
    while k < numTrees
      invariant 0 <= k <= total && (numTrees < 0 ==> k == 0)
      invariant FitTrees(rng.stream, start, data, n, picks, k) == (Ok(trees), rng.pos)
    {
      var sample := Subsample(data, n, picks(k));
      FitOneMore(rng.stream, start, data, n, picks, k);
      var tree := BuildTree(sample, 0, maxDepth, rng);
      if tree.Err? {
        FitStaysErr(rng.stream, start, data, n, picks, k + 1, total);
        FittedTrees(rng.stream, start, data, n, picks, total);
        return Err(tree.error);
      }
      trees := trees + [tree.value];
      k := k + 1;
    }
    FittedTrees(rng.stream, start, data, n, picks, total);
    return Ok(Forest(trees, n, c(n)));
  }

  lemma FitNone(src: Stream, pos: nat, data: seq<Row>, n: nat, picks: nat -> seq<nat>)
    requires n < |data| ==> forall i: nat :: ValidPick(picks(i), n, |data|)
    ensures FitTrees(src, pos, data, n, picks, 0) == (Ok([]), pos)
  {
  }

  lemma FitOneMore(src: Stream, pos: nat, data: seq<Row>, n: nat, picks: nat -> seq<nat>, k: nat)
    requires n < |data| ==> forall i: nat :: ValidPick(picks(i), n, |data|)
    requires FitTrees(src, pos, data, n, picks, k).0.Ok?
    ensures var (trees, next) := FitTrees(src, pos, data, n, picks, k);
            var (tree, after) := Grow(src, next, Subsample(data, n, picks(k)), 0, DepthLimit(n));
            FitTrees(src, pos, data, n, picks, k + 1)
            == (if tree.Err? then Err(tree.error) else Ok(trees.value + [tree.value]), after)
  {
    hide Grow;
  }

  lemma {:induction false} FitStaysErr(src: Stream, pos: nat, data: seq<Row>, n: nat, picks: nat -> seq<nat>, j: nat, k: nat)
    requires n < |data| ==> forall i: nat :: ValidPick(picks(i), n, |data|)
    requires j <= k && FitTrees(src, pos, data, n, picks, j).0.Err?
    ensures FitTrees(src, pos, data, n, picks, k) == FitTrees(src, pos, data, n, picks, j)
  {
    hide Grow;
    if j == k {
    } else {
      FitStaysErr(src, pos, data, n, picks, j, k - 1);
    }
  }

  /** Every tree is grown, from some draw on, on its own sample; none fails on rows of one width. */
  lemma {:induction false} FittedTrees(src: Stream, pos: nat, data: seq<Row>, n: nat, picks: nat -> seq<nat>, k: nat)
    requires n < |data| ==> forall i: nat :: ValidPick(picks(i), n, |data|)
    requires n <= |data|
    ensures var trees := FitTrees(src, pos, data, n, picks, k).0;
            && (trees.Ok? ==>
                 && |trees.value| == k
                 && forall i: nat :: i < k ==>
                      && GrownOn(src, Subsample(data, n, picks(i)), DepthLimit(n), trees.value[i])
                      && FittedTo(trees.value[i], data, n) && Height(trees.value[i]) <= DepthLimit(n))
            && (forall width: nat :: Rectangular(data, width) ==> trees.Ok? && AllUse(trees.value, width))
  {
    hide Grow, GrownOn, FittedTo, DepthLimit, Subsample;
    if k == 0 {
      FitNone(src, pos, data, n, picks);
    } else {
      FittedTrees(src, pos, data, n, picks, k - 1);
      var (trees, next) := FitTrees(src, pos, data, n, picks, k - 1);
      if trees.Ok? {
        FitOneMore(src, pos, data, n, picks, k - 1);
        OneTree(src, next, data, n, picks(k - 1));
      }
    }
  }

  /** The tree is what growth leaves on the sample, from some draw on. */
  ghost predicate GrownOn(src: Stream, sample: seq<Row>, maxDepth: nat, t: Tree) {
    exists pos: nat :: Grow(src, pos, sample, 0, maxDepth).0 == Ok(t)
  }

  lemma OneTree(src: Stream, pos: nat, data: seq<Row>, n: nat, pick: seq<nat>)
    requires n < |data| ==> ValidPick(pick, n, |data|)
    requires n <= |data|
    ensures var sample := Subsample(data, n, pick);
            var t := Grow(src, pos, sample, 0, DepthLimit(n)).0;
            && (t.Ok? ==> GrownOn(src, sample, DepthLimit(n), t.value) && FittedTo(t.value, data, n)
                          && Height(t.value) <= DepthLimit(n))
            && (forall width: nat :: Rectangular(data, width) ==> t.Ok? && Uses(t.value, width))
  {
    hide Grow, DepthLimit;
    var sample := Subsample(data, n, pick);
    GrowPartitions(src, pos, sample, 0, DepthLimit(n));
    forall width: nat | Rectangular(data, width)
      ensures Grow(src, pos, sample, 0, DepthLimit(n)).0.Ok? && Uses(Grow(src, pos, sample, 0, DepthLimit(n)).0.value, width)
    {
      SubsampleRectangular(data, width, sample);
      RectangularGrows(src, pos, sample, width, 0, DepthLimit(n));
    }
  }

  /** Hence, with no draw of zero, no tree of a forest stops early: below the depth limit a leaf of more than one row
      has a feature that is constant on those rows. */
  lemma ForestLeavesAreForced(src: Stream, pos: nat, data: seq<Row>, n: nat, picks: nat -> seq<nat>, k: nat, i: nat)
    requires n < |data| ==> forall j: nat :: ValidPick(picks(j), n, |data|)
    requires n <= |data| && i < k && FitTrees(src, pos, data, n, picks, k).0.Ok?
    requires forall j: nat :: 0.0 < src.reals(j) < 1.0
    ensures |FitTrees(src, pos, data, n, picks, k).0.value| == k
    ensures Forced(FitTrees(src, pos, data, n, picks, k).0.value[i], Subsample(data, n, picks(i)), 0, DepthLimit(n))
  {
    hide Grow, FitTrees, Forced, Subsample, DepthLimit;
    FittedTrees(src, pos, data, n, picks, k);
    var t, sample := FitTrees(src, pos, data, n, picks, k).0.value[i], Subsample(data, n, picks(i));
    var start: nat :| Grow(src, start, sample, 0, DepthLimit(n)).0 == Ok(t);
    LeavesAreForced(src, start, sample, 0, DepthLimit(n));
  }

  lemma SubsampleRectangular(data: seq<Row>, width: nat, sample: seq<Row>)
    requires Rectangular(data, width) && forall r :: r in sample ==> r in data
    ensures Rectangular(sample, width)
  {
    forall i | 0 <= i < |sample|
      ensures |sample[i]| == width
    {
      assert sample[i] in sample;
    }
  }

  predicate RoutedByAll(x: Row, trees: seq<Tree>) {
    forall k :: 0 <= k < |trees| ==> Routable(x, trees[k])
  }

  function TotalPath(c: nat -> real, x: Row, trees: seq<Tree>): real
    requires RoutedByAll(x, trees)
  {
    if trees == [] then 0.0
    else TotalPath(c, x, trees[..|trees|-1]) + PathLength(c, x, trees[|trees|-1], 0)
  }

  /** The row is scored unless it lacks a feature that it is routed by. */
  function Score(c: nat -> real, exp2: real -> real, x: Row, forest: Forest): Result<real, Error> {
    if forest.trees == [] || forest.norm == 0.0 then Ok(0.0)
    else if !RoutedByAll(x, forest.trees) then Err(IndexOutOfRange)
    else Ok(exp2(-(TotalPath(c, x, forest.trees) / |forest.trees| as real) / forest.norm))
  }

  lemma {:induction false} PathLengthBounds(c: nat -> real, x: Row, t: Tree, depth: nat, data: seq<Row>)
    requires IsCorrection(c) && Partitions(t, data) && Routable(x, t)
    ensures depth as real <= PathLength(c, x, t, depth) <= (depth + Height(t)) as real + c(|data|)
    decreases t
  {
    hide Side;
    match t
    case Leaf(n) =>
    case Node(f, v, left, right) =>
      if x[f] < v {
        PathLengthBounds(c, x, left, depth + 1, Side(data, f, v, true));
      } else {
        PathLengthBounds(c, x, right, depth + 1, Side(data, f, v, false));
      }
  }

  lemma FittedPath(c: nat -> real, x: Row, t: Tree, data: seq<Row>, n: nat)
    requires IsCorrection(c) && FittedTo(t, data, n) && Height(t) <= DepthLimit(n) && Routable(x, t)
    ensures 0.0 <= PathLength(c, x, t, 0) <= DepthLimit(n) as real + c(n)
  {
    hide DepthLimit;
    var sample: seq<Row> :| |sample| == n && (forall r :: r in sample ==> r in data) && Partitions(t, sample);
    PathLengthBounds(c, x, t, 0, sample);
  }

  lemma {:induction false} TotalPathBounds(c: nat -> real, x: Row, trees: seq<Tree>, data: seq<Row>, n: nat)
    requires IsCorrection(c) && RoutedByAll(x, trees)
    requires forall k :: 0 <= k < |trees| ==> FittedTo(trees[k], data, n) && Height(trees[k]) <= DepthLimit(n)
    ensures 0.0 <= TotalPath(c, x, trees) <= Times(|trees| as real, DepthLimit(n) as real + c(n))
  {
    hide PathLength, DepthLimit, Times, FittedTo, IsCorrection;
    if trees == [] {
      ZeroTrees(DepthLimit(n) as real + c(n));
    } else {
      var m := |trees| - 1;
      TotalPathBounds(c, x, trees[..m], data, n);
      FittedPath(c, x, trees[m], data, n);
      OneMoreTree(m as real, DepthLimit(n) as real + c(n));
    }
  }

  lemma ZeroTrees(bound: real)
    ensures Times(0.0, bound) == 0.0
  {
  }

  lemma OneMoreTree(m: real, bound: real)
    ensures Times(m + 1.0, bound) == Times(m, bound) + bound
  {
  }

  lemma AverageBounds(total: real, count: real, bound: real)
    requires count > 0.0 && 0.0 <= total <= Times(count, bound)
    ensures 0.0 <= total / count <= bound
  {
    QuotientOrder(0.0, total, count);
    QuotientOrder(total, Times(count, bound), count);
    Quotient(Times(count, bound), bound, count);
  }

  /** A fitted forest scores a row in (0, 1], never below what the depth limit allows, for training rows and unseen
      rows alike; it raises exactly when it has something to tell and the row lacks a feature it is routed by. */
  lemma ScoreBounds(c: nat -> real, exp2: real -> real, x: Row, forest: Forest, data: seq<Row>)
    requires IsCorrection(c) && IsExp2(exp2) && Fitted(forest, data, c)
    ensures var score, cannotTell := Score(c, exp2, x, forest), forest.trees == [] || forest.subsampleSize <= 1;
            && (score.Err? <==> !cannotTell && !RoutedByAll(x, forest.trees))
            && (score.Ok? ==> if cannotTell then score.value == 0.0
                              else 0.0 < exp2(-(DepthLimit(forest.subsampleSize) as real + forest.norm) / forest.norm)
                                   <= score.value <= 1.0)
  {
    hide DepthLimit, TotalPath, Times, FittedTo, RoutedByAll;
    var n := forest.subsampleSize;
    if forest.trees != [] && n > 1 {
      assert c(2) <= c(n);
      if RoutedByAll(x, forest.trees) {
        TotalPathBounds(c, x, forest.trees, data, n);
        ExponentBounds(TotalPath(c, x, forest.trees), |forest.trees| as real, DepthLimit(n) as real + c(n), c(n));
      }
    }
  }

  /** The edges to the row's leaf and the correction for the rows left there, summed over the trees. */
  function RouteTotal(c: nat -> real, x: Row, trees: seq<Tree>): real
    requires RoutedByAll(x, trees)
  {
    if trees == [] then 0.0
    else
      var n := |trees| - 1;
      RouteTotal(c, x, trees[..n]) + (|Route(x, trees[n])| as real + c(SizeAt(trees[n], Route(x, trees[n]))))
  }

  lemma {:induction false} TotalPathIsRoutes(c: nat -> real, x: Row, trees: seq<Tree>)
    requires RoutedByAll(x, trees)
    ensures TotalPath(c, x, trees) == RouteTotal(c, x, trees)
  {
    hide PathLength, Route, SizeAt;
    if trees == [] {
    } else {
      var n := |trees| - 1;
      TotalPathIsRoutes(c, x, trees[..n]);
      PathLengthIsRoute(c, x, trees[n], 0);
    }
  }

  /** What a score is: two to the power of minus the mean path length in units of the norm. */
  lemma ScoreIs(c: nat -> real, exp2: real -> real, x: Row, forest: Forest)
    requires forest.trees != [] && forest.norm != 0.0 && RoutedByAll(x, forest.trees)
    ensures exists y: real ::
              Score(c, exp2, x, forest) == Ok(exp2(y)) && Times(Times(y, forest.norm), |forest.trees| as real) == -RouteTotal(c, x, forest.trees)
  {
    hide TotalPath, RouteTotal;
    TotalPathIsRoutes(c, x, forest.trees);
    var m, total := |forest.trees| as real, TotalPath(c, x, forest.trees);
    var y := -(total / m) / forest.norm;
    assert Times(y, forest.norm) == -(total / m);
    assert Times(-(total / m), m) == -total by { MeanTimesCount(total, m); }
    assert Score(c, exp2, x, forest) == Ok(exp2(y));
  }

  lemma MeanTimesCount(total: real, m: real)
    requires m > 0.0
    ensures Times(-(total / m), m) == -total
  {
    assert total / m * m == total;
  }

  /** A forest fitted to rows of one width scores every row of that width. */
  lemma WideRowsScore(c: nat -> real, exp2: real -> real, x: Row, forest: Forest)
    requires AllUse(forest.trees, |x|)
    ensures Score(c, exp2, x, forest).Ok?
  {
    forall k | 0 <= k < |forest.trees|
      ensures Routable(x, forest.trees[k])
    {
      UsesRoutable(x, forest.trees[k]);
    }
  }

  lemma ExponentBounds(total: real, count: real, bound: real, norm: real)
    requires count > 0.0 && norm > 0.0 && 0.0 <= total <= Times(count, bound)
    ensures -bound / norm <= -(total / count) / norm <= 0.0
  {
    AverageBounds(total, count, bound);
    NegatedQuotientOrder(total / count, bound, norm);
    NegatedQuotientOrder(0.0, total / count, norm);
  }

  lemma NegatedQuotientOrder(p: real, q: real, d: real)
    requires p <= q && d > 0.0
    ensures -q / d <= -p / d && -0.0 / d == 0.0
  {
    assert -p / d - -q / d == (q - p) / d;
  }

  /** A row isolated in fewer steps never scores lower. */
  lemma ScoreAntitone(c: nat -> real, exp2: real -> real, x: Row, y: Row, forest: Forest, data: seq<Row>)
    requires IsCorrection(c) && IsExp2(exp2) && Fitted(forest, data, c)
    requires RoutedByAll(x, forest.trees) && RoutedByAll(y, forest.trees)
    requires TotalPath(c, x, forest.trees) <= TotalPath(c, y, forest.trees)
    ensures Score(c, exp2, x, forest).value >= Score(c, exp2, y, forest).value
  {
    hide TotalPath, Fitted, RoutedByAll;
    assert forest.norm >= 0.0 by { NormNonNegative(c, forest, data); }
    if forest.trees != [] && forest.norm != 0.0 {
      var m := |forest.trees| as real;
      var p, q := TotalPath(c, x, forest.trees), TotalPath(c, y, forest.trees);
      NegatedQuotientOrder(-q, -p, m);
      NegatedQuotientOrder(p / m, q / m, forest.norm);
    }
  }

  lemma NormNonNegative(c: nat -> real, forest: Forest, data: seq<Row>)
    requires IsCorrection(c) && Fitted(forest, data, c)
    ensures forest.norm >= 0.0
  {
  }
}
