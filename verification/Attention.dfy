/** Multi-head attention with grouped key-value heads, and the attention block of src/llm.cpp over any
    number of nodes: row-sliced Wq, Wk and Wv, sharded rotation and cache rows, attention over the
    local heads, column-sliced Wo, the slice exchange and the merge-add. */
module Attention {
  import opened Arith
  import opened Vectors
  import opened Matrix

  /** `softmax` is left abstract; `root` is the square root of the head size. */
  datatype Kernel = Kernel(softmax: seq<real> -> seq<real>, root: real) {
    ghost predicate Valid() {
      root > 0.0 && forall s: seq<real> :: |softmax(s)| == |s|
    }
  }

  /** Every row has at least, or exactly, `n` entries. */
  predicate Wide(rows: seq<seq<real>>, n: nat) {
    forall t | 0 <= t < |rows| :: |rows[t]| >= n
  }

  predicate Width(rows: seq<seq<real>>, n: nat) {
    forall t | 0 <= t < |rows| :: |rows[t]| == n
  }

  lemma WidthWide(rows: seq<seq<real>>, n: nat, m: nat)
    requires Width(rows, n) && m <= n
    ensures Wide(rows, m)
  {
  }

  /** The scores of a query against the keys of the positions. */
  function Scores(kn: Kernel, q: seq<real>, keys: seq<seq<real>>): (r: seq<real>)
    requires kn.root > 0.0 && Width(keys, |q|)
    ensures |r| == |keys| && forall t | 0 <= t < |r| :: r[t] == Dot(Times, q, keys[t]) / kn.root
  {
    seq(|keys|, t requires 0 <= t < |keys| => Dot(Times, q, keys[t]) / kn.root)
  }

  /** Entry `i` of the weighted sum of the value rows. */
  function Weighted(a: seq<real>, values: seq<seq<real>>, i: nat): real
    requires |a| == |values| && Wide(values, i + 1)
  {
    if a == [] then 0.0
    else Weighted(a[..|a| - 1], values[..|a| - 1], i) + Times(a[|a| - 1], values[|a| - 1][i])
  }

  /** One head: softmax of the scores, then the weighted sum of the values. */
  function Head(kn: Kernel, q: seq<real>, keys: seq<seq<real>>, values: seq<seq<real>>): (r: seq<real>)
    requires kn.Valid() && |keys| == |values| && Width(keys, |q|) && Width(values, |q|)
    ensures |r| == |q| && forall i | 0 <= i < |r| :: r[i] == Weighted(kn.softmax(Scores(kn, q, keys)), values, i)
  {
    var a := kn.softmax(Scores(kn, q, keys));
    seq(|q|, i requires 0 <= i < |q| => Weighted(a, values, i))
  }

  /** The `k`-th stretch of `width` entries of every cache row: the part of a head, or the part of a node. */
  function PartOfRows(rows: seq<seq<real>>, width: nat, k: nat): (r: seq<seq<real>>)
    requires Wide(rows, Mul(k, width) + width)
    ensures |r| == |rows| && Width(r, width)
  {
    seq(|rows|, t requires 0 <= t < |rows| => Slice(rows[t], width, k))
  }

  /** `nHeads` query heads; `kvMul` of them share a key-value head. */
  ghost predicate Fits(q: seq<real>, keys: seq<seq<real>>, values: seq<seq<real>>, nHeads: nat, kvMul: nat, headSize: nat) {
    && kvMul > 0 && |keys| == |values| && Mul(nHeads, headSize) <= |q|
    && (forall h: nat | h < nHeads :: Wide(keys, Mul(Div(h, kvMul), headSize) + headSize))
    && (forall h: nat | h < nHeads :: Wide(values, Mul(Div(h, kvMul), headSize) + headSize))
  }

  /** The output of head `h`. */
  function HeadAt(kn: Kernel, q: seq<real>, keys: seq<seq<real>>, values: seq<seq<real>>, kvMul: nat, headSize: nat, h: nat)
    : (r: seq<real>)
    requires kn.Valid() && Fits(q, keys, values, h + 1, kvMul, headSize)
    ensures |r| == headSize
  {
    MulNext(h, headSize);
    Head(kn, Slice(q, headSize, h), PartOfRows(keys, headSize, Div(h, kvMul)), PartOfRows(values, headSize, Div(h, kvMul)))
  }

  /** The outputs of all heads, one after the other. */
  function Heads(kn: Kernel, q: seq<real>, keys: seq<seq<real>>, values: seq<seq<real>>, nHeads: nat, kvMul: nat, headSize: nat)
    : (r: seq<real>)
    requires kn.Valid() && Fits(q, keys, values, nHeads, kvMul, headSize)
    ensures |r| == Mul(nHeads, headSize)
  {
    MulNext(nHeads, headSize);
    if nHeads == 0 then []
    else
      MulNext(nHeads - 1, headSize);
      Heads(kn, q, keys, values, nHeads - 1, kvMul, headSize) + HeadAt(kn, q, keys, values, kvMul, headSize, nHeads - 1)
  }

  lemma {:induction false} HeadsAt(kn: Kernel, q: seq<real>, keys: seq<seq<real>>, values: seq<seq<real>>, nHeads: nat, kvMul: nat,
                                   headSize: nat, h: nat)
    requires kn.Valid() && Fits(q, keys, values, nHeads, kvMul, headSize) && h < nHeads
    ensures Fits(q, keys, values, h + 1, kvMul, headSize) && Mul(h, headSize) + headSize <= Mul(nHeads, headSize)
    ensures Slice(Heads(kn, q, keys, values, nHeads, kvMul, headSize), headSize, h)
         == HeadAt(kn, q, keys, values, kvMul, headSize, h)
    decreases nHeads
  {
    hide Mul, Div, HeadAt;
    MulMonotone(h + 1, nHeads, headSize);
    MulNext(h, headSize);
    MulNext(nHeads - 1, headSize);
    if h < nHeads - 1 {
      HeadsAt(kn, q, keys, values, nHeads - 1, kvMul, headSize, h);
    }
  }

  /** Local query head `h0` of node `node` reads the local part of the key-value head that its global
      head reads, when every node has `groups` whole key-value heads. */
  lemma LocalGroup(groups: nat, kvMul: nat, node: nat, h0: nat)
    requires kvMul > 0
    ensures Div(Mul(node, Mul(groups, kvMul)) + h0, kvMul) == Mul(node, groups) + Div(h0, kvMul)
  {
    MulAssociative(node, groups, kvMul);
    hide Mul, Div;
    var q := Mul(node, groups) + Div(h0, kvMul);
    Division(h0, kvMul);
    MulDistributes(Mul(node, groups), Div(h0, kvMul), kvMul);
    Quotient(Mul(node, Mul(groups, kvMul)) + h0, q, kvMul);
  }

  /** The heads of a node, from its parts of the query and the cache rows, are its part of all heads. */
  lemma HeadsShard(kn: Kernel, q: seq<real>, keys: seq<seq<real>>, values: seq<seq<real>>, groups: nat, kvMul: nat,
                   headSize: nat, nNodes: nat, node: nat)
    requires kn.Valid() && kvMul > 0 && |keys| == |values| && node < nNodes
    requires |q| == Mul(nNodes, Mul(Mul(groups, kvMul), headSize))
    requires Width(keys, Mul(nNodes, Mul(groups, headSize)))
    requires Width(values, Mul(nNodes, Mul(groups, headSize)))
    ensures Fits(q, keys, values, Mul(nNodes, Mul(groups, kvMul)), kvMul, headSize)
    ensures Mul(node, Mul(Mul(groups, kvMul), headSize)) + Mul(Mul(groups, kvMul), headSize) <= |q|
    ensures Mul(node, Mul(groups, headSize)) + Mul(groups, headSize) <= Mul(nNodes, Mul(groups, headSize))
    ensures var nHeads0, qDim0, kvDim0 := Mul(groups, kvMul), Mul(Mul(groups, kvMul), headSize), Mul(groups, headSize);
            && Fits(Slice(q, qDim0, node), PartOfRows(keys, kvDim0, node), PartOfRows(values, kvDim0, node), nHeads0, kvMul, headSize)
            && |Heads(kn, q, keys, values, Mul(nNodes, nHeads0), kvMul, headSize)| == |q|
            && Heads(kn, Slice(q, qDim0, node), PartOfRows(keys, kvDim0, node), PartOfRows(values, kvDim0, node), nHeads0, kvMul, headSize)
            == Slice(Heads(kn, q, keys, values, Mul(nNodes, nHeads0), kvMul, headSize), qDim0, node)
  {
    var nHeads0, qDim0, kvDim0 := Mul(groups, kvMul), Mul(Mul(groups, kvMul), headSize), Mul(groups, headSize);
    var nHeads := Mul(nNodes, nHeads0);
    GlobalFits(q, keys, values, groups, kvMul, headSize, nNodes);
    hide Mul, Div, Heads, HeadAt, Head, Fits;
    SliceInside(node, nNodes, qDim0);
    SliceInside(node, nNodes, kvDim0);
    LocalFits(q, keys, values, groups, kvMul, headSize, nNodes, node);
    var q0, k0, v0 := Slice(q, qDim0, node), PartOfRows(keys, kvDim0, node), PartOfRows(values, kvDim0, node);
    var local, whole := Heads(kn, q0, k0, v0, nHeads0, kvMul, headSize), Heads(kn, q, keys, values, nHeads, kvMul, headSize);
    MulAssociative(nNodes, nHeads0, headSize);
    MulAssociative(node, nHeads0, headSize);
    var parts := seq(nHeads0, h requires 0 <= h < nHeads0 => (SliceInside(h, nHeads0, headSize); Slice(local, headSize, h)));
    forall h: nat | h < nHeads0
      ensures Mul(h, headSize) + headSize <= qDim0 && Slice(local, headSize, h) == Slice(Slice(whole, qDim0, node), headSize, h)
    {
      HeadShard(kn, q, keys, values, q0, k0, v0, groups, kvMul, headSize, nNodes, node, h, local, whole);
    }
    SlicesRebuild(local, headSize, nHeads0, parts);
    SlicesRebuild(Slice(whole, qDim0, node), headSize, nHeads0, parts);
  }

  lemma GlobalFits(q: seq<real>, keys: seq<seq<real>>, values: seq<seq<real>>, groups: nat, kvMul: nat, headSize: nat, nNodes: nat)
    requires kvMul > 0 && |keys| == |values| && |q| == Mul(nNodes, Mul(Mul(groups, kvMul), headSize))
    requires Width(keys, Mul(nNodes, Mul(groups, headSize)))
    requires Width(values, Mul(nNodes, Mul(groups, headSize)))
    ensures Fits(q, keys, values, Mul(nNodes, Mul(groups, kvMul)), kvMul, headSize)
  {
    MulAssociative(nNodes, Mul(groups, kvMul), headSize);
    MulAssociative(nNodes, groups, headSize);
    MulAssociative(nNodes, groups, kvMul);
    hide Mul, Div;
    var nHeads := Mul(nNodes, Mul(groups, kvMul));
    forall h: nat | h < nHeads
      ensures Mul(Div(h, kvMul), headSize) + headSize <= Mul(nNodes, Mul(groups, headSize))
    {
      GroupInRange(h, Mul(nNodes, groups), kvMul);
      SliceInside(Div(h, kvMul), Mul(nNodes, groups), headSize);
    }
  }

  lemma GroupInRange(h: nat, groups: nat, kvMul: nat)
    requires kvMul > 0 && h < Mul(groups, kvMul)
    ensures Div(h, kvMul) < groups
  {
    hide Mul, Div;
    Division(h, kvMul);
    if Div(h, kvMul) >= groups {
      MulMonotone(groups, Div(h, kvMul), kvMul);
    }
  }

  lemma LocalFits(q: seq<real>, keys: seq<seq<real>>, values: seq<seq<real>>, groups: nat, kvMul: nat, headSize: nat, nNodes: nat, node: nat)
    requires kvMul > 0 && |keys| == |values| && node < nNodes
    requires Mul(node, Mul(Mul(groups, kvMul), headSize)) + Mul(Mul(groups, kvMul), headSize) <= |q|
    requires Wide(keys, Mul(node, Mul(groups, headSize)) + Mul(groups, headSize))
    requires Wide(values, Mul(node, Mul(groups, headSize)) + Mul(groups, headSize))
    ensures Fits(Slice(q, Mul(Mul(groups, kvMul), headSize), node), PartOfRows(keys, Mul(groups, headSize), node),
                 PartOfRows(values, Mul(groups, headSize), node), Mul(groups, kvMul), kvMul, headSize)
  {
    hide Mul, Div;
    var kvDim0 := Mul(groups, headSize);
    forall h: nat | h < Mul(groups, kvMul)
      ensures Mul(Div(h, kvMul), headSize) + headSize <= kvDim0
    {
      GroupInRange(h, groups, kvMul);
      SliceInside(Div(h, kvMul), groups, headSize);
    }
  }

  /** One head of a node is the head with its global number. */
  lemma HeadShard(kn: Kernel, q: seq<real>, keys: seq<seq<real>>, values: seq<seq<real>>, q0: seq<real>, k0: seq<seq<real>>,
                  v0: seq<seq<real>>, groups: nat, kvMul: nat, headSize: nat, nNodes: nat, node: nat, h: nat,
                  local: seq<real>, whole: seq<real>)
    requires kn.Valid() && kvMul > 0 && |keys| == |values| && node < nNodes && h < Mul(groups, kvMul)
    requires |q| == |whole| == Mul(nNodes, Mul(Mul(groups, kvMul), headSize))
    requires Width(keys, Mul(nNodes, Mul(groups, headSize)))
    requires Width(values, Mul(nNodes, Mul(groups, headSize)))
    requires Mul(node, Mul(Mul(groups, kvMul), headSize)) + Mul(Mul(groups, kvMul), headSize) <= |q|
    requires Mul(node, Mul(groups, headSize)) + Mul(groups, headSize) <= Mul(nNodes, Mul(groups, headSize))
    requires Fits(q, keys, values, Mul(nNodes, Mul(groups, kvMul)), kvMul, headSize)
    requires q0 == Slice(q, Mul(Mul(groups, kvMul), headSize), node)
    requires k0 == PartOfRows(keys, Mul(groups, headSize), node) && v0 == PartOfRows(values, Mul(groups, headSize), node)
    requires Fits(q0, k0, v0, Mul(groups, kvMul), kvMul, headSize)
    requires local == Heads(kn, q0, k0, v0, Mul(groups, kvMul), kvMul, headSize)
    requires whole == Heads(kn, q, keys, values, Mul(nNodes, Mul(groups, kvMul)), kvMul, headSize)
    ensures Mul(h, headSize) + headSize <= |local|
    ensures Slice(local, headSize, h) == Slice(Slice(whole, Mul(Mul(groups, kvMul), headSize), node), headSize, h)
  {
    hide Mul, Div, Heads, Head, HeadAt, Slice, PartOfRows, Fits, Kernel.Valid, Wide, Width;
    var nHeads0 := Mul(groups, kvMul);
    var g := Mul(node, nHeads0) + h;
    GlobalHead(kn, q, keys, values, nHeads0, kvMul, headSize, nNodes, node, h, g, whole);
    LocalHead(kn, q, keys, values, q0, k0, v0, groups, kvMul, headSize, nNodes, node, h, g, local);
  }

  lemma LocalHead(kn: Kernel, q: seq<real>, keys: seq<seq<real>>, values: seq<seq<real>>, q0: seq<real>, k0: seq<seq<real>>,
                  v0: seq<seq<real>>, groups: nat, kvMul: nat, headSize: nat, nNodes: nat, node: nat, h: nat, g: nat,
                  local: seq<real>)
    requires kn.Valid() && kvMul > 0 && |keys| == |values| && node < nNodes && h < Mul(groups, kvMul)
    requires g == Mul(node, Mul(groups, kvMul)) + h && Fits(q, keys, values, g + 1, kvMul, headSize)
    requires Width(keys, Mul(nNodes, Mul(groups, headSize))) && Width(values, Mul(nNodes, Mul(groups, headSize)))
    requires Mul(node, Mul(Mul(groups, kvMul), headSize)) + Mul(Mul(groups, kvMul), headSize) <= |q|
    requires Mul(node, Mul(groups, headSize)) + Mul(groups, headSize) <= Mul(nNodes, Mul(groups, headSize))
    requires q0 == Slice(q, Mul(Mul(groups, kvMul), headSize), node)
    requires k0 == PartOfRows(keys, Mul(groups, headSize), node) && v0 == PartOfRows(values, Mul(groups, headSize), node)
    requires Fits(q0, k0, v0, Mul(groups, kvMul), kvMul, headSize)
    requires local == Heads(kn, q0, k0, v0, Mul(groups, kvMul), kvMul, headSize)
    ensures Mul(h, headSize) + headSize <= |local|
    ensures Slice(local, headSize, h) == HeadAt(kn, q, keys, values, kvMul, headSize, g)
  {
    hide Mul, Div, Heads, Head, HeadAt, Slice, PartOfRows, Fits, Kernel.Valid, Wide, Width;
    WidthWide(keys, Mul(nNodes, Mul(groups, headSize)), Mul(node, Mul(groups, headSize)) + Mul(groups, headSize));
    WidthWide(values, Mul(nNodes, Mul(groups, headSize)), Mul(node, Mul(groups, headSize)) + Mul(groups, headSize));
    HeadsAt(kn, q0, k0, v0, Mul(groups, kvMul), kvMul, headSize, h);
    SameHead(kn, q, keys, values, groups, kvMul, headSize, node, h, g);
  }

  lemma GlobalHead(kn: Kernel, q: seq<real>, keys: seq<seq<real>>, values: seq<seq<real>>, nHeads0: nat, kvMul: nat,
                   headSize: nat, nNodes: nat, node: nat, h: nat, g: nat, whole: seq<real>)
    requires kn.Valid() && kvMul > 0 && node < nNodes && h < nHeads0 && |whole| == Mul(nNodes, Mul(nHeads0, headSize))
    requires Mul(node, Mul(nHeads0, headSize)) + Mul(nHeads0, headSize) <= |whole| && g == Mul(node, nHeads0) + h
    requires Fits(q, keys, values, Mul(nNodes, nHeads0), kvMul, headSize)
    requires whole == Heads(kn, q, keys, values, Mul(nNodes, nHeads0), kvMul, headSize)
    ensures Mul(h, headSize) + headSize <= Mul(nHeads0, headSize)
    ensures Fits(q, keys, values, g + 1, kvMul, headSize)
    ensures Slice(Slice(whole, Mul(nHeads0, headSize), node), headSize, h)
         == HeadAt(kn, q, keys, values, kvMul, headSize, g)
  {
    hide Mul, Div, Heads, Head, HeadAt, Slice, Fits;
    SliceInside(node, nNodes, nHeads0);
    HeadsAt(kn, q, keys, values, Mul(nNodes, nHeads0), kvMul, headSize, g);
    SliceOfSlice(whole, headSize, nHeads0, node, h);
  }

  lemma SameHead(kn: Kernel, q: seq<real>, keys: seq<seq<real>>, values: seq<seq<real>>, groups: nat, kvMul: nat,
                 headSize: nat, node: nat, h: nat, g: nat)
    requires kn.Valid() && kvMul > 0 && |keys| == |values| && h < Mul(groups, kvMul) && g == Mul(node, Mul(groups, kvMul)) + h
    requires Mul(node, Mul(Mul(groups, kvMul), headSize)) + Mul(Mul(groups, kvMul), headSize) <= |q|
    requires Wide(keys, Mul(node, Mul(groups, headSize)) + Mul(groups, headSize))
    requires Wide(values, Mul(node, Mul(groups, headSize)) + Mul(groups, headSize))
    requires Fits(q, keys, values, g + 1, kvMul, headSize)
    requires Fits(Slice(q, Mul(Mul(groups, kvMul), headSize), node), PartOfRows(keys, Mul(groups, headSize), node),
                  PartOfRows(values, Mul(groups, headSize), node), h + 1, kvMul, headSize)
    ensures HeadAt(kn, Slice(q, Mul(Mul(groups, kvMul), headSize), node), PartOfRows(keys, Mul(groups, headSize), node),
                   PartOfRows(values, Mul(groups, headSize), node), kvMul, headSize, h)
         == HeadAt(kn, q, keys, values, kvMul, headSize, g)
  {
    hide Mul, Div, Head, Slice, PartOfRows;
    SliceOfSlice(q, headSize, Mul(groups, kvMul), node, h);
    LocalGroup(groups, kvMul, node, h);
    GroupInRange(h, groups, kvMul);
    RowsOfRows(keys, headSize, groups, node, Div(h, kvMul));
    RowsOfRows(values, headSize, groups, node, Div(h, kvMul));
  }

  lemma RowsOfRows(rows: seq<seq<real>>, headSize: nat, groups: nat, node: nat, g: nat)
    requires g < groups && Wide(rows, Mul(node, Mul(groups, headSize)) + Mul(groups, headSize))
    ensures Mul(g, headSize) + headSize <= Mul(groups, headSize)
    ensures Wide(rows, Mul(Mul(node, groups) + g, headSize) + headSize)
    ensures PartOfRows(PartOfRows(rows, Mul(groups, headSize), node), headSize, g) == PartOfRows(rows, headSize, Mul(node, groups) + g)
  {
    hide Mul;
    SliceInside(g, groups, headSize);
    forall t: nat | t < |rows|
      ensures Mul(Mul(node, groups) + g, headSize) + headSize <= |rows[t]|
      ensures Slice(Slice(rows[t], Mul(groups, headSize), node), headSize, g) == Slice(rows[t], headSize, Mul(node, groups) + g)
    {
      SliceOfSlice(rows[t], headSize, groups, node, g);
    }
  }

  /** Query head `h0` of node `node` finds its key-value head at the column the whole model puts it. */
  predicate ReadsOwnHead(kvDim0: nat, nHeads0: nat, kvMul: nat, headSize: nat, node: nat, h0: nat)
    requires kvMul > 0
  {
    Mul(node, kvDim0) + Mul(Div(h0, kvMul), headSize) == Mul(Div(Mul(node, nHeads0) + h0, kvMul), headSize)
  }

  /** Grouped heads are sharded correctly exactly when the nodes divide the key-value heads; the
      widths dividing is not enough. */
  lemma GroupedHeadsExact(nKvHeads: nat, kvMul: nat, headSize: nat, nNodes: nat, nHeads0: nat, kvDim0: nat)
    requires kvMul > 0 && headSize > 0 && nNodes > 0
    requires Mul(nKvHeads, kvMul) == Mul(nNodes, nHeads0) && Mul(nKvHeads, headSize) == Mul(nNodes, kvDim0)
    ensures (forall node: nat, h0: nat | node < nNodes && h0 < nHeads0 :: ReadsOwnHead(kvDim0, nHeads0, kvMul, headSize, node, h0))
       <==> Rem(nKvHeads, nNodes) == 0
  {
    hide Mul, Div, Rem;
    if Rem(nKvHeads, nNodes) == 0 {
      var groups := Div(nKvHeads, nNodes);
      Division(nKvHeads, nNodes);
      MulNext(groups, nNodes);
      MulAssociative(nNodes, groups, kvMul);
      MulAssociative(nNodes, groups, headSize);
      MulCancels(nNodes, nHeads0, Mul(groups, kvMul));
      MulCancels(nNodes, kvDim0, Mul(groups, headSize));
      forall node: nat, h0: nat | node < nNodes && h0 < nHeads0
        ensures ReadsOwnHead(kvDim0, nHeads0, kvMul, headSize, node, h0)
      {
        LocalGroup(groups, kvMul, node, h0);
        MulAssociative(node, groups, headSize);
        MulDistributes(Mul(node, groups), Div(h0, kvMul), headSize);
      }
    } else {
      SplitGroup(nKvHeads, kvMul, headSize, nNodes, nHeads0, kvDim0);
    }
  }

  /** The first head of the second node already reads the wrong columns otherwise. */
  lemma SplitGroup(nKvHeads: nat, kvMul: nat, headSize: nat, nNodes: nat, nHeads0: nat, kvDim0: nat)
    requires kvMul > 0 && headSize > 0 && nNodes > 0 && Rem(nKvHeads, nNodes) != 0
    requires Mul(nKvHeads, kvMul) == Mul(nNodes, nHeads0) && Mul(nKvHeads, headSize) == Mul(nNodes, kvDim0)
    ensures 1 < nNodes && 0 < nHeads0 && !ReadsOwnHead(kvDim0, nHeads0, kvMul, headSize, 1, 0)
  {
    hide Mul, Div, Rem;
    MulNext(nNodes, 0);
    MulNext(0, nKvHeads);
    Quotient(nKvHeads, nKvHeads, 1);
    MulNext(nKvHeads, 0);
    if nHeads0 == 0 {
      MulPositive(nKvHeads, kvMul);
      Quotient(nKvHeads, 0, nNodes);
      MulNext(0, nNodes);
    }
    MulNext(0, kvDim0);
    MulNext(0, nHeads0);
    MulNext(0, headSize);
    MulNext(0, kvMul);
    Quotient(0, 0, kvMul);
    if ReadsOwnHead(kvDim0, nHeads0, kvMul, headSize, 1, 0) {
      var g := Div(nHeads0, kvMul);
      MulAssociative(nNodes, g, headSize);
      MulNext(nKvHeads, headSize);
      MulNext(Mul(nNodes, g), headSize);
      MulCancels(headSize, nKvHeads, Mul(nNodes, g));
      MulNext(nNodes, g);
      Quotient(nKvHeads, g, nNodes);
    }
  }

  lemma MulCancels(a: nat, b: nat, c: nat)
    requires a > 0 && Mul(a, b) == Mul(a, c)
    ensures b == c
  {
    hide Mul;
    MulNext(b, a);
    MulNext(c, a);
    if b < c {
      MulMonotone(b + 1, c, a);
    } else if c < b {
      MulMonotone(c + 1, b, a);
    }
  }

  lemma MulPositive(a: nat, b: nat)
    ensures Mul(a, b) == 0 ==> a == 0 || b == 0
  {
  }

  method DotProduct(a: seq<real>, b: seq<real>) returns (sum: real)
    requires |a| == |b|
    ensures sum == Dot(Times, a, b)
  {
    sum := 0.0;
    for i := 0 to |a|
      invariant sum == Dot(Times, a[..i], b[..i])
    {
      assert a[..i + 1][..i] == a[..i] && b[..i + 1][..i] == b[..i];
      sum := sum + Times(a[i], b[i]);
    }
    assert a[..|a|] == a && b[..|b|] == b;
  }

  /** The cache rows of the positions before `n`. */
  function CacheRows(cache: seq<real>, kvDim0: nat, n: nat): (rows: seq<seq<real>>)
    requires Mul(n, kvDim0) <= |cache|
    ensures |rows| == n && Width(rows, kvDim0)
  {
    if n == 0 then []
    else
      MulNext(n - 1, kvDim0);
      CacheRows(cache, kvDim0, n - 1) + [Slice(cache, kvDim0, n - 1)]
  }

  lemma {:induction false} CacheRowAt(cache: seq<real>, kvDim0: nat, n: nat, t: nat)
    requires Mul(n, kvDim0) <= |cache| && t < n
    ensures Mul(t, kvDim0) + kvDim0 <= |cache| && CacheRows(cache, kvDim0, n)[t] == Slice(cache, kvDim0, t)
    decreases n
  {
    hide Mul;
    SliceInside(t, n, kvDim0);
    MulNext(n - 1, kvDim0);
    if t < n - 1 {
      CacheRowAt(cache, kvDim0, n - 1, t);
    }
  }

  /** What the op reads for head `g` of the cache at position `t`. */
  lemma CacheCell(cache: seq<real>, kvDim0: nat, headSize: nat, n: nat, t: nat, g: nat)
    requires Mul(n, kvDim0) <= |cache| && t < n && Mul(g, headSize) + headSize <= kvDim0
    ensures var at := Mul(g, headSize) + Mul(t, kvDim0);
            && at + headSize <= |cache| && Wide(CacheRows(cache, kvDim0, n), Mul(g, headSize) + headSize)
            && cache[at..at + headSize] == PartOfRows(CacheRows(cache, kvDim0, n), headSize, g)[t]
  {
    hide Mul, CacheRows, Wide, Width;
    SliceInside(t, n, kvDim0);
    CacheRowAt(cache, kvDim0, n, t);
    var rows := CacheRows(cache, kvDim0, n);
    WidthWide(rows, kvDim0, Mul(g, headSize) + headSize);
    assert PartOfRows(rows, headSize, g)[t] == Slice(rows[t], headSize, g);
    PartOfPart(cache, Mul(t, kvDim0), kvDim0, Mul(g, headSize), headSize);
  }
}
