/** The whole network that src/llm.cpp builds: the segments of all layers and the last one, on one node and
    on any number of nodes that divides them, and the same network as the abstract one of Transformer. */
module LlmNet {
  import opened Arith
  import opened Vectors
  import opened Matrix
  import opened Rope
  import opened Attention
  import opened AttentionBlock
  import FF = FeedForward
  import TokenBytes
  import Transformer

  type Vec = seq<real>

  type Token = TokenBytes.Token

  /** The segments of a layer. `norm0` and `norm1` are the norm ops and the cast to the matmul's type,
      which every node computes for itself. */
  datatype Layer<!TW, !TX> = Layer(
    att: AttentionBlock<TW, TX>, ff: FF.FeedForward<TW, TX>, norm0: Vec -> seq<TX>, norm1: Vec -> seq<TX>)

  /** How much of each layer a node has: key-value heads, output blocks, hidden blocks and logits. */
  datatype Shares = Shares(nNodes: nat, groups: nat, outBlocks: nat, hiddenBlocks: nat, logits: nat)

  datatype Model<!TW, !TX(!new)> = Model(
    dim: nat, n: nat, vocabSize: nat, embed: Token -> Vec, layers: seq<Layer<TW, TX>>,
    norm: Vec -> seq<TX>, term: (TW, TX) -> real, wcls: seq<TW>)
  {
    ghost predicate LayerFits(y: Layer<TW, TX>) {
      && y.att.Fits() && y.ff.Fits() && y.att.dim == y.ff.dim == dim && y.att.n == y.ff.n == n
      && (forall v: Vec :: |y.norm0(v)| == n) && (forall v: Vec :: |y.norm1(v)| == n)
    }

    ghost predicate Fits() {
      && (forall t: Token :: |embed(t)| == dim) && (forall v: Vec :: |norm(v)| == n) && |wcls| == Mul(vocabSize, n)
      && forall l | 0 <= l < |layers| :: LayerFits(layers[l])
    }

    ghost predicate Divides(sh: Shares) {
      && sh.nNodes > 0 && vocabSize == Mul(sh.nNodes, sh.logits)
      && forall l | 0 <= l < |layers| :: LayerDivides(sh, layers[l])
    }

    ghost predicate LayerDivides(sh: Shares, y: Layer<TW, TX>) {
      y.att.Divides(sh.groups, sh.outBlocks, sh.nNodes) && y.ff.hiddenBlocks == Mul(sh.nNodes, sh.hiddenBlocks)
    }

    /** What the projections of layer `l` see of a residual vector. */
    ghost function Input(l: nat, x: Vec): (y: seq<TX>)
      requires Fits() && l < |layers|
      ensures |y| == n
    {
      assert LayerFits(layers[l]);
      layers[l].norm0(x)
    }

    /** One layer on one node. */
    ghost function Step(l: nat, x: Vec, ys: seq<seq<TX>>): (r: Vec)
      requires Fits() && l < |layers| && |x| == dim && ys != [] && forall u | 0 <= u < |ys| :: |ys[u]| == n
      ensures |r| == dim
    {
      var y := layers[l];
      assert LayerFits(y);
      var a := y.att.OneNode(x, ys);
      y.ff.OneNode(a, y.norm1(a))
    }

    /** The residual vector entering layer `l` at position `t`, on one node. */
    ghost function OneNode(tokens: seq<Token>, l: nat, t: nat): (x: Vec)
      requires Fits() && l <= |layers| && t < |tokens|
      ensures |x| == dim
      decreases l, 0
    {
      if l == 0 then embed(tokens[t])
      else Step(l - 1, OneNode(tokens, l - 1, t), OneNodeInputs(tokens, l - 1, t))
    }

    /** The inputs of the projections of layer `l` at the positions up to `t`. */
    ghost function OneNodeInputs(tokens: seq<Token>, l: nat, t: nat): (ys: seq<seq<TX>>)
      requires Fits() && l < |layers| && t < |tokens|
      ensures |ys| == t + 1 && forall u | 0 <= u < |ys| :: |ys[u]| == n
      decreases l, 1
    {
      seq(t + 1, u requires 0 <= u < t + 1 => Input(l, OneNode(tokens, l, u)))
    }

    ghost function OneNodeLogits(tokens: seq<Token>, pos: nat): (lg: Vec)
      requires Fits() && pos < |tokens|
      ensures |lg| == vocabSize
    {
      MatVec(term, wcls, n, vocabSize, norm(OneNode(tokens, |layers|, pos)))
    }

    /** Each layer, from the residual vectors of all positions up to `t`: attention over `norm0` of them, then the
        feed-forward block over `norm1` of its result. */
    lemma LayerIs(tokens: seq<Token>, l: nat, t: nat, x: Vec, ys: seq<seq<TX>>, a: Vec)
      requires Fits() && l < |layers| && t < |tokens| && x == OneNode(tokens, l, t)
      requires |ys| == t + 1 && forall u: nat | u < |ys| :: ys[u] == layers[l].norm0(OneNode(tokens, l, u))
      requires layers[l].att.Fits() && layers[l].att.Inputs(x, ys) && a == layers[l].att.OneNode(x, ys)
      requires layers[l].ff.Fits() && |a| == layers[l].ff.dim && |layers[l].norm1(a)| == layers[l].ff.n
      ensures OneNode(tokens, l + 1, t) == layers[l].ff.OneNode(a, layers[l].norm1(a))
    {
      hide AttentionBlock.OneNode, FF.FeedForward.OneNode, LayerFits, AttentionBlock.Fits, FF.FeedForward.Fits;
      assert ys == OneNodeInputs(tokens, l, t);
    }

    /** The first layer sees the embeddings, and every logit is one row of the final matrix over the final norm. */
    lemma EndsAre(tokens: seq<Token>, pos: nat, v: nat)
      requires Fits() && pos < |tokens| && v < vocabSize
      ensures OneNode(tokens, 0, pos) == embed(tokens[pos])
      ensures Mul(v, n) + n <= |wcls|
      ensures OneNodeLogits(tokens, pos)[v] == Dot(term, Slice(wcls, n, v), norm(OneNode(tokens, |layers|, pos)))
    {
      MatVecAt(term, wcls, n, vocabSize, norm(OneNode(tokens, |layers|, pos)), v);
      hide Mul, MatVec, Slice;
    }

    /** Two models that agree on everything but the norms of their layers. */
    ghost predicate SameBut(m: Model<TW, TX>) {
      && m == this.(layers := m.layers) && |m.layers| == |layers|
      && forall l | 0 <= l < |layers| :: m.layers[l].att == layers[l].att && m.layers[l].ff == layers[l].ff
    }

    ghost predicate NoFeedForward(l: nat)
      requires l < |layers|
    {
      var f := layers[l].ff;
      f.Fits() && forall x: Vec, y: seq<TX> | |x| == f.dim && |y| == f.n :: f.OneNode(x, y) == x
    }

    ghost predicate NoAttention(l: nat)
      requires l < |layers|
    {
      var b := layers[l].att;
      b.Fits() && forall x: Vec, ys: seq<seq<TX>> | b.Inputs(x, ys) :: b.OneNode(x, ys) == x
    }

    lemma StepsAgree(m: Model<TW, TX>, l: nat, x: Vec, ys: seq<seq<TX>>)
      requires Fits() && m.Fits() && SameBut(m) && l < |layers|
      requires |x| == dim && ys != [] && forall u | 0 <= u < |ys| :: |ys[u]| == n
      requires NoFeedForward(l) || layers[l].norm1 == m.layers[l].norm1
      ensures Step(l, x, ys) == m.Step(l, x, ys)
    {
      assert LayerFits(layers[l]) && m.LayerFits(m.layers[l]);
      hide AttentionBlock.OneNode, AttentionBlock.Fits, FF.FeedForward.OneNode, FF.FeedForward.Fits, Fits;
    }

    lemma NoAttentionStep(l: nat, x: Vec, ys: seq<seq<TX>>, zs: seq<seq<TX>>)
      requires Fits() && l < |layers| && NoAttention(l) && |x| == dim && ys != [] && zs != []
      requires (forall u | 0 <= u < |ys| :: |ys[u]| == n) && (forall u | 0 <= u < |zs| :: |zs[u]| == n)
      ensures Step(l, x, ys) == Step(l, x, zs)
    {
      assert LayerFits(layers[l]);
      hide AttentionBlock.OneNode, AttentionBlock.Fits, FF.FeedForward.OneNode, FF.FeedForward.Fits, Fits;
      assert layers[l].att.Inputs(x, ys) && layers[l].att.Inputs(x, zs);
    }

    /** `norm1` feeds the feed-forward block and nothing else: where that block adds nothing, it does not matter. */
    lemma {:induction false} Norm1Feeds(m: Model<TW, TX>, tokens: seq<Token>, l: nat, t: nat)
      requires Fits() && m.Fits() && SameBut(m) && l <= |layers| && t < |tokens|
      requires forall k: nat | k < |layers| :: layers[k].norm0 == m.layers[k].norm0 && NoFeedForward(k)
      ensures OneNode(tokens, l, t) == m.OneNode(tokens, l, t)
    {
      hide Step, Fits, NoFeedForward;
      if l > 0 {
        Norm1Feeds(m, tokens, l - 1, t);
        var a, b := OneNodeInputs(tokens, l - 1, t), m.OneNodeInputs(tokens, l - 1, t);
        forall u: nat | u <= t
          ensures a[u] == b[u]
        {
          Norm1Feeds(m, tokens, l - 1, u);
        }
        assert a == b;
        assert NoFeedForward(l - 1);
        StepsAgree(m, l - 1, OneNode(tokens, l - 1, t), a);
      }
    }

    /** `norm0` feeds the attention block and nothing else. */
    lemma {:induction false} Norm0Feeds(m: Model<TW, TX>, tokens: seq<Token>, l: nat, t: nat)
      requires Fits() && m.Fits() && SameBut(m) && l <= |layers| && t < |tokens|
      requires forall k: nat | k < |layers| :: layers[k].norm1 == m.layers[k].norm1 && NoAttention(k)
      ensures OneNode(tokens, l, t) == m.OneNode(tokens, l, t)
    {
      hide Step, Fits, NoAttention;
      if l > 0 {
        Norm0Feeds(m, tokens, l - 1, t);
        var x, a, b := OneNode(tokens, l - 1, t), OneNodeInputs(tokens, l - 1, t), m.OneNodeInputs(tokens, l - 1, t);
        assert NoAttention(l - 1);
        NoAttentionStep(l - 1, x, a, b);
        StepsAgree(m, l - 1, x, b);
      }
    }

    /** So models that differ only in a norm whose block adds nothing have equal logits. */
    lemma UnusedNorm(m: Model<TW, TX>, tokens: seq<Token>, pos: nat)
      requires Fits() && m.Fits() && SameBut(m) && pos < |tokens|
      requires || (forall k: nat | k < |layers| :: layers[k].norm0 == m.layers[k].norm0 && NoFeedForward(k))
               || (forall k: nat | k < |layers| :: layers[k].norm1 == m.layers[k].norm1 && NoAttention(k))
      ensures OneNodeLogits(tokens, pos) == m.OneNodeLogits(tokens, pos)
      ensures Transformer.Logits(Abstract(), tokens, pos) == Transformer.Logits(m.Abstract(), tokens, pos)
    {
      AbstractState(tokens, |layers|, pos);
      m.AbstractState(tokens, |layers|, pos);
      hide NoFeedForward, NoAttention, Abstract;
      if forall k: nat | k < |layers| :: layers[k].norm0 == m.layers[k].norm0 && NoFeedForward(k) {
        Norm1Feeds(m, tokens, |layers|, pos);
      } else {
        Norm0Feeds(m, tokens, |layers|, pos);
      }
      AbstractHead();
      m.AbstractHead();
    }

    lemma AbstractHead()
      requires Fits()
      ensures Abstract().nLayers == |layers|
      ensures forall x: Vec :: Abstract().head(x) == MatVec(term, wcls, n, vocabSize, norm(x))
    {
    }

    /** One layer over the nodes. */
    ghost function ShardedStep(sh: Shares, l: nat, x: Vec, ys: seq<seq<TX>>): (r: Vec)
      requires Fits() && Divides(sh) && l < |layers|
      requires |x| == dim && ys != [] && forall u | 0 <= u < |ys| :: |ys[u]| == n
      ensures |r| == dim
    {
      var y := layers[l];
      assert LayerFits(y) && LayerDivides(sh, y);
      var a := y.att.Sharded(sh.groups, sh.outBlocks, sh.nNodes, x, ys);
      y.ff.Sharded(sh.hiddenBlocks, sh.nNodes, a, y.norm1(a))
    }

    /** The residual vector that every node holds when the slices are exchanged and merged. */
    ghost function Sharded(sh: Shares, tokens: seq<Token>, l: nat, t: nat): (x: Vec)
      requires Fits() && Divides(sh) && l <= |layers| && t < |tokens|
      ensures |x| == dim
      decreases l, 0
    {
      if l == 0 then embed(tokens[t])
      else ShardedStep(sh, l - 1, Sharded(sh, tokens, l - 1, t), ShardedInputs(sh, tokens, l - 1, t))
    }

    ghost function ShardedInputs(sh: Shares, tokens: seq<Token>, l: nat, t: nat): (ys: seq<seq<TX>>)
      requires Fits() && Divides(sh) && l < |layers| && t < |tokens|
      ensures |ys| == t + 1 && forall u | 0 <= u < |ys| :: |ys[u]| == n
      decreases l, 1
    {
      seq(t + 1, u requires 0 <= u < t + 1 => Input(l, Sharded(sh, tokens, l, u)))
    }

    /** The logits pipe of the root: the slices of the nodes, one after the other. */
    ghost function ShardedLogits(sh: Shares, tokens: seq<Token>, pos: nat): Vec
      requires Fits() && Divides(sh) && pos < |tokens|
    {
      var y := norm(Sharded(sh, tokens, |layers|, pos));
      Concat(seq(sh.nNodes, node requires 0 <= node < sh.nNodes => LogitsSlice(sh, node, y)))
    }

    function LogitsSlice(sh: Shares, node: nat, y: seq<TX>): Vec
      requires |wcls| == Mul(vocabSize, n) && vocabSize == Mul(sh.nNodes, sh.logits) && node < sh.nNodes && |y| == n
    {
      MulAssociative(sh.nNodes, sh.logits, n);
      SliceInside(node, sh.nNodes, Mul(sh.logits, n));
      MatVec(term, RowSlice(wcls, n, sh.logits, node), n, sh.logits, y)
    }

    lemma SameStep(sh: Shares, l: nat, x: Vec, ys: seq<seq<TX>>)
      requires Fits() && Divides(sh) && l < |layers|
      requires |x| == dim && ys != [] && forall u | 0 <= u < |ys| :: |ys[u]| == n
      ensures ShardedStep(sh, l, x, ys) == Step(l, x, ys)
    {
      var y := layers[l];
      assert LayerFits(y) && LayerDivides(sh, y);
      hide AttentionBlock.Sharded, AttentionBlock.OneNode, AttentionBlock.Fits, AttentionBlock.Divides;
      hide FF.FeedForward.Sharded, FF.FeedForward.OneNode, FF.FeedForward.Fits, Mul;
      y.att.ShardedEqualsOneNode(sh.groups, sh.outBlocks, sh.nNodes, x, ys);
      var a := y.att.OneNode(x, ys);
      y.ff.ShardedEqualsOneNode(sh.hiddenBlocks, sh.nNodes, a, y.norm1(a));
    }

    /** The residual vectors of all layers and positions are those of one node. */
    lemma {:induction false} SameStates(sh: Shares, tokens: seq<Token>, l: nat, t: nat)
      requires Fits() && Divides(sh) && l <= |layers| && t < |tokens|
      ensures Sharded(sh, tokens, l, t) == OneNode(tokens, l, t)
      decreases l, 0
    {
      hide Step, ShardedStep, Divides;
      if l > 0 {
        SameStates(sh, tokens, l - 1, t);
        SameInputs(sh, tokens, l - 1, t);
        SameStep(sh, l - 1, OneNode(tokens, l - 1, t), OneNodeInputs(tokens, l - 1, t));
      }
    }

    lemma {:induction false} SameInputs(sh: Shares, tokens: seq<Token>, l: nat, t: nat)
      requires Fits() && Divides(sh) && l < |layers| && t < |tokens|
      ensures ShardedInputs(sh, tokens, l, t) == OneNodeInputs(tokens, l, t)
      decreases l, 1
    {
      var a, b := ShardedInputs(sh, tokens, l, t), OneNodeInputs(tokens, l, t);
      forall u: nat | u <= t
        ensures a[u] == b[u]
      {
        SameStates(sh, tokens, l, u);
      }
    }

    /** The cluster computes the logits of one node, for every number of nodes that divides the model. */
    lemma ShardedEqualsOneNode(sh: Shares, tokens: seq<Token>, pos: nat)
      requires Fits() && Divides(sh) && pos < |tokens|
      ensures ShardedLogits(sh, tokens, pos) == OneNodeLogits(tokens, pos)
    {
      SameStates(sh, tokens, |layers|, pos);
      var y := norm(OneNode(tokens, |layers|, pos));
      var lg := MatVec(term, wcls, n, vocabSize, y);
      var slices := seq(sh.nNodes, node requires 0 <= node < sh.nNodes => LogitsSlice(sh, node, y));
      MulAssociative(sh.nNodes, sh.logits, n);
      hide Mul, MatVec, Slice, RowSlice;
      forall node: nat | node < sh.nNodes
        ensures Mul(node, sh.logits) + sh.logits <= |lg| && slices[node] == Slice(lg, sh.logits, node)
      {
        RowShard(term, wcls, n, sh.logits, sh.nNodes, y, node);
      }
      SlicesRebuild(lg, sh.logits, sh.nNodes, slices);
    }

    /** The cache row of a position, from the residual vector entering the layer. */
    ghost function RowOf(l: nat, pos: nat, x: Vec): (r: Transformer.Row)
      requires Fits() && l < |layers|
    {
      assert LayerFits(layers[l]);
      var att, y := layers[l].att, Input(l, x);
      Transformer.Row(att.Projected(att.wk, att.KvDim(att.nKvHeads), 0, pos, y),
                      MatVec(att.term, att.wv, n, att.KvDim(att.nKvHeads), y))
    }

    ghost function KeysOf(rows: seq<Transformer.Row>): (keys: seq<Vec>)
      ensures |keys| == |rows| && forall t | 0 <= t < |rows| :: keys[t] == rows[t].key
    {
      seq(|rows|, t requires 0 <= t < |rows| => rows[t].key)
    }

    ghost function ValuesOf(rows: seq<Transformer.Row>): (values: seq<Vec>)
      ensures |values| == |rows| && forall t | 0 <= t < |rows| :: values[t] == rows[t].value
    {
      seq(|rows|, t requires 0 <= t < |rows| => rows[t].value)
    }

    /** Whether the cached rows are as wide as the heads need them. */
    ghost predicate RowsFit(l: nat, pos: nat, x: Vec, rows: seq<Transformer.Row>)
      requires Fits() && l < |layers|
    {
      assert LayerFits(layers[l]);
      var att := layers[l].att;
      Attention.Fits(att.Projected(att.wq, att.QDim(att.nKvHeads), 0, pos, Input(l, x)), KeysOf(rows), ValuesOf(rows),
                     att.NHeads(att.nKvHeads), att.kvMul, att.headSize)
    }

    /** One layer from cached rows. */
    ghost function BlockOf(l: nat, pos: nat, x: Vec, rows: seq<Transformer.Row>): Vec
      requires Fits() && l < |layers| && |x| == dim && RowsFit(l, pos, x, rows)
    {
      var y := layers[l];
      assert LayerFits(y);
      var a := y.att.FromRows(x, pos, Input(l, x), KeysOf(rows), ValuesOf(rows));
      y.ff.OneNode(a, y.norm1(a))
    }

    /** This model as the abstract network whose cached evaluation Inference and ApiServer are about. */
    ghost function Abstract(): Transformer.Net
      requires Fits()
    {
      Transformer.Net(
        |layers|, embed,
        (l: nat, pos: nat, x: Vec) => if l < |layers| then RowOf(l, pos, x) else Transformer.Row([], []),
        (l: nat, pos: nat, x: Vec, rows: seq<Transformer.Row>) =>
          if l < |layers| && |x| == dim && RowsFit(l, pos, x, rows) then BlockOf(l, pos, x, rows) else [],
        (x: Vec) => MatVec(term, wcls, n, vocabSize, norm(x)))
    }

    /** One layer from the rows of all positions up to `t` is one layer from their inputs. */
    lemma BlockIsStep(l: nat, x: Vec, ys: seq<seq<TX>>, rows: seq<Transformer.Row>)
      requires Fits() && l < |layers| && |x| == dim && ys != [] && forall u | 0 <= u < |ys| :: |ys[u]| == n
      requires ys[|ys| - 1] == Input(l, x)
      requires LayerFits(layers[l]) && KeysOf(rows) == layers[l].att.Keys(ys) && ValuesOf(rows) == layers[l].att.Values(ys)
      ensures RowsFit(l, |ys| - 1, x, rows) && BlockOf(l, |ys| - 1, x, rows) == Step(l, x, ys)
    {
      var att := layers[l].att;
      att.OneNodeFromRows(x, ys);
      hide Mul, MatVec, Rotate, Heads, FF.Cast, AttentionBlock.Keys, AttentionBlock.Values, AttentionBlock.OneNode;
      hide AttentionBlock.FromRows, FF.FeedForward.OneNode, Attention.Fits;
      assert att.Query(ys) == att.Projected(att.wq, att.QDim(att.nKvHeads), 0, |ys| - 1, Input(l, x));
    }

    lemma AbstractIs(l: nat, pos: nat, x: Vec, rows: seq<Transformer.Row>)
      requires Fits()
      ensures Abstract().nLayers == |layers| && Abstract().embed == embed
      ensures l < |layers| ==> Abstract().row(l, pos, x) == RowOf(l, pos, x)
      ensures l < |layers| && |x| == dim && RowsFit(l, pos, x, rows) ==> Abstract().block(l, pos, x, rows) == BlockOf(l, pos, x, rows)
    {
      hide RowsFit, RowOf, BlockOf, LayerFits;
    }

    /** The abstract network's hidden states are the residual vectors of this model. */
    lemma {:induction false} AbstractState(tokens: seq<Token>, l: nat, t: nat)
      requires Fits() && l <= |layers| && t < |tokens|
      ensures Transformer.Hidden(Abstract(), tokens, l, t) == OneNode(tokens, l, t)
      decreases l, 0
    {
      hide Step, BlockOf, RowsFit, LayerFits, RowOf, Abstract, Transformer.Rows;
      if l == 0 {
        AbstractIs(0, t, [], []);
      } else {
        AbstractState(tokens, l - 1, t);
        AbstractRows(tokens, l - 1, t);
        var x, rows := OneNode(tokens, l - 1, t), Transformer.Rows(Abstract(), tokens, l - 1, t + 1);
        BlockIsStep(l - 1, x, OneNodeInputs(tokens, l - 1, t), rows);
        AbstractIs(l - 1, t, x, rows);
      }
    }

    lemma {:induction false} AbstractRows(tokens: seq<Token>, l: nat, t: nat)
      requires Fits() && l < |layers| && t < |tokens|
      ensures LayerFits(layers[l])
      ensures var rows, ys := Transformer.Rows(Abstract(), tokens, l, t + 1), OneNodeInputs(tokens, l, t);
              && KeysOf(rows) == layers[l].att.Keys(ys) && ValuesOf(rows) == layers[l].att.Values(ys)
      decreases l, 1
    {
      assert LayerFits(layers[l]);
      var att := layers[l].att;
      var rows, ys := Transformer.Rows(Abstract(), tokens, l, t + 1), OneNodeInputs(tokens, l, t);
      forall u: nat | u <= t
        ensures rows[u].key == att.Keys(ys)[u] && rows[u].value == att.Values(ys)[u]
      {
        Transformer.RowsAt(Abstract(), tokens, l, t + 1, u);
        AbstractState(tokens, l, u);
      }
    }

    /** Cached evaluation, and with it the server, is about this model: the abstract network's logits are
        those of one node, and those of the cluster. */
    lemma ClusterLogits(sh: Shares, tokens: seq<Token>, pos: nat)
      requires Fits() && Divides(sh) && pos < |tokens|
      ensures Transformer.Logits(Abstract(), tokens, pos) == OneNodeLogits(tokens, pos) == ShardedLogits(sh, tokens, pos)
    {
      AbstractState(tokens, |layers|, pos);
      ShardedEqualsOneNode(sh, tokens, pos);
    }
  }

  function Zeros(n: nat): Vec {
    seq(n, _ => 0.0)
  }

  /** There are models of this kind that two nodes divide: a small one. */
  lemma SomeModel() returns (m: Model<real, real>)
    ensures m.Fits() && m.Divides(Shares(2, 1, 2, 1, 1)) && |m.layers| == 1
  {
    var term: (real, real) -> real := (w: real, x: real) => w * x;
    var castBlock: seq<real> -> real := (b: seq<real>) => if b == [] then 0.0 else b[0];
    var norm: Vec -> seq<real> := (v: Vec) => if |v| == 4 then v else Zeros(4);
    var att := AttentionBlock(term, castBlock, 1, Kernel((s: seq<real>) => s, 1.0),
                              Angles((p: nat, d: nat) => 1.0, (p: nat, d: nat) => 0.0),
                              4, 4, 2, 1, 2, 4, Zeros(16), Zeros(16), Zeros(16), Zeros(16));
    var ff := FF.FeedForward(term, castBlock, 1, (x: real) => x, 4, 4, 2, Zeros(8), Zeros(8), Zeros(8));
    assert att.Fits() && att.Divides(1, 2, 2) && ff.Fits();
    m := Model(4, 4, 2, (t: Token) => Zeros(4), [Layer(att, ff, norm, norm)], norm, term, Zeros(8));
    hide AttentionBlock.Fits, AttentionBlock.Divides, FF.FeedForward.Fits;
    assert m.LayerFits(m.layers[0]) && m.LayerDivides(Shares(2, 1, 2, 1, 1), m.layers[0]);
  }
}
