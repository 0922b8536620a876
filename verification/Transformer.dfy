/** What a decoder-only network computes, read off the op graph of src/llm.cpp: the key and value
    rows of a position depend on its hidden state, attention at a position reads the rows up to
    it, and the logits come from the last hidden state. The numeric content of each op is a
    parameter. */
module Transformer {
  import opened TokenBytes

  type Vec = seq<real>

  /** The key and value row of one position in one layer. */
  datatype Row = Row(key: Vec, value: Vec)

  /** `embed` is the embedding op; `row` is rms norm, the K and V matmuls and K's rotation;
      `block` is the rest of a layer, attention and feed-forward, over the rows up to the
      position; `head` is the final norm and the logits matmul. */
  datatype Net = Net(
    nLayers: nat,
    embed: Token -> Vec,
    row: (nat, nat, Vec) -> Row,
    block: (nat, nat, Vec, seq<Row>) -> Vec,
    head: Vec -> Vec)

  /** The hidden state entering layer `layer` at position `pos`, from the tokens alone. */
  function Hidden(net: Net, tokens: seq<Token>, layer: nat, pos: nat): Vec
    requires pos < |tokens|
    decreases layer, 0, 0
  {
    if layer == 0 then net.embed(tokens[pos])
    else net.block(layer - 1, pos, Hidden(net, tokens, layer - 1, pos), Rows(net, tokens, layer - 1, pos + 1))
  }

  /** The rows of the first `n` positions of a layer. */
  function Rows(net: Net, tokens: seq<Token>, layer: nat, n: nat): (r: seq<Row>)
    requires n <= |tokens|
    ensures |r| == n
    decreases layer, 1, n
  {
    if n == 0 then []
    else Rows(net, tokens, layer, n - 1) + [net.row(layer, n - 1, Hidden(net, tokens, layer, n - 1))]
  }

  function RowAt(net: Net, tokens: seq<Token>, layer: nat, pos: nat): Row
    requires pos < |tokens|
  {
    net.row(layer, pos, Hidden(net, tokens, layer, pos))
  }

  /** The logits at `pos`, computed from position 0 without any cache. */
  function Logits(net: Net, tokens: seq<Token>, pos: nat): Vec
    requires pos < |tokens|
  {
    net.head(Hidden(net, tokens, net.nLayers, pos))
  }

  lemma {:induction false} RowsAt(net: Net, tokens: seq<Token>, layer: nat, n: nat, p: nat)
    requires p < n <= |tokens|
    ensures Rows(net, tokens, layer, n)[p] == RowAt(net, tokens, layer, p)
    decreases n
  {
    if p < n - 1 {
      RowsAt(net, tokens, layer, n - 1, p);
    }
  }

  /** Causality: a hidden state depends only on the tokens up to its position. */
  lemma {:induction false} HiddenCausal(net: Net, a: seq<Token>, b: seq<Token>, layer: nat, pos: nat)
    requires pos < |a| && pos < |b| && a[..pos + 1] == b[..pos + 1]
    ensures Hidden(net, a, layer, pos) == Hidden(net, b, layer, pos)
    decreases layer, 0, 0
  {
    assert a[pos] == a[..pos + 1][pos] == b[pos];
    if layer > 0 {
      HiddenCausal(net, a, b, layer - 1, pos);
      RowsCausal(net, a, b, layer - 1, pos + 1);
    }
  }

  lemma {:induction false} RowsCausal(net: Net, a: seq<Token>, b: seq<Token>, layer: nat, n: nat)
    requires n <= |a| && n <= |b| && a[..n] == b[..n]
    ensures Rows(net, a, layer, n) == Rows(net, b, layer, n)
    decreases layer, 1, n
  {
    if n > 0 {
      assert a[..n - 1] == a[..n][..n - 1] == b[..n][..n - 1] == b[..n - 1];
      RowsCausal(net, a, b, layer, n - 1);
      HiddenCausal(net, a, b, layer, n - 1);
    }
  }

  lemma RowAtCausal(net: Net, a: seq<Token>, b: seq<Token>, layer: nat, pos: nat, n: nat)
    requires pos < n <= |a| && n <= |b| && a[..n] == b[..n]
    ensures RowAt(net, a, layer, pos) == RowAt(net, b, layer, pos)
  {
    assert a[..pos + 1] == a[..n][..pos + 1] == b[..n][..pos + 1] == b[..pos + 1];
    HiddenCausal(net, a, b, layer, pos);
  }
}
