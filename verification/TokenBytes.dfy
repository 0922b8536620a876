/** Token sequences as the byte keys of the prefix trie: four bytes a token, low byte first
    (src/nn/nn-cache.cpp casts the token array). */
module TokenBytes {
  import opened HatTrie

  type Token = t: int | 0 <= t < 0x1_0000_0000

  function TokenKey(t: Token): (k: Key)
    ensures |k| == 4
  {
    var t1 := t / 256;
    var t2 := t1 / 256;
    [t % 256, t1 % 256, t2 % 256, t2 / 256]
  }

  function Encode(ts: seq<Token>): (k: Key)
    ensures |k| == 4 * |ts|
  {
    if ts == [] then [] else TokenKey(ts[0]) + Encode(ts[1..])
  }

  /** Token `i` stands at bytes 4 i to 4 i + 3, low byte first. */
  lemma {:induction false} EncodeAt(ts: seq<Token>, i: nat)
    requires i < |ts|
    ensures var k := Encode(ts);
            && k[4 * i] == ts[i] % 256 && k[4 * i + 1] == ts[i] / 256 % 256
            && k[4 * i + 2] == ts[i] / 0x1_0000 % 256 && k[4 * i + 3] == ts[i] / 0x100_0000
  {
    if i > 0 {
      EncodeAt(ts[1..], i - 1);
    } else {
      var t: Token := ts[0];
      assert t / 256 / 256 == t / 0x1_0000 && t / 256 / 256 / 256 == t / 0x100_0000;
    }
  }

  lemma TokenKeyInjective(t: Token, u: Token)
    requires TokenKey(t) == TokenKey(u)
    ensures t == u
  {
    var k, l := TokenKey(t), TokenKey(u);
    assert k[3] == l[3] && k[2] == l[2] && k[1] == l[1] && k[0] == l[0];
    assert t / 256 / 256 == u / 256 / 256;
    assert t / 256 == u / 256;
  }

  /** The byte-level common prefix, counted in whole tokens, is the token-level one. */
  lemma {:induction false} CommonPrefixOfEncodings(a: seq<Token>, b: seq<Token>)
    ensures CommonPrefix(Encode(a), Encode(b)) / 4 == CommonPrefix(a, b)
  {
    if a != [] && b != [] {
      var x, y := Encode(a), Encode(b);
      var n := CommonPrefix(x, y);
      if a[0] == b[0] {
        CommonPrefixOfEncodings(a[1..], b[1..]);
        CommonPrefixShift(TokenKey(a[0]), Encode(a[1..]), Encode(b[1..]));
      } else {
        if n >= 4 {
          assert TokenKey(a[0]) == x[..n][..4] == y[..n][..4] == TokenKey(b[0]);
          TokenKeyInjective(a[0], b[0]);
          assert false;
        }
      }
    }
  }

  lemma CommonPrefixShift(p: Key, x: Key, y: Key)
    ensures CommonPrefix(p + x, p + y) == |p| + CommonPrefix(x, y)
  {
    var n := CommonPrefix(x, y);
    assert (p + x)[..|p| + n] == p + x[..n] && (p + y)[..|p| + n] == p + y[..n];
    CommonPrefixIs(p + x, p + y, |p| + n);
  }

  lemma {:induction false} EncodeInjective(a: seq<Token>, b: seq<Token>)
    requires Encode(a) == Encode(b)
    ensures a == b
  {
    if a != [] {
      assert Encode(a)[..4] == TokenKey(a[0]) && Encode(b)[..4] == TokenKey(b[0]);
      assert Encode(a)[4..] == Encode(a[1..]) && Encode(b)[4..] == Encode(b[1..]);
      TokenKeyInjective(a[0], b[0]);
      EncodeInjective(a[1..], b[1..]);
      assert a == [a[0]] + a[1..] && b == [b[0]] + b[1..];
    }
  }
}
