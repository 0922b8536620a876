/** The bursting trie of src/nn/tsl/htrie_hash.h: trie nodes with one child per byte, whose
    leaves are hash nodes holding key suffixes. Nodes are heap objects with parent pointers, and
    every operation walks and relinks them as the original does. The array hash inside a hash
    node is a finite map. */
module HatTrie {
  import opened Wrappers

  type Key = seq<Byte>

  const MIN_BURST_THRESHOLD := 4
  const DEFAULT_BURST_THRESHOLD := 16384
  const MAX_KEY_SIZE := 65534

  /** The result of an insertion; a key over the size limit raises length_error. */
  datatype InsertResult = Inserted | AlreadyThere | KeyTooLong

  /** A hash node uses `arrayHash`; a trie node uses `value` and `children`. The ghost `path` is
      the string of bytes on the way from the root. */
  class Node<V(!new)> {
    const isHash: bool
    var arrayHash: map<Key, V>
    var value: Option<V>
    var children: map<Byte, Node<V>>
    var parent: Node?<V>
    var childOfChar: Byte
    ghost var path: Key

    constructor Trie(ghost path: Key)
      ensures !isHash && this.path == path && parent == null
      ensures arrayHash == map[] && value == None && children == map[]
    {
      isHash := false;
      this.path := path;
      parent := null;
      childOfChar := 0;
      arrayHash, value, children := map[], None, map[];
    }

    /** The empty hash node a new trie starts with. */
    constructor Hash()
      ensures isHash && path == [] && parent == null
      ensures arrayHash == map[] && value == None && children == map[]
    {
      isHash, path, parent, childOfChar := true, [], null, 0;
      arrayHash, value, children := map[], None, map[];
    }

    /** A hash node with one entry, ready to become child `c` of `parent`. */
    constructor Leaf(parent: Node<V>, c: Byte, suffix: Key, v: V)
      ensures isHash && path == parent.path + [c] && this.parent == parent && childOfChar == c
      ensures arrayHash == map[suffix := v] && value == None && children == map[]
    {
      isHash := true;
      path := parent.path + [c];
      this.parent := parent;
      childOfChar := c;
      arrayHash, value, children := map[suffix := v], None, map[];
    }

    ghost predicate IsEmpty()
      reads this
    {
      arrayHash == map[] && value == None && children == map[]
    }

    /** Key `k` is stored at this node. */
    ghost predicate Holds(k: Key)
      reads this
    {
      && path <= k
      && if isHash then k[|path|..] in arrayHash else k == path && value.Some?
    }
  }

  /** What find hands to erase: a node, and the suffix inside it when it is a hash node. */
  datatype Iterator<V(!new)> = Iterator(node: Node<V>, suffix: Key)

  /** The outcomes of equal_longest_prefix_range: the end of an empty map, the range below the parent of a root,
      a range with the length left unset, or a range with the length put out. */
  datatype LongestRange<V(!new)> =
    | NoEntries
    | NullParent
    | Unset(node: Node<V>)
    | Matched(length: nat, first: Iterator<V>)

  /** Length of the longest common prefix, as the byte loop of the hash-node scan counts it. */
  function CommonPrefix<T(==)>(a: seq<T>, b: seq<T>): (n: nat)
    ensures n <= |a| && n <= |b| && a[..n] == b[..n]
    ensures n < |a| && n < |b| ==> a[n] != b[n]
  {
    if a == [] || b == [] || a[0] != b[0] then 0
    else
      var n := 1 + CommonPrefix(a[1..], b[1..]);
      assert a[..n] == [a[0]] + a[1..][..n - 1] && b[..n] == [b[0]] + b[1..][..n - 1];
      n
  }

  lemma CommonPrefixIs<T>(a: seq<T>, b: seq<T>, n: nat)
    requires n <= |a| && n <= |b| && a[..n] == b[..n]
    requires n < |a| && n < |b| ==> a[n] != b[n]
    ensures CommonPrefix(a, b) == n
  {
    var c := CommonPrefix(a, b);
    assert forall i | 0 <= i < n :: a[i] == a[..n][i] && b[i] == b[..n][i];
    assert forall i | 0 <= i < c :: a[i] == a[..c][i] && b[i] == b[..c][i];
  }

  /** Behind a shared start the common prefix goes on. */
  lemma CommonPrefixBelow<T>(a: seq<T>, b: seq<T>, i: nat)
    requires i <= |a| && i <= |b| && a[..i] == b[..i]
    ensures CommonPrefix(a, b) == i + CommonPrefix(a[i..], b[i..])
  {
    var c := CommonPrefix(a[i..], b[i..]);
    assert a[..i + c] == a[..i] + a[i..][..c] && b[..i + c] == b[..i] + b[i..][..c];
    CommonPrefixIs(a, b, i + c);
  }

  class HtrieMap<V(!new)> {
    var root: Node?<V>
    var nbElements: nat
    const burstThreshold: nat
    ghost var nodes: set<Node<V>>
    /** The plain map the trie refines, and the node that stores each key. */
    ghost var contents: map<Key, V>
    ghost var holder: map<Key, Node<V>>

    constructor (threshold: nat)
      ensures Valid() && fresh(nodes) && contents == map[] && RootUnburst()
      ensures burstThreshold == if threshold < MIN_BURST_THRESHOLD then MIN_BURST_THRESHOLD else threshold
    {
      root, nbElements, nodes := null, 0, {};
      burstThreshold := if threshold < MIN_BURST_THRESHOLD then MIN_BURST_THRESHOLD else threshold;
      contents, holder := map[], map[];
    }

    // ---------------------------------------------------------------- invariant

    ghost predicate LinkedNode(n: Node<V>)
      requires n in nodes
      reads this`root, this`nodes, nodes`parent, nodes`children, nodes`childOfChar, nodes`path
    {
      && (n.isHash ==> n.children == map[])
      && (n == root ==> n.parent == null && n.path == [])
      && (n != root ==>
            && n.parent != null && n.parent in nodes && !n.parent.isHash
            && n.childOfChar in n.parent.children
            && n.parent.children[n.childOfChar] == n
            && n.path == n.parent.path + [n.childOfChar])
      && (forall c <- n.children :: n.children[c] in nodes && n.children[c].parent == n && n.children[c].childOfChar == c)
    }

    /** The tree of nodes: parent pointers, child pointers and paths agree. */
    ghost predicate Linked()
      reads this`root, this`nodes, nodes`parent, nodes`children, nodes`childOfChar, nodes`path
    {
      && (root == null ==> nodes == {})
      && (root != null ==> root in nodes)
      && (forall n {:trigger LinkedNode(n)} | n in nodes :: LinkedNode(n))
    }

    ghost predicate StoresNode(n: Node<V>)
      reads this, n
    {
      && (n.isHash ==> n.value == None)
      && (!n.isHash ==> n.arrayHash == map[])
      && (forall s <- n.arrayHash :: n.path + s in contents && contents[n.path + s] == n.arrayHash[s])
      && (n.value.Some? ==> n.path in contents && contents[n.path] == n.value.value)
    }

    ghost predicate StoresKey(k: Key)
      requires k in holder
      reads this, nodes
    {
      holder[k] in nodes && holder[k].Holds(k)
    }

    /** What the nodes store is the map `contents`, each key once. */
    ghost predicate Stores()
      reads this, nodes
    {
      && holder.Keys == contents.Keys
      && (forall k {:trigger StoresKey(k)} | k in holder :: StoresKey(k))
      && (forall n {:trigger StoresNode(n)} | n in nodes :: StoresNode(n))
    }

    /** No empty node, except possibly `hole`; no hash node over the burst threshold. */
    ghost predicate Tidy(hole: Node?<V>)
      reads this, nodes
    {
      forall n {:trigger n.IsEmpty()} | n in nodes :: |n.arrayHash| <= burstThreshold && (n != hole ==> !n.IsEmpty())
    }

    ghost predicate Valid()
      reads this, nodes
    {
      && Linked() && Stores() && Tidy(null)
      && nbElements == |contents|
      && burstThreshold >= MIN_BURST_THRESHOLD
    }

    /** The root is absent or still a single hash node. */
    ghost predicate RootUnburst()
      reads this, root
    {
      root == null || root.isHash
    }

    lemma HolderIsNode(k: Key)
      requires Stores() && k in holder
      ensures holder[k] in nodes && holder[k].Holds(k)
    {
      assert StoresKey(k);
    }

    lemma EmptyTree()
      requires Linked() && Stores() && root == null
      ensures contents == map[] && holder == map[]
    {
      if holder.Keys != {} {
        var k :| k in holder;
        HolderIsNode(k);
        assert false;
      }
    }

    // ---------------------------------------------------------------- paths determine nodes

    lemma {:induction false} SamePath(a: Node<V>, b: Node<V>)
      requires Linked() && a in nodes && b in nodes && a.path == b.path
      ensures a == b
      decreases |a.path|
    {
      assert LinkedNode(a) && LinkedNode(b);
      if a != root && b != root {
        var n := |a.path| - 1;
        assert a.parent.path == a.path[..n] == b.path[..n] == b.parent.path;
        SamePath(a.parent, b.parent);
        assert a.childOfChar == a.path[n] == b.path[n] == b.childOfChar;
      }
    }

    /** A node strictly above another one is a trie node with a child in its direction. */
    lemma {:induction false} Above(a: Node<V>, n: Node<V>)
      requires Linked() && a in nodes && n in nodes
      requires a.path <= n.path && |a.path| < |n.path|
      ensures !a.isHash && n.path[|a.path|] in a.children
      decreases |n.path|
    {
      assert LinkedNode(n);
      if |n.parent.path| == |a.path| {
        SamePath(a, n.parent);
      } else {
        Above(a, n.parent);
      }
    }

    /** The walk for a stored key `k` that has come to `n` is on its way to the key's node. */
    lemma OnTheWay(n: Node<V>, k: Key)
      requires Linked() && Stores() && n in nodes && n.path <= k
      ensures k in contents && (n.isHash || |n.path| == |k|) ==> holder[k] == n && n.Holds(k)
      ensures k in contents && !n.isHash && |n.path| < |k| ==> k[|n.path|] in n.children
    {
      if k in contents {
        assert StoresKey(k);
        var h := holder[k];
        if |h.path| < |n.path| {
          assert h.path == k[..|h.path|] == n.path[..|h.path|];
          Above(h, n);
        } else if |n.path| < |h.path| {
          assert n.path == k[..|n.path|] == h.path[..|n.path|];
          Above(n, h);
        } else {
          assert h.path == k[..|h.path|] == n.path;
          SamePath(h, n);
        }
      }
    }

    /** A key whose node holds it is in the map, with the stored value. */
    lemma Stored(n: Node<V>, k: Key)
      requires Stores() && n in nodes && n.Holds(k)
      ensures k in contents && contents[k] == if n.isHash then n.arrayHash[k[|n.path|..]] else n.value.value
    {
      assert StoresNode(n) && n.path + k[|n.path|..] == k;
    }

    // ---------------------------------------------------------------- lookup

    method FindImpl(start: Node<V>, key: Key) returns (it: Option<Iterator<V>>)
      requires Linked() && Stores() && start in nodes
      ensures it.Some? <==> start.path + key in contents
      ensures it.Some? ==> it.value.node in nodes && it.value.node.Holds(start.path + key)
      ensures it.Some? ==> it.value.suffix == (start.path + key)[|it.value.node.path|..]
    {
      ghost var k := start.path + key;
      var current := start;
      for ikey := 0 to |key|
        invariant current in nodes && current.path == start.path + key[..ikey]
      {
        assert k[|current.path|] == key[ikey] && k[|current.path|..] == key[ikey..];
        OnTheWay(current, k);
        assert LinkedNode(current);
        if !current.isHash {
          if key[ikey] !in current.children {
            return None;
          }
          assert key[..ikey + 1] == key[..ikey] + [key[ikey]];
          current := current.children[key[ikey]];
          assert LinkedNode(current);
        } else {
          if key[ikey..] in current.arrayHash {
            Stored(current, k);
            return Some(Iterator(current, key[ikey..]));
          }
          return None;
        }
      }
      assert current.path == k;
      OnTheWay(current, k);
      if !current.isHash {
        if current.value.Some? { Stored(current, k); }
        return if current.value.Some? then Some(Iterator(current, [])) else None;
      } else {
        if [] in current.arrayHash { Stored(current, k); }
        return if [] in current.arrayHash then Some(Iterator(current, [])) else None;
      }
    }

    method Find(key: Key) returns (it: Option<Iterator<V>>)
      requires Valid()
      ensures it.Some? <==> key in contents
      ensures it.Some? ==> it.value.node in nodes && it.value.node.Holds(key)
      ensures it.Some? ==> it.value.suffix == key[|it.value.node.path|..]
    {
      if root == null {
        EmptyTree();
        return None;
      }
      assert LinkedNode(root) && root.path + key == key;
      it := FindImpl(root, key);
    }

    /** The value an iterator points at. */
    method Value(it: Iterator<V>, ghost key: Key) returns (v: V)
      requires Valid() && it.node in nodes && it.node.Holds(key) && it.suffix == key[|it.node.path|..]
      ensures key in contents && v == contents[key]
    {
      Stored(it.node, key);
      v := if it.node.isHash then it.node.arrayHash[it.suffix] else it.node.value.value;
    }

    /** The key an iterator points at, read off the parent pointers. */
    method KeyOf(it: Iterator<V>) returns (key: Key)
      requires Linked() && it.node in nodes
      ensures key == it.node.path + it.suffix
    {
      var prefix: Key := [];
      var n := it.node;
      while n.parent != null
        invariant n in nodes && n.path + prefix == it.node.path
        decreases |n.path|
      {
        assert LinkedNode(n);
        assert n.path + prefix == n.parent.path + ([n.childOfChar] + prefix);
        prefix := [n.childOfChar] + prefix;
        n := n.parent;
      }
      assert LinkedNode(n);
      key := prefix + it.suffix;
    }

    // ---------------------------------------------------------------- insertion

    /** A hash node stores at most as many suffixes as the map has keys. */
    lemma HashNodeBound(n: Node<V>)
      requires Stores() && n in nodes && n.path == []
      ensures |n.arrayHash| <= |contents|
    {
      assert StoresNode(n);
      forall s | s in n.arrayHash
        ensures s in contents
      {
        assert n.path + s == s;
      }
      CardinalityMonotone(n.arrayHash.Keys, contents.Keys);
      assert |n.arrayHash.Keys| == |n.arrayHash| && |contents.Keys| == |contents|;
    }

    /** The unburst branch of insert_in_hash_node. */
    method EmplaceInHash(hnode: Node<V>, suffix: Key, v: V, ghost hole: Node?<V>) returns (inserted: bool)
      requires Linked() && Stores() && Tidy(hole) && hnode in nodes && hnode.isHash
      requires hole == null || hole == hnode
      requires |hnode.arrayHash| < burstThreshold
      requires nbElements == |contents| && burstThreshold >= MIN_BURST_THRESHOLD
      modifies this`nbElements, this`contents, this`holder, hnode`arrayHash
      ensures Valid()
      ensures var k := old(hnode.path) + suffix;
              && inserted == (k !in old(contents))
              && contents == if inserted then old(contents)[k := v] else old(contents)
    {
      ghost var k := hnode.path + suffix;
      assert k[|hnode.path|..] == suffix;
      OnTheWay(hnode, k);
      inserted := suffix !in hnode.arrayHash;
      if inserted {
        hnode.arrayHash := hnode.arrayHash[suffix := v];
        nbElements := nbElements + 1;
        contents, holder := contents[k := v], holder[k := hnode];
        StoresPut(hnode, k);
      } else {
        assert hnode.Holds(k);
        Stored(hnode, k);
      }
      assert suffix in hnode.arrayHash;
      forall n | n in nodes
        ensures |n.arrayHash| <= burstThreshold && !n.IsEmpty()
      {
        assert n != hole ==> !old(n.IsEmpty());
      }
    }

    /** Storing one more key at node `n` keeps the map and the nodes in step. */
    twostate lemma StoresPut(n: Node<V>, new k: Key)
      requires nodes == old(nodes) && n in nodes && old(Stores()) && k !in old(contents) && k in contents
      requires contents == old(contents)[k := contents[k]] && holder == old(holder)[k := n]
      requires n.path == old(n.path) && n.path <= k
      requires unchanged(nodes - {n})
      requires n.isHash ==> n.value == old(n.value) && n.arrayHash == old(n.arrayHash)[k[|n.path|..] := contents[k]]
      requires !n.isHash ==> k == n.path && n.arrayHash == old(n.arrayHash) && n.value == Some(contents[k])
      ensures Stores()
    {
      assert n.path + k[|n.path|..] == k;
      forall x | x in nodes
        ensures StoresNode(x)
      {
        assert old(StoresNode(x));
      }
      forall x | x in holder
        ensures StoresKey(x)
      {
        if x != k {
          assert old(StoresKey(x));
        }
      }
    }

    /** The key ends at trie node `tnode`, which has no value yet. */
    method SetValue(tnode: Node<V>, v: V)
      requires Valid() && tnode in nodes && !tnode.isHash && tnode.value == None
      modifies this`nbElements, this`contents, this`holder, tnode`value
      ensures Valid()
      ensures tnode.path !in old(contents) && contents == old(contents)[tnode.path := v]
    {
      ghost var k := tnode.path;
      OnTheWay(tnode, k);
      tnode.value := Some(v);
      nbElements := nbElements + 1;
      contents, holder := contents[k := v], holder[k := tnode];
      StoresPut(tnode, k);
      forall n | n in nodes
        ensures |n.arrayHash| <= burstThreshold && !n.IsEmpty()
      {
        assert !old(n.IsEmpty());
      }
    }

    /** A fresh hash node `hnode` holding key `k` has become a child of trie node `tnode`. */
    twostate predicate Leafed(tnode: Node<V>, new hnode: Node<V>, new k: Key)
      reads this, nodes, hnode
    {
      && tnode in old(nodes) && !tnode.isHash && hnode !in old(nodes)
      && nodes == old(nodes) + {hnode} && root == old(root)
      && k !in old(contents) && k in contents && contents == old(contents)[k := contents[k]]
      && holder == old(holder)[k := hnode]
      && hnode.isHash && hnode.children == map[] && hnode.value == None && hnode.parent == tnode
      && hnode.path == tnode.path + [hnode.childOfChar] && hnode.path <= k
      && hnode.arrayHash == map[k[|hnode.path|..] := contents[k]]
      && hnode.childOfChar !in old(tnode.children)
      && (forall n {:trigger n in old(nodes)} | n in old(nodes) ::
            && n.arrayHash == old(n.arrayHash) && n.value == old(n.value) && n.path == old(n.path)
            && n.parent == old(n.parent) && n.childOfChar == old(n.childOfChar)
            && n.children == if n == tnode then old(n.children)[hnode.childOfChar := hnode] else old(n.children))
    }

    method AttachLeaf(tnode: Node<V>, c: Byte, suffix: Key, v: V) returns (hnode: Node<V>)
      requires tnode in nodes && !tnode.isHash && c !in tnode.children
      requires tnode.path + [c] + suffix !in contents
      modifies this`nbElements, this`contents, this`holder, this`nodes, tnode`children
      ensures fresh(hnode) && Leafed(tnode, hnode, tnode.path + [c] + suffix)
      ensures contents[tnode.path + [c] + suffix] == v && nbElements == old(nbElements) + 1
    {
      ghost var k := tnode.path + [c] + suffix;
      ghost var p := tnode.path + [c];
      assert k[|tnode.path|] == c && p <= k && k[|p|..] == suffix;
      hnode := new Node.Leaf(tnode, c, suffix, v);
      tnode.children := tnode.children[c := hnode];
      nbElements := nbElements + 1;
      nodes := nodes + {hnode};
      contents, holder := contents[k := v], holder[k := hnode];
    }

    method AddLeaf(tnode: Node<V>, c: Byte, suffix: Key, v: V)
      requires Valid() && tnode in nodes && !tnode.isHash && c !in tnode.children
      modifies this`nbElements, this`contents, this`holder, this`nodes, tnode`children
      ensures Valid() && fresh(nodes - old(nodes))
      ensures var k := tnode.path + [c] + suffix;
              k !in old(contents) && contents == old(contents)[k := v]
    {
      ghost var k := tnode.path + [c] + suffix;
      assert k[|tnode.path|] == c;
      OnTheWay(tnode, k);
      var hnode := AttachLeaf(tnode, c, suffix, v);
      LeafLinked(tnode, hnode, k);
      LeafStored(tnode, hnode, k);
      LeafTidy(tnode, hnode, k);
    }

    twostate lemma LeafLinked(tnode: Node<V>, new hnode: Node<V>, new k: Key)
      requires old(Linked()) && Leafed(tnode, hnode, k)
      ensures Linked()
    {
      forall n | n in nodes
        ensures LinkedNode(n)
      {
        if n != hnode {
          assert old(LinkedNode(n));
        } else {
          assert old(LinkedNode(tnode));
        }
      }
    }

    twostate lemma LeafStored(tnode: Node<V>, new hnode: Node<V>, new k: Key)
      requires old(Stores()) && Leafed(tnode, hnode, k)
      ensures Stores()
    {
      assert hnode.path + k[|hnode.path|..] == k;
      forall x | x in nodes
        ensures StoresNode(x)
      {
        assert x != hnode ==> old(StoresNode(x));
      }
      forall x | x in holder
        ensures StoresKey(x)
      {
        assert x != k ==> old(StoresKey(x));
      }
    }

    twostate lemma LeafTidy(tnode: Node<V>, new hnode: Node<V>, new k: Key)
      requires old(Tidy(null)) && Leafed(tnode, hnode, k) && burstThreshold > 0
      ensures Tidy(null)
    {
      forall n | n in nodes
        ensures |n.arrayHash| <= burstThreshold && !n.IsEmpty()
      {
        assert n != hnode ==> !old(n.IsEmpty());
        assert hnode.childOfChar in tnode.children;
      }
    }

    /** Child `c` of `t` is a nonempty hash node of at most `bound` entries that knows its place. */
    static ghost predicate Kid(t: Node<V>, c: Byte, bound: nat)
      requires c in t.children
      reads t`children, t`path, t.children.Values
    {
      var n := t.children[c];
      && n.isHash && n != t && n.parent == t && n.childOfChar == c && n.path == t.path + [c]
      && n.children == map[] && n.value == None && 0 < |n.arrayHash| <= bound
    }

    /** `t` is a trie node over well-placed hash nodes. */
    static ghost predicate BunchShape(t: Node<V>, bound: nat)
      reads t`children, t`path, t`arrayHash, t.children.Values
    {
      && t !in t.children.Values && !t.isHash && t.arrayHash == map[]
      && (forall c {:trigger Kid(t, c, bound)} | c in t.children :: Kid(t, c, bound))
    }

    /** `t` and its children store exactly the entries of `entries`, by first byte. */
    static ghost predicate BunchStores(t: Node<V>, entries: map<Key, V>)
      reads t`children, t`value, t.children.Values
    {
      && t.value == (if [] in entries then Some(entries[[]]) else None)
      && (forall s {:trigger s in entries} | s in entries && s != [] :: BunchHas(t, s, entries[s]))
      && (forall c, s {:trigger [c] + s} | c in t.children && s in t.children[c].arrayHash :: [c] + s in entries)
    }

    static ghost predicate Bunch(t: Node<V>, entries: map<Key, V>)
      reads t`children, t`path, t`value, t`arrayHash, t.children.Values
    {
      BunchShape(t, |entries|) && BunchStores(t, entries)
    }

    static ghost predicate BunchHas(t: Node<V>, s: Key, v: V)
      requires s != []
      reads t`children, t.children.Values
    {
      s[0] in t.children && s[1..] in t.children[s[0]].arrayHash && t.children[s[0]].arrayHash[s[1..]] == v
    }

    /** One step of burst: entry `s := v` joins the bunch. */
    method PutInBunch(t: Node<V>, ghost done: map<Key, V>, s: Key, v: V)
      requires Bunch(t, done) && s !in done
      modifies t`value, t`children, t.children.Values`arrayHash
      ensures Bunch(t, done[s := v])
      ensures forall c <- t.children :: fresh(t.children[c]) || (c in old(t.children) && t.children[c] == old(t.children[c]))
    {
      if s == [] {
        t.value := Some(v);
        BunchValue(t, done, v);
      } else {
        var c := s[0];
        if c in t.children {
          var child := t.children[c];
          child.arrayHash := child.arrayHash[s[1..] := v];
        } else {
          var child := new Node.Leaf(t, c, s[1..], v);
          t.children := t.children[c := child];
        }
        BunchKeepsShape(t, |done|, s, v);
        BunchPut(t, done, s, v);
      }
    }

    twostate lemma BunchValue(t: Node<V>, new done: map<Key, V>, new v: V)
      requires old(Bunch(t, done)) && [] !in done
      requires t.children == old(t.children) && t.path == old(t.path) && t.arrayHash == old(t.arrayHash)
      requires unchanged(t.children.Values - {t}) && t.value == Some(v)
      ensures Bunch(t, done[[] := v])
    {
      var now := done[[] := v];
      forall c | c in t.children
        ensures Kid(t, c, |now|)
      {
        assert old(Kid(t, c, |done|));
      }
    }

    /** The child for the first byte of `s` has gained entry `s[1..] := v`, or is new with it. */
    twostate predicate BunchStep(t: Node<V>, new s: Key, new v: V)
      reads t`children, t`path, t`arrayHash, t`value, t.children.Values
    {
      && s != [] && s[0] in t.children && t.children == old(t.children)[s[0] := t.children[s[0]]]
      && t.value == old(t.value) && t.path == old(t.path) && t.arrayHash == old(t.arrayHash)
      && (forall c <- t.children :: t.children[c] != t.children[s[0]] ==> unchanged(t.children[c]))
      && var n := t.children[s[0]];
         if s[0] in old(t.children) then
           && n == old(t.children[s[0]]) && n.arrayHash == old(n.arrayHash)[s[1..] := v] && n.path == old(n.path)
           && n.value == old(n.value) && n.children == old(n.children) && n.parent == old(n.parent)
           && n.childOfChar == old(n.childOfChar)
         else
           && (forall c <- old(t.children) :: old(t.children)[c] != n)
           && n.isHash && n != t && n.parent == t && n.childOfChar == s[0] && n.path == t.path + [s[0]]
           && n.arrayHash == map[s[1..] := v] && n.children == map[] && n.value == None
    }

    twostate lemma BunchKeepsShape(t: Node<V>, new bound: nat, new s: Key, new v: V)
      requires old(BunchShape(t, bound)) && BunchStep(t, s, v)
      ensures BunchShape(t, bound + 1)
    {
      assert s[0] in old(t.children) ==> old(Kid(t, s[0], bound));
      forall c | c in t.children
        ensures Kid(t, c, bound + 1)
      {
        assert c in old(t.children) ==> old(Kid(t, c, bound));
      }
    }

    twostate lemma BunchPut(t: Node<V>, new done: map<Key, V>, new s: Key, new v: V)
      requires old(Bunch(t, done)) && s !in done && BunchStep(t, s, v)
      ensures BunchStores(t, done[s := v])
    {
      var now := done[s := v];
      assert s == [s[0]] + s[1..];
      forall c | c in t.children && c != s[0]
        ensures c in old(t.children) && t.children[c].arrayHash == old(t.children[c].arrayHash)
      {
        assert old(Kid(t, c, |done|));
        assert s[0] in old(t.children) ==> old(Kid(t, s[0], |done|));
      }
      forall x | x in now && x != []
        ensures BunchHas(t, x, now[x])
      {
        assert x == [x[0]] + x[1..];
        assert x != s ==> old(BunchHas(t, x, done[x]));
      }
    }

    /** `done` is the part of `entries` outside `rest`. */
    static ghost predicate Done(entries: map<Key, V>, done: map<Key, V>, rest: set<Key>) {
      && rest <= entries.Keys
      && (forall s :: s in done <==> s in entries && s !in rest)
      && (forall s <- done :: done[s] == entries[s])
    }

    static lemma DoneStep(entries: map<Key, V>, done: map<Key, V>, rest: set<Key>, s: Key)
      requires Done(entries, done, rest) && s in rest
      ensures Done(entries, done[s := entries[s]], rest - {s}) && s !in done
      ensures |rest - {s}| < |rest|
    {
    }

    /** burst: distribute the entries of a full hash node by their first byte. */
    method Burst(hnode: Node<V>) returns (t: Node<V>)
      ensures fresh(t) && Bunch(t, hnode.arrayHash) && forall n <- t.children.Values :: fresh(n)
      ensures t.path == hnode.path && t.parent == null
    {
      t := new Node.Trie(hnode.path);
      var entries := hnode.arrayHash;
      var rest := entries.Keys;
      ghost var done: map<Key, V> := map[];
      while rest != {}
        invariant fresh(t) && (forall c <- t.children :: fresh(t.children[c])) && Bunch(t, done)
        invariant t.path == hnode.path && t.parent == null
        invariant Done(entries, done, rest)
        decreases |rest|
      {
        var s :| s in rest;
        DoneStep(entries, done, rest, s);
        PutInBunch(t, done, s, entries[s]);
        done := done[s := entries[s]];
        rest := rest - {s};
      }
      assert done == entries;
      forall n | n in t.children.Values
        ensures fresh(n)
      {
        var c :| c in t.children && t.children[c] == n;
      }
    }

    /** The holder of a key once `t` stands where hash node `hnode` stood. */
    static ghost function Rehold(hold: map<Key, Node<V>>, hnode: Node<V>, t: Node<V>): map<Key, Node<V>>
      reads t`path, t`children
    {
      map k | k in hold ::
        if hold[k] != hnode then hold[k]
        else if |k| == |t.path| then t
        else if |t.path| < |k| && k[|t.path|] in t.children then t.children[k[|t.path|]]
        else t
    }

    /** `t` has taken the place of hash node `hnode`. */
    twostate predicate Spliced(hnode: Node<V>, new t: Node<V>)
      reads this, t, nodes, hnode, t.children.Values
    {
      && hnode in old(nodes) && hnode.isHash && t !in old(nodes) && t.children.Values !! old(nodes)
      && nodes == old(nodes) - {hnode} + {t} + t.children.Values
      && t.path == old(hnode.path) && contents == old(contents) && holder == Rehold(old(holder), hnode, t)
      && (forall n {:trigger n in old(nodes)} | n in old(nodes) && n != hnode ::
            && n.arrayHash == old(n.arrayHash) && n.value == old(n.value) && n.path == old(n.path)
            && n.parent == old(n.parent) && n.childOfChar == old(n.childOfChar)
            && n.children == if n == old(hnode.parent) then old(n.children)[old(hnode.childOfChar) := t]
                             else old(n.children))
      && (if old(hnode.parent) == null then root == t && t.parent == null
          else root == old(root) && t.parent == old(hnode.parent) && t.childOfChar == old(hnode.childOfChar))
    }

    method RelinkRoot(hnode: Node<V>, t: Node<V>)
      requires hnode in nodes && hnode.isHash && hnode.parent == null
      requires t !in nodes && t.children.Values !! nodes && t.path == hnode.path && t.parent == null
      modifies this`root, this`nodes, this`holder
      ensures Spliced(hnode, t) && t.path == old(t.path) && nbElements == old(nbElements)
      ensures nodes == old(nodes) - {hnode} + {t} + old(t.children.Values)
      ensures root == t
    {
      root := t;
      nodes := nodes - {hnode} + {t} + t.children.Values;
      holder := Rehold(holder, hnode, t);
    }

    method RelinkBelow(hnode: Node<V>, t: Node<V>)
      requires hnode in nodes && hnode.isHash && hnode.parent != null && hnode.parent in nodes
      requires t !in nodes && t.children.Values !! nodes && t.path == hnode.path && hnode.parent != hnode
      modifies this`nodes, this`holder, t`parent, t`childOfChar, hnode.parent`children
      ensures Spliced(hnode, t) && t.path == old(t.path) && nbElements == old(nbElements)
      ensures nodes == old(nodes) - {hnode} + {t} + old(t.children.Values)
      ensures root == old(root)
    {
      t.childOfChar, t.parent := hnode.childOfChar, hnode.parent;
      t.parent.children := t.parent.children[t.childOfChar := t];
      nodes := nodes - {hnode} + {t} + t.children.Values;
      holder := Rehold(holder, hnode, t);
    }

    /** The burst node becomes the root. */
    method SpliceRoot(hnode: Node<V>, t: Node<V>, ghost kids: set<Node<V>>)
      requires kids == t.children.Values && Valid() && hnode in nodes && hnode.isHash && hnode.parent == null
      requires t !in nodes && kids !! nodes && Bunch(t, hnode.arrayHash)
      requires t.path == hnode.path && t.parent == null && hnode.arrayHash != map[]
      modifies this`root, this`nodes, this`holder, t`parent
      ensures Valid() && contents == old(contents) && t.path == old(t.path)
      ensures t in nodes && forall n <- nodes :: n in old(nodes) || n == t || n in kids
      ensures root == old(root) || (root == t && old(root) == hnode)
    {
      assert LinkedNode(hnode);
      RelinkRoot(hnode, t);
      SpliceValid(hnode, t);
    }

    /** The burst node becomes the child of its parent. */
    method SpliceBelow(hnode: Node<V>, t: Node<V>, ghost kids: set<Node<V>>)
      requires kids == t.children.Values && Valid() && hnode in nodes && hnode.isHash && hnode.parent != null
      requires t !in nodes && kids !! nodes && Bunch(t, hnode.arrayHash)
      requires t.path == hnode.path && t.parent == null && hnode.arrayHash != map[]
      modifies this`root, this`nodes, this`holder, t`parent, t`childOfChar, nodes`children
      ensures Valid() && contents == old(contents) && t.path == old(t.path)
      ensures t in nodes && forall n <- nodes :: n in old(nodes) || n == t || n in kids
      ensures root == old(root) || (root == t && old(root) == hnode)
    {
      assert LinkedNode(hnode);
      assert hnode.parent in nodes && hnode.parent != hnode;
      hide LinkedNode, StoresNode, StoresKey, Tidy, Linked, Stores, Spliced;
      RelinkBelow(hnode, t);
      assert Bunch(t, old(hnode.arrayHash));
      hide Bunch;
      SpliceValid(hnode, t);
    }

    twostate lemma SpliceValid(hnode: Node<V>, new t: Node<V>)
      requires old(Valid()) && Spliced(hnode, t) && Bunch(t, old(hnode.arrayHash)) && old(hnode.arrayHash) != map[]
      ensures Linked() && Stores() && Tidy(null)
    {
      SpliceLinked(hnode, t);
      SpliceStored(hnode, t);
      SpliceTidy(hnode, t);
    }

    twostate lemma SpliceLinkedNew(hnode: Node<V>, new t: Node<V>)
      requires old(Linked()) && Spliced(hnode, t) && Bunch(t, old(hnode.arrayHash))
      ensures LinkedNode(t) && forall c <- t.children :: LinkedNode(t.children[c])
    {
      assert old(LinkedNode(hnode));
      forall c | c in t.children
        ensures t.children[c] in nodes && t.children[c].parent == t && t.children[c].childOfChar == c
        ensures LinkedNode(t.children[c])
      {
        assert Kid(t, c, |old(hnode.arrayHash)|);
      }
    }

    twostate lemma SpliceLinkedOld(hnode: Node<V>, new t: Node<V>, new n: Node<V>)
      requires old(Linked()) && Spliced(hnode, t) && n in old(nodes) && n != hnode
      ensures LinkedNode(n)
    {
      assert old(LinkedNode(n)) && old(LinkedNode(hnode));
      if n == old(hnode.parent) {
        forall c | c in n.children
          ensures n.children[c] in nodes && n.children[c].parent == n && n.children[c].childOfChar == c
        {
          assert c != old(hnode.childOfChar) ==> n.children[c] == old(n.children[c]) && n.children[c] != hnode;
        }
      }
    }

    twostate lemma SpliceLinked(hnode: Node<V>, new t: Node<V>)
      requires old(Linked()) && Spliced(hnode, t) && Bunch(t, old(hnode.arrayHash))
      ensures Linked()
    {
      SpliceLinkedNew(hnode, t);
      assert old(LinkedNode(hnode));
      forall n | n in nodes
        ensures LinkedNode(n)
      {
        if n in old(nodes) {
          SpliceLinkedOld(hnode, t, n);
        }
      }
    }

    /** A child of the burst node stores what the hash node stored under its byte. */
    twostate lemma SpliceStoredKid(hnode: Node<V>, new t: Node<V>, new c: Byte)
      requires old(Stores()) && Spliced(hnode, t) && Bunch(t, old(hnode.arrayHash)) && c in t.children
      ensures StoresNode(t.children[c])
    {
      var entries, n := old(hnode.arrayHash), t.children[c];
      assert old(StoresNode(hnode)) && Kid(t, c, |entries|);
      forall s | s in n.arrayHash
        ensures n.path + s in contents && contents[n.path + s] == n.arrayHash[s]
      {
        assert [c] + s in entries && BunchHas(t, [c] + s, entries[[c] + s]);
        assert n.path + s == t.path + ([c] + s);
      }
    }

    twostate lemma SpliceStoredKey(hnode: Node<V>, new t: Node<V>, new k: Key)
      requires old(Linked()) && old(Stores()) && Spliced(hnode, t) && Bunch(t, old(hnode.arrayHash)) && k in holder
      ensures StoresKey(k)
    {
      var entries := old(hnode.arrayHash);
      assert old(StoresKey(k));
      if old(holder)[k] == hnode {
        var x := k[|t.path|..];
        assert x in entries && k == t.path + x;
        if x != [] {
          assert BunchHas(t, x, entries[x]) && Kid(t, x[0], |entries|);
          assert x == [x[0]] + x[1..];
        }
      }
    }

    twostate lemma SpliceStored(hnode: Node<V>, new t: Node<V>)
      requires old(Linked()) && old(Stores()) && Spliced(hnode, t) && Bunch(t, old(hnode.arrayHash))
      ensures Stores()
    {
      forall n | n in nodes
        ensures StoresNode(n)
      {
        if n in old(nodes) {
          assert old(StoresNode(n));
        } else if n == t {
          assert old(StoresNode(hnode)) && t.path + [] == t.path;
        } else {
          var c :| c in t.children && t.children[c] == n;
          SpliceStoredKid(hnode, t, c);
        }
      }
      forall k | k in holder
        ensures StoresKey(k)
      {
        SpliceStoredKey(hnode, t, k);
      }
    }

    twostate lemma SpliceTidy(hnode: Node<V>, new t: Node<V>)
      requires old(Linked()) && old(Tidy(null)) && Spliced(hnode, t) && Bunch(t, old(hnode.arrayHash)) && old(hnode.arrayHash) != map[]
      ensures Tidy(null)
    {
      var entries := old(hnode.arrayHash);
      assert !old(hnode.IsEmpty()) && old(LinkedNode(hnode));
      forall n | n in nodes
        ensures |n.arrayHash| <= burstThreshold && !n.IsEmpty()
      {
        if n in old(nodes) {
          assert !old(n.IsEmpty());
        } else if n == t {
          var s :| s in entries;
          assert s != [] ==> BunchHas(t, s, entries[s]);
        } else {
          var c :| c in t.children && t.children[c] == n;
          assert Kid(t, c, |entries|);
        }
      }
    }

    /** The burst branch of insert_in_hash_node: a full hash node becomes a trie node. */
    method BurstInPlace(hnode: Node<V>) returns (t: Node<V>)
      requires Valid() && hnode in nodes && hnode.isHash && hnode.arrayHash != map[]
      modifies this`root, this`nodes, this`holder, nodes`children
      ensures Valid() && contents == old(contents) && (forall n <- nodes :: n in old(nodes) || fresh(n))
      ensures fresh(t) && t in nodes && !t.isHash && t.path == old(hnode.path)
      ensures root == old(root) || (root == t && old(root) == hnode)
    {
      t := Burst(hnode);
      if hnode.parent == null {
        SpliceRoot(hnode, t, t.children.Values);
      } else {
        SpliceBelow(hnode, t, t.children.Values);
      }
    }

    /** insert_in_hash_node: burst first when the node is full. */
    method InsertInHashNode(hnode: Node<V>, key: Key, v: V, ghost hole: Node?<V>) returns (inserted: bool)
      requires Linked() && Stores() && Tidy(hole) && hnode in nodes && hnode.isHash
      requires hole == null || (hole == hnode && hnode.arrayHash == map[])
      requires nbElements == |contents| && burstThreshold >= MIN_BURST_THRESHOLD
      modifies this, nodes
      ensures Valid() && fresh(nodes - old(nodes))
      ensures var k := old(hnode.path) + key;
              && inserted == (k !in old(contents))
              && contents == if inserted then old(contents)[k := v] else old(contents)
      ensures root == old(root) || (root != null && !root.isHash && |old(hnode.arrayHash)| >= burstThreshold && old(root) == hnode)
      decreases |key|, 1
    {
      if |hnode.arrayHash| >= burstThreshold {
        var t := BurstInPlace(hnode);
        inserted := InsertImpl(t, key, v, null);
      } else {
        inserted := EmplaceInHash(hnode, key, v, hole);
      }
    }

    method InsertImpl(start: Node<V>, key: Key, v: V, ghost hole: Node?<V>) returns (inserted: bool)
      requires Linked() && Stores() && Tidy(hole) && start in nodes
      requires hole == null || (hole == start && start.isHash && start.arrayHash == map[])
      requires nbElements == |contents| && burstThreshold >= MIN_BURST_THRESHOLD
      modifies this, nodes
      ensures Valid() && fresh(nodes - old(nodes))
      ensures var k := old(start.path) + key;
              && inserted == (k !in old(contents))
              && contents == if inserted then old(contents)[k := v] else old(contents)
      ensures root == old(root) || (root != null && !root.isHash && |old(start.arrayHash)| >= burstThreshold && old(root) == start)
      decreases |key|, if start.isHash then 2 else 0
    {
      var current := start;
      for ikey := 0 to |key|
        invariant current in nodes && current.path == start.path + key[..ikey]
        invariant ikey == 0 <==> current == start
        invariant ikey > 0 ==> current != root && !start.isHash
      {
        assert LinkedNode(current);
        if !current.isHash {
          if key[ikey] in current.children {
            assert key[..ikey + 1] == key[..ikey] + [key[ikey]];
            current := current.children[key[ikey]];
            assert LinkedNode(current);
          } else {
            assert current.path + [key[ikey]] + key[ikey + 1..] == start.path + key;
            AddLeaf(current, key[ikey], key[ikey + 1..], v);
            return true;
          }
        } else {
          assert current.path + key[ikey..] == start.path + key;
          inserted := InsertInHashNode(current, key[ikey..], v, hole);
          return;
        }
      }
      assert current.path == start.path + key;
      if !current.isHash {
        if current.value.Some? {
          Stored(current, current.path);
          return false;
        }
        SetValue(current, v);
        return true;
      } else {
        assert current.path + [] == start.path + key;
        inserted := InsertInHashNode(current, [], v, hole);
      }
    }

    /** insert_ks: keeps the value of a key that is already there. */
    method Insert(key: Key, v: V) returns (r: InsertResult)
      requires Valid()
      modifies this, nodes
      ensures Valid() && fresh(nodes - old(nodes))
      ensures r == if |key| > 65534 then KeyTooLong else if key in old(contents) then AlreadyThere else Inserted
      ensures contents == if r == Inserted then old(contents)[key := v] else old(contents)
      ensures old(RootUnburst()) && |old(contents)| < burstThreshold ==> RootUnburst()
    {
      if |key| > MAX_KEY_SIZE {
        return KeyTooLong;
      }
      ghost var hole: Node?<V> := null;
      if root == null {
        EmptyTree();
        root := new Node.Hash();
        nodes := {root};
        hole := root;
        assert LinkedNode(root);
      }
      assert LinkedNode(root);
      if root.isHash { HashNodeBound(root); }
      assert root.path + key == key;
      var inserted := InsertImpl(root, key, v, hole);
      r := if inserted then Inserted else AlreadyThere;
    }

    // ---------------------------------------------------------------- erasure

    /** Everything holds except that `hole` may be empty. */
    ghost predicate ValidBut(hole: Node?<V>)
      reads this, nodes
    {
      Linked() && Stores() && Tidy(hole) && nbElements == |contents| && burstThreshold >= MIN_BURST_THRESHOLD
    }

    /** A root without children is the only node; a root with one empty child has only that. */
    lemma FewNodes(empty: Node<V>)
      requires Linked() && empty in nodes && empty.children == map[] && root != null
      ensures empty == root ==> nodes == {root}
      ensures empty.parent == root && root.children.Keys == {empty.childOfChar} ==> nodes == {root, empty}
    {
      assert LinkedNode(root) && LinkedNode(empty);
      forall n | n in nodes && n != root
        ensures empty != root
        ensures empty.parent == root && root.children.Keys == {empty.childOfChar} ==> n == empty
      {
        assert LinkedNode(n);
        Above(root, n);
        if empty.parent == root && root.children.Keys == {empty.childOfChar} {
          assert n.path[0] == empty.childOfChar;
          if |n.path| > 1 {
            Above(empty, n);
          } else {
            SamePath(n, empty);
          }
        }
      }
    }

    /** Nothing is stored in an empty node. */
    lemma EmptyHoldsNothing(empty: Node<V>, k: Key)
      requires Stores() && empty.IsEmpty() && k in holder
      ensures holder[k] != empty
    {
      assert StoresKey(k);
    }

    /** clear_empty_nodes: unlink `empty`, and every ancestor left with nothing under it. */
    method ClearEmptyNodes(empty: Node<V>)
      requires ValidBut(empty) && empty in nodes && empty.IsEmpty()
      modifies this`root, this`nodes, nodes`children, nodes`parent, nodes`childOfChar, nodes`path
      ensures Valid() && nodes <= old(nodes)
      ensures root == old(root) || root == null
      decreases |empty.path|
    {
      assert LinkedNode(empty);
      var parent := empty.parent;
      if parent == null {
        DropAll(empty);
      } else {
        assert LinkedNode(parent);
        if parent.value.Some? || |parent.children| > 1 {
          DropChild(parent, empty);
        } else {
          OnlyChild(parent.children, empty.childOfChar);
          if parent.parent == null {
            DropAll(empty);
          } else {
            MoveUp(parent, empty);
            ClearEmptyNodes(empty);
          }
        }
      }
    }

    lemma OnlyChild(children: map<Byte, Node<V>>, c: Byte)
      requires c in children && |children| <= 1
      ensures children.Keys == {c}
    {
      assert |children.Keys - {c}| == |children.Keys| - 1 == |children| - 1;
    }

    /** The first branch below the root: the parent keeps something else. */
    method DropChild(parent: Node<V>, empty: Node<V>)
      requires ValidBut(empty) && empty in nodes && empty.IsEmpty() && empty.parent == parent
      requires parent.value.Some? || |parent.children| > 1
      modifies this`nodes, nodes`children
      ensures Valid() && nodes == old(nodes) - {empty}
    {
      assert LinkedNode(empty);
      parent.children := parent.children - {empty.childOfChar};
      nodes := nodes - {empty};
      DropLinked(parent, empty);
      StoresWithout(empty);
      TidyWithout(parent, empty);
    }

    twostate lemma DropLinked(parent: Node<V>, new empty: Node<V>)
      requires old(Linked()) && empty in old(nodes) && old(empty.parent) == parent && root == old(root)
      requires old(empty.children) == map[] && nodes == old(nodes) - {empty}
      requires forall n <- nodes ::
                 && n.parent == old(n.parent) && n.childOfChar == old(n.childOfChar) && n.path == old(n.path)
                 && n.children == if n == parent then old(n.children) - {old(empty.childOfChar)} else old(n.children)
      ensures Linked()
    {
      assert old(LinkedNode(empty));
      forall n | n in nodes
        ensures LinkedNode(n)
      {
        assert old(LinkedNode(n));
      }
    }

    /** Removing a node that stores nothing changes nothing that is stored. */
    twostate lemma StoresWithout(gone: Node<V>)
      requires old(Stores()) && gone in old(nodes) && nodes == old(nodes) - {gone}
      requires gone.arrayHash == map[] && gone.value == None
      requires old(gone.arrayHash) == map[] && old(gone.value) == None
      requires contents == old(contents) && holder == old(holder)
      requires forall n <- nodes :: n.arrayHash == old(n.arrayHash) && n.value == old(n.value)
      requires forall n <- nodes :: n.path == old(n.path) || (n.arrayHash == map[] && n.value == None)
      ensures Stores()
    {
      forall n | n in nodes
        ensures StoresNode(n)
      {
        assert old(StoresNode(n));
      }
      forall k | k in holder
        ensures StoresKey(k)
      {
        assert old(StoresKey(k)) && old(StoresNode(holder[k]));
      }
    }

    twostate lemma TidyWithout(new parent: Node<V>, gone: Node<V>)
      requires old(Tidy(gone)) && gone in old(nodes) && nodes == old(nodes) - {gone}
      requires forall n <- nodes :: n.arrayHash == old(n.arrayHash) && n.value == old(n.value)
      requires forall n <- nodes :: n != parent ==> n.children == old(n.children)
      requires !parent.IsEmpty()
      ensures Tidy(null)
    {
      forall n | n in nodes
        ensures |n.arrayHash| <= burstThreshold && !n.IsEmpty()
      {
        assert !old(n.IsEmpty());
      }
    }

    /** `empty` stands where its parent stood, and the parent is gone. */
    twostate predicate MovedUp(parent: Node<V>, new empty: Node<V>)
      reads this, nodes, empty
    {
      && parent in old(nodes) && empty in old(nodes) && empty != parent && root == old(root)
      && old(empty.parent) == parent && old(empty.IsEmpty()) && old(parent.parent) != null
      && !parent.isHash && old(parent.value) == None && old(parent.children.Keys) == {old(empty.childOfChar)}
      && nodes == old(nodes) - {parent} && contents == old(contents) && holder == old(holder)
      && empty.parent == old(parent.parent) && empty.childOfChar == old(parent.childOfChar)
      && empty.path == old(parent.path)
      && (forall n {:trigger n in old(nodes)} | n in old(nodes) && n != parent ::
            && n.arrayHash == old(n.arrayHash) && n.value == old(n.value)
            && (n != empty ==> n.parent == old(n.parent) && n.childOfChar == old(n.childOfChar) && n.path == old(n.path))
            && n.children == if n == empty.parent then old(n.children)[empty.childOfChar := empty] else old(n.children))
    }

    /** The relinking of the last branch. */
    method Lift(parent: Node<V>, empty: Node<V>)
      requires Linked() && empty in nodes && empty.IsEmpty() && empty.parent == parent
      requires parent.value == None && parent.children.Keys == {empty.childOfChar} && parent.parent != null
      modifies this`nodes, nodes`children, empty`parent, empty`childOfChar, empty`path
      ensures MovedUp(parent, empty) && parent.arrayHash == old(parent.arrayHash)
    {
      assert LinkedNode(empty) && LinkedNode(parent) && LinkedNode(parent.parent);
      empty.childOfChar, empty.parent := parent.childOfChar, parent.parent;
      empty.path := parent.path;
      empty.parent.children := empty.parent.children[empty.childOfChar := empty];
      nodes := nodes - {parent};
    }

    /** The last branch: `empty` replaces the parent that has only it. */
    method MoveUp(parent: Node<V>, empty: Node<V>)
      requires ValidBut(empty) && empty in nodes && empty.IsEmpty() && empty.parent == parent
      requires parent.value == None && parent.children.Keys == {empty.childOfChar} && parent.parent != null
      modifies this`nodes, nodes`children, empty`parent, empty`childOfChar, empty`path
      ensures ValidBut(empty) && empty in nodes && nodes == old(nodes) - {parent}
      ensures empty.arrayHash == map[] && empty.value == None && empty.children == map[] && empty.path == old(parent.path)
    {
      Lift(parent, empty);
      MoveUpLinked(parent, empty);
      MoveUpStores(parent, empty);
      MoveUpTidy(parent, empty);
    }

    twostate lemma MoveUpLinked(parent: Node<V>, new empty: Node<V>)
      requires old(Linked()) && MovedUp(parent, empty)
      ensures Linked() && empty.children == map[]
    {
      assert old(LinkedNode(parent)) && old(LinkedNode(empty)) && old(LinkedNode(empty.parent));
      forall n | n in nodes
        ensures LinkedNode(n)
      {
        assert old(LinkedNode(n));
        if n != root && n != empty {
          assert old(n.parent) != parent;
        }
      }
    }

    twostate lemma MoveUpStores(parent: Node<V>, new empty: Node<V>)
      requires old(Stores()) && MovedUp(parent, empty)
      ensures Stores()
    {
      forall n | n in nodes
        ensures StoresNode(n)
      {
        assert old(StoresNode(n));
      }
      forall k | k in holder
        ensures StoresKey(k)
      {
        assert old(StoresKey(k)) && old(StoresNode(holder[k]));
      }
    }

    twostate lemma MoveUpTidy(parent: Node<V>, new empty: Node<V>)
      requires MovedUp(parent, empty) && old(Tidy(empty))
      ensures Tidy(empty)
    {
      forall n | n in nodes
        ensures |n.arrayHash| <= burstThreshold && (n != empty ==> !n.IsEmpty())
      {
        assert n != empty ==> !old(n.IsEmpty());
        assert n == empty.parent ==> empty.childOfChar in n.children;
      }
    }

    /** The tree held nothing but `empty` and at most its parent, the root. */
    method DropAll(empty: Node<V>)
      requires ValidBut(empty) && empty in nodes && empty.IsEmpty()
      requires empty == root || (empty.parent == root && root.value == None && root.children.Keys == {empty.childOfChar})
      modifies this`root, this`nodes
      ensures Valid() && root == null && nodes == {}
    {
      FewNodes(empty);
      assert LinkedNode(root) && LinkedNode(empty);
      if holder.Keys != {} {
        var k :| k in holder;
        HolderIsNode(k);
        EmptyHoldsNothing(empty, k);
        assert false;
      }
      assert holder == map[];
      root, nodes := null, {};
    }

    /** Key `key` has been taken out of its node `n`. */
    twostate predicate Erased(n: Node<V>, new key: Key)
      reads this, nodes
    {
      && nodes == old(nodes) && root == old(root) && n in nodes && old(n.Holds(key)) && key in old(contents)
      && contents == old(contents) - {key} && holder == old(holder) - {key}
      && (forall x {:trigger x in nodes} | x in nodes ::
            && x.path == old(x.path) && x.parent == old(x.parent) && x.children == old(x.children)
            && x.childOfChar == old(x.childOfChar)
            && (x != n ==> x.arrayHash == old(x.arrayHash) && x.value == old(x.value)))
      && (if n.isHash then n.arrayHash == old(n.arrayHash) - {key[|n.path|..]} && n.value == old(n.value)
          else n.arrayHash == old(n.arrayHash) && n.value == None)
    }

    method TakeOut(it: Iterator<V>, ghost key: Key)
      requires it.node in nodes && it.node.Holds(key) && it.suffix == key[|it.node.path|..] && key in contents
      requires nbElements > 0
      modifies this`nbElements, this`contents, this`holder, it.node`arrayHash, it.node`value
      ensures Erased(it.node, key) && nbElements == old(nbElements) - 1
    {
      var n := it.node;
      if n.isHash {
        n.arrayHash := n.arrayHash - {it.suffix};
      } else {
        n.value := None;
      }
      nbElements := nbElements - 1;
      contents, holder := contents - {key}, holder - {key};
    }

    /** Only the holder of a key holds it. */
    lemma HeldOnce(key: Key)
      requires Linked() && Stores() && key in contents
      ensures forall x <- nodes :: x.Holds(key) ==> x == holder[key]
    {
      forall x | x in nodes && x.Holds(key)
        ensures x == holder[key]
      {
        OnTheWay(x, key);
      }
    }

    /** erase(iterator): take the entry out of its node, then clear what became empty. */
    method Erase(it: Iterator<V>, ghost key: Key)
      requires Valid() && it.node in nodes && it.node.Holds(key) && it.suffix == key[|it.node.path|..]
      modifies this, nodes
      ensures Valid() && nodes <= old(nodes)
      ensures contents == old(contents) - {key} && key in old(contents)
      ensures root == old(root) || root == null
    {
      Stored(it.node, key);
      HeldOnce(key);
      assert |contents - {key}| == |contents| - 1;
      TakeOut(it, key);
      StoresErased(it.node, key);
      TidyErased(it.node, key);
      if it.node.arrayHash == map[] && it.node.value == None && it.node.children == map[] {
        ClearEmptyNodes(it.node);
      } else {
        TidyFull(it.node);
      }
    }

    lemma TidyFull(n: Node<V>)
      requires Tidy(n) && !n.IsEmpty()
      ensures Tidy(null)
    {
      forall x | x in nodes
        ensures |x.arrayHash| <= burstThreshold && !x.IsEmpty()
      {
        assert x.IsEmpty() || !x.IsEmpty();
      }
    }

    twostate lemma StoresErased(n: Node<V>, new key: Key)
      requires old(Stores()) && Erased(n, key)
      requires forall x <- nodes :: old(x.Holds(key)) ==> x == old(holder)[key]
      ensures Stores()
    {
      forall x | x in nodes
        ensures StoresNode(x)
      {
        assert old(StoresNode(x)) && (old(x.Holds(key)) ==> x == n);
        forall s | s in x.arrayHash
          ensures x.path + s in contents && contents[x.path + s] == x.arrayHash[s]
        {
          assert (x.path + s)[|x.path|..] == s;
        }
      }
      forall k | k in holder
        ensures StoresKey(k)
      {
        assert old(StoresKey(k));
        if old(holder)[k] == n && n.isHash {
          assert k == n.path + k[|n.path|..] && key == n.path + key[|n.path|..];
        }
      }
    }

    twostate lemma TidyErased(n: Node<V>, new key: Key)
      requires old(Tidy(null)) && Erased(n, key)
      ensures Tidy(n)
    {
      forall x | x in nodes
        ensures |x.arrayHash| <= burstThreshold && (x != n ==> !x.IsEmpty())
      {
        assert !old(x.IsEmpty());
        assert |old(n.arrayHash) - {key[|n.path|..]}| <= |old(n.arrayHash)|;
      }
    }

    // ---------------------------------------------------------------- prefix queries

    /** `it` points at stored key `k`. */
    ghost predicate PointsAt(it: Iterator<V>, k: Key)
      reads this, nodes
    {
      it.node in nodes && it.node.Holds(k) && it.suffix == k[|it.node.path|..] && k in contents
    }

    /** Which keys that are prefixes of `q` are stored, seen from node `n` on the walk for `q`:
        from its own length on, only those its subtree leads to. */
    lemma PrefixesHere(n: Node<V>, q: Key, k: Key)
      requires Linked() && Stores() && n in nodes && n.path <= q && k <= q && |n.path| <= |k|
      ensures k in contents && !n.isHash && |k| > |n.path| ==> q[|n.path|] in n.children
      ensures !n.isHash && |k| == |n.path| ==> (k in contents <==> n.value.Some?)
      ensures n.isHash ==> (k in contents <==> q[|n.path|..|k|] in n.arrayHash)
    {
      assert n.path == q[..|n.path|] == k[..|n.path|];
      assert k[|n.path|..] == q[|n.path|..|k|];
      OnTheWay(n, k);
      if n.Holds(k) {
        Stored(n, k);
      }
    }

    /** The scan of a hash node for the remaining bytes of `q`, longest first. */
    method LongestInHash(hnode: Node<V>, q: Key, i: nat) returns (it: Option<Iterator<V>>, ghost key: Key)
      requires Linked() && Stores() && hnode in nodes && hnode.isHash && hnode.path <= q && i == |hnode.path|
      ensures it.Some? ==> PointsAt(it.value, key) && key <= q && |hnode.path| <= |key|
      ensures it.Some? ==> forall k <- contents :: k <= q ==> |k| <= |key|
      ensures it == None ==> forall k <- contents :: k <= q ==> |k| < |hnode.path|
    {
      var j := i;
      while j <= |q|
        invariant i <= j <= |q| + 1
        invariant forall k <- contents :: k <= q ==> |k| <= i + |q| - j
      {
        var s := q[i..i + |q| - j];
        ghost var full := q[..i + |q| - j];
        assert full <= q && s == q[i..|full|] == full[i..];
        PrefixesHere(hnode, q, full);
        if s in hnode.arrayHash {
          return Some(Iterator(hnode, s)), full;
        }
        forall k | k in contents && k <= q
          ensures |k| < |full|
        {
          assert |k| == |full| ==> k == full;
        }
        j := j + 1;
      }
      it, key := None, [];
    }

    /** `it` points at the longest stored prefix of `q` that is shorter than `n`, if there is one. */
    ghost predicate Longest(it: Option<Iterator<V>>, key: Key, q: Key, n: nat)
      reads this, nodes
    {
      && (it.Some? ==> PointsAt(it.value, key) && key <= q && |key| < n)
      && (forall k <- contents :: k <= q && |k| < n ==> it.Some? && |k| <= |key|)
    }

    /** The trie node at depth `i` decides about the prefix of length `i`. */
    lemma LongestStep(it: Option<Iterator<V>>, key: Key, q: Key, n: Node<V>, i: nat)
      requires Linked() && Stores() && n in nodes && !n.isHash && i <= |q| && n.path == q[..i]
      requires Longest(it, key, q, i)
      ensures n.value.Some? ==> Longest(Some(Iterator(n, [])), q[..i], q, i + 1)
      ensures n.value == None ==> Longest(it, key, q, i + 1)
      ensures i < |q| && q[i] !in n.children ==> forall k <- contents :: k <= q ==> |k| <= i
    {
      PrefixesHere(n, q, q[..i]);
      forall k | k in contents && k <= q
        ensures |k| == i ==> n.value.Some?
        ensures i < |q| && q[i] !in n.children ==> |k| <= i
      {
        if |k| >= i {
          PrefixesHere(n, q, k);
        }
      }
    }

    /** longest_prefix: the longest stored key that is a prefix of `q`. */
    method LongestPrefix(q: Key) returns (it: Option<Iterator<V>>, ghost key: Key)
      requires Valid()
      ensures it.Some? ==> PointsAt(it.value, key) && key <= q
      ensures it.Some? ==> forall k <- contents :: k <= q ==> |k| <= |key|
      ensures it == None ==> forall k <- contents :: !(k <= q)
    {
      it, key := None, [];
      if root == null {
        EmptyTree();
        return;
      }
      var current: Node<V> := root;
      assert LinkedNode(root);
      for i := 0 to |q|
        invariant current in nodes && current.path == q[..i] && Longest(it, key, q, i)
      {
        assert LinkedNode(current);
        if current.isHash {
          var inHash;
          ghost var full;
          inHash, full := LongestInHash(current, q, i);
          if inHash.Some? {
            return inHash, full;
          }
          return;
        }
        LongestStep(it, key, q, current, i);
        if current.value.Some? {
          it, key := Some(Iterator(current, [])), q[..i];
        }
        if q[i] !in current.children {
          return;
        }
        current := current.children[q[i]];
        assert LinkedNode(current);
      }
      if current.isHash {
        var inHash;
        ghost var full;
        inHash, full := LongestInHash(current, q, |q|);
        if inHash.Some? {
          return inHash, full;
        }
        return;
      }
      LongestStep(it, key, q, current, |q|);
      if current.value.Some? {
        it, key := Some(Iterator(current, [])), q[..|q|];
      }
    }

    /** for_each_prefix_of: what the visitor sees, in order. */
    method ForEachPrefixOf(q: Key) returns (visited: seq<Iterator<V>>)
      requires Valid()
      ensures |visited| == |StoredPrefixes(contents.Keys, q, |q| + 1)|
      ensures forall i | 0 <= i < |visited| :: PointsAt(visited[i], StoredPrefixes(contents.Keys, q, |q| + 1)[i])
    {
      visited := [];
      if root == null {
        EmptyTree();
        NoLongerPrefixes(contents.Keys, q, 0, |q| + 1);
        return;
      }
      var current: Node<V> := root;
      assert LinkedNode(root);
      for i := 0 to |q|
        invariant current in nodes && current.path == q[..i]
        invariant Visited(visited, StoredPrefixes(contents.Keys, q, i))
      {
        assert LinkedNode(current);
        PrefixesHere(current, q, q[..i]);
        if !current.isHash {
          if current.value.Some? {
            visited := visited + [Iterator(current, [])];
          }
          if q[i] !in current.children {
            DeadEnd(current, q, i);
            return;
          }
          current := current.children[q[i]];
          assert LinkedNode(current);
        } else {
          visited := VisitHash(current, q, i, visited);
          return;
        }
      }
      assert current.path == q;
      visited := VisitEnd(current, q, visited);
    }

    /** No stored prefix of `q` lies beyond a missing child. */
    lemma DeadEnd(n: Node<V>, q: Key, i: nat)
      requires Linked() && Stores() && n in nodes && !n.isHash && i < |q| && n.path == q[..i] && q[i] !in n.children
      ensures StoredPrefixes(contents.Keys, q, |q| + 1) == StoredPrefixes(contents.Keys, q, i + 1)
    {
      forall j | i < j <= |q|
        ensures q[..j] !in contents
      {
        PrefixesHere(n, q, q[..j]);
      }
      NoLongerPrefixes(contents.Keys, q, i + 1, |q| + 1);
    }

    ghost predicate Visited(visited: seq<Iterator<V>>, keys: seq<Key>)
      reads this, nodes
    {
      |visited| == |keys| && forall i | 0 <= i < |keys| :: PointsAt(visited[i], keys[i])
    }

    /** The scan of a hash node, shortest first. */
    method VisitHash(hnode: Node<V>, q: Key, i: nat, visited: seq<Iterator<V>>) returns (visited': seq<Iterator<V>>)
      requires Linked() && Stores() && hnode in nodes && hnode.isHash && hnode.path <= q && i == |hnode.path|
      requires Visited(visited, StoredPrefixes(contents.Keys, q, i))
      ensures Visited(visited', StoredPrefixes(contents.Keys, q, |q| + 1))
    {
      visited' := visited;
      for n := 0 to |q| + 1 - i
        invariant Visited(visited', StoredPrefixes(contents.Keys, q, i + n))
      {
        PrefixesHere(hnode, q, q[..i + n]);
        assert q[..i + n][i..] == q[i..i + n];
        if q[i..i + n] in hnode.arrayHash {
          visited' := visited' + [Iterator(hnode, q[i..i + n])];
        }
      }
    }

    method VisitEnd(n: Node<V>, q: Key, visited: seq<Iterator<V>>) returns (visited': seq<Iterator<V>>)
      requires Linked() && Stores() && n in nodes && n.path == q
      requires Visited(visited, StoredPrefixes(contents.Keys, q, |q|))
      ensures Visited(visited', StoredPrefixes(contents.Keys, q, |q| + 1))
    {
      visited' := visited;
      assert q[|q|..|q|] == [] && q[..|q|] == q;
      PrefixesHere(n, q, q);
      if (!n.isHash && n.value.Some?) || (n.isHash && [] in n.arrayHash) {
        visited' := visited + [Iterator(n, [])];
      }
    }

    /** The byte loop comparing one stored suffix with the query. */
    static method MatchLength(key: Key, q: Key) returns (n: nat)
      ensures n == CommonPrefix(key, q)
    {
      var compareSize := if |q| > |key| then |key| else |q|;
      n := 0;
      while n < compareSize && key[n] == q[n]
        invariant n <= compareSize && key[..n] == q[..n]
      {
        n := n + 1;
      }
      CommonPrefixIs(key, q, n);
    }

    /** equal_longest_prefix_range, branch by branch. The length is right where the walk ends in a hash node
        on a proper prefix of the query, and it is put out there only. Everywhere else it keeps the caller's 0,
        although some key shares at least a byte, unless the query is empty; and where no key starts with the
        query's first byte below a burst root, the code goes on with the root's parent. The walk order of an
        array hash is unspecified. */
    method EqualLongestPrefixRange(q: Key) returns (r: LongestRange<V>, ghost key: Key)
      requires Valid()
      ensures r.NoEntries? <==> root == null
      ensures r.Matched? <==> exists n <- nodes :: OnQuery(n, q)
      ensures r.Matched? ==> forall k <- contents :: CommonPrefix(k, q) <= r.length
      ensures r.Matched? ==> PointsAt(r.first, key) && CommonPrefix(key, q) == r.length
      ensures r.NullParent? <==> !RootUnburst() && q != [] && forall k <- contents :: k == [] || k[0] != q[0]
      ensures r.Unset? && q != [] ==> exists k <- contents :: CommonPrefix(k, q) > 0
    {
      key := [];
      if root == null {
        return NoEntries, key;
      }
      assert LinkedNode(root);
      var current := root;
      for i := 0 to |q|
        invariant current in nodes && current.path == q[..i]
        invariant i > 0 ==> !root.isHash && q[0] in root.children
      {
        assert LinkedNode(current);
        if !current.isHash {
          if q[i] !in current.children {
            NotOnQuery(current, q);
            if !root.isHash {
              ChildIsFirstByte(q[0]);
            }
            if current.parent == null {
              return NullParent, key;
            }
            Shares(current, q);
            return Unset(current.parent), key;
          }
          assert q[..i + 1] == q[..i] + [q[i]];
          current := current.children[q[i]];
          assert LinkedNode(current);
        } else {
          var length, first;
          length, first, key := LongestHere(current, q, i);
          assert OnQuery(current, q);
          if !root.isHash {
            ChildIsFirstByte(q[0]);
          }
          return Matched(length, first), key;
        }
      }
      NotOnQuery(current, q);
      Shares(current, q);
      if q != [] {
        ChildIsFirstByte(q[0]);
      }
      r := Unset(current);
    }

    /** A hash node where the walk for `q` ends. */
    ghost predicate OnQuery(n: Node<V>, q: Key)
      reads n
    {
      n.isHash && n.path <= q && |n.path| < |q|
    }

    /** The walk has come to a node from which no hash node on the query can be reached. */
    lemma NotOnQuery(current: Node<V>, q: Key)
      requires Linked() && current in nodes && current.path <= q
      requires |current.path| < |q| ==> !current.isHash && q[|current.path|] !in current.children
      ensures !exists n <- nodes :: OnQuery(n, q)
    {
      forall n | n in nodes && OnQuery(n, q)
        ensures false
      {
        if |n.path| < |current.path| {
          assert n.path == q[..|n.path|] == current.path[..|n.path|];
          Above(n, current);
        } else if |current.path| < |n.path| {
          assert current.path == q[..|current.path|] == n.path[..|current.path|];
          Above(current, n);
        } else {
          assert n.path == q[..|n.path|] == current.path;
          SamePath(n, current);
        }
      }
    }

    ghost function Deeper(depth: nat): set<Node<V>>
      reads this, nodes
    {
      set x | x in nodes && |x.path| > depth
    }

    /** Below every node a key is stored. */
    lemma {:induction false} Inhabited(n: Node<V>) returns (k: Key)
      requires Linked() && Stores() && Tidy(null) && n in nodes
      ensures k in contents && n.path <= k
      decreases Deeper(|n.path|)
    {
      assert StoresNode(n) && !n.IsEmpty() && LinkedNode(n);
      if n.arrayHash != map[] {
        var s :| s in n.arrayHash;
        k := n.path + s;
      } else if n.value.Some? {
        k := n.path;
      } else {
        var c :| c in n.children;
        var m := n.children[c];
        assert LinkedNode(m) && m.path == n.path + [c];
        assert m in Deeper(|n.path|) && m !in Deeper(|m.path|) && Deeper(|m.path|) <= Deeper(|n.path|);
        k := Inhabited(m);
      }
    }

    lemma Shares(n: Node<V>, q: Key)
      requires Valid() && n in nodes && n.path <= q
      ensures n.path != [] ==> exists k <- contents :: CommonPrefix(k, q) > 0
    {
      var k := Inhabited(n);
      if n.path != [] {
        assert k[0] == n.path[0] == q[0];
        assert CommonPrefix(k, q) > 0;
      }
    }

    /** No key shares more with `q` than the keys of the hash node where the walk ends. */
    lemma HereBound(hnode: Node<V>, q: Key, k: Key, shared: nat)
      requires Linked() && Stores() && hnode in nodes && OnQuery(hnode, q) && k in contents
      requires forall s <- hnode.arrayHash :: CommonPrefix(s, q[|hnode.path|..]) <= shared
      ensures CommonPrefix(k, q) <= |hnode.path| + shared
    {
      var i, c := |hnode.path|, CommonPrefix(k, q);
      if c >= i {
        assert k[..i] == k[..c][..i] == q[..c][..i] == hnode.path;
        OnTheWay(hnode, k);
        CommonPrefixBelow(k, q, i);
      }
    }

    /** The scan of the hash node where the walk ends, and the first entry with the shared prefix. */
    method LongestHere(hnode: Node<V>, q: Key, i: nat) returns (length: nat, first: Iterator<V>, ghost key: Key)
      requires Valid() && hnode in nodes && OnQuery(hnode, q) && i == |hnode.path|
      ensures forall k <- contents :: CommonPrefix(k, q) <= length
      ensures PointsAt(first, key) && CommonPrefix(key, q) == length
    {
      assert LinkedNode(hnode) && StoresNode(hnode) && !hnode.IsEmpty();
      var shared := LongestShared(hnode.arrayHash, q[i..]);
      var s := FirstSharing(hnode.arrayHash, q[i..], shared);
      length, first, key := i + shared, Iterator(hnode, s), hnode.path + s;
      forall k | k in contents
        ensures CommonPrefix(k, q) <= length
      {
        HereBound(hnode, q, k, shared);
      }
      assert key[i..] == s && key[..i] == q[..i];
      CommonPrefixBelow(key, q, i);
      Stored(hnode, key);
    }

    /** Below a burst root, the children are the first bytes of the stored keys. */
    lemma ChildIsFirstByte(c: Byte)
      requires Valid() && root != null && !root.isHash
      ensures c in root.children <==> exists k <- contents :: k != [] && k[0] == c
    {
      assert LinkedNode(root);
      if c in root.children {
        var m := root.children[c];
        assert LinkedNode(m) && m.path == [c];
        var k := Inhabited(m);
        assert k[0] == m.path[0];
      }
      forall k | k in contents && k != [] && k[0] == c
        ensures c in root.children
      {
        OnTheWay(root, k);
      }
    }

    /** While the root is a hash node, every walk for a query with a byte ends there. */
    lemma UnburstOnQuery(q: Key)
      requires Valid() && RootUnburst() && q != []
      ensures (exists n <- nodes :: OnQuery(n, q)) <==> root != null
    {
      if root != null {
        assert LinkedNode(root) && OnQuery(root, q);
      }
    }

    /** More keys than a hash node takes: the root has burst. */
    lemma ManyKeysBurst()
      requires Valid() && |contents| > burstThreshold
      ensures root != null && !root.isHash
    {
      if root == null {
        EmptyTree();
      } else if root.isHash {
        var entries := root.arrayHash;
        assert LinkedNode(root) && !root.IsEmpty();
        assert |contents.Keys| == |contents| && |entries.Keys| == |entries|;
        forall k | k in contents
          ensures k in entries
        {
          assert k[|root.path|..] == k;
          OnTheWay(root, k);
        }
        CardinalityMonotone(contents.Keys, entries.Keys);
      }
    }

    static method LongestShared(entries: map<Key, V>, q: Key) returns (matched: nat)
      ensures forall k <- entries :: CommonPrefix(k, q) <= matched
      ensures entries != map[] ==> exists k <- entries :: CommonPrefix(k, q) == matched
    {
      matched := 0;
      var rest := entries.Keys;
      ghost var best: Key := [];
      while rest != {}
        invariant rest <= entries.Keys
        invariant forall k <- entries :: k !in rest ==> CommonPrefix(k, q) <= matched
        invariant if rest == entries.Keys then matched == 0 else best in entries && CommonPrefix(best, q) == matched
        decreases |rest|
      {
        var k :| k in rest;
        var n := MatchLength(k, q);
        if n >= matched { best := k; }
        if n > matched {
          matched := n;
        }
        rest := rest - {k};
      }
    }

    /** filter_prefix: the first entry that has the shared prefix. */
    static method FirstSharing(entries: map<Key, V>, q: Key, matched: nat) returns (key: Key)
      requires exists k <- entries :: CommonPrefix(k, q) == matched
      ensures key in entries && CommonPrefix(key, q) >= matched
    {
      ghost var best :| best in entries && CommonPrefix(best, q) == matched;
      var rest := entries.Keys;
      while true
        invariant best in rest && rest <= entries.Keys
        decreases |rest|
      {
        key :| key in rest;
        if matched <= |key| && key[..matched] == q[..matched] {
          assert forall i | 0 <= i < matched :: key[i] == key[..matched][i] == q[..matched][i];
          return;
        }
        rest := rest - {key};
      }
    }
  }

  /** The members of `keys` that are prefixes of `q` and shorter than `n`, shortest first. */
  ghost function StoredPrefixes(keys: set<Key>, q: Key, n: nat): seq<Key>
    requires n <= |q| + 1
  {
    if n == 0 then []
    else StoredPrefixes(keys, q, n - 1) + if q[..n - 1] in keys then [q[..n - 1]] else []
  }

  ghost predicate StoredPrefix(keys: set<Key>, q: Key, n: nat, k: Key) {
    |k| < n && k <= q && k in keys
  }

  /** It lists only those, in strictly increasing length. */
  lemma {:induction false} StoredPrefixesSound(keys: set<Key>, q: Key, n: nat, i: nat)
    requires n <= |q| + 1 && i < |StoredPrefixes(keys, q, n)|
    ensures StoredPrefix(keys, q, n, StoredPrefixes(keys, q, n)[i])
    ensures i > 0 ==> |StoredPrefixes(keys, q, n)[i - 1]| < |StoredPrefixes(keys, q, n)[i]|
  {
    var before := StoredPrefixes(keys, q, n - 1);
    if i < |before| {
      StoredPrefixesSound(keys, q, n - 1, i);
    } else if i > 0 {
      StoredPrefixesSound(keys, q, n - 1, i - 1);
    }
  }

  /** It lists all of them. */
  lemma {:induction false} StoredPrefixesComplete(keys: set<Key>, q: Key, n: nat, k: Key)
    requires n <= |q| + 1 && StoredPrefix(keys, q, n, k)
    ensures k in StoredPrefixes(keys, q, n)
  {
    var before := StoredPrefixes(keys, q, n - 1);
    if |k| < n - 1 {
      StoredPrefixesComplete(keys, q, n - 1, k);
    } else {
      assert k == q[..n - 1] == (before + [q[..n - 1]])[|before|];
    }
  }

  lemma {:induction false} NoLongerPrefixes(keys: set<Key>, q: Key, a: nat, b: nat)
    requires a <= b <= |q| + 1
    requires forall j | a <= j < b :: q[..j] !in keys
    ensures StoredPrefixes(keys, q, b) == StoredPrefixes(keys, q, a)
    decreases b
  {
    if a < b {
      NoLongerPrefixes(keys, q, a, b - 1);
    }
  }

  lemma {:induction false} CardinalityMonotone<T>(a: set<T>, b: set<T>)
    requires a <= b
    ensures |a| <= |b|
  {
    if a != {} {
      var x :| x in a;
      CardinalityMonotone(a - {x}, b - {x});
    }
  }

  /** Five keys of one byte below the smallest threshold, and a sixth byte: the lookup goes on with the root's
      parent. */
  method NullParentExample() returns (m: HtrieMap<bool>, r: LongestRange<bool>)
    ensures r.NullParent? && fresh(m)
  {
    m := new HtrieMap(0);
    ghost var added: set<Key> := {};
    for b: Byte := 0 to 5
      invariant m.Valid() && m.burstThreshold == MIN_BURST_THRESHOLD && fresh(m) && fresh(m.nodes)
      invariant added == m.contents.Keys && |added| == b
      invariant forall k <- added :: |k| == 1 && k[0] < b
    {
      assert [b] !in added;
      var inserted := m.Insert([b], true);
      added := added + {[b]};
    }
    assert |m.contents| == |m.contents.Keys|;
    m.ManyKeysBurst();
    ghost var key;
    r, key := m.EqualLongestPrefixRange([5]);
  }
}
