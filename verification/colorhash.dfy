/** The colour hash table of pam.c (`pam_allocacolorhash`, `pam_computeacolorhash`).

    The table has `HASH_SIZE` buckets; each bucket is a chain of nodes holding a
    posterised key and the weight accumulated for it. The arena the C code
    allocates nodes from is never freed node by node, so the table is modelled
    as an immutable value: a sequence of chains, head of the chain first.
 */
module ColorHash {
  import opened Optional

  /** `HASH_SIZE`: the number of buckets, a prime. */
  const HashSize: nat := 30029

  /** One `acolorhist_list_item`: a posterised key and its accumulated weight. */
  datatype Node = Node(color: bv32, weight: real)

  /** A bucket chain, listed from its head. */
  type Chain = seq<Node>

  /** The state of the scan: the buckets and the distinct-colour counter. */
  datatype HashScan = HashScan(buckets: seq<Chain>, colors: int)

  /** `px.l % HASH_SIZE`: the bucket a key belongs in. */
  function Bucket(key: bv32): (h: nat)
    ensures h < HashSize
  {
    key as int % HashSize
  }

  /** The chain walk of the scan: the position of the first node, from the
      head, holding `key`, if any. */
  function Find(chain: Chain, key: bv32): (r: Option<nat>)
    ensures r.Some? ==> r.value < |chain| && chain[r.value].color == key
    ensures r.Some? ==> forall i :: 0 <= i < r.value ==> chain[i].color != key
    ensures r.None? ==> forall i :: 0 <= i < |chain| ==> chain[i].color != key
  {
    if |chain| == 0 then None
    else if chain[0].color == key then Some(0)
    else match Find(chain[1..], key)
      case None => None
      case Some(i) => Some(i + 1)
  }

  /** A chain fits bucket `h`: every node belongs in bucket `h` and no key
      occurs twice. */
  ghost predicate Fits(chain: Chain, h: nat)
  {
    && (forall i :: 0 <= i < |chain| ==> Bucket(chain[i].color) == h)
    && (forall i, j :: 0 <= i < j < |chain| ==> chain[i].color != chain[j].color)
  }

  /** The table shape: `HashSize` buckets, each chain fitting its bucket. As
      a key has one bucket, no key occurs twice in the whole table. */
  ghost predicate Valid(buckets: seq<Chain>)
  {
    |buckets| == HashSize && forall h :: 0 <= h < |buckets| ==> Fits(buckets[h], h)
  }

  /** Whether `key` has a node in the table. */
  ghost predicate InTable(buckets: seq<Chain>, key: bv32)
    requires |buckets| == HashSize
  {
    Find(buckets[Bucket(key)], key).Some?
  }

  /** The number of nodes in the table. */
  function NodeCount(buckets: seq<Chain>): nat
  {
    if |buckets| == 0 then 0 else |buckets[0]| + NodeCount(buckets[1..])
  }

  /** The sum of the weights of a chain. */
  function ChainWeight(chain: Chain): real
  {
    if |chain| == 0 then 0.0 else chain[0].weight + ChainWeight(chain[1..])
  }

  /** The sum of the weights of all nodes of the table. */
  function TotalWeight(buckets: seq<Chain>): real
  {
    if |buckets| == 0 then 0.0 else ChainWeight(buckets[0]) + TotalWeight(buckets[1..])
  }

  /** `pam_allocacolorhash`: a table of `HASH_SIZE` empty buckets. */
  function AllocTable(): (buckets: seq<Chain>)
    ensures Valid(buckets)
    ensures NodeCount(buckets) == 0 && TotalWeight(buckets) == 0.0
    ensures forall key :: !InTable(buckets, key)
  {
    var buckets := seq(HashSize, _ => []);
    EmptyTableSums(buckets);
    buckets
  }

  lemma {:induction false} EmptyTableSums(buckets: seq<Chain>)
    requires forall h :: 0 <= h < |buckets| ==> buckets[h] == []
    ensures NodeCount(buckets) == 0 && TotalWeight(buckets) == 0.0
    decreases |buckets|
  {
    if |buckets| > 0 {
      EmptyTableSums(buckets[1..]);
    }
  }

  /** One step of the pixel loop of `pam_computeacolorhash`: on a hit the
      boost is added to the node found; on a miss the counter is bumped and,
      unless it now exceeds `maxColors`, a node is pushed on the chain head.
      `None` is the NULL return of the overflow. */
  function AddPixel(st: HashScan, key: bv32, boost: real, maxColors: int): (r: Option<HashScan>)
    requires Valid(st.buckets)
    ensures r.None? <==> !InTable(st.buckets, key) && st.colors + 1 > maxColors
    ensures r.Some? ==> Valid(r.value.buckets) && InTable(r.value.buckets, key)
    ensures r.Some? ==> forall h :: 0 <= h < HashSize && h != Bucket(key) ==>
              r.value.buckets[h] == st.buckets[h]
    // a miss: a new node at the head of the chain, one more colour
    ensures r.Some? && !InTable(st.buckets, key) ==>
              && r.value.colors == st.colors + 1
              && r.value.buckets[Bucket(key)] == [Node(key, boost)] + st.buckets[Bucket(key)]
    // a hit: the same chain, only the node of the key gains the boost
    ensures r.Some? && InTable(st.buckets, key) ==>
              && r.value.colors == st.colors
              && Accumulated(st.buckets[Bucket(key)], r.value.buckets[Bucket(key)], key, boost)
  {
    match Find(st.buckets[Bucket(key)], key)
    case Some(i) =>
      HitValid(st.buckets, key, i, boost);
      Some(HashScan(HitTable(st.buckets, key, i, boost), st.colors))
    case None =>
      if st.colors + 1 > maxColors then None
      else
        MissValid(st.buckets, key, boost);
        Some(HashScan(MissTable(st.buckets, key, boost), st.colors + 1))
  }

  /** The table after a hit on node `i` of the bucket of `key`: that node
      gains `boost`. */
  function HitTable(buckets: seq<Chain>, key: bv32, i: nat, boost: real): (t: seq<Chain>)
    requires |buckets| == HashSize && i < |buckets[Bucket(key)]|
    ensures |t| == HashSize && |t[Bucket(key)]| == |buckets[Bucket(key)]|
    ensures t[Bucket(key)][i].color == buckets[Bucket(key)][i].color
    ensures t[Bucket(key)][i].weight == buckets[Bucket(key)][i].weight + boost
  {
    var chain := buckets[Bucket(key)];
    buckets[Bucket(key) := chain[i := Node(chain[i].color, chain[i].weight + boost)]]
  }

  /** The table after a miss on `key`: a node for it pushed on its chain. */
  function MissTable(buckets: seq<Chain>, key: bv32, boost: real): (t: seq<Chain>)
    requires |buckets| == HashSize
    ensures |t| == HashSize
    ensures |t[Bucket(key)]| == |buckets[Bucket(key)]| + 1
    ensures t[Bucket(key)][0] == Node(key, boost) && t[Bucket(key)][1..] == buckets[Bucket(key)]
  {
    buckets[Bucket(key) := [Node(key, boost)] + buckets[Bucket(key)]]
  }

  /** `chain'` is `chain` with `boost` added to the weight of the node of `key`
      and every other node left as it was. */
  ghost predicate Accumulated(chain: Chain, chain': Chain, key: bv32, boost: real)
  {
    && |chain'| == |chain|
    && (forall i :: 0 <= i < |chain| && chain[i].color != key ==> chain'[i] == chain[i])
    && (forall i :: 0 <= i < |chain| && chain[i].color == key ==>
          chain'[i] == Node(key, chain[i].weight + boost))
  }

  lemma HitValid(buckets: seq<Chain>, key: bv32, i: nat, boost: real)
    requires Valid(buckets) && i < |buckets[Bucket(key)]| && buckets[Bucket(key)][i].color == key
    ensures Valid(HitTable(buckets, key, i, boost)) && InTable(HitTable(buckets, key, i, boost), key)
    ensures Accumulated(buckets[Bucket(key)], HitTable(buckets, key, i, boost)[Bucket(key)], key, boost)
  {
    var h := Bucket(key);
    var chain := buckets[h];
    var chain' := HitTable(buckets, key, i, boost)[h];
    assert chain' == chain[i := Node(key, chain[i].weight + boost)];
    assert chain'[i].color == key;
    assert Fits(chain', h);
    FindIff(chain', key);
  }

  lemma MissValid(buckets: seq<Chain>, key: bv32, boost: real)
    requires Valid(buckets) && !InTable(buckets, key)
    ensures Valid(MissTable(buckets, key, boost)) && InTable(MissTable(buckets, key, boost), key)
  {
    var h := Bucket(key);
    var chain := buckets[h];
    var chain' := MissTable(buckets, key, boost)[h];
    assert chain' == [Node(key, boost)] + chain;
    assert chain'[0].color == key;
    forall i, j | 0 <= i < j < |chain'| ensures chain'[i].color != chain'[j].color {
      if i > 0 {
        assert chain'[i] == chain[i - 1] && chain'[j] == chain[j - 1];
      } else {
        assert chain'[j] == chain[j - 1];
      }
    }
    assert Fits(chain', h);
    FindIff(chain', key);
  }

  /** The pixel loop of `pam_computeacolorhash` over the posterised keys of the
      pixels in row-major order and their boosts; `None` as soon as the
      counter exceeds `maxColors`. */
  function ScanPixels(keys: seq<bv32>, boosts: seq<real>, maxColors: int): (r: Option<HashScan>)
    requires |keys| == |boosts|
    ensures r.Some? ==> Valid(r.value.buckets)
    decreases |keys|
  {
    if |keys| == 0 then Some(HashScan(AllocTable(), 0))
    else
      var n := |keys| - 1;
      match ScanPixels(keys[..n], boosts[..n], maxColors)
      case None => None
      case Some(st) => AddPixel(st, keys[n], boosts[n], maxColors)
  }

  // ---------------------------------------------------------------------
  // Reference quantities over the pixel sequence
  // ---------------------------------------------------------------------

  /** The distinct keys among the pixels. */
  function Distinct(keys: seq<bv32>): set<bv32>
  {
    set k | k in keys
  }

  /** The sum of a sequence of boosts. */
  function Sum(s: seq<real>): real
  {
    if |s| == 0 then 0.0 else Sum(s[..|s| - 1]) + s[|s| - 1]
  }

  /** The sum of the boosts of exactly the pixels whose key is `key`. */
  function KeyWeight(keys: seq<bv32>, boosts: seq<real>, key: bv32): real
    requires |keys| == |boosts|
  {
    if |keys| == 0 then 0.0
    else
      var n := |keys| - 1;
      KeyWeight(keys[..n], boosts[..n], key) + (if keys[n] == key then boosts[n] else 0.0)
  }

  /** What the table holds after scanning `keys` with `boosts`: exactly the
      distinct keys, one node each, each node weighing the boosts of its pixels,
      the counter equal to the number of nodes, and the total weight conserved. */
  ghost predicate Summarises(st: HashScan, keys: seq<bv32>, boosts: seq<real>)
    requires |keys| == |boosts|
  {
    && Valid(st.buckets)
    && st.colors == |Distinct(keys)|
    && NodeCount(st.buckets) == st.colors
    && Lists(st.buckets, keys)
    && NodesWeighed(st.buckets, keys, boosts)
    && TotalWeight(st.buckets) == Sum(boosts)
  }

  // ---------------------------------------------------------------------
  // Lemmas
  // ---------------------------------------------------------------------

  lemma {:induction false} NodeCountUpdate(buckets: seq<Chain>, h: nat, chain: Chain)
    requires h < |buckets|
    ensures NodeCount(buckets[h := chain]) == NodeCount(buckets) - |buckets[h]| + |chain|
    decreases h
  {
    if h > 0 {
      NodeCountUpdate(buckets[1..], h - 1, chain);
      assert buckets[h := chain][1..] == buckets[1..][h - 1 := chain];
    }
  }

  lemma {:induction false} TotalWeightUpdate(buckets: seq<Chain>, h: nat, chain: Chain)
    requires h < |buckets|
    ensures TotalWeight(buckets[h := chain]) == TotalWeight(buckets) - ChainWeight(buckets[h]) + ChainWeight(chain)
    decreases h
  {
    if h > 0 {
      TotalWeightUpdate(buckets[1..], h - 1, chain);
      assert buckets[h := chain][1..] == buckets[1..][h - 1 := chain];
    }
  }

  lemma {:induction false} ChainWeightUpdate(chain: Chain, i: nat, node: Node)
    requires i < |chain|
    ensures ChainWeight(chain[i := node]) == ChainWeight(chain) - chain[i].weight + node.weight
    decreases i
  {
    if i > 0 {
      ChainWeightUpdate(chain[1..], i - 1, node);
      assert chain[i := node][1..] == chain[1..][i - 1 := node];
    }
  }

  lemma ChainWeightPush(node: Node, chain: Chain)
    ensures ChainWeight([node] + chain) == node.weight + ChainWeight(chain)
  {
    assert ([node] + chain)[1..] == chain;
  }

  lemma {:induction false} KeyWeightAbsent(keys: seq<bv32>, boosts: seq<real>, key: bv32)
    requires |keys| == |boosts|
    requires key !in keys
    ensures KeyWeight(keys, boosts, key) == 0.0
    decreases |keys|
  {
    if |keys| > 0 {
      var n := |keys| - 1;
      assert forall k :: k in keys[..n] ==> k in keys;
      KeyWeightAbsent(keys[..n], boosts[..n], key);
    }
  }

  lemma KeyWeightAppend(keys: seq<bv32>, boosts: seq<real>, key: bv32, boost: real, other: bv32)
    requires |keys| == |boosts|
    ensures KeyWeight(keys + [key], boosts + [boost], other)
         == KeyWeight(keys, boosts, other) + (if key == other then boost else 0.0)
  {
    assert (keys + [key])[..|keys|] == keys;
    assert (boosts + [boost])[..|boosts|] == boosts;
  }

  lemma DistinctAppend(keys: seq<bv32>, key: bv32)
    ensures Distinct(keys + [key]) == Distinct(keys) + {key}
    ensures key in keys ==> |Distinct(keys + [key])| == |Distinct(keys)|
    ensures key !in keys ==> |Distinct(keys + [key])| == |Distinct(keys)| + 1
  {
    assert forall k :: k in keys + [key] <==> k in keys || k == key;
    if key in keys {
      assert Distinct(keys) + {key} == Distinct(keys);
    } else {
      assert key !in Distinct(keys);
    }
  }

  lemma SumAppend(boosts: seq<real>, boost: real)
    ensures Sum(boosts + [boost]) == Sum(boosts) + boost
  {
    assert (boosts + [boost])[..|boosts|] == boosts;
  }

  /** Whether a key occurs in a chain, by the result of the chain walk. */
  lemma FindIff(chain: Chain, key: bv32)
    ensures Find(chain, key).Some? <==> exists i :: 0 <= i < |chain| && chain[i].color == key
  {
    if Find(chain, key).Some? {
      var i := Find(chain, key).value;
      assert chain[i].color == key;
    }
  }

  /** One scan step keeps the table a summary of the pixels scanned so far. */
  lemma AddPixelSummarises(st: HashScan, keys: seq<bv32>, boosts: seq<real>, key: bv32, boost: real, maxColors: int)
    requires |keys| == |boosts|
    requires Summarises(st, keys, boosts)
    requires AddPixel(st, key, boost, maxColors).Some?
    ensures Summarises(AddPixel(st, key, boost, maxColors).value, keys + [key], boosts + [boost])
  {
    match Find(st.buckets[Bucket(key)], key)
    case Some(i) =>
      HitSummarises(st, keys, boosts, key, boost, i);
    case None =>
      MissSummarises(st, keys, boosts, key, boost);
  }

  /** A hit keeps the summary: same keys, same count, one node heavier. */
  lemma HitSummarises(st: HashScan, keys: seq<bv32>, boosts: seq<real>, key: bv32, boost: real, i: nat)
    requires |keys| == |boosts|
    requires Summarises(st, keys, boosts)
    requires i < |st.buckets[Bucket(key)]| && st.buckets[Bucket(key)][i].color == key
    ensures Summarises(HashScan(HitTable(st.buckets, key, i, boost), st.colors), keys + [key], boosts + [boost])
  {
    HitValid(st.buckets, key, i, boost);
    FindIff(st.buckets[Bucket(key)], key);
    assert key in keys;
    DistinctAppend(keys, key);
    SumAppend(boosts, boost);
    HitCount(st.buckets, key, i, boost);
    HitTotal(st.buckets, key, i, boost);
    HitKeys(st.buckets, key, i, boost);
    HitWeights(st.buckets, keys, boosts, key, i, boost);
    assert Lists(HitTable(st.buckets, key, i, boost), keys + [key]);
  }

  /** A miss that does not overflow extends the summary by one node. */
  lemma MissSummarises(st: HashScan, keys: seq<bv32>, boosts: seq<real>, key: bv32, boost: real)
    requires |keys| == |boosts|
    requires Summarises(st, keys, boosts)
    requires !InTable(st.buckets, key)
    ensures Summarises(HashScan(MissTable(st.buckets, key, boost), st.colors + 1), keys + [key], boosts + [boost])
  {
    MissValid(st.buckets, key, boost);
    assert key !in keys;
    DistinctAppend(keys, key);
    SumAppend(boosts, boost);
    MissCount(st.buckets, key, boost);
    MissTotal(st.buckets, key, boost);
    MissKeys(st.buckets, key, boost);
    KeyWeightAbsent(keys, boosts, key);
    MissWeights(st.buckets, keys, boosts, key, boost);
    assert Lists(MissTable(st.buckets, key, boost), keys + [key]);
  }

  lemma HitCount(buckets: seq<Chain>, key: bv32, i: nat, boost: real)
    requires |buckets| == HashSize && i < |buckets[Bucket(key)]|
    ensures NodeCount(HitTable(buckets, key, i, boost)) == NodeCount(buckets)
  {
    var chain := buckets[Bucket(key)];
    NodeCountUpdate(buckets, Bucket(key), chain[i := Node(chain[i].color, chain[i].weight + boost)]);
  }

  lemma MissCount(buckets: seq<Chain>, key: bv32, boost: real)
    requires |buckets| == HashSize
    ensures NodeCount(MissTable(buckets, key, boost)) == NodeCount(buckets) + 1
  {
    NodeCountUpdate(buckets, Bucket(key), [Node(key, boost)] + buckets[Bucket(key)]);
  }

  lemma HitTotal(buckets: seq<Chain>, key: bv32, i: nat, boost: real)
    requires |buckets| == HashSize && i < |buckets[Bucket(key)]|
    ensures TotalWeight(HitTable(buckets, key, i, boost)) == TotalWeight(buckets) + boost
  {
    var chain := buckets[Bucket(key)];
    var node := Node(chain[i].color, chain[i].weight + boost);
    ChainWeightUpdate(chain, i, node);
    TotalWeightUpdate(buckets, Bucket(key), chain[i := node]);
  }

  lemma MissTotal(buckets: seq<Chain>, key: bv32, boost: real)
    requires |buckets| == HashSize
    ensures TotalWeight(MissTable(buckets, key, boost)) == TotalWeight(buckets) + boost
  {
    ChainWeightPush(Node(key, boost), buckets[Bucket(key)]);
    TotalWeightUpdate(buckets, Bucket(key), [Node(key, boost)] + buckets[Bucket(key)]);
  }

  /** A hit changes no key: the keys of the chain stay where they were. */
  lemma HitKeys(buckets: seq<Chain>, key: bv32, i: nat, boost: real)
    requires |buckets| == HashSize && i < |buckets[Bucket(key)]|
    ensures forall k :: InTable(HitTable(buckets, key, i, boost), k) <==> InTable(buckets, k)
  {
    var buckets' := HitTable(buckets, key, i, boost);
    forall k
      ensures InTable(buckets', k) <==> InTable(buckets, k)
    {
      if Bucket(k) == Bucket(key) {
        var chain, chain' := buckets[Bucket(k)], buckets'[Bucket(k)];
        assert forall j :: 0 <= j < |chain| ==> chain'[j].color == chain[j].color;
        FindIff(chain, k);
        FindIff(chain', k);
      }
    }
  }

  /** A miss adds exactly its own key. */
  lemma MissKeys(buckets: seq<Chain>, key: bv32, boost: real)
    requires |buckets| == HashSize
    ensures forall k :: InTable(MissTable(buckets, key, boost), k) <==> InTable(buckets, k) || k == key
  {
    var buckets' := MissTable(buckets, key, boost);
    forall k
      ensures InTable(buckets', k) <==> InTable(buckets, k) || k == key
    {
      if Bucket(k) == Bucket(key) {
        var chain, chain' := buckets[Bucket(k)], buckets'[Bucket(k)];
        assert chain' == [Node(key, boost)] + chain;
        FindIff(chain, k);
        FindIff(chain', k);
        if k == key {
          assert chain'[0].color == k;
        }
        if InTable(buckets, k) {
          var j :| 0 <= j < |chain| && chain[j].color == k;
          assert chain'[j + 1].color == k;
        }
        if InTable(buckets', k) && k != key {
          var j :| 0 <= j < |chain'| && chain'[j].color == k;
          assert chain[j - 1].color == k;
        }
      }
    }
  }

  /** The table holds a node for exactly the keys in `keys`. */
  ghost predicate Lists(buckets: seq<Chain>, keys: seq<bv32>)
    requires |buckets| == HashSize
  {
    forall k :: InTable(buckets, k) <==> k in keys
  }

  /** Every node of the table weighs the boosts of exactly its pixels. */
  ghost predicate NodesWeighed(buckets: seq<Chain>, keys: seq<bv32>, boosts: seq<real>)
    requires |keys| == |boosts|
  {
    forall h, j :: 0 <= h < |buckets| && 0 <= j < |buckets[h]| ==>
      buckets[h][j].weight == KeyWeight(keys, boosts, buckets[h][j].color)
  }

  /** After a hit, every node still weighs the boosts of exactly its pixels. */
  lemma HitWeights(buckets: seq<Chain>, keys: seq<bv32>, boosts: seq<real>, key: bv32, i: nat, boost: real)
    requires |keys| == |boosts|
    requires Valid(buckets) && NodesWeighed(buckets, keys, boosts)
    requires i < |buckets[Bucket(key)]| && buckets[Bucket(key)][i].color == key
    ensures NodesWeighed(HitTable(buckets, key, i, boost), keys + [key], boosts + [boost])
  {
    var buckets': seq<Chain> := HitTable(buckets, key, i, boost);
    forall h, j | 0 <= h < |buckets'| && 0 <= j < |buckets'[h]|
      ensures buckets'[h][j].weight == KeyWeight(keys + [key], boosts + [boost], buckets'[h][j].color)
    {
      var n := buckets'[h][j];
      KeyWeightAppend(keys, boosts, key, boost, n.color);
      if h == Bucket(key) && j == i {
      } else {
        assert n == buckets[h][j];
        assert Fits(buckets[h], h);
        assert n.color != key;
      }
    }
  }

  /** After a miss, the new head node weighs its one boost and every other
      node is unchanged. */
  lemma MissWeights(buckets: seq<Chain>, keys: seq<bv32>, boosts: seq<real>, key: bv32, boost: real)
    requires |keys| == |boosts|
    requires Valid(buckets) && NodesWeighed(buckets, keys, boosts)
    requires !InTable(buckets, key) && KeyWeight(keys, boosts, key) == 0.0
    ensures NodesWeighed(MissTable(buckets, key, boost), keys + [key], boosts + [boost])
  {
    var buckets': seq<Chain> := MissTable(buckets, key, boost);
    forall h, j | 0 <= h < |buckets'| && 0 <= j < |buckets'[h]|
      ensures buckets'[h][j].weight == KeyWeight(keys + [key], boosts + [boost], buckets'[h][j].color)
    {
      var n := buckets'[h][j];
      KeyWeightAppend(keys, boosts, key, boost, n.color);
      if h == Bucket(key) && j == 0 {
      } else if h == Bucket(key) {
        assert n == buckets[h][j - 1];
        assert n.color != key;
      } else {
        assert n == buckets[h][j];
        assert Fits(buckets[h], h);
        assert n.color != key;
      }
    }
  }

  /** The scan, as a whole: it fails exactly when the pixels hold more distinct
      posterised keys than `maxColors` (and at least one pixel); otherwise the
      table summarises the pixels and the counter is within the cap. */
  lemma {:induction false} ScanCorrect(keys: seq<bv32>, boosts: seq<real>, maxColors: int)
    requires |keys| == |boosts|
    ensures ScanPixels(keys, boosts, maxColors).None?
        <==> 0 < |Distinct(keys)| && maxColors < |Distinct(keys)|
    ensures ScanPixels(keys, boosts, maxColors).Some? ==>
              Summarises(ScanPixels(keys, boosts, maxColors).value, keys, boosts)
              && (|keys| == 0 || ScanPixels(keys, boosts, maxColors).value.colors <= maxColors)
    decreases |keys|
  {
    if |keys| == 0 {
      assert Distinct(keys) == {};
      var st := ScanPixels(keys, boosts, maxColors).value;
      assert st.buckets == AllocTable();
    } else {
      var n := |keys| - 1;
      var prefix, pboosts := keys[..n], boosts[..n];
      assert keys == prefix + [keys[n]];
      assert boosts == pboosts + [boosts[n]];
      ScanCorrect(prefix, pboosts, maxColors);
      DistinctAppend(prefix, keys[n]);
      match ScanPixels(prefix, pboosts, maxColors)
      case None =>
      case Some(st) =>
        if AddPixel(st, keys[n], boosts[n], maxColors).Some? {
          AddPixelSummarises(st, prefix, pboosts, keys[n], boosts[n], maxColors);
        }
    }
  }

  /** The pixel loop of `pam_computeacolorhash`: each key is added to the
      table with its boost, and the loop gives up (`None`, NULL) as soon as a
      new colour would exceed `maxColors`. */
  method ComputeHash(keys: seq<bv32>, boosts: seq<real>, maxColors: int) returns (acht: Option<HashScan>)
    requires |keys| == |boosts|
    ensures acht == ScanPixels(keys, boosts, maxColors)
    ensures acht.None? <==> 0 < |Distinct(keys)| && maxColors < |Distinct(keys)|
  {
    acht := Some(HashScan(AllocTable(), 0));
    var i := 0;
    assert keys[..0] == [] && boosts[..0] == [];
    while i < |keys| && acht.Some?
      invariant 0 <= i <= |keys|
      invariant acht == ScanPixels(keys[..i], boosts[..i], maxColors)
    {
      ScanStep(keys, boosts, maxColors, i, acht.value);
      acht := AddPixel(acht.value, keys[i], boosts[i], maxColors);
      i := i + 1;
    }
    if acht.None? {
      ScanStops(keys, boosts, maxColors, i);
    } else {
      assert keys[..i] == keys && boosts[..i] == boosts;
    }
    ScanOverflow(keys, boosts, maxColors);
  }

  /** The scan fails exactly on a pixel and too many distinct keys. */
  lemma ScanOverflow(keys: seq<bv32>, boosts: seq<real>, maxColors: int)
    requires |keys| == |boosts|
    ensures ScanPixels(keys, boosts, maxColors).None?
        <==> 0 < |Distinct(keys)| && maxColors < |Distinct(keys)|
  {
    ScanCorrect(keys, boosts, maxColors);
  }

  /** One more key extends the scan of a prefix by one `AddPixel`. */
  lemma ScanStep(keys: seq<bv32>, boosts: seq<real>, maxColors: int, i: nat, st: HashScan)
    requires |keys| == |boosts| && i < |keys|
    requires ScanPixels(keys[..i], boosts[..i], maxColors) == Some(st)
    ensures ScanPixels(keys[..i + 1], boosts[..i + 1], maxColors) == AddPixel(st, keys[i], boosts[i], maxColors)
  {
    assert keys[..i + 1][..i] == keys[..i] && boosts[..i + 1][..i] == boosts[..i];
  }

  /** Once the scan of a prefix has given up, so has the scan of the whole. */
  lemma {:induction false} ScanStops(keys: seq<bv32>, boosts: seq<real>, maxColors: int, n: nat)
    requires |keys| == |boosts| && n <= |keys|
    requires ScanPixels(keys[..n], boosts[..n], maxColors).None?
    ensures ScanPixels(keys, boosts, maxColors).None?
    decreases |keys| - n
  {
    if n < |keys| {
      assert keys[..n + 1][..n] == keys[..n] && boosts[..n + 1][..n] == boosts[..n];
      ScanStops(keys, boosts, maxColors, n + 1);
    } else {
      assert keys[..n] == keys && boosts[..n] == boosts;
    }
  }
}
