/** The colour histogram of pam.c: `pam_computeacolorhist` and
    `pam_acolorhashtoacolorhist`.

    The image is scanned row by row into the hash table (module `ColorHash`),
    then the table is flattened, bucket by bucket and each chain from its head,
    into an array with one entry per distinct posterised colour. The gamma
    conversion `to_f` is float code that is not part of this model; it is a
    parameter.
 */
module Histogram {
  import opened Optional
  import opened Posterize
  import opened ColorHash
  import opened Palette

  /** A `hist_item`: a colour and its two weights. */
  datatype HistItem = HistItem(acolor: FPixel, adjustedWeight: real, perceptualWeight: real)

  /** A `hist`: the entries and their count. */
  datatype Hist = Hist(achv: seq<HistItem>, size: int)

  // ---------------------------------------------------------------------
  // The image as a sequence of pixels
  // ---------------------------------------------------------------------

  /** The number of pixels the two nested loops visit: `cols` per row, none
      when either dimension is not positive. */
  function PixelCount(rows: int, cols: int): nat
    decreases rows
  {
    if rows <= 0 || cols <= 0 then 0 else PixelCount(rows - 1, cols) + cols
  }

  /** The loops visit `rows * cols` pixels when both dimensions are positive. */
  lemma {:induction false} PixelCountProduct(rows: int, cols: int)
    ensures PixelCount(rows, cols) == if rows <= 0 || cols <= 0 then 0 else rows * cols
    decreases rows
  {
    if rows > 0 && cols > 0 {
      PixelCountProduct(rows - 1, cols);
      assert (rows - 1) * cols + cols == rows * cols;
    }
  }

  /** The image has the rows and columns the loops read. */
  predicate Covers(img: seq<seq<Rgba>>, rows: int, cols: int)
  {
    rows <= 0 || cols <= 0 || (rows <= |img| && forall r :: 0 <= r < rows ==> cols <= |img[r]|)
  }

  /** The pixels `apixels[row][col]` in the order the loops visit them. */
  function Pixels(img: seq<seq<Rgba>>, rows: int, cols: int): (px: seq<Rgba>)
    requires Covers(img, rows, cols)
    ensures |px| == PixelCount(rows, cols)
    decreases rows
  {
    if rows <= 0 || cols <= 0 then []
    else
      assert Covers(img, rows - 1, cols);
      Pixels(img, rows - 1, cols) + img[rows - 1][..cols]
  }

  /** The scan is row-major: pixel `(row, col)` is visited at `row * cols + col`. */
  lemma {:induction false} PixelsRowMajor(img: seq<seq<Rgba>>, rows: int, cols: int, row: nat, col: nat)
    requires Covers(img, rows, cols)
    requires row < rows && col < cols
    ensures row * cols + col < |Pixels(img, rows, cols)|
    ensures Pixels(img, rows, cols)[row * cols + col] == img[row][col]
    decreases rows
  {
    var prefix := Pixels(img, rows - 1, cols);
    assert |Pixels(img, rows, cols)| == |prefix| + cols;
    PixelCountProduct(rows - 1, cols);
    if row == rows - 1 {
      assert |prefix| == row * cols;
    } else {
      RowBefore(row, rows - 1, cols, col);
      PixelsRowMajor(img, rows - 1, cols, row, col);
    }
  }

  /** A position in an earlier row lies before the start of a later one. */
  lemma RowBefore(row: nat, rows: nat, cols: nat, col: nat)
    requires row < rows && col < cols
    ensures row * cols + col < rows * cols
  {
    assert (row + 1) * cols == row * cols + cols;
    assert (row + 1) * cols <= rows * cols;
  }

  /** The per-pixel boosts: `1.0` without an importance map, otherwise
      `0.5 + importance[i]` for the `i`-th pixel visited. */
  function Boosts(importance: Option<seq<real>>, n: nat): (b: seq<real>)
    requires importance.Some? ==> n <= |importance.value|
    ensures |b| == n
  {
    match importance
    case None => seq(n, _ => 1.0)
    case Some(map_) => seq(n, i requires 0 <= i < n => 0.5 + map_[i])
  }

  /** The posterised keys of the pixels, in scan order. */
  function KeysOf(pixels: seq<Rgba>, ignorebits: nat): (keys: seq<bv32>)
  {
    seq(|pixels|, i requires 0 <= i < |pixels| => Key(pixels[i], ignorebits))
  }

  /** The keys met along the scan are exactly the distinct keys of the pixels. */
  lemma DistinctKeys(pixels: seq<Rgba>, ignorebits: nat)
    ensures Distinct(KeysOf(pixels, ignorebits)) == Keys(pixels, ignorebits)
  {
    var keys := KeysOf(pixels, ignorebits);
    forall k | k in Keys(pixels, ignorebits)
      ensures k in Distinct(keys)
    {
      var p :| p in pixels && Key(p, ignorebits) == k;
      var i :| 0 <= i < |pixels| && pixels[i] == p;
      assert keys[i] == k;
    }
  }

  lemma DistinctKeyCount(pixels: seq<Rgba>, ignorebits: nat)
    ensures |Distinct(KeysOf(pixels, ignorebits))| == |Keys(pixels, ignorebits)|
  {
    DistinctKeys(pixels, ignorebits);
  }

  /** Without an importance map every pixel weighs one, so the boosts add up
      to the number of pixels. */
  lemma {:induction false} UnitBoostsSum(n: nat)
    ensures Sum(Boosts(None, n)) == n as real
  {
    if n > 0 {
      assert Boosts(None, n)[..n - 1] == Boosts(None, n - 1);
      UnitBoostsSum(n - 1);
    }
  }

  // ---------------------------------------------------------------------
  // Flattening the table
  // ---------------------------------------------------------------------

  /** The nodes of the table in the order of the flattening loops: bucket by
      bucket, each chain from its head. */
  function Flatten(buckets: seq<Chain>): (nodes: Chain)
    ensures |nodes| == NodeCount(buckets)
  {
    if |buckets| == 0 then [] else buckets[0] + Flatten(buckets[1..])
  }

  lemma {:induction false} FlattenAppend(a: seq<Chain>, b: seq<Chain>)
    ensures Flatten(a + b) == Flatten(a) + Flatten(b)
    decreases |a|
  {
    if |a| == 0 {
      assert a + b == b;
    } else {
      assert (a + b)[1..] == a[1..] + b;
      FlattenAppend(a[1..], b);
    }
  }

  /** The number of nodes in the buckets before bucket `h`. */
  function Offset(buckets: seq<Chain>, h: nat): nat
    requires h <= |buckets|
  {
    NodeCount(buckets[..h])
  }

  /** The buckets before `h` and bucket `h` itself hold no more nodes than
      the whole table. */
  lemma Offsets(buckets: seq<Chain>, h: nat)
    requires h < |buckets|
    ensures Offset(buckets, h) + |buckets[h]| <= NodeCount(buckets)
  {
    assert buckets == buckets[..h] + ([buckets[h]] + buckets[h + 1..]);
    FlattenAppend(buckets[..h], [buckets[h]] + buckets[h + 1..]);
    FlattenAppend([buckets[h]], buckets[h + 1..]);
    assert Flatten([buckets[h]]) == buckets[h] by {
      assert [buckets[h]][1..] == [];
    }
  }

  /** Node `k` of bucket `h` lands at position `Offset(buckets, h) + k`:
      after all nodes of the earlier buckets and the `k` nodes ahead of it. */
  lemma FlattenAt(buckets: seq<Chain>, h: nat, k: nat)
    requires h < |buckets| && k < |buckets[h]|
    ensures Offset(buckets, h) + k < NodeCount(buckets)
    ensures Flatten(buckets)[Offset(buckets, h) + k] == buckets[h][k]
  {
    assert buckets == buckets[..h] + ([buckets[h]] + buckets[h + 1..]);
    FlattenAppend(buckets[..h], [buckets[h]] + buckets[h + 1..]);
    FlattenAppend([buckets[h]], buckets[h + 1..]);
    assert Flatten([buckets[h]]) == buckets[h] by {
      assert [buckets[h]][1..] == [];
    }
  }

  /** Every position of the flattening holds one node of the table, the one
      `FlattenAt` places there. */
  lemma {:induction false} FlattenFrom(buckets: seq<Chain>, j: nat)
    requires j < |Flatten(buckets)|
    ensures exists h, k :: 0 <= h < |buckets| && 0 <= k < |buckets[h]|
              && j == Offset(buckets, h) + k && Flatten(buckets)[j] == buckets[h][k]
    decreases |buckets|
  {
    if j < |buckets[0]| {
      assert buckets[..0] == [];
      assert Flatten(buckets)[j] == buckets[0][j];
    } else {
      var rest := buckets[1..];
      FlattenFrom(rest, j - |buckets[0]|);
      var h, k :| 0 <= h < |rest| && 0 <= k < |rest[h]|
        && j - |buckets[0]| == NodeCount(rest[..h]) + k && Flatten(rest)[j - |buckets[0]|] == rest[h][k];
      assert buckets[..h + 1][1..] == rest[..h];
      assert NodeCount(buckets[..h + 1]) == |buckets[0]| + NodeCount(rest[..h]);
      assert Flatten(buckets)[j] == buckets[h + 1][k];
    }
  }

  /** In a well-formed table no key is flattened twice. */
  lemma FlattenDistinct(buckets: seq<Chain>)
    requires Valid(buckets)
    ensures forall a, c :: 0 <= a < c < |Flatten(buckets)| ==> Flatten(buckets)[a].color != Flatten(buckets)[c].color
  {
    var nodes := Flatten(buckets);
    forall a, c | 0 <= a < c < |nodes|
      ensures nodes[a].color != nodes[c].color
    {
      FlattenFrom(buckets, a);
      FlattenFrom(buckets, c);
      var ha, ka :| 0 <= ha < |buckets| && 0 <= ka < |buckets[ha]|
        && a == NodeCount(buckets[..ha]) + ka && nodes[a] == buckets[ha][ka];
      var hc, kc :| 0 <= hc < |buckets| && 0 <= kc < |buckets[hc]|
        && c == NodeCount(buckets[..hc]) + kc && nodes[c] == buckets[hc][kc];
      assert Fits(buckets[ha], ha) && Fits(buckets[hc], hc);
      if ha == hc {
        assert ka != kc;
      }
    }
  }

  /** The histogram entry of a node: the colour of its key, converted, and its
      weight as both the adjusted and the perceptual weight. */
  function Entry(node: Node, gamma: real, toF: (real, Rgba) -> FPixel): (e: HistItem)
    ensures e.adjustedWeight == e.perceptualWeight == node.weight
  {
    HistItem(toF(gamma, Unpack(node.color)), node.weight, node.weight)
  }

  /** The entries of a sequence of nodes, in order. */
  function Entries(nodes: Chain, gamma: real, toF: (real, Rgba) -> FPixel): (items: seq<HistItem>)
    ensures |items| == |nodes|
  {
    if |nodes| == 0 then [] else [Entry(nodes[0], gamma, toF)] + Entries(nodes[1..], gamma, toF)
  }

  lemma {:induction false} EntriesAt(nodes: Chain, gamma: real, toF: (real, Rgba) -> FPixel, j: nat)
    requires j < |nodes|
    ensures Entries(nodes, gamma, toF)[j] == Entry(nodes[j], gamma, toF)
    decreases j
  {
    if j > 0 {
      EntriesAt(nodes[1..], gamma, toF, j - 1);
    }
  }

  lemma {:induction false} EntriesSnoc(nodes: Chain, node: Node, gamma: real, toF: (real, Rgba) -> FPixel)
    ensures Entries(nodes + [node], gamma, toF) == Entries(nodes, gamma, toF) + [Entry(node, gamma, toF)]
    decreases |nodes|
  {
    if |nodes| == 0 {
      assert nodes + [node] == [node];
    } else {
      assert (nodes + [node])[1..] == nodes[1..] + [node];
      EntriesSnoc(nodes[1..], node, gamma, toF);
    }
  }

  /** The sum of the perceptual weights of the entries. */
  function HistWeight(items: seq<HistItem>): real
  {
    if |items| == 0 then 0.0 else items[0].perceptualWeight + HistWeight(items[1..])
  }

  lemma {:induction false} EntriesWeight(nodes: Chain, gamma: real, toF: (real, Rgba) -> FPixel)
    ensures HistWeight(Entries(nodes, gamma, toF)) == ChainWeight(nodes)
    decreases |nodes|
  {
    if |nodes| > 0 {
      EntriesWeight(nodes[1..], gamma, toF);
    }
  }

  lemma {:induction false} ChainWeightConcat(a: Chain, b: Chain)
    ensures ChainWeight(a + b) == ChainWeight(a) + ChainWeight(b)
    decreases |a|
  {
    if |a| == 0 {
      assert a + b == b;
    } else {
      assert (a + b)[1..] == a[1..] + b;
      ChainWeightConcat(a[1..], b);
    }
  }

  /** Flattening keeps the total weight of the table. */
  lemma {:induction false} FlattenWeight(buckets: seq<Chain>)
    ensures ChainWeight(Flatten(buckets)) == TotalWeight(buckets)
    decreases |buckets|
  {
    if |buckets| > 0 {
      ChainWeightConcat(buckets[0], Flatten(buckets[1..]));
      FlattenWeight(buckets[1..]);
    }
  }

  /** The loops of `pam_acolorhashtoacolorhist`: one entry per node, bucket by
      bucket and each chain from its head, into an array of `histSize` entries. */
  method ToHist(buckets: seq<Chain>, histSize: int, gamma: real, toF: (real, Rgba) -> FPixel)
    returns (hist: Hist)
    requires |buckets| == HashSize
    requires histSize == NodeCount(buckets)
    ensures hist.size == histSize && |hist.achv| == histSize
    ensures hist.achv == Entries(Flatten(buckets), gamma, toF)
  {
    var achv: seq<HistItem> := [];
    var i := 0;
    while i < HashSize
      invariant 0 <= i <= HashSize
      invariant achv == Entries(Flatten(buckets[..i]), gamma, toF)
    {
      var chain := buckets[i];
      var k := 0;
      assert Flatten(buckets[..i]) + chain[..0] == Flatten(buckets[..i]);
      while k < |chain|
        invariant 0 <= k <= |chain|
        invariant achv == Entries(Flatten(buckets[..i]) + chain[..k], gamma, toF)
      {
        EntriesNext(Flatten(buckets[..i]), chain, k, gamma, toF);
        achv := achv + [Entry(chain[k], gamma, toF)];
        k := k + 1;
      }
      FlattenNext(buckets, i);
      assert chain[..k] == chain;
      i := i + 1;
    }
    assert buckets[..i] == buckets;
    hist := Hist(achv, histSize);
  }

  /** The inner loop's step: one more node of the chain adds its entry. */
  lemma EntriesNext(prefix: Chain, chain: Chain, k: nat, gamma: real, toF: (real, Rgba) -> FPixel)
    requires k < |chain|
    ensures Entries(prefix + chain[..k + 1], gamma, toF)
         == Entries(prefix + chain[..k], gamma, toF) + [Entry(chain[k], gamma, toF)]
  {
    EntriesSnoc(prefix + chain[..k], chain[k], gamma, toF);
    assert prefix + chain[..k + 1] == prefix + chain[..k] + [chain[k]];
  }

  /** The outer loop's step: one more bucket appends its chain. */
  lemma FlattenNext(buckets: seq<Chain>, i: nat)
    requires i < |buckets|
    ensures Flatten(buckets[..i + 1]) == Flatten(buckets[..i]) + buckets[i]
  {
    assert buckets[..i + 1] == buckets[..i] + [buckets[i]];
    FlattenAppend(buckets[..i], [buckets[i]]);
    assert Flatten([buckets[i]]) == buckets[i] by {
      assert [buckets[i]][1..] == [];
    }
  }

  /** What the entries of the flattened table hold: the entry of node `k` of
      bucket `h` at its place, equal weights, and the total weight. */
  lemma FlattenedEntries(buckets: seq<Chain>, gamma: real, toF: (real, Rgba) -> FPixel)
    ensures forall h :: 0 <= h < |buckets| ==>
              Offset(buckets, h) + |buckets[h]| <= |Entries(Flatten(buckets), gamma, toF)|
    ensures forall h, k :: 0 <= h < |buckets| && 0 <= k < |buckets[h]| ==>
              Entries(Flatten(buckets), gamma, toF)[Offset(buckets, h) + k] == Entry(buckets[h][k], gamma, toF)
    ensures forall j :: 0 <= j < |Entries(Flatten(buckets), gamma, toF)| ==>
              Entries(Flatten(buckets), gamma, toF)[j].adjustedWeight == Entries(Flatten(buckets), gamma, toF)[j].perceptualWeight
    ensures HistWeight(Entries(Flatten(buckets), gamma, toF)) == TotalWeight(buckets)
  {
    var achv := Entries(Flatten(buckets), gamma, toF);
    forall h | 0 <= h < |buckets|
      ensures Offset(buckets, h) + |buckets[h]| <= |achv|
    {
      Offsets(buckets, h);
    }
    forall h, k | 0 <= h < |buckets| && 0 <= k < |buckets[h]|
      ensures achv[Offset(buckets, h) + k] == Entry(buckets[h][k], gamma, toF)
    {
      FlattenAt(buckets, h, k);
      EntriesAt(Flatten(buckets), gamma, toF, Offset(buckets, h) + k);
    }
    forall j | 0 <= j < |achv|
      ensures achv[j].adjustedWeight == achv[j].perceptualWeight
    {
      EntriesAt(Flatten(buckets), gamma, toF, j);
    }
    EntriesWeight(Flatten(buckets), gamma, toF);
    FlattenWeight(buckets);
  }

  // ---------------------------------------------------------------------
  // The whole histogram
  // ---------------------------------------------------------------------

  /** The entry a distinct key should get: its colour converted, and the sum of
      the boosts of the pixels posterised to it. */
  function KeyEntry(keys: seq<bv32>, boosts: seq<real>, k: bv32, gamma: real, toF: (real, Rgba) -> FPixel): HistItem
    requires |keys| == |boosts|
  {
    Entry(Node(k, KeyWeight(keys, boosts, k)), gamma, toF)
  }

  /** `pam_computeacolorhist` over the pixels in scan order and their boosts:
      the scan into the hash table, then its flattening into the histogram. */
  method HistOfPixels(pixels: seq<Rgba>, boosts: seq<real>, gamma: real, maxColors: int,
                      ignorebits: nat, toF: (real, Rgba) -> FPixel)
    returns (r: Option<Hist>)
    requires |pixels| == |boosts|
    ensures r.None? <==> 0 < |Keys(pixels, ignorebits)| && maxColors < |Keys(pixels, ignorebits)|
    ensures r.Some? ==> r.value.size == |r.value.achv| == |Keys(pixels, ignorebits)|
    ensures r.Some? ==> r.value.size == 0 || r.value.size <= maxColors
    ensures r.Some? ==> HistWeight(r.value.achv) == Sum(boosts)
    ensures r.Some? ==> PairsKeys(r.value.achv, KeysOf(pixels, ignorebits), boosts, gamma, toF)
    // the entries come in the bucket order of the scan's table, so the same
    // pixels always give the same array
    ensures r.Some? ==> && ScanPixels(KeysOf(pixels, ignorebits), boosts, maxColors).Some?
                        && r.value.achv == Entries(Flatten(ScanPixels(KeysOf(pixels, ignorebits), boosts, maxColors).value.buckets), gamma, toF)
  {
    var keys := KeysOf(pixels, ignorebits);
    var acht := ComputeHash(keys, boosts, maxColors);
    DistinctKeyCount(pixels, ignorebits);
    if acht.None? {
      return None;
    }
    ScanCorrect(keys, boosts, maxColors);
    var hist := AcolorHashToAcolorHist(keys, boosts, acht.value, gamma, toF);
    r := Some(hist);
  }

  /** `pam_acolorhashtoacolorhist` applied to a table that summarises the
      scan of `keys`: one entry per distinct key, each carrying the weight of
      its pixels, the boosts conserved. */
  method AcolorHashToAcolorHist(ghost keys: seq<bv32>, ghost boosts: seq<real>, acht: HashScan,
                                gamma: real, toF: (real, Rgba) -> FPixel)
    returns (hist: Hist)
    requires |keys| == |boosts|
    requires Summarises(acht, keys, boosts)
    ensures hist.size == |hist.achv| == |Distinct(keys)|
    ensures HistWeight(hist.achv) == Sum(boosts)
    ensures PairsKeys(hist.achv, keys, boosts, gamma, toF)
    ensures hist.achv == Entries(Flatten(acht.buckets), gamma, toF)
  {
    hist := ToHist(acht.buckets, acht.colors, gamma, toF);
    HistFromScan(acht, keys, boosts, hist.achv, gamma, toF);
  }

  /** `pam_computeacolorhist`: the histogram of the posterised colours of the
      first `rows` rows and `cols` columns of the image, or `None` (NULL) when
      there is at least one pixel and more than `maxColors` distinct colours. */
  method ComputeAcolorHist(img: seq<seq<Rgba>>, rows: int, cols: int, gamma: real, maxColors: int,
                           ignorebits: nat, importance: Option<seq<real>>, toF: (real, Rgba) -> FPixel)
    returns (r: Option<Hist>)
    requires ignorebits < 32
    requires Covers(img, rows, cols)
    requires importance.Some? ==> PixelCount(rows, cols) <= |importance.value|
    ensures r.None? <==> 0 < |Keys(Pixels(img, rows, cols), ignorebits)|
                         && maxColors < |Keys(Pixels(img, rows, cols), ignorebits)|
    ensures r.Some? ==> r.value.size == |r.value.achv| == |Keys(Pixels(img, rows, cols), ignorebits)|
    ensures r.Some? ==> r.value.size == 0 || r.value.size <= maxColors
    ensures r.Some? ==> HistWeight(r.value.achv) == Sum(Boosts(importance, PixelCount(rows, cols)))
    ensures r.Some? && importance.None? ==> HistWeight(r.value.achv) == PixelCount(rows, cols) as real
    ensures r.Some? ==> PairsKeys(r.value.achv, KeysOf(Pixels(img, rows, cols), ignorebits),
                                  Boosts(importance, PixelCount(rows, cols)), gamma, toF)
    ensures r.Some? ==>
              && ScanPixels(KeysOf(Pixels(img, rows, cols), ignorebits), Boosts(importance, PixelCount(rows, cols)), maxColors).Some?
              && r.value.achv == Entries(Flatten(ScanPixels(KeysOf(Pixels(img, rows, cols), ignorebits),
                                                            Boosts(importance, PixelCount(rows, cols)), maxColors).value.buckets), gamma, toF)
  {
    r := HistOfPixels(Pixels(img, rows, cols), Boosts(importance, PixelCount(rows, cols)),
                      gamma, maxColors, ignorebits, toF);
    if importance.None? {
      UnitBoostsSum(PixelCount(rows, cols));
    }
  }

  /** The entries of the flattened table of a scan: one per distinct key,
      carrying its weight, and conserving the boosts. */
  lemma HistFromScan(st: HashScan, keys: seq<bv32>, boosts: seq<real>, achv: seq<HistItem>,
                     gamma: real, toF: (real, Rgba) -> FPixel)
    requires |keys| == |boosts|
    requires Summarises(st, keys, boosts)
    requires achv == Entries(Flatten(st.buckets), gamma, toF)
    ensures |achv| == |Distinct(keys)|
    ensures HistWeight(achv) == Sum(boosts)
    ensures PairsKeys(achv, keys, boosts, gamma, toF)
  {
    FlattenedEntries(st.buckets, gamma, toF);
    EntriesFromKeys(st, keys, boosts, gamma, toF);
  }

  /** The histogram lists the distinct keys one to one: some ordering `ks` of
      the distinct keys, each exactly once, has entry `j` as the entry of key
      `ks[j]`. */
  ghost predicate PairsKeys(achv: seq<HistItem>, keys: seq<bv32>, boosts: seq<real>,
                            gamma: real, toF: (real, Rgba) -> FPixel)
    requires |keys| == |boosts|
  {
    exists ks :: ListsKeys(ks, keys) && EntriesFor(achv, ks, keys, boosts, gamma, toF)
  }

  /** `ks` holds every distinct key of `keys` exactly once. */
  ghost predicate ListsKeys(ks: seq<bv32>, keys: seq<bv32>)
  {
    && (forall a, c :: 0 <= a < c < |ks| ==> ks[a] != ks[c])
    && (forall k :: k in ks <==> k in Distinct(keys))
  }

  /** Entry `j` is the entry of key `ks[j]`, and there is one entry per key. */
  ghost predicate EntriesFor(achv: seq<HistItem>, ks: seq<bv32>, keys: seq<bv32>, boosts: seq<real>,
                             gamma: real, toF: (real, Rgba) -> FPixel)
    requires |keys| == |boosts|
  {
    |achv| == |ks| && forall j :: 0 <= j < |achv| ==> achv[j] == KeyEntry(keys, boosts, ks[j], gamma, toF)
  }

  /** A histogram that pairs the keys one to one has one entry per distinct key. */
  lemma PairsKeysCount(achv: seq<HistItem>, keys: seq<bv32>, boosts: seq<real>,
                       gamma: real, toF: (real, Rgba) -> FPixel)
    requires |keys| == |boosts|
    requires PairsKeys(achv, keys, boosts, gamma, toF)
    ensures |achv| == |Distinct(keys)|
  {
    var ks :| ListsKeys(ks, keys) && EntriesFor(achv, ks, keys, boosts, gamma, toF);
    forall k | k in Distinct(keys)
      ensures k in Distinct(ks)
    {
      assert k in ks;
    }
    assert Distinct(ks) == Distinct(keys);
    NoRepeatsCount(ks);
  }

  /** A sequence without repeats has as many distinct elements as positions. */
  lemma {:induction false} NoRepeatsCount(ks: seq<bv32>)
    requires forall a, c :: 0 <= a < c < |ks| ==> ks[a] != ks[c]
    ensures |Distinct(ks)| == |ks|
    decreases |ks|
  {
    if |ks| > 0 {
      var init := ks[..|ks| - 1];
      NoRepeatsCount(init);
      assert Distinct(ks) == Distinct(init) + {ks[|ks| - 1]};
      assert ks[|ks| - 1] !in Distinct(init);
    }
  }

  /** The colours of a sequence of nodes, in order. */
  function Colors(nodes: Chain): (ks: seq<bv32>)
    ensures |ks| == |nodes|
  {
    seq(|nodes|, j requires 0 <= j < |nodes| => nodes[j].color)
  }

  /** The flattened table of a scan pairs the distinct keys one to one with
      entries carrying their weights: the colours of the flattened nodes are
      the ordering of the keys. */
  lemma EntriesFromKeys(st: HashScan, keys: seq<bv32>, boosts: seq<real>,
                        gamma: real, toF: (real, Rgba) -> FPixel)
    requires |keys| == |boosts|
    requires Summarises(st, keys, boosts)
    ensures PairsKeys(Entries(Flatten(st.buckets), gamma, toF), keys, boosts, gamma, toF)
  {
    var ks := Colors(Flatten(st.buckets));
    FlattenedKeys(st, keys, boosts);
    FlattenedKeyEntries(st, keys, boosts, gamma, toF);
    assert ListsKeys(ks, keys) && EntriesFor(Entries(Flatten(st.buckets), gamma, toF), ks, keys, boosts, gamma, toF);
  }

  /** The colours of the flattened table hold every distinct key of the pixels
      exactly once. */
  lemma FlattenedKeys(st: HashScan, keys: seq<bv32>, boosts: seq<real>)
    requires |keys| == |boosts|
    requires Valid(st.buckets) && Lists(st.buckets, keys)
    ensures ListsKeys(Colors(Flatten(st.buckets)), keys)
  {
    var nodes := Flatten(st.buckets);
    var ks := Colors(nodes);
    FlattenDistinct(st.buckets);
    forall a, c | 0 <= a < c < |ks|
      ensures ks[a] != ks[c]
    {
      assert ks[a] == nodes[a].color && ks[c] == nodes[c].color;
    }
    forall k | k in ks
      ensures k in Distinct(keys)
    {
      var j :| 0 <= j < |ks| && ks[j] == k;
      NodeHasKey(st, keys, j);
    }
    forall k | k in Distinct(keys)
      ensures k in ks
    {
      KeyHasEntry(st, keys, k);
    }
  }

  /** Entry `j` of the flattened table is the entry of the colour of node `j`,
      carrying the weight of that colour's pixels. */
  lemma FlattenedKeyEntries(st: HashScan, keys: seq<bv32>, boosts: seq<real>,
                            gamma: real, toF: (real, Rgba) -> FPixel)
    requires |keys| == |boosts|
    requires Valid(st.buckets) && NodesWeighed(st.buckets, keys, boosts)
    ensures EntriesFor(Entries(Flatten(st.buckets), gamma, toF), Colors(Flatten(st.buckets)), keys, boosts, gamma, toF)
  {
    var achv := Entries(Flatten(st.buckets), gamma, toF);
    var ks := Colors(Flatten(st.buckets));
    forall j | 0 <= j < |achv|
      ensures achv[j] == KeyEntry(keys, boosts, ks[j], gamma, toF)
    {
      EntryHasKey(st, keys, boosts, gamma, toF, j);
    }
  }

  /** The colour of node `j` of the flattened table is a key of the pixels. */
  lemma NodeHasKey(st: HashScan, keys: seq<bv32>, j: nat)
    requires Valid(st.buckets) && Lists(st.buckets, keys)
    requires j < |Flatten(st.buckets)|
    ensures Flatten(st.buckets)[j].color in Distinct(keys)
  {
    var buckets := st.buckets;
    FlattenFrom(buckets, j);
    var h, i :| 0 <= h < |buckets| && 0 <= i < |buckets[h]|
      && j == Offset(buckets, h) + i && Flatten(buckets)[j] == buckets[h][i];
    var node := buckets[h][i];
    assert Fits(buckets[h], h);
    assert Bucket(node.color) == h;
    FindIff(buckets[h], node.color);
    assert InTable(buckets, node.color);
    assert node.color in keys;
  }

  /** Entry `j` of the flattened table is the entry of node `j`'s colour,
      whose weight is the boosts of its pixels. */
  lemma EntryHasKey(st: HashScan, keys: seq<bv32>, boosts: seq<real>,
                    gamma: real, toF: (real, Rgba) -> FPixel, j: nat)
    requires |keys| == |boosts|
    requires Valid(st.buckets) && NodesWeighed(st.buckets, keys, boosts)
    requires j < |Flatten(st.buckets)|
    ensures Entries(Flatten(st.buckets), gamma, toF)[j]
         == KeyEntry(keys, boosts, Flatten(st.buckets)[j].color, gamma, toF)
  {
    var buckets := st.buckets;
    EntriesAt(Flatten(buckets), gamma, toF, j);
    FlattenFrom(buckets, j);
    var h, i :| 0 <= h < |buckets| && 0 <= i < |buckets[h]|
      && j == Offset(buckets, h) + i && Flatten(buckets)[j] == buckets[h][i];
    var node := buckets[h][i];
    assert node.weight == KeyWeight(keys, boosts, node.color);
    assert node == Node(node.color, KeyWeight(keys, boosts, node.color));
  }

  /** Every distinct key of the pixels is the colour of some node of the
      flattened table: the node the chain walk finds, at its place. */
  lemma KeyHasEntry(st: HashScan, keys: seq<bv32>, k: bv32)
    requires |st.buckets| == HashSize && Lists(st.buckets, keys)
    requires k in Distinct(keys)
    ensures k in Colors(Flatten(st.buckets))
  {
    var buckets := st.buckets;
    var h := Bucket(k);
    assert k in keys;
    assert InTable(buckets, k);
    var i := Find(buckets[h], k).value;
    FlattenAt(buckets, h, i);
    var j := Offset(buckets, h) + i;
    assert Colors(Flatten(buckets))[j] == k;
  }
}
