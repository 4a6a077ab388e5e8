# pam.c: colour histogram, palette allocation and nearest-colour matching

This project models, in Dafny, the colour-counting and colour-matching core of
the pngquant quantiser (`pam.c`):

- **Posterisation** (`posterize.dfy`, module `Posterize`). A pixel is read as one
  32-bit word. Every byte of the word keeps only its top `8 - ignorebits` bits.
  The masked word is the pixel's hash key.
- **The colour hash table** (`colorhash.dfy`, module `ColorHash`). This covers
  `pam_allocacolorhash` and the pixel loop of `pam_computeacolorhash`. There are
  30029 buckets, each a chain of nodes with the newest node at the head. A hit
  adds the pixel's boost to the node's weight. A miss bumps the colour counter,
  and when the counter exceeds `maxacolors` the scan gives up with NULL. The
  table is a value: a sequence of chains. One scan step is `AddPixel`, the
  scan as a reference function is `ScanPixels`, and the loop is `ComputeHash`.
- **The histogram** (`histogram.dfy`, module `Histogram`). This covers
  `pam_acolorhashtoacolorhist` and `pam_computeacolorhist`. The image's first
  `rows` rows and `cols` columns are visited in row-major order. Each pixel's
  boost is `1.0`, or `0.5 + importance[i]` when an importance map is given.
  The table is flattened bucket by bucket into one entry per distinct colour.
- **Palettes and matching** (`palette.dfy`, `matcher.dfy`). These cover
  `pam_colormap`, a palette of zero-filled entries, and `best_color_index`. The
  matcher returns the nearest palette entry. The exception: when the colour is
  opaque (`a > min_opaque_val`), a translucent entry replaces the current best
  only if it is nearer by at least `1/1024`.

The gamma conversion `to_f` and the distance `colordifference` are float code
from other files. Here they are function-typed parameters (`toF`, `diff`) over
reals. NULL is `Option.None` (`optional.dfy`).

An improvement of exactly `1/1024` is enough for a translucent entry: the code
skips a translucent candidate only when `newdist + 1/1024 > dist`
(`Matcher.Scan`, `Matcher.AcceptIff`).

## Model

| member | source | states |
|---|---|---|
| Posterize.ChannelMask | pam.c:92 | `255 >> ignorebits << ignorebits` keeps exactly the top `8 - ignorebits` bits of a channel: shifting it down gives `255 >> ignorebits`, and its low `ignorebits` bits are clear |
| Posterize.PosterizeMaskBytes | pam.c:93 | the word mask `posterize_mask` holds the channel mask in each of its four bytes |
| Posterize.PackUnpack | pam.c:107 | reading a pixel as a word and the word back as a pixel are inverse bijections (the `rgb_as_long` union) |
| Posterize.KeyIsMaskedPixel | pam.c:92-93 | masking the whole word with the repeated channel mask is the same as masking every channel of the pixel and packing it |
| Posterize.KeyColor | pam.c:107-108 | the colour a key stands for, read back through the union, is the pixel with every channel masked |
| Posterize.ChannelsAgree | pam.c:92 | two channel values are equal after masking if and only if their top `8 - ignorebits` bits are equal |
| Posterize.SameKeyIff | pam.c:107-108 | two pixels get the same key if and only if their masked pixels are equal |
| Posterize.PosterizeIdempotent | pam.c:108 | posterising a key again leaves it unchanged |
| Posterize.CoarserKey | pam.c:92-93 | posterising with `i` bits and then `j >= i` bits equals posterising with `j` bits |
| Posterize.CoarserHasFewerKeys | pam.c:70 | ignoring more bits never yields more distinct colours for the same pixels |
| ColorHash.Bucket | pam.c:109 | the bucket of a key is below `HASH_SIZE` (30029) |
| ColorHash.Find | pam.c:111-114 | the chain walk stops at the first node holding the key, and reports no node when none holds it |
| ColorHash.FindIff | pam.c:111-116 | the walk finds a node exactly when some node of the chain holds the key |
| ColorHash.AllocTable | pam.c:137-144 | a new table has `HASH_SIZE` empty buckets: well-formed, no nodes, no weight, no key present |
| ColorHash.AddPixel | pam.c:109-129 | one pixel: NULL exactly when the key is new and the bumped counter exceeds `maxacolors`; otherwise the table stays well-formed and holds the key, other buckets are unchanged, a miss pushes `(key, boost)` at the chain head and adds one colour, and a hit adds the boost to that key's node only |
| ColorHash.HitTable | pam.c:116-117 | a hit keeps the number of buckets and the length of the key's chain; node `i` keeps its colour and gains the boost |
| ColorHash.MissTable | pam.c:123-128 | a miss keeps the number of buckets and makes the key's chain one longer: the new node `(key, boost)` at its head, the old chain behind it |
| ColorHash.HitValid | pam.c:116-117 | adding a boost to a found node keeps every chain in its bucket with no duplicate key |
| ColorHash.MissValid | pam.c:123-128 | pushing a node for an absent key keeps every chain in its bucket with no duplicate key |
| ColorHash.HitTotal | pam.c:117 | a hit raises the table's total weight by exactly the boost |
| ColorHash.MissTotal | pam.c:126-128 | a miss raises the table's total weight by exactly the boost |
| ColorHash.HitCount | pam.c:116-117 | a hit adds no node |
| ColorHash.MissCount | pam.c:119-128 | a miss adds exactly one node, matching the one-step bump of the counter |
| ColorHash.HitKeys | pam.c:116-117 | after a hit the table holds exactly the same keys |
| ColorHash.MissKeys | pam.c:125-128 | after a miss the table holds exactly the old keys plus the new one |
| ColorHash.HitWeights | pam.c:117 | after a hit every node still weighs the sum of the boosts of exactly the pixels with its key |
| ColorHash.MissWeights | pam.c:126 | after a miss the new node weighs its one boost and all other nodes keep their weights |
| ColorHash.AddPixelSummarises | pam.c:109-129 | one step keeps the table a summary of the pixels scanned so far: distinct keys, counter, node count, per-key weights and total weight |
| ColorHash.ScanPixels | pam.c:99-132 | the table left by the pixel loop, when there is one, is well-formed |
| ColorHash.ScanCorrect | pam.c:99-134 | the scan returns NULL exactly when there is a pixel and more distinct keys than `maxacolors`; otherwise the table lists every distinct key once, each node weighs the boosts of its pixels, the counter equals the number of distinct keys and nodes, the total weight equals the sum of the boosts, and, when there is a pixel, the counter is within the cap |
| ColorHash.ScanStops | pam.c:119-121 | once the scan of a prefix of the pixels has returned NULL, so has the scan of all of them |
| ColorHash.ComputeHash | pam.c:99-134 | the loop with its early return computes the reference scan, and returns NULL exactly when there is a pixel and more distinct keys than `maxacolors` |
| ColorHash.ScanOverflow | pam.c:119-121 | the scan gives up if and only if the pixels hold more distinct keys than `maxacolors` (and at least one pixel) |
| ColorHash.ScanStep | pam.c:99-129 | scanning one more pixel after a prefix that did not give up is one `AddPixel` step |
| Histogram.PixelCountProduct | pam.c:99-102 | the number of pixels visited is `rows * cols`, or zero when either is not positive |
| Histogram.Pixels | pam.c:99-107 | the pixels the two loops visit, `rows * cols` of them (see `PixelCountProduct`) |
| Histogram.PixelsRowMajor | pam.c:99-107 | pixel `(row, col)` is visited at position `row * cols + col` |
| Histogram.DistinctKeys | pam.c:107-108 | the keys met by the scan are exactly the distinct posterised colours of the pixels |
| Histogram.Boosts | pam.c:101-104 | one boost per visited pixel |
| Histogram.UnitBoostsSum | pam.c:101 | without an importance map the boosts add up to the number of pixels |
| Histogram.Flatten | pam.c:157-163 | the nodes taken bucket by bucket, each chain from its head: as many as the table holds |
| Histogram.Offsets | pam.c:158-159 | the buckets before bucket `h`, plus bucket `h`, hold no more nodes than the table |
| Histogram.FlattenAt | pam.c:157-163 | node `k` of bucket `h` lands at position (nodes in earlier buckets) `+ k` |
| Histogram.FlattenFrom | pam.c:157-163 | every position of the flattened array holds the node `FlattenAt` puts there |
| Histogram.FlattenDistinct | pam.c:157-163 | no colour appears twice in the flattening of a well-formed table |
| Histogram.Entry | pam.c:161-162 | the entry of a node has the node's weight as both its adjusted and its perceptual weight |
| Histogram.EntriesAt | pam.c:161-162 | entry `j` is node `j`'s colour converted by `to_f`, with its weight as both the adjusted and the perceptual weight |
| Histogram.FlattenWeight | pam.c:157-163 | the flattened nodes weigh as much as the table |
| Histogram.ToHist | pam.c:152-164 | the nested loops fill an array of `hist_size` entries with the entries of the nodes, bucket by bucket and each chain from its head |
| Histogram.FlattenedEntries | pam.c:157-164 | the entries of a flattened table: node `k` of bucket `h` at its place, equal adjusted and perceptual weights, total weight equal to the table's |
| Histogram.EntriesFromKeys | pam.c:157-164 | the entries of the flattened table pair the distinct keys one to one: the flattened colours list every distinct key exactly once, and entry `j` is the entry of colour `j` |
| Histogram.PairsKeysCount | pam.c:157-164 | a histogram paired one to one with the keys has exactly one entry per distinct key |
| Histogram.FlattenedKeys | pam.c:157-163 | the colours of the flattened nodes hold every distinct key of the pixels, none twice |
| Histogram.FlattenedKeyEntries | pam.c:157-164 | entry `j` of the flattened table is the converted colour of node `j` with the summed boosts of that colour's pixels |
| Histogram.NodeHasKey | pam.c:158-163 | the colour of every flattened node is a key of some pixel |
| Histogram.EntryHasKey | pam.c:158-163 | entry `j` is the entry of node `j`'s colour, carrying exactly the summed boosts of that colour's pixels |
| Histogram.KeyHasEntry | pam.c:158-163 | every distinct key of the pixels is the colour of some flattened node |
| Histogram.HistFromScan | pam.c:146-168 | the histogram of a successful scan has one entry per distinct key, weights summing to the boosts, and entries paired one to one with the keys |
| Histogram.AcolorHashToAcolorHist | pam.c:146-168 | applied to a table that summarises the pixels: the entries are those of the nodes in bucket order, size equals the number of entries and of distinct keys, the weight is conserved, and entries and distinct keys pair one to one |
| Histogram.HistOfPixels | pam.c:73-85 | over pixels and boosts: NULL exactly when there is at least one pixel and the distinct posterised colours exceed `maxacolors`; otherwise a histogram pairing those colours one to one with entries carrying their weights, in the bucket order of the scan's table |
| Histogram.ComputeAcolorHist | pam.c:73-85 | over the image: NULL if and only if there is at least one pixel and more distinct posterised colours than `maxacolors`; otherwise one entry per colour, its weight the sum of its pixels' boosts, in the bucket order of the scan's table, the total weight the sum of all boosts, which is the pixel count when there is no importance map |
| Palette.NewColormap | pam.c:182-188 | a new palette has `colors` entries, all of them zero-filled |
| Matcher.Scan | pam.c:33-46 | the entry the loop keeps is in range, and the distance kept is that entry's distance |
| Matcher.BestColorIndex | pam.c:25-50 | the loop computes the reference scan; the index is below `colors` and `dist` is its distance; a one-entry palette gives 0; `dist` is at most entry 0's, at most that of every entry judged on plain distance, and less than any entry's plus `1/1024` |
| Matcher.ScanNearest | pam.c:33-46 | the distance kept is no greater than entry 0's, no greater than that of any entry judged on plain distance, and less than any entry's plus `1/1024` |
| Matcher.ScanFirst | pam.c:36-44 | every earlier entry judged on plain distance is strictly farther than the chosen one, so ties keep the earlier index |
| Matcher.PlainArgMin | pam.c:30-46 | for a colour that is not opaque the result is the lowest index at the least distance |
| Matcher.AcceptIff | pam.c:36-44 | an entry replaces the current best exactly when it is strictly nearer and, if the colour is opaque and the entry translucent, nearer by at least `1/1024`; otherwise the earlier choice stands |
| Matcher.TranslucentWinsByMargin | pam.c:39-40 | when an opaque colour ends on a translucent entry, that entry is at least `1/1024` nearer than every earlier opaque entry |
| Matcher.FreshColormapPicksFirst | pam.c:182-188 | on a fresh palette every entry is equally far, so entry 0 is chosen |
| Matcher.ScanPrefix | pam.c:33 | the scan over `n` entries reads only the first `n` |

## Left out

- Memory management is not modelled: `mempool`, `malloc`/`calloc`/`free`, `pam_freeacolorhash`, `pam_freeacolorhist` and `pam_freecolormap`. Allocation sizes are not modelled either, including line 152, which sizes the `hist` struct by its pointer.
- Floats are reals. Rounding in `0.5 + importance`, in the weight sums and in the distance comparison is not modelled, and neither is narrowing `gamma` from double to float.
- `to_f` and `colordifference` are not part of this model. They are parameters.
- Byte order: `Posterize.Pack` uses the little-endian layout of `rgb_as_long`. On a big-endian machine only the bucket of a key, and so the order of the histogram, would differ.
- `best_color_index` with a NULL `dist_out`: the method always returns the distance.
- `Matcher.BestColorIndex`: requires at least one palette entry. The C code reads entry 0 unconditionally.
- `Histogram.ToHist`: requires `hist_size` to equal the number of nodes. The C code writes one entry per node without a bounds check, and its only caller passes the counter, which `ColorHash.ScanCorrect` proves equal.
- `Histogram.ComputeAcolorHist`: requires `0 <= ignorebits < 32` (the parameter is a `nat`). Shifting by a negative amount or by 32 or more is undefined in C. The importance map must cover every visited pixel, and the image must have the visited rows and columns.
- `Palette.NewColormap`: takes a `nat`. A negative count is an invalid `calloc` argument in C.
- The 32-bit `int` counters (`colors`, `hist_size`) are unbounded integers here. The counter could overflow only when `maxacolors` is `INT_MAX` and an image has more than `INT_MAX` distinct colours.
- The scan runs over the image's pixels as one row-major sequence (`Histogram.Pixels`; `Histogram.PixelsRowMajor` relates it to the two loops), not as two nested loops.
- `ColorHash.AllocTable`: the buckets of a new table are empty. This relies on the memory `mempool_new` returns being zero-filled; the arena is not part of this model.
- The remaining fields of `colormap_item` and `hist_item` from `pam.h` take no part in this code and are left out.
