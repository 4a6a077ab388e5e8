/** Float colours and palettes (`f_pixel`, `colormap_item`, `colormap`, and
    `pam_colormap` in pam.c).

    Floats are modelled as reals; the other fields of a palette entry that the
    quantiser keeps alongside the colour take no part in the code modelled here.
 */
module Palette {

  /** `f_pixel`: a colour in the quantiser's working space, alpha first. */
  datatype FPixel = FPixel(a: real, r: real, g: real, b: real)

  /** The colour of all channels zero, which `calloc` leaves in a new palette. */
  const Transparent: FPixel := FPixel(0.0, 0.0, 0.0, 0.0)

  /** A `colormap_item`: one palette entry. */
  datatype ColormapItem = ColormapItem(acolor: FPixel)

  /** A `colormap`: the entries and the count of entries in use. */
  datatype Colormap = Colormap(palette: seq<ColormapItem>, colors: int)

  /** `pam_colormap`: a palette of `colors` zero-filled entries. */
  function NewColormap(colors: nat): (map_: Colormap)
    ensures map_.colors == colors && |map_.palette| == colors
    ensures forall i :: 0 <= i < |map_.palette| ==> map_.palette[i].acolor == Transparent
  {
    Colormap(seq(colors, _ => ColormapItem(Transparent)), colors)
  }
}
