/**
 * The conversion `main` performs once its arguments are read: reject a bitmap
 * that is not square and 1 bpp, fill the polar grid, and write the byte code
 * of the selected blade.
 */
module Converter {
  import opened Wrappers
  import opened Wiring
  import opened Bits
  import opened Sampler
  import opened SampleGrid
  import opened Packing
  import opened ByteCode
  import opened TextLayout

  /** The settings `main` fixes for a blade: 32 LEDs, 256 slices, no rotation, mirrored for the bottom blade. */
  function BladeConfig(blade: Blade): (cfg: Config)
    ensures cfg.numLEDs == NumLEDs && cfg.numSlices == NumSlices
    ensures cfg.rotation == 0 && (cfg.mirror <==> blade == Bottom)
  {
    Config(NumLEDs, NumSlices, Rotation(blade), Mirrored(blade))
  }

  /** `main` converts only square bitmaps of depth 1. */
  predicate Acceptable(img: Image) {
    img.width == img.height && img.depth == 1
  }

  /** The packed words `main` writes for an acceptable bitmap: one per slice of the filled grid. */
  function BladeWords(blade: Blade, polar: (int, int) -> Offset, img: Image): (ws: seq<bv32>)
    ensures |ws| == NumSlices
  {
    SliceWords(Grid(BladeConfig(blade), polar, img), LedOrder(blade), NumSlices)
  }

  /** The byte code `main` writes for a bitmap, or `None` when it rejects the bitmap and writes nothing. */
  function ConvertedText(blade: Blade, polar: (int, int) -> Offset, img: Image): (out: Option<string>)
    ensures out.Some? <==> Acceptable(img)
  {
    if !Acceptable(img) then None
    else Some(Serialize(BladeWords(blade, polar, img)))
  }

  /** The wiring table of a blade copied into an array, as `main` points `ledOrder` at a local array. */
  method WiringArray(blade: Blade) returns (ledOrder: array<int>)
    ensures fresh(ledOrder) && ledOrder[..] == LedOrder(blade)
  {
    var order := LedOrder(blade);
    ledOrder := new int[NumLEDs](i requires 0 <= i < NumLEDs => order[i]);
  }

  /**
   * `main` after argument parsing: returns `None` for a bitmap that is not
   * square and 1 bpp, and otherwise the text written to the output file.
   */
  method Convert(blade: Blade, polar: (int, int) -> Offset, img: Image) returns (output: Option<string>)
    ensures output.Some? <==> img.width == img.height && img.depth == 1
    ensures output == ConvertedText(blade, polar, img)
  {
    if img.width != img.height || img.depth != 1 {
      return None;
    }
    var ledOrder := WiringArray(blade);
    var cfg := BladeConfig(blade);
    var radpix := new RadialPixel[cfg.numLEDs * cfg.numSlices](_ => RadialPixel(0, 0, false));
    ghost var visits := FillGrid(cfg, polar, img, radpix);
    var text := MakeByteCode(radpix, ledOrder);
    output := Some(text);
  }

  /** The LED states of slice `j` of the filled grid are the sampled states of its LEDs. */
  lemma GridSliceLits(cfg: Config, polar: (int, int) -> Offset, img: Image, j: nat)
    requires cfg.numLEDs == NumLEDs && j < cfg.numSlices
    ensures NumLEDs * j + NumLEDs <= |Grid(cfg, polar, img)|
    ensures forall i :: 0 <= i < NumLEDs ==>
      SliceLits(Grid(cfg, polar, img), j)[i] == SampleLit(cfg, polar, img, i, j)
  {
    CellIndexInRange(NumLEDs, cfg.numSlices, NumLEDs - 1, j);
    forall i | 0 <= i < NumLEDs
      ensures SliceLits(Grid(cfg, polar, img), j)[i] == SampleLit(cfg, polar, img, i, j)
    {
      GridAt(cfg, polar, img, i, j);
    }
  }

  /**
   * End to end: bit `ledOrder[i]` of the word written for slice `j` is set iff
   * the pixel sampled for LED `i` at slice `j` is black, and no bit is set
   * that no lit LED is wired to.
   */
  lemma BladeWordBits(blade: Blade, polar: (int, int) -> Offset, img: Image, j: nat, i: nat, b: BitIndex)
    requires j < NumSlices && i < NumLEDs
    ensures BitSet(BladeWords(blade, polar, img)[j], Position(LedOrder(blade)[i]))
        <==> SampleLit(BladeConfig(blade), polar, img, i, j)
    ensures BitSet(BladeWords(blade, polar, img)[j], b)
        <==> exists k :: 0 <= k < NumLEDs && Position(LedOrder(blade)[k]) == b
                         && SampleLit(BladeConfig(blade), polar, img, k, j)
  {
    var cfg, order := BladeConfig(blade), LedOrder(blade);
    var grid := Grid(cfg, polar, img);
    GridSliceLits(cfg, polar, img, j);
    CellIndexInRange(NumLEDs, NumSlices, NumLEDs - 1, NumSlices - 1);
    SliceWordsAt(grid, order, NumSlices, j);
    SliceWordBits(grid, order, j, i, b);
  }

  /** End to end: the word of slice `j` can be read back from its place in the written text. */
  lemma ConvertedWordAt(blade: Blade, polar: (int, int) -> Offset, img: Image, j: nat)
    requires Acceptable(img) && j < NumSlices
    ensures WordOffset(j) + 20 <= |ConvertedText(blade, polar, img).value|
    ensures ParseWord(ConvertedText(blade, polar, img).value[WordOffset(j)..WordOffset(j) + 20])
         == Some(BladeWords(blade, polar, img)[j])
  {
    ParseWordAt(BladeWords(blade, polar, img), j);
  }

  /** Every word of an all-black bitmap is 0xFFFFFFFF: every LED is lit at every slice. */
  lemma AllBlackWords(blade: Blade, polar: (int, int) -> Offset, img: Image)
    requires forall x, y :: img.red(x, y) == 0
    ensures BladeWords(blade, polar, img) == seq(NumSlices, _ => 0xFFFF_FFFF as bv32)
  {
    var cfg, order := BladeConfig(blade), LedOrder(blade);
    var grid := Grid(cfg, polar, img);
    CellIndexInRange(NumLEDs, NumSlices, NumLEDs - 1, NumSlices - 1);
    forall j | 0 <= j < NumSlices
      ensures BladeWords(blade, polar, img)[j] == 0xFFFF_FFFF
    {
      GridSliceLits(cfg, polar, img, j);
      SliceWordsAt(grid, order, NumSlices, j);
      PackAllLit(SliceLits(grid, j), order);
    }
  }

  /** Every word of a bitmap without a black pixel is 0x00000000. */
  lemma AllWhiteWords(blade: Blade, polar: (int, int) -> Offset, img: Image)
    requires forall x, y :: img.red(x, y) != 0
    ensures BladeWords(blade, polar, img) == seq(NumSlices, _ => 0 as bv32)
  {
    var cfg, order := BladeConfig(blade), LedOrder(blade);
    var grid := Grid(cfg, polar, img);
    CellIndexInRange(NumLEDs, NumSlices, NumLEDs - 1, NumSlices - 1);
    forall j | 0 <= j < NumSlices
      ensures BladeWords(blade, polar, img)[j] == 0
    {
      GridSliceLits(cfg, polar, img, j);
      SliceWordsAt(grid, order, NumSlices, j);
      PackNoneLit(SliceLits(grid, j), order, NumLEDs);
    }
  }
}
