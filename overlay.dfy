/**
 * The mask overlay: an RGBA buffer the size of the image in which a pixel
 * counts as selected when its alpha byte is above zero. Both current tools
 * merge a binary selection into it (Add paints, Subtract clears alpha); the
 * earlier editor replaced the whole buffer instead.
 */
module Overlay {
  import opened Wrappers
  import opened Raster

  /** The RGBA written over a selected pixel in Add mode. */
  const ADD_RGBA: seq<byte> := [255, 0, 0, 150]

  /** The RGBA the earlier editor writes over a selected pixel. */
  const REPLACE_RGBA: seq<byte> := [255, 0, 0, 128]

  /** Add mode is the string "add" or a falsy mode (absent or ""). Any
      other string, including "ADD", selects Subtract. */
  predicate IsAddMode(mode: Option<string>): (b: bool)
    ensures mode == None ==> b
    ensures mode == Some("add") ==> b
    ensures mode == Some("subtract") ==> !b
    ensures mode == Some("ADD") ==> !b
  {
    mode == None || mode == Some("") || mode == Some("add")
  }

  /** Pixel `i` of an overlay is selected when its alpha is above zero. */
  predicate Selected(overlay: seq<byte>, i: int)
    requires 0 <= i && 4 * i + 3 < |overlay|
  {
    overlay[4 * i + 3] > 0
  }

  /** Byte `channel` of a pixel after merging: untouched when the pixel is
      not in the selection; otherwise the Add colour, or alpha cleared. */
  function MergedByte(before: byte, selected: bool, add: bool, channel: int): byte
    requires 0 <= channel < 4
  {
    if !selected then before
    else if add then ADD_RGBA[channel]
    else if channel == 3 then 0
    else before
  }

  /** The overlay after merging `mask` into it in Add (`add`) or Subtract mode. */
  function Merge(overlay: seq<byte>, mask: seq<bool>, add: bool): (r: seq<byte>)
    requires |overlay| == 4 * |mask|
    ensures |r| == |overlay|
    ensures forall k :: 0 <= k < |r| && !mask[k / 4] ==> r[k] == overlay[k]
    ensures forall k :: 0 <= k < |r| && mask[k / 4] && k % 4 == 3 ==> (r[k] > 0 <==> add)
  {
    seq(|overlay|, k requires 0 <= k < |overlay| => MergedByte(overlay[k], mask[k / 4], add, k % 4))
  }

  /** What merging does to each pixel, byte by byte: Add writes
      (255, 0, 0, 150), Subtract zeroes alpha and keeps the colour, and a
      pixel outside the selection keeps all four bytes. */
  lemma MergePixel(overlay: seq<byte>, mask: seq<bool>, add: bool, i: int)
    requires |overlay| == 4 * |mask| && 0 <= i < |mask|
    ensures var r := Merge(overlay, mask, add);
      && (mask[i] && add ==> r[4 * i .. 4 * i + 4] == ADD_RGBA)
      && (mask[i] && !add ==> r[4 * i .. 4 * i + 3] == overlay[4 * i .. 4 * i + 3] && r[4 * i + 3] == 0)
      && (!mask[i] ==> r[4 * i .. 4 * i + 4] == overlay[4 * i .. 4 * i + 4])
  {
    MergeBytes(overlay, mask, add, i);
  }

  /** The four bytes of pixel `i` after merging, one by one. */
  lemma MergeBytes(overlay: seq<byte>, mask: seq<bool>, add: bool, i: int)
    requires |overlay| == 4 * |mask| && 0 <= i < |mask|
    ensures forall k :: 4 * i <= k < 4 * i + 4 ==>
      Merge(overlay, mask, add)[k] == MergedByte(overlay[k], mask[i], add, k - 4 * i)
  {
    forall k | 4 * i <= k < 4 * i + 4
      ensures Merge(overlay, mask, add)[k] == MergedByte(overlay[k], mask[i], add, k - 4 * i)
    {
      assert k / 4 == i && k % 4 == k - 4 * i;
    }
  }

  /** Writes pixel `i` of a merge in place: in Add mode a selected pixel
      becomes (255, 0, 0, 150), in Subtract mode its alpha becomes 0, and
      an unselected pixel is not touched. With the pixels before `i`
      already merged, the pixels up to and including `i` are. */
  method MergePixelInto(overlay: array<byte>, ghost before: seq<byte>, mask: seq<bool>, add: bool, i: int)
    requires overlay.Length == |before| == 4 * |mask| && 0 <= i < |mask|
    requires forall k :: 0 <= k < overlay.Length ==>
      overlay[k] == if k < 4 * i then Merge(before, mask, add)[k] else before[k]
    modifies overlay
    ensures forall k :: 0 <= k < overlay.Length ==>
      overlay[k] == if k < 4 * i + 4 then Merge(before, mask, add)[k] else before[k]
  {
    MergeBytes(before, mask, add, i);
    if mask[i] {
      var dataPos := i * 4;
      if add {
        overlay[dataPos] := 255;
        overlay[dataPos + 1] := 0;
        overlay[dataPos + 2] := 0;
        overlay[dataPos + 3] := 150;
      } else {
        overlay[dataPos + 3] := 0;
      }
    }
  }

  /** In terms of the selection: merging selects every pixel of the mask in
      Add mode, deselects it in Subtract mode, and leaves every other pixel
      as it was. */
  lemma MergeSelection(bytes: seq<byte>, mask: seq<bool>, add: bool)
    requires |bytes| == 4 * |mask|
    ensures forall i :: 0 <= i < |mask| ==>
      Selected(Merge(bytes, mask, add), i) == if mask[i] then add else Selected(bytes, i)
  {
    forall i | 0 <= i < |mask|
      ensures Selected(Merge(bytes, mask, add), i) == if mask[i] then add else Selected(bytes, i)
    {
      assert (4 * i + 3) / 4 == i && (4 * i + 3) % 4 == 3;
    }
  }

  /** Merging the same selection twice in the same mode is merging it once. */
  lemma MergeIdempotent(overlay: seq<byte>, mask: seq<bool>, add: bool)
    requires |overlay| == 4 * |mask|
    ensures Merge(Merge(overlay, mask, add), mask, add) == Merge(overlay, mask, add)
  {
    var once := Merge(overlay, mask, add);
    var twice := Merge(once, mask, add);
    forall k | 0 <= k < |overlay|
      ensures twice[k] == once[k]
    {
    }
  }

  /** Subtracting a selection right after adding it leaves every pixel of
      the selection unselected, whatever the overlay held before, and every
      other pixel untouched. */
  lemma AddThenSubtract(overlay: seq<byte>, mask: seq<bool>)
    requires |overlay| == 4 * |mask|
    ensures var r := Merge(Merge(overlay, mask, true), mask, false);
      forall i :: 0 <= i < |mask| ==>
        && (mask[i] ==> !Selected(r, i) && r[4 * i .. 4 * i + 3] == ADD_RGBA[..3])
        && (!mask[i] ==> r[4 * i .. 4 * i + 4] == overlay[4 * i .. 4 * i + 4])
  {
    var added := Merge(overlay, mask, true);
    var r := Merge(added, mask, false);
    forall i | 0 <= i < |mask|
      ensures mask[i] ==> !Selected(r, i) && r[4 * i .. 4 * i + 3] == ADD_RGBA[..3]
      ensures !mask[i] ==> r[4 * i .. 4 * i + 4] == overlay[4 * i .. 4 * i + 4]
    {
      MergePixel(overlay, mask, true, i);
      MergePixel(added, mask, false, i);
      assert (4 * i + 3) / 4 == i && (4 * i + 3) % 4 == 3;
    }
  }

  /** Subtracting from an overlay that selects nothing leaves it selecting
      nothing. */
  lemma SubtractKeepsEmpty(overlay: seq<byte>, mask: seq<bool>)
    requires |overlay| == 4 * |mask|
    requires forall i :: 0 <= i < |mask| ==> !Selected(overlay, i)
    ensures forall i :: 0 <= i < |mask| ==> !Selected(Merge(overlay, mask, false), i)
  {
    MergeSelection(overlay, mask, false);
  }

  /** The buffer the earlier editor builds: a fresh zeroed RGBA buffer with
      (255, 0, 0, 128) written over every selected pixel. */
  function Replaced(mask: seq<bool>): (r: seq<byte>)
    ensures |r| == 4 * |mask|
    ensures forall k :: 0 <= k < |r| && !mask[k / 4] ==> r[k] == 0
    ensures forall k :: 0 <= k < |r| && k % 4 == 3 ==> (r[k] > 0 <==> mask[k / 4])
  {
    seq(4 * |mask|, k requires 0 <= k < 4 * |mask| => if mask[k / 4] then REPLACE_RGBA[k % 4] else 0)
  }

  /** After replacement the selection is exactly the mask, every selected
      pixel reads (255, 0, 0, 128) and every other pixel is all zero: nothing
      of the previous overlay survives. */
  lemma ReplacedSelection(mask: seq<bool>)
    ensures forall i :: 0 <= i < |mask| ==> Selected(Replaced(mask), i) == mask[i]
    ensures forall i :: 0 <= i < |mask| ==>
      Replaced(mask)[4 * i .. 4 * i + 4] == if mask[i] then REPLACE_RGBA else [0, 0, 0, 0]
  {
    var r := Replaced(mask);
    forall i | 0 <= i < |mask|
      ensures Selected(r, i) == mask[i]
      ensures r[4 * i .. 4 * i + 4] == if mask[i] then REPLACE_RGBA else [0, 0, 0, 0]
    {
      ReplacedBytes(mask, i);
    }
  }

  /** The four bytes of pixel `i` after replacement, one by one. */
  lemma ReplacedBytes(mask: seq<bool>, i: int)
    requires 0 <= i < |mask|
    ensures forall k :: 4 * i <= k < 4 * i + 4 ==>
      Replaced(mask)[k] == if mask[i] then REPLACE_RGBA[k - 4 * i] else 0
  {
    forall k | 4 * i <= k < 4 * i + 4
      ensures Replaced(mask)[k] == if mask[i] then REPLACE_RGBA[k - 4 * i] else 0
    {
      assert k / 4 == i && k % 4 == k - 4 * i;
    }
  }
}
