/** `encrypt_image` and `decrypt_image` on a `height x width` RGBA raster:
    flatten to `n = height * width` pixels in row-major order, run the pixel
    codec, reshape back to the original layout.
 */
module ImageCodec {
  import opened Rng
  import opened Arithmetic
  import Permutations
  import opened PixelCodec

  /** An image as loaded: `height` rows of `width` RGBA pixels. */
  datatype Raster = Raster(height: nat, width: nat, rows: seq<seq<Pixel>>)

  ghost predicate WellShaped(img: Raster)
  {
    |img.rows| == img.height && forall r :: 0 <= r < img.height ==> |img.rows[r]| == img.width
  }

  /** `arr.reshape((-1, ch))`: the rows laid end to end. */
  function Flatten(rows: seq<seq<Pixel>>): (flat: seq<Pixel>)
    ensures forall p :: p in flat ==> exists r :: 0 <= r < |rows| && p in rows[r]
  {
    if |rows| == 0 then []
    else
      var rest := Flatten(rows[1..]);
      assert forall p :: p in rest ==> exists r :: 1 <= r < |rows| && p in rows[r] by {
        forall p | p in rest ensures exists r :: 1 <= r < |rows| && p in rows[r] {
          var r' :| 0 <= r' < |rows[1..]| && p in rows[1..][r'];
          assert p in rows[r' + 1];
        }
      }
      rows[0] + rest
  }

  /** Row `r` of a row-major buffer with rows of `width` pixels. */
  function Row(flat: seq<Pixel>, width: nat, r: nat): (row: seq<Pixel>)
    requires r * width + width <= |flat|
    ensures |row| == width
  {
    flat[r * width .. r * width + width]
  }

  /** `flat.reshape((height, width, ch))`: row `r` is `flat[r*width .. (r+1)*width]`. */
  function Reshape(flat: seq<Pixel>, height: nat, width: nat): (img: Raster)
    requires |flat| == height * width
    ensures WellShaped(img) && img.height == height && img.width == width
  {
    Raster(height, width, seq(height, r requires 0 <= r < height =>
      RowInBounds(height, width, r);
      Row(flat, width, r)))
  }

  lemma {:induction false} FlattenLength(rows: seq<seq<Pixel>>, width: nat)
    requires forall r :: 0 <= r < |rows| ==> |rows[r]| == width
    ensures |Flatten(rows)| == |rows| * width
  {
    if |rows| > 0 {
      FlattenLength(rows[1..], width);
    }
  }

  /** Row-major order: pixel `(r, c)` is flat pixel `r * width + c`. */
  lemma {:induction false} FlattenAt(rows: seq<seq<Pixel>>, width: nat, r: nat, c: nat)
    requires forall k :: 0 <= k < |rows| ==> |rows[k]| == width
    requires r < |rows| && c < width
    ensures r * width + c < |Flatten(rows)| && Flatten(rows)[r * width + c] == rows[r][c]
  {
    FlattenLength(rows, width);
    MulMonotone(r + 1, |rows|, width);
    if r > 0 {
      FlattenAt(rows[1..], width, r - 1, c);
      assert r * width + c == width + ((r - 1) * width + c);
    }
  }

  /** Reshaping and flattening again gives back the flat buffer. */
  lemma FlattenReshape(flat: seq<Pixel>, height: nat, width: nat)
    requires |flat| == height * width
    ensures Flatten(Reshape(flat, height, width).rows) == flat
  {
    var rows := Reshape(flat, height, width).rows;
    FlattenLength(rows, width);
    forall k | 0 <= k < |flat| ensures Flatten(rows)[k] == flat[k] {
      var r, c := RowMajorIndex(k, height, width);
      FlattenAt(rows, width, r, c);
      RowInBounds(height, width, r);
      assert rows[r] == Row(flat, width, r);
    }
  }

  /** Flattening and reshaping again gives back the raster. */
  lemma ReshapeFlatten(img: Raster)
    requires WellShaped(img)
    ensures |Flatten(img.rows)| == img.height * img.width
    ensures Reshape(Flatten(img.rows), img.height, img.width) == img
  {
    var w := img.width;
    FlattenLength(img.rows, w);
    var back := Reshape(Flatten(img.rows), img.height, w);
    forall r | 0 <= r < img.height ensures back.rows[r] == img.rows[r] {
      RowInBounds(img.height, w, r);
      assert back.rows[r] == Row(Flatten(img.rows), w, r);
      forall c | 0 <= c < w ensures back.rows[r][c] == img.rows[r][c] {
        FlattenAt(img.rows, w, r, c);
      }
    }
  }

  /** The raster `encrypt_image` hands to the image writer. */
  function EncryptRaster(source: Source, seed: int, img: Raster): (out: Raster)
    requires WellShaped(img)
    ensures WellShaped(out) && out.height == img.height && out.width == img.width
  {
    FlattenLength(img.rows, img.width);
    Reshape(Encrypt(source, seed, Flatten(img.rows)), img.height, img.width)
  }

  /** The raster `decrypt_image` hands to the image writer, as written. */
  function DecryptRaster(source: Source, seed: int, img: Raster): (out: Raster)
    requires WellShaped(img)
    ensures WellShaped(out) && out.height == img.height && out.width == img.width
  {
    FlattenLength(img.rows, img.width);
    Reshape(Decrypt(source, seed, Flatten(img.rows)), img.height, img.width)
  }

  /** The raster the corrected decryption produces. */
  function DecryptRasterFixed(source: Source, seed: int, img: Raster): (out: Raster)
    requires WellShaped(img)
    ensures WellShaped(out) && out.height == img.height && out.width == img.width
  {
    FlattenLength(img.rows, img.width);
    Reshape(DecryptFixed(source, seed, Flatten(img.rows)), img.height, img.width)
  }

  /** Encrypting keeps the raster's shape and works on its row-major pixels. */
  lemma EncryptRasterPixels(source: Source, seed: int, img: Raster)
    requires WellShaped(img)
    ensures Flatten(EncryptRaster(source, seed, img).rows) == Encrypt(source, seed, Flatten(img.rows))
  {
    FlattenLength(img.rows, img.width);
    FlattenReshape(Encrypt(source, seed, Flatten(img.rows)), img.height, img.width);
  }

  /** As written, a raster survives the round trip when the permutation of its
      `height * width` pixels is an involution (always when it has at most two). */
  lemma RasterRoundTripUnderInvolution(source: Source, seed: int, img: Raster)
    requires WellShaped(img)
    requires img.height * img.width <= 2
          || Permutations.IsInvolution(Permutations.Permutation(source, img.height * img.width, seed))
    ensures DecryptRaster(source, seed, EncryptRaster(source, seed, img)) == img
  {
    var flat := Flatten(img.rows);
    FlattenLength(img.rows, img.width);
    EncryptRasterPixels(source, seed, img);
    if |flat| <= 2 {
      RoundTripSmallImages(source, seed, flat);
    } else {
      RoundTripUnderInvolution(source, seed, flat);
    }
    ReshapeFlatten(img);
  }

  /** With the corrected decryption every raster survives the round trip. */
  lemma RasterRoundTripFixed(source: Source, seed: int, img: Raster)
    requires WellShaped(img)
    ensures DecryptRasterFixed(source, seed, EncryptRaster(source, seed, img)) == img
  {
    var flat := Flatten(img.rows);
    FlattenLength(img.rows, img.width);
    EncryptRasterPixels(source, seed, img);
    DecryptFixedRoundTrip(source, seed, flat);
    ReshapeFlatten(img);
  }

  /** `encrypt_image` without the file I/O. */
  method EncryptImage(source: Source, seed: int, img: Raster) returns (out: Raster)
    requires WellShaped(img)
    ensures out == EncryptRaster(source, seed, img)
    ensures WellShaped(out) && out.height == img.height && out.width == img.width
  {
    var h, w := img.height, img.width;
    var pixels := Flatten(img.rows);
    FlattenLength(img.rows, w);
    var permuted := EncryptPixels(source, seed, pixels);
    out := Reshape(permuted, h, w);
  }

  /** `decrypt_image` without the file I/O, as written. */
  method DecryptImage(source: Source, seed: int, img: Raster) returns (out: Raster)
    requires WellShaped(img)
    ensures out == DecryptRaster(source, seed, img)
    ensures WellShaped(out) && out.height == img.height && out.width == img.width
  {
    var h, w := img.height, img.width;
    var pixels := Flatten(img.rows);
    FlattenLength(img.rows, w);
    var original := DecryptPixels(source, seed, pixels);
    out := Reshape(original, h, w);
  }
}
