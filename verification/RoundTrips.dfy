/**
  What the codec is for: compressing and encoding pixels and getting them back.
 */
module RoundTrips {
  import opened Options
  import opened Bits
  import opened Adam7
  import opened ScanlineImage
  import opened Scanlines
  import InflateSpec
  import Deflate
  import Inflate

  /** Inflating what was deflated gives the data back. */
  method DeflateAndInflate(data: seq<byte>, settings: Deflate.Settings, ignoreNlen: bool)
    returns (out: seq<byte>, error: nat)
    requires settings.btype == 1 ==> data != []
    ensures Deflate.DeflateError(settings) != 0 ==> error == Deflate.DeflateError(settings)
    ensures Deflate.DeflateError(settings) == 0 ==>
              if settings.btype == 0 && data == [] then error == 52 else error == 0 && out == data
  {
    hide InflateSpec.InflateBlocks;
    var compressed;
    compressed, error := Deflate.DeflateV(data, settings);
    out := [];
    if error == 0 {
      ghost var r := InflateSpec.Inflated(compressed, ignoreNlen);
      out, error := Inflate.InflateV([], compressed, ignoreNlen);
    }
  }

  /**
    An image goes through filtering, interlacing and compression, and back, with every
    bit of its pixels kept, for every strategy and setting that is accepted at all; only
    invalid predefined filter types make it impossible to decode.
   */
  method EncodeAndDecode(image: array<byte>, w: nat, h: nat, color: ColorMode, interlaced: bool, settings: FilterSettings,
                         ignoreNlen: bool)
    returns (decoded: array<byte>, error: nat)
    requires w > 0 && h > 0 && ColorOk(color) && Units(w, h, Bpp(color)) <= 8 * image.Length
    requires settings.strategy == LFS_PREDEFINED ==> h <= |settings.predefined|
    ensures FilterError(color, settings) == 0 && Deflate.DeflateError(settings.zlib) == 0 ==>
              if AllTypesValid(color, settings, w, h, interlaced)
              then
                && error == 0 && Units(w, h, Bpp(color)) <= 8 * decoded.Length
                && Picture(decoded[..], w, h, Bpp(color)) == Picture(image[..], w, h, Bpp(color))
              else error == 36
  {
    hide Depicts, Undecodable, Units, FilterError, Bpp, AllTypesValid, ScanlinesSize, Deflate.DeflateError;
    var scanlines;
    error, scanlines := PreProcessScanlines(image, w, h, color, interlaced, settings);
    ScanlinesNotEmpty(w, h, Bpp(color), interlaced);
    decoded := new byte[image.Length];
    if error != 0 {
      return;
    }
    ghost var sent := scanlines[..];
    var data;
    data, error := DeflateAndInflate(scanlines[..], settings.zlib, ignoreNlen);
    if error != 0 {
      return;
    }
    var received := new byte[|data|](i requires 0 <= i < |data| => data[i]);
    assert received[..] == data == sent;
    if AllTypesValid(color, settings, w, h, interlaced) {
      PictureUnique(sent, w, h, Bpp(color), interlaced, Picture(image[..], w, h, Bpp(color)), Picture(image[..], w, h, Bpp(color)));
    }
    error := PostProcessScanlines(decoded, received, w, h, Bpp(color), interlaced);
    if error == 0 && AllTypesValid(color, settings, w, h, interlaced) {
      PictureUnique(sent, w, h, Bpp(color), interlaced, Picture(image[..], w, h, Bpp(color)), Picture(decoded[..], w, h, Bpp(color)));
    }
  }
}
