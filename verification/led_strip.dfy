/** The LED strip as the LED manager sees it: a global brightness and one
    colour per pixel.  The driver's `led_strip_fill` and `led_strip_flush`
    become pure writes on this record; a flush publishes a snapshot of the
    strip as one frame. */
module LedStrip {
  import opened Common

  /** `rgb_t`: one 8-bit value per channel. */
  datatype Rgb = Rgb(r: uint8, g: uint8, b: uint8)

  const Off := Rgb(0, 0, 0)

  /** `led_strip_t`, reduced to what the LED manager reads and writes. */
  datatype Strip = Strip(brightness: uint8, pixels: seq<Rgb>)
  {
    /** `strip.length` */
    function Length(): nat { |pixels| }

    /** Every pixel in `[0, Length())` shows `c`. */
    predicate ShowsColor(c: Rgb) {
      forall k :: 0 <= k < |pixels| ==> pixels[k] == c
    }
  }

  /** `led_strip_fill(strip, start, len, color)`: paints the pixels
      `[start, start + len)` and leaves every other pixel and the
      brightness alone.  The driver refuses a zero or out-of-range length;
      the model covers in-range calls only, which is every call the LED
      manager makes. */
  function Fill(s: Strip, start: nat, len: nat, c: Rgb): (r: Strip)
    requires start + len <= |s.pixels|
    ensures r.brightness == s.brightness
    ensures |r.pixels| == |s.pixels|
    ensures forall k :: 0 <= k < |s.pixels| ==>
              r.pixels[k] == (if start <= k < start + len then c else s.pixels[k])
  {
    Strip(s.brightness, seq(|s.pixels|, k requires 0 <= k < |s.pixels| =>
                                    if start <= k < start + len then c else s.pixels[k]))
  }
}
