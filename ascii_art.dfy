/**
  The text-building part of `image_to_ascii`: each 8-bit grayscale intensity
  of the already resized image picks one glyph of a 12-character ramp ordered
  dark to light, and the glyph string is cut into lines of `new_width`
  characters joined with line breaks.
 */
module AsciiArt {
  import opened Text

  datatype Result<T> = Ok(value: T) | Err(error: Error)

  /** `range(0, n, 0)` raises `ValueError`: a zero line width cannot slice. */
  datatype Error = ZeroStep

  /** The glyph ramp, darkest first. */
  const Ramp: string := "@0#Oo*+~=-. "

  /** A grayscale ("L" mode) intensity. */
  predicate IsPixel(p: int) {
    0 <= p <= 255
  }

  predicate ValidPixels(pixels: seq<int>) {
    forall i :: 0 <= i < |pixels| ==> IsPixel(pixels[i])
  }

  /** The ramp slot of intensity `p`: `p` times the ramp length, divided by
      256 and rounded down, so `p * 12` lies in the slot's 256-wide bucket. */
  function RampIndex(p: int): (k: nat)
    requires IsPixel(p)
    ensures k < |Ramp|
    ensures k * 256 <= p * |Ramp| < (k + 1) * 256
  {
    p * |Ramp| / 256
  }

  /** The glyph of one pixel: always a ramp character, never a line break. */
  function Glyph(p: int): (c: char)
    requires IsPixel(p)
    ensures c in Ramp
    ensures c != '\n'
  {
    Ramp[RampIndex(p)]
  }

  /** `ascii_str`: one glyph per pixel, in the pixels' row-major order. */
  function GlyphString(pixels: seq<int>): (s: string)
    requires ValidPixels(pixels)
    ensures |s| == |pixels|
    ensures forall i :: 0 <= i < |pixels| ==> s[i] == Glyph(pixels[i])
  {
    if |pixels| == 0 then ""
    else [Glyph(pixels[0])] + GlyphString(pixels[1..])
  }

  /** The slices of `s` that begin at `start`, `start + w`, `start + 2w`, ...
      while still inside the text, each running `w` characters or up to the
      end of the text: there are slices exactly when `start` is inside the
      text; they are non-empty, at most `w` long, and all but the last are
      exactly `w` long. */
  function Slices(s: string, w: nat, start: nat): (lines: seq<string>)
    requires w > 0
    ensures lines == [] <==> start >= |s|
    ensures forall j :: 0 <= j < |lines| ==> 0 < |lines[j]| <= w
    ensures forall j :: 0 <= j < |lines| - 1 ==> |lines[j]| == w
    decreases |s| - start
  {
    if start >= |s| then []
    else
      var stop := if start + w <= |s| then start + w else |s|;
      var rest := Slices(s, w, start + w);
      assert forall j :: 1 <= j < |rest| + 1 ==> ([s[start..stop]] + rest)[j] == rest[j - 1];
      [s[start..stop]] + rest
  }

  /** Concatenated, the slices give back the text from `start` on. */
  lemma {:induction false} SlicesConcat(s: string, w: nat, start: nat)
    requires w > 0 && start <= |s|
    ensures Concat(Slices(s, w, start)) == s[start..]
    decreases |s| - start
  {
    if start < |s| {
      var stop := if start + w <= |s| then start + w else |s|;
      var lines, rest := Slices(s, w, start), Slices(s, w, start + w);
      assert lines[1..] == rest;
      if stop < |s| {
        SlicesConcat(s, w, start + w);
        assert s[start..stop] + s[stop..] == s[start..];
      }
    }
  }

  /** The last slice holds exactly what the full-width ones before it leave. */
  lemma {:induction false} SlicesLast(s: string, w: nat, start: nat)
    requires w > 0 && start < |s|
    ensures var lines := Slices(s, w, start);
      |lines[|lines| - 1]| == |s| - start - (|lines| - 1) * w
    decreases |s| - start
  {
    var lines, rest := Slices(s, w, start), Slices(s, w, start + w);
    assert lines[1..] == rest;
    if start + w < |s| {
      SlicesLast(s, w, start + w);
      var count := |rest|;
      assert lines[count] == rest[count - 1];
      assert count * w == (count - 1) * w + w;
    }
  }

  /** The list of lines `image_to_ascii` joins: `ceil(n / w)` slices of the
      `n`-character text that, concatenated, give it back. */
  function Lines(s: string, w: nat): (lines: seq<string>)
    requires w > 0
    ensures Concat(lines) == s
    ensures |lines| == (|s| + w - 1) / w
    ensures forall j :: 0 <= j < |lines| ==> 0 < |lines[j]| <= w
    ensures forall j :: 0 <= j < |lines| - 1 ==> |lines[j]| == w
  {
    assert s[0..] == s;
    SlicesConcat(s, w, 0);
    LineCount(s, w);
    Slices(s, w, 0)
  }

  /** The lines joined with line breaks: one break is inserted between each
      two neighbouring lines and nothing else is added. */
  function BreakIntoLines(s: string, w: nat): (art: string)
    requires w > 0
    ensures art == "" <==> s == ""
    ensures |s| > 0 ==> |art| == |s| + (|s| + w - 1) / w - 1
  {
    Join(Lines(s, w))
  }

  /** `image_to_ascii` from the grayscale pixel data on, for any `new_width`. */
  function ImageToAscii(pixels: seq<int>, newWidth: int): (r: Result<string>)
    requires ValidPixels(pixels)
    ensures r.Err? <==> newWidth == 0
    ensures newWidth < 0 ==> r == Ok("")
    ensures newWidth > 0 ==> r.Ok? && Strip(r.value) == GlyphString(pixels)
    ensures newWidth > 0 ==> forall i :: 0 <= i < |r.value| ==> r.value[i] == '\n' || r.value[i] in Ramp
    ensures newWidth > 0 ==> (r.value == "" <==> |pixels| == 0)
  {
    if newWidth == 0 then Err(ZeroStep)
    else if newWidth < 0 then Ok("")
    else
      ArtRoundTrip(pixels, newWidth);
      ArtAlphabet(pixels, newWidth);
      Ok(BreakIntoLines(GlyphString(pixels), newWidth))
  }

  // ---------------------------------------------------------------- the ramp

  /** No two ramp slots hold the same glyph. */
  lemma RampDistinct()
    ensures forall i, j :: 0 <= i < j < |Ramp| ==> Ramp[i] != Ramp[j]
  {
  }

  /** Intensity 0 is the darkest glyph `@`, intensity 255 the lightest, a space. */
  lemma Endpoints()
    ensures RampIndex(0) == 0 && Glyph(0) == '@'
    ensures RampIndex(255) == |Ramp| - 1 && Glyph(255) == ' '
  {
  }

  /** A brighter pixel never gets a darker glyph, and two pixels share a glyph
      exactly when they share a ramp slot. */
  lemma GlyphMonotone(p1: int, p2: int)
    requires IsPixel(p1) && IsPixel(p2) && p1 <= p2
    ensures RampIndex(p1) <= RampIndex(p2)
    ensures Glyph(p1) == Glyph(p2) <==> RampIndex(p1) == RampIndex(p2)
  {
    RampDistinct();
  }

  /** Every glyph of the ramp is the glyph of some intensity. */
  lemma EveryGlyphUsed(k: nat)
    requires k < |Ramp|
    ensures exists p :: IsPixel(p) && RampIndex(p) == k
  {
    var p := (k * 256 + 11) / 12;
    assert IsPixel(p);
    assert RampIndex(p) == k;
  }

  // --------------------------------------------------------------- the lines

  /** Multiplying by a positive width keeps strict order. */
  lemma MulCancel(x: int, y: int, w: int)
    requires w > 0 && x * w < y * w
    ensures x < y
  {
  }

  lemma DivUnique(a: int, w: int, q: int)
    requires w > 0 && q * w <= a < (q + 1) * w
    ensures a / w == q
  {
    var r, m := a / w, a % w;
    assert a == r * w + m && 0 <= m < w;
    assert (r + 1) * w == r * w + w;
    MulCancel(q, r + 1, w);
    MulCancel(r, q + 1, w);
  }

  /** There are `ceil(n / w)` lines for `n` glyphs. */
  lemma {:induction false} LineCount(s: string, w: nat)
    requires w > 0
    ensures |Slices(s, w, 0)| == (|s| + w - 1) / w
  {
    var n, count := |s|, |Slices(s, w, 0)|;
    if n > 0 {
      SlicesLast(s, w, 0);
    }
    if n == 0 {
      DivUnique(w - 1, w, 0);
    } else {
      var last := n - (count - 1) * w;
      assert 0 < last <= w;
      assert count * w <= n + w - 1 < (count + 1) * w;
      DivUnique(n + w - 1, w, count);
    }
  }

  /** A grid of `h` rows of `w` pixels gives exactly `h` lines of `w` glyphs. */
  lemma {:induction false} GridLines(s: string, w: nat, h: nat)
    requires w > 0 && |s| == w * h
    ensures |Lines(s, w)| == h
    ensures forall j :: 0 <= j < h ==> |Lines(s, w)[j]| == w
  {
    var count := |Lines(s, w)|;
    if h > 0 {
      SlicesLast(s, w, 0);
      GridCount(w, h, count);
    }
  }

  lemma GridCount(w: int, h: int, count: int)
    requires w > 0 && h > 0 && 0 < w * h - (count - 1) * w <= w
    ensures count == h
  {
    assert (count - 1) * w < h * w;
    MulCancel(count - 1, h, w);
  }

  // ----------------------------------------------------------- the art block

  /** Deleting the line breaks of the art gives back the glyph string, and the
      art is empty exactly when there are no pixels. */
  lemma ArtRoundTrip(pixels: seq<int>, w: nat)
    requires ValidPixels(pixels) && w > 0
    ensures Strip(BreakIntoLines(GlyphString(pixels), w)) == GlyphString(pixels)
    ensures BreakIntoLines(GlyphString(pixels), w) == "" <==> |pixels| == 0
  {
    var s := GlyphString(pixels);
    var lines := Lines(s, w);
    assert s[0..] == s;
    SlicesConcat(s, w, 0);
    ArtLinesFree(s, w, 0);
    StripJoin(lines);
  }

  /** Every character of the art is a ramp glyph or a line break. */
  lemma ArtAlphabet(pixels: seq<int>, w: nat)
    requires ValidPixels(pixels) && w > 0
    ensures var art := BreakIntoLines(GlyphString(pixels), w);
      forall i :: 0 <= i < |art| ==> art[i] == '\n' || art[i] in Ramp
  {
    var s := GlyphString(pixels);
    ArtRoundTrip(pixels, w);
    assert Over(s, Ramp);
    StripAlphabet(BreakIntoLines(s, w), Ramp);
  }

  /** The slices of a line-free text are line-free. */
  lemma {:induction false} ArtLinesFree(s: string, w: nat, start: nat)
    requires w > 0 && NoNewline(s)
    ensures EachNoNewline(Slices(s, w, start))
    decreases |s| - start
  {
    if start < |s| {
      var stop := if start + w <= |s| then start + w else |s|;
      var piece := s[start..stop];
      assert NoNewline(piece) by {
        forall i | 0 <= i < |piece| ensures piece[i] != '\n' {
          assert piece[i] == s[start + i];
        }
      }
      ArtLinesFree(s, w, start + w);
    }
  }

  /** Reading the art back line by line (`art.split("\n")`) gives exactly the
      slices: `ceil(n / w)` lines, each `w` glyphs long but the last, which
      holds the remaining `1..w` glyphs. */
  lemma ArtLines(pixels: seq<int>, w: nat)
    requires ValidPixels(pixels) && w > 0 && |pixels| > 0
    ensures var lines := Split(BreakIntoLines(GlyphString(pixels), w));
      && lines == Lines(GlyphString(pixels), w)
      && |lines| == (|pixels| + w - 1) / w
      && Concat(lines) == GlyphString(pixels)
      && (forall j :: 0 <= j < |lines| - 1 ==> |lines[j]| == w)
      && 0 < |lines[|lines| - 1]| <= w
  {
    var s := GlyphString(pixels);
    assert s[0..] == s;
    SlicesConcat(s, w, 0);
    ArtLinesFree(s, w, 0);
    SplitJoin(Lines(s, w));
    LineCount(s, w);
  }

  /** When the resized image is `w` by `h`, the art reads back as exactly `h`
      lines of `w` glyphs each. */
  lemma ArtGrid(pixels: seq<int>, w: nat, h: nat)
    requires ValidPixels(pixels) && w > 0 && h > 0 && |pixels| == w * h
    ensures var lines := Split(BreakIntoLines(GlyphString(pixels), w));
      |lines| == h && forall j :: 0 <= j < h ==> |lines[j]| == w
  {
    ArtLines(pixels, w);
    GridLines(GlyphString(pixels), w, h);
  }

  /** A 2 by 2 image, black row over white row, at width 2. */
  lemma TwoByTwo()
    ensures ImageToAscii([0, 0, 255, 255], 2) == Ok("@@\n  ")
  {
    var pixels := [0, 0, 255, 255];
    var s := GlyphString(pixels);
    assert s == "@@  " by {
      Endpoints();
      assert |s| == 4 && s[0] == '@' && s[1] == '@' && s[2] == ' ' && s[3] == ' ';
    }
    assert Lines(s, 2) == ["@@", "  "] by {
      assert Slices(s, 2, 4) == [];
      assert s[2..4] == "  " && s[0..2] == "@@";
      assert Slices(s, 2, 2) == ["  "];
    }
    assert BreakIntoLines(s, 2) == "@@\n  " by {
      assert Join(["  "]) == "  ";
      assert Join(["@@", "  "]) == "@@" + "\n" + "  ";
    }
  }
}
