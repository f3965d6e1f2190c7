# ASCII art from a grayscale image — a Dafny model

This project models the text-building core of `image_to_ascii` in
`streamlit_app.py`, a small Streamlit tool that turns an uploaded picture into
ASCII art. The model starts from the image after it has been resized and
converted to 8-bit grayscale. The input is its pixel data in row-major order,
a `seq<int>` with every value in `0..255`, together with `new_width`.

- **Glyph mapping** (`AsciiArt.RampIndex`, `AsciiArt.Glyph`,
  `AsciiArt.GlyphString`): intensity `p` becomes `Ramp[p * 12 / 256]`. The ramp
  is `"@0#Oo*+~=-. "`, ordered dark to light. For `p >= 0`, Dafny's `/` agrees
  with Python's `//`.
- **Line breaking** (`AsciiArt.Slices`, `AsciiArt.Lines`,
  `AsciiArt.BreakIntoLines`): the glyph string is cut into the slices
  `s[i:i+w]` for `i` in `range(0, len(s), w)`. The slices are then joined with
  `"\n"`.
- **`image_to_ascii`** (`AsciiArt.ImageToAscii`): returns a `Result`.
  `new_width == 0` is the error `ZeroStep`, because Python's `range` rejects a
  zero step. A negative `new_width` gives the empty string, because the
  `range` is then empty.
- **Python string operations** (module `Text`): `"".join` (`Concat`),
  `"\n".join` (`Join`) and newline deletion (`Strip`). `str.split("\n")`
  (`Split`) is modelled too. It is the inverse used to read an art block back
  line by line.

## Model

| member | source | states |
|---|---|---|
| `AsciiArt.RampIndex` | streamlit_app.py:32 | the ramp index of every intensity in 0..255 is below 12, so indexing the ramp never fails; it is the slot `k` with `256k <= 12p < 256(k+1)` |
| `AsciiArt.Glyph` | streamlit_app.py:19-32 | every pixel's glyph is a ramp character and never a line break |
| `AsciiArt.GlyphString` | streamlit_app.py:31-32 | the glyph string has exactly one character per pixel; character `i` is the glyph of pixel `i`, in row-major order |
| `AsciiArt.Slices` | streamlit_app.py:36 | there are slices exactly when `start` is inside the text; every slice is non-empty and at most `w` long; all but the last are exactly `w` long |
| `AsciiArt.SlicesConcat` | streamlit_app.py:36 | concatenated, the slices give back the text from `start` on, with nothing lost, repeated or reordered |
| `AsciiArt.SlicesLast` | streamlit_app.py:36 | the last slice holds exactly the glyphs left after the full-width slices before it |
| `AsciiArt.Lines` | streamlit_app.py:36 | the slices the join receives: `ceil(n / w)` of them for `n` glyphs, non-empty, at most `w` long, all but the last exactly `w` long, and concatenated they give the text back; proved by `SlicesConcat` and `LineCount` |
| `AsciiArt.BreakIntoLines` | streamlit_app.py:35-37 | the joined art is empty exactly when the text is, and otherwise is the text plus `ceil(n / w) - 1` line breaks; its other properties are `ArtRoundTrip`, `ArtLines` and `ArtAlphabet` |
| `AsciiArt.ImageToAscii` | streamlit_app.py:30-39 | zero width is an error and only zero width is; negative width gives `""`; positive width gives text whose newline-free form is the glyph string, whose characters are ramp glyphs or line breaks, and which is empty exactly when there are no pixels |
| `AsciiArt.RampDistinct` | streamlit_app.py:19 | the twelve ramp characters are pairwise distinct |
| `AsciiArt.Endpoints` | streamlit_app.py:18-19 | intensity 0 maps to slot 0, `'@'` (darkest); intensity 255 maps to slot 11, `' '` (lightest) |
| `AsciiArt.GlyphMonotone` | streamlit_app.py:32 | a brighter pixel never gets a darker ramp slot; two pixels get the same glyph exactly when they fall in the same slot |
| `AsciiArt.EveryGlyphUsed` | streamlit_app.py:32 | every one of the twelve ramp slots is reached by some intensity in 0..255 |
| `AsciiArt.LineCount` | streamlit_app.py:35-37 | `n` glyphs give `ceil(n / w)` lines |
| `AsciiArt.GridLines` | streamlit_app.py:25-37 | `w * h` glyphs give exactly `h` lines, each exactly `w` long |
| `AsciiArt.ArtRoundTrip` | streamlit_app.py:32-37 | deleting every line break from the art gives back the glyph string exactly; the art is empty exactly when there are no pixels |
| `AsciiArt.ArtAlphabet` | streamlit_app.py:19-37 | every character of the art is a ramp glyph or `'\n'` |
| `AsciiArt.ArtLines` | streamlit_app.py:35-37 | for at least one pixel, the art split at `'\n'` gives back exactly the slices: `ceil(n / w)` lines, all `w` long except the last, which holds 1 to `w` glyphs |
| `AsciiArt.ArtGrid` | streamlit_app.py:25-37 | for a `w`-by-`h` pixel grid with `h >= 1`, the art has exactly `h` lines of exactly `w` glyphs each |
| `AsciiArt.TwoByTwo` | streamlit_app.py:32-37 | pixels `[0, 0, 255, 255]` at width 2 give `"@@\n  "` |
| `Text.Join` | streamlit_app.py:35 | Python's `"\n".join`: the body gives its meaning (no pieces give `""`, one piece gives itself, otherwise the pieces with one break between neighbours); the contract states the length, the pieces' characters plus one break fewer than there are pieces, and that the text starts with the first piece; its inverse is stated by `StripJoin`, `SplitJoin` and `JoinSplit` |
| `Text.StripJoin` | streamlit_app.py:35-37 | for line-free pieces, deleting the line breaks of `"\n".join(lines)` gives `"".join(lines)` |
| `Text.SplitJoin` | streamlit_app.py:35-37 | splitting `"\n".join(lines)` at `'\n'` gives back `lines`, for a non-empty list of line-free pieces |
| `Text.JoinSplit` | streamlit_app.py:35-37 | joining the pieces of `s.split("\n")` with `"\n"` gives back `s`, for every string |

## Left out

- Opening the upload with `Image.open` (line 49), and resizing, grayscale conversion and pixel access through PIL (`resize`, `convert("L")`, `getdata`, lines 25-31) are left out. They are calls into an image library that is not part of this model. Their result is the input pixel sequence, with every value in 0..255.
- The height computation `int(height / width * new_width * 0.55)` (lines 22-24) is left out, with its factor 0.55 and its truncation by `int(...)`. It is floating-point arithmetic. The grid lemmas take the height `h` as a given natural number, with `w * h` pixels.
- `AsciiArt.ImageToAscii` follows lines 32-37 alone for a negative `new_width`, so the result is `""`. In the program, the earlier `resize` call (not modelled) receives that width first.
- The default argument `new_width=100` (line 6) is not modelled: `AsciiArt.ImageToAscii` always takes the width explicitly. The only call, at line 55, passes 80, so no behaviour is lost.
- The Streamlit page is left out: the title, the file uploader, image display, subheaders, markdown output, and the fixed call with `new_width=80` (lines 42-61). It is UI plumbing.
- The clipboard button `st_copy_to_clipboard` (lines 3, 60) is left out. It is a foreign UI component.
