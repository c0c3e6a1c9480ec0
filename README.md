# ImageConversion in Dafny

A model of a small desktop image converter: a window where the user picks
image files and presses one of seven "Конвертировать в …" buttons. A
factory then creates the converter for that format, and the converter
re-encodes the image through an imaging library. The model covers the
logic around that call:

- **Format dispatch and output naming** (`image_converter.dfy`, module
  `ImageConverter`). There are seven factories (`JPGConverterFactory` …
  `WebPConverterFactory`) and seven converters. For each converter the model
  fixes the destination path (`output_path` plus a suffix), the encoder tag
  handed to the library's save routine, and how a library failure comes out.
  Six converters wrap the failure in a `RuntimeError` naming the source path.
  `JPGConverter` passes the library's exception through unchanged. The
  library call itself is an input, `LibraryCall = Saved | Raised(detail)`,
  and a successful call is recorded as a `WriteRequest(path, encoder)`.
- **The window** (`window.dfy`, module `Window`). Class `MainWindow` holds
  `selectedFile`, `outputFormat` and the enabled flag of each convert button,
  keyed as in the source's dictionary (`"PNG"`, `"JPEG"`, `"JPG"`, `"BMP"`,
  `"ICO"`, `"TIFF"`, `"WebP"`). Its methods `SelectImage`, `ResetSelection`
  and `ConvertImage` are proved against the pure state functions
  `AfterSelect` and `AfterReset` and the pure dispatch function `Dispatch`.
  The lemmas are stated about those functions.
- **The Python string operations the window relies on** (`text.dfy`, module
  `Text`): `str.split('.')`, `str.split()`, `str.upper()`.
- `wrappers.dfy` (module `Wrappers`) holds `Option`, used for Python's
  `None` and for an operation without a result.

Facts about the code that the model makes visible:

- The button keys are compared case-sensitively with upper-cased file
  extensions. No upper-cased string can equal `"WebP"`, so the WebP button is
  enabled after every selection, including a selection of `.webp` files
  (`WebPAlwaysEnabledAfterSelect`, `WebpSelection`).
- `JPGConverter` writes to `output_path + "jpg"`, with no dot.
- The path handed to a converter is the directory chosen in the dialog.
  The file therefore lands in the folder that holds that directory, named
  after it (`/a/b` → `/a/b.png`), not inside it (`OutputBesideDirectory`).
  The one exception is a directory path ending in `/`, such as the root
  `/`: its name is empty, so the file is a bare `.png` inside it
  (`OutputInsideWhenTrailingSlash`).
- Every button caption ends in a format name that has a factory. The
  "no factory" warning therefore cannot be triggered from the window's own
  buttons (`EveryButtonHasFactory`).

Three irregularities of the code itself, each modelled as written:

- Six converters append a dot and the extension; `JPGConverter`
  (core/image_converter.py:65) appends `"jpg"` with no dot.
- Six converters catch the library's exception and raise a `RuntimeError`
  naming the source path; `JPGConverter` has no `try` and lets it escape.
- The docstring of `select_image` (ui/window.py:71-75) says the buttons for
  formats that differ from the selected image are enabled. The WebP button
  is enabled even for `.webp` files, and a `.jpg` selection disables only
  JPG, not JPEG, because the comparison is on the button's dictionary key.
  The selected file is the first path while the buttons follow the
  majority, so a `.png` chosen before two `.jpg` files is selected with
  the PNG button still enabled (`SelectedFileOutvoted`).

Message texts are the source's own Russian strings.

## Model

| member | source | states |
|---|---|---|
| `ImageConverter.FormatName` | ui/window.py:116-128 | each format's identifier, as compared in `convert_image`, is a non-empty string of upper-case ASCII letters |
| `ImageConverter.FormatNameInjective` | ui/window.py:116-128 | distinct formats have distinct identifiers, so the branches of the if-chain are mutually exclusive |
| `ImageConverter.CreateConverter` | core/image_converter.py:12-51 | `create_converter` of each factory returns the converter of the factory's own format |
| `ImageConverter.CreateConverterIsBijective` | core/image_converter.py:12-51 | every converter is created by exactly one factory |
| `ImageConverter.EncoderTag` | core/image_converter.py:62-124 | the format string given to `save` is the converter's own format name up to letter case, except that the JPG converter gives "JPEG" |
| `ImageConverter.SharedEncoderOnlyForJpeg` | core/image_converter.py:62-124 | two different converters pass the same encoder tag to `save` exactly when they are JPG and JPEG (both "JPEG") |
| `ImageConverter.Suffix` | core/image_converter.py:62-124 | the text appended to `output_path` is the format name in lower case, after a dot for every converter but JPG, and contains no `/` |
| `ImageConverter.Destination` | core/image_converter.py:62-124 | JPEG, PNG, BMP, ICO, TIFF and WebP write to `output_path + "." +` their encoder tag in lower case; JPG writes to `output_path + "jpg"`, whose character after `output_path` is not a dot |
| `ImageConverter.DestinationsDistinct` | core/image_converter.py:62-124 | for one output path, no two converters write to the same file |
| `ImageConverter.WrappedMessage` | core/image_converter.py:73-74 | the `RuntimeError` message contains the source path (`None` rendered as "None") right after the fixed prefix and ends with the library's error text |
| `ImageConverter.Convert` | core/image_converter.py:61-124 | a write request exists iff the library succeeds, and it is (destination, encoder tag); on failure JPG yields the library error unchanged, every other converter a `RuntimeError` containing the source path and the library's text |
| `ImageConverter.ErrorTextKeepsDetail` | core/image_converter.py:61-124 | whatever the converter, a failure's text ends with the library's own text |
| `ImageConverter.WriteRequestIgnoresSource` | core/image_converter.py:61-124 | the write request does not depend on the source path; converters hold no state |
| `Text.Split` | ui/window.py:81 | `str.split('.')` always yields at least one piece, so `[-1]` is always defined |
| `Text.JoinSplit` | ui/window.py:81 | joining the pieces of `str.split(sep)` with `sep` gives back the string |
| `Text.SplitPartsLackSeparator` | ui/window.py:81 | no piece of `str.split(sep)` contains `sep` |
| `Text.LastPartIsTail` | ui/window.py:81 | `split('.')[-1]` is the tail of the path after its last dot, or the whole path when it has none |
| `Text.LastPartAfterSeparator` | ui/window.py:81 | the last piece of `a + "." + t` is `t` when `t` has no dot |
| `Text.LastPartUnique` | ui/window.py:81 | `split(sep)[-1]` is the only separator-free suffix that is the whole text or follows a separator |
| `Text.LastPartAppend` | ui/window.py:81 | appending separator-free text to a string extends the last piece of its split by that text |
| `Text.Words` | ui/window.py:109 | `str.split()` yields non-empty words without whitespace |
| `Text.WordsEmptyIffAllSpace` | ui/window.py:109 | `str.split()` yields no word exactly when the text is all whitespace |
| `Text.WordsOfTrailingWord` | ui/window.py:109 | a word preceded by whitespace (or nothing) and followed only by whitespace is appended to the words of the text before it |
| `Text.LastWord` | ui/window.py:109 | `split()[-1]` raises exactly when the text is all whitespace; otherwise it is a non-empty word without whitespace |
| `Text.LastWordSplitsText` | ui/window.py:109 | `split()[-1]` is `w` iff the text is `p + w + t` with `w` a word, `t` all whitespace and `p` empty or ending in whitespace |
| `Text.Upper` | ui/window.py:81 | an upper-cased string holds no lower-case ASCII letter and is at least as long as its input |
| `Text.UpperOfAscii` | ui/window.py:81 | on ASCII text `upper()` keeps the length and changes letter case only: lower-casing the result gives the lower-cased input |
| `Text.UpperIdempotent` | ui/window.py:81 | upper-casing twice equals upper-casing once |
| `Text.UpperNeverMixedCase` | ui/window.py:81-84 | an upper-cased string never equals a name with a lower-case ASCII letter (such as "WebP") |
| `Window.InferFormat` | ui/window.py:81 | the inferred format has no lower-case ASCII letter, and a path without a dot infers the whole path upper-cased |
| `Window.InferredFormats` | ui/window.py:81 | the comprehension yields one inferred format per chosen path, in the paths' order |
| `Window.InferFormatOfExtension` | ui/window.py:81 | the inferred format of `stem + "." + ext` is `ext` upper-cased |
| `Window.InferFormatOfSuffix` | ui/window.py:81 | a path that ends in a dot followed by a dot-free `ext` infers `ext` upper-cased |
| `Window.Count` | ui/window.py:82 | `list.count(x)` is the multiplicity of `x` in the list |
| `Window.MaxByCount` | ui/window.py:82 | `max(..., key=count)` returns a candidate whose count no other candidate exceeds |
| `Window.Majority` | ui/window.py:82 | the majority is `None` iff no file was chosen; otherwise it is one of the inferred formats with maximal count |
| `Window.MajorityOfStrictWinner` | ui/window.py:82 | a format that outnumbers every other one is the majority, whatever the tie-break |
| `Window.MajorityNeverWebP` | ui/window.py:81-84 | no selection has majority "WebP", the key of the WebP button (line 47) |
| `Window.OutputFormatOf` | ui/window.py:109 | the caption yields no format (Python raises `IndexError`) exactly when it is all whitespace; otherwise a non-empty name with no lower-case ASCII letter |
| `Window.FactoryFor` | ui/window.py:115-129 | a factory is found iff the name is the identifier of one of the seven formats, and it is that format's factory |
| `Window.EveryButtonHasFactory` | ui/window.py:109-129 | the last word of each button caption (lines 41-47), upper-cased, is the button's key upper-cased and selects the factory of that format |
| `Window.Dispatch` | ui/window.py:113-139 | no directory chosen: silent; otherwise a message box and never an escaping exception; a file is written iff the information box is shown, whose text names the format, and it is written with the encoder of the factory's converter; the warning names the format |
| `Window.DispatchOutcome` | ui/window.py:115-139 | with a directory chosen, exactly one message box: warning iff no factory; information iff a factory and the library succeeds, with the file written at the converter's destination; error otherwise, ending with the library's text; no exception escapes |
| `Window.OutputBesideDirectory` | ui/window.py:114-134 | the output path starts with the chosen directory, the next character is not `/`, and the file name is the directory's name followed by the converter's suffix, so for a directory not ending in `/` the file sits in the directory's parent folder |
| `Window.OutputInsideWhenTrailingSlash` | ui/window.py:114-134 | for a directory path ending in `/` the file name is the bare suffix, so the file lands inside that directory |
| `Window.Initial` | ui/window.py:50-67 | a new window has no selected file, no output format and every convert button disabled |
| `Window.AfterSelect` | ui/window.py:79-88 | a confirmed selection selects the first path (or `None`), keeps the output format and enables exactly the buttons whose key differs from the majority; a cancelled dialog changes nothing |
| `Window.EmptySelectionEnablesAll` | ui/window.py:82-88 | confirming no files selects `None` and enables every button |
| `Window.UniformSelection` | ui/window.py:81-87 | when all chosen files share one inferred format, exactly the button with that key is disabled |
| `Window.PngSelection` | ui/window.py:81-87 | choosing one or more files that all end in `.png` disables the PNG button and no other |
| `Window.WebpSelection` | ui/window.py:81-87 | choosing one or more files that all end in `.webp` disables no button |
| `Window.SelectedFileOutvoted` | ui/window.py:81-88 | choosing a `.png` file followed by two `.jpg` files selects the `.png` file while the PNG button stays enabled and the JPG button is disabled |
| `Window.WebPAlwaysEnabledAfterSelect` | ui/window.py:81-87 | the WebP button is enabled after every confirmed selection |
| `Window.AfterReset` | ui/window.py:95-97 | reset clears the selection, disables every button and keeps the output format |
| `Window.ResetProperties` | ui/window.py:91-97 | reset is idempotent and undoes any preceding selection |
| `Window.MainWindow.constructor` | ui/window.py:40-67 | the new window's state is the initial state: buttons created enabled are all disabled by the construction loop |
| `Window.MainWindow.SelectImage` | ui/window.py:70-88 | the new state is `AfterSelect` of the old state and the dialog's result |
| `Window.MainWindow.EnableAllBut` | ui/window.py:83-87 | the button loop leaves exactly the buttons whose key differs from the majority enabled and touches nothing else |
| `Window.MainWindow.ResetSelection` | ui/window.py:91-97 | the new state is `AfterReset` of the old state |
| `Window.MainWindow.ConvertImage` | ui/window.py:100-139 | no sender: nothing happens; a caption with no words: `IndexError` escapes and nothing changes; otherwise the output format becomes the caption's last word upper-cased and the message and file written are those of `Dispatch`; the selection and buttons never change |

## Left out

- Qt widgets, layout, sizes, signal wiring and modal dialogs are not modelled. Only their results are inputs: a `FileDialog` that was cancelled or returned paths, an optional directory, and the sender's caption. The message boxes become a `Notice`.
- The open dialog's name filter (`*.png *.jpg *.bmp *.jpeg *.webp`, ui/window.py:78) is not modelled. Any list of paths is allowed, so the lemmas also cover paths the filter would not offer.
- `Image.open` and `img.save` are foreign library calls and are not modelled. Their joint verdict is the input `LibraryCall`. Image content, codecs and file-system effects such as partial files live in the library and the OS.
- `ImageConverter.Convert` requires `LibraryAgrees`: the library cannot open `None`, so `Saved` is only a possible verdict for a real path. This reflects what the library does, not a demand on callers.
- The abstract base classes `ConverterFactory` and `ImageConverter` have no behaviour. The datatypes of factories and converters replace them.
- Window.Majority: ties are broken by first occurrence in the list. Python's `max` over a `set` breaks ties by the set's hash-seeded iteration order. The contract promises only some format of maximal count, which holds under any tie-break.
- Text.Upper: maps a–z and every character whose Python upper case is pure ASCII (ß, ı, ſ and the ligatures U+FB00–U+FB06). Other characters are kept as they are, whereas Python would change, for example, `é` to `É` or Cyrillic letters to their capitals. Comparisons of an upper-cased text with an ASCII name (the button keys and the format identifiers) agree with Python. Comparisons of inferred formats with each other do not always: `Window.Majority`, and so the button map of `Window.AfterSelect` and `Window.MainWindow.SelectImage`, can differ from Python when two chosen extensions differ only in the case of a non-ASCII letter (for `c.png`, `a.é`, `b.É` Python's majority is `É`, the model ties three formats and picks `PNG`). The dialog's name filter offers only the five ASCII extensions, so the gap needs a path typed past the filter.
- Window.MainWindow.ConvertImage: an `IndexError` from a caption without words is reported as `UncaughtIndexError`. What Qt does with an exception escaping a slot is not modelled. The directory dialog is assumed to return at least one path when confirmed, as Qt's directory mode does.
