/**
 The main window: which file is selected, which target format was last
 requested, and which of the seven convert buttons are enabled.

 Widgets, layout and dialogs are not modelled. A file dialog is reduced
 to its result (`FileDialog`), the directory dialog to the chosen
 directory or `None`, the button that fired a slot to its text, and the
 message boxes to the `Notice` a slot ends with.
 */
module Window {
  import opened Wrappers
  import opened Text
  import opened ImageConverter

  // ---------------------------------------------------------------------------
  // Buttons
  // ---------------------------------------------------------------------------

  /** Keys of `convert_buttons`, in dictionary order. The last key is
      mixed-case, unlike every inferred format. */
  const ButtonKeys: seq<string> := ["PNG", "JPEG", "JPG", "BMP", "ICO", "TIFF", "WebP"]

  function ButtonKeySet(): set<string>
  {
    set k | k in ButtonKeys
  }

  /** The caption of the button stored under `key`. */
  function ButtonText(key: string): string
  {
    "Конвертировать в " + key
  }

  /** Every convert button with the same enabled flag. */
  function AllButtons(on: bool): (buttons: map<string, bool>)
  {
    map k | k in ButtonKeys :: on
  }

  /** Enabled flags after a selection: a button is enabled exactly when
      its key differs from the majority format. */
  function ButtonsFor(majority: Option<string>): (buttons: map<string, bool>)
  {
    map k | k in ButtonKeys :: Some(k) != majority
  }

  // ---------------------------------------------------------------------------
  // Format inference and majority
  // ---------------------------------------------------------------------------

  /** `path.split('.')[-1].upper()`: the text after the last dot (the whole
      path when it has none), upper-cased. */
  function InferFormat(path: string): (fmt: string)
    ensures forall i :: 0 <= i < |fmt| ==> !IsAsciiLower(fmt[i])
    ensures '.' !in path ==> fmt == Upper(path)
  {
    LastPartIsTail(path, '.');
    Upper(LastPart(path, '.'))
  }

  /** The inferred format of a path is its extension, upper-cased. */
  lemma InferFormatOfExtension(stem: string, ext: string)
    requires '.' !in ext
    ensures InferFormat(stem + "." + ext) == Upper(ext)
  {
    LastPartAfterSeparator(stem, '.', ext);
  }

  /** A path ending in a dot and a dot-free extension infers that
      extension, upper-cased. */
  lemma InferFormatOfSuffix(path: string, ext: string)
    requires EndsWith(path, "." + ext) && '.' !in ext
    ensures InferFormat(path) == Upper(ext)
  {
    var stem := path[..|path| - |ext| - 1];
    assert path == stem + "." + ext;
    InferFormatOfExtension(stem, ext);
  }

  /** The list comprehension over the chosen paths: one inferred format per
      path, in the order of the paths. */
  function InferredFormats(paths: seq<string>): (formats: seq<string>)
    ensures |formats| == |paths|
    ensures forall i :: 0 <= i < |paths| ==> formats[i] == InferFormat(paths[i])
  {
    seq(|paths|, i requires 0 <= i < |paths| => InferFormat(paths[i]))
  }

  /** `xs.count(x)`. */
  function Count(xs: seq<string>, x: string): (n: nat)
    ensures n == multiset(xs)[x]
    decreases |xs|
  {
    if xs == [] then 0
    else
      assert xs == [xs[0]] + xs[1..];
      (if xs[0] == x then 1 else 0) + Count(xs[1..], x)
  }

  /** `max(candidates, key=xs.count)`: the first candidate whose count is
      largest. */
  function MaxByCount(candidates: seq<string>, xs: seq<string>): (m: string)
    requires candidates != []
    ensures m in candidates
    ensures forall c :: c in candidates ==> Count(xs, c) <= Count(xs, m)
    decreases |candidates|
  {
    if |candidates| == 1 then candidates[0]
    else
      var best := MaxByCount(candidates[1..], xs);
      if Count(xs, best) > Count(xs, candidates[0]) then best else candidates[0]
  }

  /** The majority format of a selection, `None` for an empty one. */
  function Majority(formats: seq<string>): (m: Option<string>)
    ensures m.None? <==> formats == []
    ensures m.Some? ==> m.value in formats
    ensures m.Some? ==> forall f :: f in formats ==> Count(formats, f) <= Count(formats, m.value)
  {
    if formats == [] then None else Some(MaxByCount(formats, formats))
  }

  /** A format that outnumbers every other one is the majority, whatever
      the tie-break. */
  lemma MajorityOfStrictWinner(formats: seq<string>, w: string)
    requires w in formats
    requires forall f :: f in formats && f != w ==> Count(formats, f) < Count(formats, w)
    ensures Majority(formats) == Some(w)
  {
  }

  /** No selection ever has "WebP" as its majority format. */
  lemma MajorityNeverWebP(paths: seq<string>)
    ensures Majority(InferredFormats(paths)) != Some("WebP")
  {
    var formats := InferredFormats(paths);
    if formats != [] {
      var m := Majority(formats).value;
      var i :| 0 <= i < |formats| && formats[i] == m;
      assert m == InferFormat(paths[i]) && IsAsciiLower("WebP"[1]);
    }
  }

  // ---------------------------------------------------------------------------
  // Dispatch
  // ---------------------------------------------------------------------------

  /** `sender.text().split()[-1].upper()`, or `None` where Python raises
      `IndexError` (a text with no words). */
  function OutputFormatOf(text: string): (fmt: Option<string>)
    ensures fmt.None? <==> AllSpace(text)
    ensures fmt.Some? ==> fmt.value != [] && forall i :: 0 <= i < |fmt.value| ==> !IsAsciiLower(fmt.value[i])
  {
    match LastWord(text)
    case None => None
    case Some(word) => Some(Upper(word))
  }

  /** The if-chain of `convert_image`: the factory for a format name. */
  function FactoryFor(name: string): (f: Option<ConverterFactory>)
    ensures f.Some? ==> FormatName(FactoryFormat(f.value)) == name
    ensures f.None? ==> forall g: Format :: FormatName(g) != name
  {
    if name == "JPEG" then Some(JPEGConverterFactory)
    else if name == "JPG" then Some(JPGConverterFactory)
    else if name == "PNG" then Some(PNGConverterFactory)
    else if name == "BMP" then Some(BMPConverterFactory)
    else if name == "ICO" then Some(ICOConverterFactory)
    else if name == "TIFF" then Some(TIFFConverterFactory)
    else if name == "WEBP" then Some(WebPConverterFactory)
    else None
  }

  /** Each of the window's own buttons yields a format name that has a
      factory, so the "no factory" warning cannot come from them. */
  lemma EveryButtonHasFactory(key: string)
    requires key in ButtonKeys
    ensures OutputFormatOf(ButtonText(key)) == Some(Upper(key))
    ensures FactoryFor(Upper(key)).Some?
    ensures FormatName(FactoryFormat(FactoryFor(Upper(key)).value)) == Upper(key)
  {
    ButtonKeyIsWord(key);
    ButtonWord(key);
    UpperOfButtonKey(key);
  }

  /** Each key is one word. */
  lemma ButtonKeyIsWord(key: string)
    requires key in ButtonKeys
    ensures key != [] && NoSpace(key)
  {
    assert NoSpace("PNG") && NoSpace("JPEG") && NoSpace("JPG") && NoSpace("BMP");
    assert NoSpace("ICO") && NoSpace("TIFF") && NoSpace("WebP");
  }

  /** Every key but "WebP" is already upper case. */
  lemma UpperOfButtonKey(key: string)
    requires key in ButtonKeys
    ensures Upper(key) == if key == "WebP" then "WEBP" else key
  {
    if key == "WebP" {
      assert Upper("WebP") == "WEBP";
    } else {
      assert forall i :: 0 <= i < |key| ==> IsAsciiUpper(key[i]);
      UpperOfUppercaseAscii(key);
    }
  }

  /** The last word of a button caption is the button's key. */
  lemma ButtonWord(key: string)
    requires key != [] && NoSpace(key)
    ensures OutputFormatOf(ButtonText(key)) == Some(Upper(key))
  {
    var p := "Конвертировать в ";
    assert ButtonText(key) == p + key + [] && IsSpace(p[|p| - 1]);
    WordsOfTrailingWord(p, key, []);
  }

  /** What the window shows when `convert_image` ends. */
  datatype Notice =
    | Silent
    | Information(text: string)
    | Critical(text: string)
    | Warning(text: string)
    | UncaughtIndexError

  function SuccessText(fmt: string): string
  {
    "Изображение успешно сконвертировано в " + fmt
  }

  function CriticalText(e: ConvertError): string
  {
    "Ошибка при конвертации изображения: " + ErrorText(e)
  }

  function NoFactoryText(fmt: string): string
  {
    "Не удалось найти фабрику для формата " + fmt
  }

  /** The part of `convert_image` after the format is known: pick a
      factory, convert, and turn the outcome into a message box. */
  function Dispatch(fmt: string, selected: Option<string>, directory: Option<string>, lib: LibraryCall): (r: (Notice, Option<WriteRequest>))
    requires LibraryAgrees(selected, lib)
    ensures directory.None? <==> r.0 == Silent
    ensures r.0 != UncaughtIndexError
    ensures r.1.Some? <==> r.0.Information?
    ensures r.0.Information? ==> r.0.text == SuccessText(fmt) && FactoryFor(fmt).Some? && r.1.value.encoder == EncoderTag(CreateConverter(FactoryFor(fmt).value))
    ensures r.0.Warning? ==> r.0.text == NoFactoryText(fmt)
  {
    match directory
    case None => (Silent, None)
    case Some(dir) =>
      match FactoryFor(fmt)
      case None => (Warning(NoFactoryText(fmt)), None)
      case Some(f) =>
        match Convert(CreateConverter(f), selected, dir, lib)
        case Written(req) => (Information(SuccessText(fmt)), Some(req))
        case Failed(e) => (Critical(CriticalText(e)), None)
  }

  lemma EndsWithAfterPrefix(p: string, s: string, t: string)
    requires EndsWith(s, t)
    ensures EndsWith(p + s, t)
  {
    assert (p + s)[|p + s| - |t|..] == s[|s| - |t|..];
  }

  /** Once a directory is chosen, exactly one message box is shown and no
      exception escapes: a warning when no factory matches, information
      when the library succeeds (and the file goes where the converter
      says), an error carrying the library's text when it fails. */
  lemma DispatchOutcome(fmt: string, selected: Option<string>, dir: string, lib: LibraryCall)
    requires LibraryAgrees(selected, lib)
    ensures var (notice, written) := Dispatch(fmt, selected, Some(dir), lib);
      && (notice.Warning? <==> FactoryFor(fmt).None?)
      && (notice.Information? <==> FactoryFor(fmt).Some? && lib.Saved?)
      && (notice.Critical? <==> FactoryFor(fmt).Some? && lib.Raised?)
      && (written.Some? <==> notice.Information?)
      && (written.Some? ==> written.value.path == Destination(CreateConverter(FactoryFor(fmt).value), dir))
      && (notice.Critical? ==> EndsWith(notice.text, lib.detail))
  {
    if FactoryFor(fmt).Some? && lib.Raised? {
      var c := CreateConverter(FactoryFor(fmt).value);
      var e := Convert(c, selected, dir, lib).error;
      EndsWithAfterPrefix("Ошибка при конвертации изображения: ", ErrorText(e), lib.detail);
    }
  }

  /** The converted file's path starts with the chosen directory's path,
      and its name is the directory's name followed by the converter's
      suffix. For a directory not ending in '/' the file is therefore
      written in the folder that holds the directory, beside it. */
  lemma OutputBesideDirectory(c: Converter, dir: string)
    ensures Destination(c, dir)[..|dir|] == dir
    ensures Destination(c, dir)[|dir|] != '/'
    ensures LastPart(Destination(c, dir), '/') == LastPart(dir, '/') + Suffix(c)
  {
    LastPartAppend(dir, Suffix(c), '/');
  }

  /** A directory given with a trailing '/' has an empty name, so the file
      is the bare suffix (a hidden file such as ".png") inside it. */
  lemma OutputInsideWhenTrailingSlash(c: Converter, dir: string)
    requires dir != [] && dir[|dir| - 1] == '/'
    ensures Destination(c, dir) == dir + Suffix(c)
    ensures LastPart(Destination(c, dir), '/') == Suffix(c)
  {
    assert dir == dir[..|dir| - 1] + ['/'] + [];
    LastPartAfterSeparator(dir[..|dir| - 1], '/', []);
    OutputBesideDirectory(c, dir);
  }

  // ---------------------------------------------------------------------------
  // Window state
  // ---------------------------------------------------------------------------

  datatype WindowState = WindowState(
    selectedFile: Option<string>,
    outputFormat: Option<string>,
    enabled: map<string, bool>)

  /** The result of the multi-file open dialog. */
  datatype FileDialog = Cancelled | Accepted(paths: seq<string>)

  /** The state right after construction: nothing selected, no format
      requested and every convert button disabled. */
  function Initial(): (s: WindowState)
    ensures s.selectedFile == None && s.outputFormat == None
    ensures s.enabled.Keys == ButtonKeySet()
    ensures forall k :: k in ButtonKeys ==> !s.enabled[k]
  {
    WindowState(None, None, AllButtons(false))
  }

  function FirstPath(paths: seq<string>): Option<string>
  {
    if paths == [] then None else Some(paths[0])
  }

  /** The state after `select_image`. After a confirmed selection the first
      path is selected, the output format is kept, and a button is enabled
      exactly when its key is not the majority of the inferred formats. A
      cancelled dialog changes nothing. */
  function AfterSelect(s: WindowState, dialog: FileDialog): (t: WindowState)
    ensures dialog.Cancelled? ==> t == s
    ensures dialog.Accepted? ==>
      && t.selectedFile == (if dialog.paths == [] then None else Some(dialog.paths[0]))
      && t.outputFormat == s.outputFormat
      && t.enabled.Keys == ButtonKeySet()
      && forall k :: k in ButtonKeys ==> (t.enabled[k] <==> Some(k) != Majority(InferredFormats(dialog.paths)))
  {
    match dialog
    case Cancelled => s
    case Accepted(paths) =>
      WindowState(FirstPath(paths), s.outputFormat, ButtonsFor(Majority(InferredFormats(paths))))
  }

  /** The state after `reset_selection`: the selection is cleared, every
      button disabled, the output format kept. */
  function AfterReset(s: WindowState): (t: WindowState)
    ensures t.selectedFile == None
    ensures t.outputFormat == s.outputFormat
    ensures t.enabled.Keys == ButtonKeySet()
    ensures forall k :: k in ButtonKeys ==> !t.enabled[k]
  {
    s.(selectedFile := None, enabled := AllButtons(false))
  }

  /** Choosing no files selects nothing and enables every button. */
  lemma EmptySelectionEnablesAll(s: WindowState)
    ensures AfterSelect(s, Accepted([])) == WindowState(None, s.outputFormat, AllButtons(true))
  {
  }

  /** When every chosen file has the same inferred format, only the
      button with that key is disabled. */
  lemma UniformSelection(s: WindowState, paths: seq<string>, fmt: string)
    requires paths != []
    requires forall i :: 0 <= i < |paths| ==> InferFormat(paths[i]) == fmt
    ensures forall k :: k in ButtonKeys ==> (AfterSelect(s, Accepted(paths)).enabled[k] <==> k != fmt)
  {
    var formats := InferredFormats(paths);
    var m := Majority(formats).value;
    var i :| 0 <= i < |formats| && formats[i] == m;
  }

  /** Choosing only ".png" files disables the PNG button alone. */
  lemma PngSelection(s: WindowState, paths: seq<string>)
    requires paths != [] && forall i :: 0 <= i < |paths| ==> EndsWith(paths[i], ".png")
    ensures forall k :: k in ButtonKeys ==> (AfterSelect(s, Accepted(paths)).enabled[k] <==> k != "PNG")
  {
    assert Upper("png") == "PNG";
    forall i | 0 <= i < |paths|
      ensures InferFormat(paths[i]) == "PNG"
    {
      InferFormatOfSuffix(paths[i], "png");
    }
    UniformSelection(s, paths, "PNG");
  }

  /** Choosing only ".webp" files disables no button at all, because the
      inferred "WEBP" is not the key "WebP". */
  lemma WebpSelection(s: WindowState, paths: seq<string>)
    requires paths != [] && forall i :: 0 <= i < |paths| ==> EndsWith(paths[i], ".webp")
    ensures forall k :: k in ButtonKeys ==> AfterSelect(s, Accepted(paths)).enabled[k]
  {
    assert Upper("webp") == "WEBP";
    forall i | 0 <= i < |paths|
      ensures InferFormat(paths[i]) == "WEBP"
    {
      InferFormatOfSuffix(paths[i], "webp");
    }
    UniformSelection(s, paths, "WEBP");
  }

  /** The selected file and the buttons need not agree: with one ".png" file
      chosen first and two ".jpg" files after it, the PNG file is selected
      while its own format's button stays enabled and JPG is disabled. */
  lemma SelectedFileOutvoted(s: WindowState, p: string, q: string, r: string)
    requires EndsWith(p, ".png") && EndsWith(q, ".jpg") && EndsWith(r, ".jpg")
    ensures var t := AfterSelect(s, Accepted([p, q, r]));
      && t.selectedFile == Some(p)
      && "PNG" in t.enabled && t.enabled["PNG"]
      && "JPG" in t.enabled && !t.enabled["JPG"]
  {
    OutvotedButtons(s, p, q, r);
    JpgDisabledPngEnabled();
  }

  lemma OutvotedButtons(s: WindowState, p: string, q: string, r: string)
    requires EndsWith(p, ".png") && EndsWith(q, ".jpg") && EndsWith(r, ".jpg")
    ensures AfterSelect(s, Accepted([p, q, r])).enabled == ButtonsFor(Some("JPG"))
  {
    PngAndJpgInferred(p, q, r);
    JpgOutvotesPng();
  }

  lemma JpgDisabledPngEnabled()
    ensures ButtonsFor(Some("JPG"))["PNG"] && !ButtonsFor(Some("JPG"))["JPG"]
  {
    assert "PNG" in ButtonKeys && "JPG" in ButtonKeys;
  }

  lemma PngAndJpgInferred(p: string, q: string, r: string)
    requires EndsWith(p, ".png") && EndsWith(q, ".jpg") && EndsWith(r, ".jpg")
    ensures InferredFormats([p, q, r]) == ["PNG", "JPG", "JPG"]
  {
    assert Upper("png") == "PNG" && Upper("jpg") == "JPG";
    InferFormatOfSuffix(p, "png");
    InferFormatOfSuffix(q, "jpg");
    InferFormatOfSuffix(r, "jpg");
  }

  lemma JpgOutvotesPng()
    ensures Majority(["PNG", "JPG", "JPG"]) == Some("JPG")
  {
    var formats := ["PNG", "JPG", "JPG"];
    assert Count(formats, "JPG") == 2 && Count(formats, "PNG") == 1;
    MajorityOfStrictWinner(formats, "JPG");
  }

  /** The WebP button is enabled after every confirmed selection. */
  lemma WebPAlwaysEnabledAfterSelect(s: WindowState, paths: seq<string>)
    ensures AfterSelect(s, Accepted(paths)).enabled["WebP"]
  {
    MajorityNeverWebP(paths);
  }

  /** Reset is idempotent and undoes any selection made before it. */
  lemma ResetProperties(s: WindowState, dialog: FileDialog)
    ensures AfterReset(AfterReset(s)) == AfterReset(s)
    ensures AfterReset(AfterSelect(s, dialog)) == AfterReset(s)
  {
  }

  // ---------------------------------------------------------------------------
  // The window object
  // ---------------------------------------------------------------------------

  class MainWindow {
    var selectedFile: Option<string>
    var outputFormat: Option<string>
    /** The enabled flag of each convert button, by key. */
    var enabled: map<string, bool>

    ghost predicate Valid()
      reads this
    {
      enabled.Keys == ButtonKeySet()
    }

    function State(): WindowState
      reads this
    {
      WindowState(selectedFile, outputFormat, enabled)
    }

    constructor ()
      ensures Valid() && State() == Initial()
    {
      // A new button starts enabled; the construction loop disables each.
      var buttons := AllButtons(true);
      for i := 0 to |ButtonKeys|
        invariant buttons.Keys == ButtonKeySet()
        invariant forall k :: k in ButtonKeys[..i] ==> !buttons[k]
      {
        assert ButtonKeys[..i + 1] == ButtonKeys[..i] + [ButtonKeys[i]];
        buttons := buttons[ButtonKeys[i] := false];
      }
      assert ButtonKeys[..|ButtonKeys|] == ButtonKeys;
      enabled := buttons;
      selectedFile := None;
      outputFormat := None;
    }

    /** `select_image`, given what the dialog returned. */
    method SelectImage(dialog: FileDialog)
      requires Valid()
      modifies this
      ensures Valid() && State() == AfterSelect(old(State()), dialog)
    {
      if dialog.Accepted? {
        var paths := dialog.paths;
        var formats := InferredFormats(paths);
        var majority := Majority(formats);
        EnableAllBut(majority);
        selectedFile := if paths == [] then None else Some(paths[0]);
      }
    }

    /** The loop of `select_image` over the convert buttons. */
    method EnableAllBut(majority: Option<string>)
      requires Valid()
      modifies this
      ensures Valid() && enabled == ButtonsFor(majority)
      ensures selectedFile == old(selectedFile) && outputFormat == old(outputFormat)
    {
      for i := 0 to |ButtonKeys|
        invariant enabled.Keys == ButtonKeySet()
        invariant forall k :: k in ButtonKeys[..i] ==> enabled[k] == (Some(k) != majority)
        invariant selectedFile == old(selectedFile) && outputFormat == old(outputFormat)
      {
        assert ButtonKeys[..i + 1] == ButtonKeys[..i] + [ButtonKeys[i]];
        var fmt := ButtonKeys[i];
        if Some(fmt) != majority {
          enabled := enabled[fmt := true];
        } else {
          enabled := enabled[fmt := false];
        }
      }
      assert ButtonKeys[..|ButtonKeys|] == ButtonKeys;
    }

    /** `reset_selection`. */
    method ResetSelection()
      requires Valid()
      modifies this
      ensures Valid() && State() == AfterReset(old(State()))
    {
      selectedFile := None;
      for i := 0 to |ButtonKeys|
        invariant enabled.Keys == ButtonKeySet()
        invariant forall k :: k in ButtonKeys[..i] ==> !enabled[k]
        invariant selectedFile == None && outputFormat == old(outputFormat)
      {
        assert ButtonKeys[..i + 1] == ButtonKeys[..i] + [ButtonKeys[i]];
        enabled := enabled[ButtonKeys[i] := false];
      }
      assert ButtonKeys[..|ButtonKeys|] == ButtonKeys;
    }

    /** `convert_image`, given the text of the button that fired (or `None`
        when there is no sender), the directory chosen in the dialog (or
        `None` when it was cancelled) and the library's verdict. */
    method ConvertImage(sender: Option<string>, directory: Option<string>, lib: LibraryCall)
      returns (notice: Notice, written: Option<WriteRequest>)
      requires Valid() && LibraryAgrees(selectedFile, lib)
      modifies this
      ensures Valid()
      ensures selectedFile == old(selectedFile) && enabled == old(enabled)
      ensures sender.None? ==> outputFormat == old(outputFormat) && notice == Silent && written == None
      ensures sender.Some? && OutputFormatOf(sender.value).None? ==>
        outputFormat == old(outputFormat) && notice == UncaughtIndexError && written == None
      ensures sender.Some? && OutputFormatOf(sender.value).Some? ==>
        && outputFormat == OutputFormatOf(sender.value)
        && (notice, written) == Dispatch(outputFormat.value, selectedFile, directory, lib)
    {
      notice, written := Silent, None;
      if sender.Some? {
        var word := LastWord(sender.value);
        if word.None? {
          notice := UncaughtIndexError;
          return;
        }
        outputFormat := Some(Upper(word.value));
        if directory.Some? {
          var factory := FactoryFor(outputFormat.value);
          if factory.Some? {
            var converter := CreateConverter(factory.value);
            var result := Convert(converter, selectedFile, directory.value, lib);
            match result
            case Written(request) =>
              notice := Information(SuccessText(outputFormat.value));
              written := Some(request);
            case Failed(e) =>
              notice := Critical(CriticalText(e));
          } else {
            notice := Warning(NoFactoryText(outputFormat.value));
          }
        }
      }
    }
  }
}
