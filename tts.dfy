/** The request normalisation at the top of `synthesize`: empty text is
    replaced by a fixed sentence, and the output path is given the
    extension of the chosen engine. The engines themselves are not
    modelled. Paths follow POSIX `os.path.splitext`. */
module Tts {
  import opened Text

  const EmptyText := "No content provided."

  /** `if not text.strip(): text = "No content provided."` */
  function NormaliseText(text: string): (r: string)
    ensures AllIn(text, Whitespace) ==> r == EmptyText
    ensures !AllIn(text, Whitespace) ==> r == text
  {
    StripEmpty(text);
    if Strip(text) == [] then EmptyText else text
  }

  /** The engine never receives blank text. */
  lemma NormaliseTextNonBlank(text: string)
    ensures !AllIn(NormaliseText(text), Whitespace)
  {
    if AllIn(text, Whitespace) {
      assert !IsSpace(EmptyText[0]);
    }
  }

  /** `p.rfind(c)`: the last index of `c` in `p`, or -1. */
  function RFind(p: string, c: char): (k: int)
    ensures -1 <= k < |p|
    ensures k >= 0 ==> p[k] == c
    ensures forall j :: k < j < |p| ==> p[j] != c
  {
    if p == [] then -1
    else if p[|p| - 1] == c then |p| - 1
    else RFind(p[..|p| - 1], c)
  }

  /** `posixpath.splitext`: the extension is the part from the last dot of
      the last path component, unless everything before that dot in the
      component is dots. */
  function SplitExt(p: string): (r: (string, string))
    ensures r.0 + r.1 == p
    ensures r.1 == [] || (r.1[0] == '.' && forall j :: 0 < j < |r.1| ==> r.1[j] != '.' && r.1[j] != '/')
    ensures r.1 != [] <==>
      RFind(p, '.') > RFind(p, '/') && exists k :: RFind(p, '/') < k < RFind(p, '.') && p[k] != '.'
    ensures r.1 != [] ==> |r.0| == RFind(p, '.')
  {
    var sep := RFind(p, '/');
    var dot := RFind(p, '.');
    if dot > sep && exists k :: sep + 1 <= k < dot && p[k] != '.' then
      assert p[..dot] + p[dot..] == p;
      (p[..dot], p[dot..])
    else (p, [])
  }

  /** A name whose last component has no dot, or only leading dots, has
      no extension. */
  lemma SplitExtNoExtension(p: string)
    requires forall k :: RFind(p, '/') < k < |p| ==> p[k] != '.'
    ensures SplitExt(p) == (p, [])
  {
  }

  /** The extension the engine writes: MP3 for gTTS, WAV for pyttsx3. */
  function Extension(useGtts: bool): string {
    if useGtts then ".mp3" else ".wav"
  }

  /** `if not out_path.lower().endswith(ext): out_path = splitext(out_path)[0] + ext` */
  function ChoosePath(outPath: string, useGtts: bool): (r: string)
    ensures EndsWith(Lower(outPath), Extension(useGtts)) ==> r == outPath
    ensures !EndsWith(Lower(outPath), Extension(useGtts)) ==> r == SplitExt(outPath).0 + Extension(useGtts)
  {
    var ext := Extension(useGtts);
    if EndsWith(Lower(outPath), ext) then outPath else SplitExt(outPath).0 + ext
  }

  /** The chosen path always ends with the engine's extension, ignoring
      case. */
  lemma ChoosePathExtension(outPath: string, useGtts: bool)
    ensures EndsWith(Lower(ChoosePath(outPath, useGtts)), Extension(useGtts))
  {
    var ext := Extension(useGtts);
    if !EndsWith(Lower(outPath), ext) {
      ExtensionLower(useGtts);
      LowerSuffix(SplitExt(outPath).0, ext);
    }
  }

  /** Choosing the path a second time changes nothing. */
  lemma ChoosePathIdempotent(outPath: string, useGtts: bool)
    ensures ChoosePath(ChoosePath(outPath, useGtts), useGtts) == ChoosePath(outPath, useGtts)
  {
    ChoosePathExtension(outPath, useGtts);
  }

  /** A path without an extension keeps all of its characters. */
  lemma ChoosePathAppends(outPath: string, useGtts: bool)
    requires SplitExt(outPath).1 == [] && !EndsWith(Lower(outPath), Extension(useGtts))
    ensures ChoosePath(outPath, useGtts) == outPath + Extension(useGtts)
  {
    assert SplitExt(outPath).0 == outPath;
  }

  /** Both extensions are already lower case. */
  lemma ExtensionLower(useGtts: bool)
    ensures forall i :: 0 <= i < |Extension(useGtts)| ==> LowerChar(Extension(useGtts)[i]) == Extension(useGtts)[i]
  {
  }

  /** A lower-case suffix survives `lower()`. */
  lemma LowerSuffix(root: string, ext: string)
    requires forall i :: 0 <= i < |ext| ==> LowerChar(ext[i]) == ext[i]
    ensures EndsWith(Lower(root + ext), ext)
  {
    var l := Lower(root + ext);
    forall i | 0 <= i < |ext| ensures l[|root| + i] == ext[i] {
      assert (root + ext)[|root| + i] == ext[i];
    }
    assert l[|l| - |ext|..] == ext;
  }

  datatype Engine = Gtts | Pyttsx3

  /** What `synthesize` hands to an engine. */
  datatype Request = Request(engine: Engine, text: string, path: string)

  /** `synthesize` up to the engine call. */
  function Synthesize(text: string, outPath: string, useGtts: bool): (r: Request)
    ensures r.engine == Gtts <==> useGtts
    ensures r.text == NormaliseText(text) && r.path == ChoosePath(outPath, useGtts)
  {
    var t := NormaliseText(text);
    if useGtts then Request(Gtts, t, ChoosePath(outPath, true))
    else Request(Pyttsx3, t, ChoosePath(outPath, false))
  }
}
