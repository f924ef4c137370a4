/**
 * The window's state, apart from its widgets: the selected clip, whether
 * the Convert button is enabled, and the prompt label's text; and the two
 * handlers that change them, `openFile` and `convert`.
 */
module Shell {
  import opened Wrappers
  import opened Text
  import opened Paths
  import opened Conversion

  /** The prompt shown at start-up and after each conversion. */
  const Greeting: string := "Hi, select a video from\nyour personal files to convert"

  /** The format `convert` asks `makeGif` for. */
  const GifFormat: string := ".gif"

  /** The exception `openFile` raises when the chosen name has no second-to-last '.'-piece. */
  datatype OpenError = IndexError

  /** `fileName.split('/')[-1].split('.')[-1]`: never fails. */
  function VideoType(fileName: string): string
  {
    Last(Split(Basename(fileName), '.'))
  }

  /** `fileName.split('/')[-1].split('.')[-2]`, or None where Python raises IndexError. */
  function VideoTitle(fileName: string): Option<string>
  {
    var parts := Split(Basename(fileName), '.');
    if |parts| < 2 then None else Some(parts[|parts| - 2])
  }

  /** The f-string of the prompt label. */
  function PromptText(title: string, videoType: string): string
  {
    "Convert " + title + "." + videoType + " to " + title + ".gif?"
  }

  /** The prompt `openFile` shows for a chosen name; it fails exactly when the basename has no '.'. */
  function Prompt(fileName: string): (r: Result<string, OpenError>)
    ensures r.Err? <==> '.' !in Basename(fileName)
  {
    match VideoTitle(fileName)
    case None => Err(IndexError)
    case Some(title) => Ok(PromptText(title, VideoType(fileName)))
  }

  /**
   * `b` ends with "title.type", both pieces free of '.', and the title
   * reaches back to the start of `b` or to another '.'.
   */
  predicate EndsWithTitleAndType(b: string, title: string, videoType: string)
  {
    && '.' !in title && '.' !in videoType
    && |title| + |videoType| + 1 <= |b|
    && b[|b| - |title| - |videoType| - 1..] == title + "." + videoType
    && (|b| == |title| + |videoType| + 1 || b[|b| - |title| - |videoType| - 2] == '.')
  }

  /**
   * The type is the basename's last '.'-piece and the title the piece just
   * before it: the basename ends with "title.type", and the title reaches
   * back to the start of the basename or to another '.'. So with several
   * dots in the name the title is not the whole stem.
   */
  lemma TitleAndType(fileName: string)
    requires '.' in Basename(fileName)
    ensures VideoTitle(fileName).Some?
    ensures EndsWithTitleAndType(Basename(fileName), VideoTitle(fileName).value, VideoType(fileName))
  {
    var b := Basename(fileName);
    var parts := Split(b, '.');
    assert VideoTitle(fileName) == Some(parts[|parts| - 2]);
    assert VideoType(fileName) == parts[|parts| - 1];
    LastTwoPieces(b);
  }

  /** The last two '.'-pieces of a string that has a '.' are the title and type it ends with. */
  lemma LastTwoPieces(b: string)
    requires '.' in b
    ensures var parts := Split(b, '.');
            EndsWithTitleAndType(b, parts[|parts| - 2], parts[|parts| - 1])
  {
    var parts := Split(b, '.');
    var k := LastIndexOf(b, '.');
    var k2 := LastIndexOf(b[..k], '.');
    SplitLastTwo(b, '.');
    PiecesBetweenDots(b, k2, k);
  }

  /** The text between the dots at `k2` (or the start) and `k`, and after `k`, are a title and type `b` ends with. */
  lemma PiecesBetweenDots(b: string, k2: int, k: int)
    requires -1 <= k2 < k < |b|
    requires b[k] == '.' && (k2 >= 0 ==> b[k2] == '.')
    requires '.' !in b[k2 + 1..k] && '.' !in b[k + 1..]
    ensures EndsWithTitleAndType(b, b[k2 + 1..k], b[k + 1..])
  {
    assert b[k2 + 1..] == b[k2 + 1..k] + [b[k]] + b[k + 1..];
  }

  /**
   * Where `splitext` finds an extension, the prompt's type is that
   * extension without its dot.
   */
  lemma TypeIsExtension(fileName: string)
    requires HasExtension(Basename(fileName))
    ensures SplitExt(fileName).1 == "." + VideoType(fileName)
  {
    var b := Basename(fileName);
    var k := LastIndexOf(b, '.');
    SplitExtFindsExtension(fileName);
    ExtensionInsideBasename(fileName);
    SplitLast(b, '.');
    DropOne(b, k);
  }

  /** When the basename is '.'-free pieces joined by '.', the title and type are its last two pieces. */
  lemma TitleAndTypeOfPieces(fileName: string, pieces: seq<string>)
    requires |pieces| >= 2
    requires forall i :: 0 <= i < |pieces| ==> '.' !in pieces[i]
    requires Basename(fileName) == Join(pieces, '.')
    ensures VideoTitle(fileName) == Some(pieces[|pieces| - 2])
    ensures VideoType(fileName) == pieces[|pieces| - 1]
  {
    SplitJoin(pieces, '.');
  }

  /** "a.title" after a directory has a basename that is not all dots unless both pieces are empty. */
  lemma StemHasNonDot(d: string, a: string, title: string)
    requires d != [] && d[|d| - 1] == '/'
    requires '/' !in a && '/' !in title
    requires '.' !in a && '.' !in title
    requires a != [] || title != []
    ensures HasNonDot(Basename(d + (a + "." + title)))
  {
    var stem := a + "." + title;
    BasenameAfterDir(d, stem);
    if a != [] {
      assert stem[0] != '.';
    } else {
      assert stem[1] != '.';
    }
  }

  /**
   * The observable quirk in general: for "dir/a.title.type" the prompt
   * names `title` and `type`, while the file written is "dir/a.title.gif";
   * the prompt's title is not the stem of the output. For "/x/a.b.mp4"
   * the prompt says "Convert b.mp4 to b.gif?" and the derived output path
   * is "/x/a.b.gif". Hidden names ("dir/.title.type") behave the same.
   */
  lemma TitleQuirk(dir: string, a: string, title: string, videoType: string)
    requires '/' !in a && '/' !in title && '/' !in videoType
    requires '.' !in a && '.' !in title && '.' !in videoType
    requires a != [] || title != []
    ensures var fileName := dir + "/" + a + "." + title + "." + videoType;
            && Prompt(fileName) == Ok(PromptText(title, videoType))
            && OutputPath(fileName, GifFormat) == dir + "/" + a + "." + title + GifFormat
  {
    var d := dir + "/";
    var stem := a + "." + title;
    assert dir + "/" + a + "." + title + "." + videoType == d + (a + "." + title + "." + videoType);
    assert dir + "/" + a + "." + title + "." + videoType == d + stem + "." + videoType;
    assert dir + "/" + a + "." + title + GifFormat == d + stem + GifFormat;
    PromptOfThreePieces(d, a, title, videoType);
    StemHasNonDot(d, a, title);
    OutputPathOfTyped(d + stem, videoType, GifFormat);
  }

  /** The prompt for `d/a.title.type` names the last two pieces. */
  lemma PromptOfThreePieces(d: string, a: string, title: string, videoType: string)
    requires d == [] || d[|d| - 1] == '/'
    requires '/' !in a && '/' !in title && '/' !in videoType
    requires '.' !in a && '.' !in title && '.' !in videoType
    ensures Prompt(d + (a + "." + title + "." + videoType)) == Ok(PromptText(title, videoType))
  {
    var fileName := d + (a + "." + title + "." + videoType);
    JoinTriple(a, title, videoType, '.');
    BasenameAfterDir(d, Join([a, title, videoType], '.'));
    TitleAndTypeOfPieces(fileName, [a, title, videoType]);
  }

  /** A non-empty '.'-free title after a directory is a basename that is not all dots. */
  lemma TitleHasNonDot(dir: string, title: string)
    requires dir == [] || dir[|dir| - 1] == '/'
    requires '/' !in title && '.' !in title
    requires title != []
    ensures HasNonDot(Basename(dir + title))
  {
    BasenameAfterDir(dir, title);
    assert title[0] != '.';
  }

  /**
   * For a name with a single '.', such as "clip.mp4", the prompt reads
   * "Convert clip.mp4 to clip.gif?" and the file written is "clip.gif" in
   * the same directory: the prompt names the output correctly.
   */
  lemma PromptForPlainName(dir: string, title: string, videoType: string)
    requires dir == [] || dir[|dir| - 1] == '/'
    requires '/' !in title && '/' !in videoType
    requires '.' !in title && '.' !in videoType
    requires title != []
    ensures var fileName := dir + title + "." + videoType;
            && Prompt(fileName) == Ok(PromptText(title, videoType))
            && OutputPath(fileName, GifFormat) == dir + title + GifFormat
  {
    var fileName := dir + title + "." + videoType;
    assert fileName == (dir + title) + ("." + videoType);
    assert fileName == dir + (title + "." + videoType);
    JoinPair(title, videoType, '.');
    BasenameAfterDir(dir, Join([title, videoType], '.'));
    TitleAndTypeOfPieces(fileName, [title, videoType]);
    TitleHasNonDot(dir, title);
    OutputPathOfTyped(dir + title, videoType, GifFormat);
  }

  /**
   * The quirk carried through to the file written: when the chosen name is
   * already absolute (as the dialog returns it), converting it writes to
   * "dir/a.title.gif", while the prompt named "title.gif".
   */
  lemma TitleQuirkConverted<F>(disk: Disk<F>, dir: string, a: string, title: string, videoType: string)
    requires '/' !in a && '/' !in title && '/' !in videoType
    requires '.' !in a && '.' !in title && '.' !in videoType
    requires a != [] || title != []
    requires var fileName := dir + "/" + a + "." + title + "." + videoType;
             disk.absPath(fileName) == fileName
    ensures var fileName := dir + "/" + a + "." + title + "." + videoType;
            && Prompt(fileName) == Ok(PromptText(title, videoType))
            && (Converted(disk, fileName, GifFormat).Ok? ==>
                  Converted(disk, fileName, GifFormat).value.path == dir + "/" + a + "." + title + GifFormat)
  {
    TitleQuirk(dir, a, title, videoType);
  }

  /**
   * For a single-'.' name that is already absolute, the file written is
   * the "title.gif" that the prompt announces, in the same directory.
   */
  lemma PlainNameConverted<F>(disk: Disk<F>, dir: string, title: string, videoType: string)
    requires dir == [] || dir[|dir| - 1] == '/'
    requires '/' !in title && '/' !in videoType
    requires '.' !in title && '.' !in videoType
    requires title != []
    requires disk.absPath(dir + title + "." + videoType) == dir + title + "." + videoType
    ensures var fileName := dir + title + "." + videoType;
            && Prompt(fileName) == Ok(PromptText(title, videoType))
            && (Converted(disk, fileName, GifFormat).Ok? ==>
                  Converted(disk, fileName, GifFormat).value.path == dir + title + GifFormat)
  {
    PromptForPlainName(dir, title, videoType);
  }

  /** The window's observable state: the stored clip, the Convert button, the prompt label. */
  datatype ShellState = ShellState(clip: string, convertEnabled: bool, prompt: string)

  /** The state `__init__` sets up. */
  function Initial(): ShellState
  {
    ShellState("", false, Greeting)
  }

  /** The Convert button is enabled exactly when a clip is stored. */
  predicate Consistent(s: ShellState)
  {
    s.convertEnabled <==> s.clip != ""
  }

  /**
   * `openFile` after the dialog returned `fileName` ("" when cancelled):
   * the clip and the button are updated before the prompt is computed, so
   * when computing it raises IndexError those two updates have happened
   * and the prompt has not.
   */
  function OpenFileStep(s: ShellState, fileName: string): (ShellState, Option<OpenError>)
  {
    if fileName == "" then (s, None)
    else
      var selected := s.(clip := fileName, convertEnabled := true);
      match Prompt(fileName)
      case Ok(text) => (selected.(prompt := text), None)
      case Err(e) => (selected, Some(e))
  }

  /**
   * `convert`: convert the stored clip to ".gif"; when that returns, reset
   * to the initial state. When `makeGif` raises, the exception leaves the
   * handler before the reset and the state is as it was.
   */
  function ConvertStep<F>(s: ShellState, disk: Disk<F>): (ShellState, Result<Artifact<F>, ConvertError>)
  {
    var r := Converted(disk, s.clip, GifFormat);
    if r.Ok? then (Initial(), r) else (s, r)
  }

  /** The start-up state is idle: no clip, button disabled, greeting shown. */
  lemma InitialIsIdle()
    ensures Consistent(Initial())
    ensures Initial().clip == "" && !Initial().convertEnabled && Initial().prompt == Greeting
  {
  }

  /** Cancelling the dialog changes nothing. */
  lemma OpenFileCancelled(s: ShellState)
    ensures OpenFileStep(s, "") == (s, None)
  {
  }

  /**
   * Choosing a file stores it and enables Convert; the prompt becomes
   * "Convert title.type to title.gif?" unless the basename has no '.',
   * in which case IndexError is raised and the old prompt stays.
   */
  lemma OpenFileSelects(s: ShellState, fileName: string)
    requires fileName != ""
    ensures var (t, err) := OpenFileStep(s, fileName);
            && t.clip == fileName && t.convertEnabled
            && (err.Some? <==> '.' !in Basename(fileName))
            && (err.None? ==> VideoTitle(fileName).Some? && t.prompt == PromptText(VideoTitle(fileName).value, VideoType(fileName)))
            && (err.Some? ==> err == Some(IndexError) && t.prompt == s.prompt)
  {
    if '.' in Basename(fileName) {
      TitleAndType(fileName);
    }
  }

  /** `openFile` keeps the button enabled exactly when a clip is stored, even when it raises. */
  lemma OpenFileKeepsConsistent(s: ShellState, fileName: string)
    requires Consistent(s)
    ensures Consistent(OpenFileStep(s, fileName).0)
  {
  }

  /**
   * A conversion that returns puts the window back in its start-up state;
   * one that raises leaves it unchanged. Either way it converts the stored
   * clip to ".gif".
   */
  lemma ConvertResets<F>(s: ShellState, disk: Disk<F>)
    ensures ConvertStep(s, disk).1 == Converted(disk, s.clip, GifFormat)
    ensures ConvertStep(s, disk).1.Ok? ==> ConvertStep(s, disk).0 == Initial()
    ensures ConvertStep(s, disk).1.Err? ==> ConvertStep(s, disk).0 == s
  {
  }

  /** `convert` keeps the button enabled exactly when a clip is stored. */
  lemma ConvertKeepsConsistent<F>(s: ShellState, disk: Disk<F>)
    requires Consistent(s)
    ensures Consistent(ConvertStep(s, disk).0)
  {
  }

  /** What the user can do: pick a file in the dialog, or click Convert. */
  datatype UserAction<F> = ChooseFile(fileName: string) | ClickConvert(disk: Disk<F>)

  /** One action; a click on the disabled button delivers no signal. */
  function Step<F>(s: ShellState, action: UserAction<F>): ShellState
  {
    match action
    case ChooseFile(fileName) => OpenFileStep(s, fileName).0
    case ClickConvert(disk) => if s.convertEnabled then ConvertStep(s, disk).0 else s
  }

  /** The state after a sequence of actions. */
  function Run<F>(s: ShellState, actions: seq<UserAction<F>>): ShellState
    decreases |actions|
  {
    if actions == [] then s else Run(Step(s, actions[0]), actions[1..])
  }

  /**
   * Every state reachable from start-up keeps the button enabled exactly
   * when a clip is stored; so `makeGif` is never handed an empty clip.
   */
  lemma {:induction false} RunKeepsConsistent<F>(s: ShellState, actions: seq<UserAction<F>>)
    requires Consistent(s)
    ensures Consistent(Run(s, actions))
    decreases |actions|
  {
    if actions != [] {
      match actions[0] {
        case ChooseFile(fileName) => OpenFileKeepsConsistent(s, fileName);
        case ClickConvert(disk) => ConvertKeepsConsistent(s, disk);
      }
      RunKeepsConsistent(Step(s, actions[0]), actions[1..]);
    }
  }

  /** The main window of the converter, reduced to the state its handlers change. */
  class GifConversionGui {
    var clip: string
    var convertEnabled: bool
    var prompt: string

    function State(): ShellState
      reads this
    {
      ShellState(clip, convertEnabled, prompt)
    }

    predicate Valid()
      reads this
    {
      Consistent(State())
    }

    /** `__init__`: no clip, Convert disabled, the greeting shown. */
    constructor ()
      ensures Valid() && State() == Initial()
    {
      prompt := Greeting;
      convertEnabled := false;
      clip := "";
    }

    /** `openFile`, with the dialog's answer passed in. */
    method OpenFile(fileName: string) returns (err: Option<OpenError>)
      requires Valid()
      modifies this
      ensures Valid()
      ensures (State(), err) == OpenFileStep(old(State()), fileName)
    {
      if fileName != "" {
        clip := fileName;
        convertEnabled := true;
        var videoType := VideoType(fileName);
        var videoTitle := VideoTitle(fileName);
        if videoTitle.None? {
          return Some(IndexError);
        }
        prompt := PromptText(videoTitle.value, videoType);
      }
      return None;
    }

    /**
     * `convert`: only reachable while the button is enabled. Returns the
     * closed writer `makeGif` filled, or the error it raised.
     */
    method Convert<F>(disk: Disk<F>) returns (res: Result<Writer<F>, ConvertError>)
      requires Valid() && convertEnabled
      modifies this
      ensures Valid()
      ensures old(clip) != ""
      ensures res.Err? ==> ConvertStep(old(State()), disk) == (State(), Err(res.error))
      ensures res.Ok? ==> fresh(res.value) && res.value.closed
                          && ConvertStep(old(State()), disk) == (State(), Ok(res.value.Output()))
    {
      res := MakeGif(disk, clip, GifFormat);
      if res.Err? {
        return;
      }
      prompt := Greeting;
      clip := "";
      convertEnabled := false;
    }
  }
}
