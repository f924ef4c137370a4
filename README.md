# PyVideoToGifConverter, modelled in Dafny

PyVideoToGifConverter is a small desktop tool. Pick a video in a file dialog and
it writes a GIF of that video next to it. This project models the parts of
`PyVideoToGifConverter.py` that have behaviour you can state, and proves
properties of them:

- **Output path** (`makeGif`, lines 24-25). The output path is the input path
  with its `os.path.splitext` extension dropped and the target format
  appended. `splitext` is modelled with POSIX semantics: it splits at the last
  `.` of the final path component, and only when a character other than `.`
  comes before that dot in the component. So leading dots never start an
  extension.
- **Frame copy** (`makeGif`, lines 27-35). The reader is a finite sequence of
  opaque frames plus a metadata dictionary. The writer is a class that buffers
  the frames appended to it, keeps a closed flag, and keeps a ghost record of
  every call made on it. `MakeGif` copies every frame in order with a `for` loop and then
  closes the writer once.
- **Window state** (`GifConversioGUI`, lines 48-56 and 111-141). The state is
  the stored clip, whether the Convert button is enabled, and the prompt
  text. `openFile` takes the dialog's answer as input (`""` means
  cancelled). `convert` calls `MakeGif` on the stored clip and then resets the
  window.

The design is layered. Pure functions (`Text.Split`, `Paths.SplitExt`,
`Conversion.Converted`, `Shell.OpenFileStep`, `Shell.ConvertStep`) are the
reference definitions, and lemmas prove properties about them. The imperative parts
(`Conversion.Writer`, `Conversion.MakeGif`, `Shell.GifConversionGui`) have
contracts that tie their new state to those functions.

Files:

- `wrappers.dfy`: `Option` and `Result`, used where Python raises.
- `text.dfy`: `str.rfind`, `str.split` and `str.join` for a one-character
  separator.
- `paths.dfy`: basename, `splitext` and the output path.
- `conversion.dfy`: videos, the file system, the writer and `MakeGif`.
- `shell.dfy`: the prompt derivation, the window's state machine and the
  window class.

Three behaviours of the code that a reader might not expect, which the
model keeps:

- **Failed conversions.** An exception from `makeGif` (line 116) leaves
  `convert` before the reset at lines 120-123. So the model leaves the state
  unchanged and returns the error.
- **Prompt title.** The prompt uses only the second-to-last `.`-piece of the
  basename as its title (line 139), not the whole stem. So `/x/a.b.mp4` gives
  the prompt `Convert b.mp4 to b.gif?`, while the derived output path is
  `/x/a.b.gif`. `Shell.TitleQuirk` proves this for every name of that shape.
  `Shell.TitleQuirkConverted` proves that a conversion of such an
  already-absolute name writes to that path.
- **Failed `openFile`.** When the basename has no `.`, line 139 raises
  IndexError. By then lines 136-137 have already stored the clip and enabled
  the button. The model keeps that order: the clip and the button are
  updated, and the prompt keeps its old text.

## Model

| member | source | states |
|---|---|---|
| Text.LastIndexOf | PyVideoToGifConverter.py:25 | `rfind`, as `splitext` uses it: the result is -1 or an index holding `c`, and no `c` comes after it |
| Text.Split | PyVideoToGifConverter.py:138-139 | `split`: at least one piece; no piece contains the separator; there are two or more pieces exactly when the separator occurs; joining the pieces gives back the string |
| Text.SplitJoin | PyVideoToGifConverter.py:138-139 | splitting undoes joining separator-free pieces, so split and join are inverses |
| Paths.BasenameIsTail | PyVideoToGifConverter.py:138 | `fileName.split('/')[-1]` is everything after the last `/` and contains no `/` |
| Paths.SplitExt | PyVideoToGifConverter.py:25 | the stem followed by the extension is the input path; the extension is empty, or a `.` followed by neither `.` nor `/` |
| Paths.SplitExtFindsExtension | PyVideoToGifConverter.py:25 | `splitext` finds an extension exactly when the basename has a `.` that comes after a character other than `.` |
| Paths.OutputPath | PyVideoToGifConverter.py:24-25 | the output ends with the target format; output minus target plus the dropped extension is the input; the input's directory prefix is a prefix of the output |
| Paths.OutputPathIdempotent | PyVideoToGifConverter.py:25 | when the stem's basename is not all dots, `splitext` of the output gives back (stem, target), so deriving the output path again changes nothing |
| Paths.OutputOverwritesInput | PyVideoToGifConverter.py:25 | the output path equals the input path exactly when the input's extension is already the target format, so a `.gif` source is overwritten |
| Conversion.ConvertedCopiesSource | PyVideoToGifConverter.py:24-35 | a successful conversion writes the source's frames (same frames, order and count) at the source's `fps`, to a path in the source's directory that ends with the target format; for a target format without `/`, the output's last `/` is at the same index as the source's |
| Conversion.ConvertedFailures | PyVideoToGifConverter.py:27-30 | the conversion fails with ReadFailed exactly when the reader cannot open the source; with MissingFps exactly when the metadata has no `fps`; with WriteFailed exactly when the writer cannot open the output path |
| Conversion.Writer.constructor | PyVideoToGifConverter.py:30 | a new writer has the given path and `fps`, no frames, is open, and has had no calls |
| Conversion.Writer.AppendData | PyVideoToGifConverter.py:33 | only allowed while open; appends the frame to the buffer and records the call |
| Conversion.Writer.Close | PyVideoToGifConverter.py:35 | closes the writer, leaves the frames unchanged, and records the call |
| Conversion.MakeGif | PyVideoToGifConverter.py:11-35 | on error, returns the error `Converted` gives; on success, returns a fresh closed writer whose file is the one `Converted` describes, and whose calls were one append per source frame in order followed by exactly one close |
| Shell.Prompt | PyVideoToGifConverter.py:138-141 | deriving the prompt fails (IndexError) exactly when the basename contains no `.` |
| Shell.TitleAndType | PyVideoToGifConverter.py:138-139 | the type is the last `.`-piece and the title the piece before it, both free of `.`; the basename ends with `title.type`, and the title starts at the beginning of the basename or right after another `.` |
| Shell.TypeIsExtension | PyVideoToGifConverter.py:138 | where `splitext` finds an extension, that extension is `.` followed by the prompt's type |
| Shell.TitleQuirk | PyVideoToGifConverter.py:138-141 | for `dir/a.title.type` (hidden names `dir/.title.type` included), the prompt names `title.type` and `title.gif`, while the derived output path is `dir/a.title.gif` |
| Shell.TitleQuirkConverted | PyVideoToGifConverter.py:116 | when that name is already absolute, the prompt is as above and a successful conversion writes to `dir/a.title.gif` |
| Shell.PromptForPlainName | PyVideoToGifConverter.py:138-141 | for a name with one `.`, such as `clip.mp4`, the prompt is `Convert clip.mp4 to clip.gif?` and the derived output path is `clip.gif` in the same directory |
| Shell.PlainNameConverted | PyVideoToGifConverter.py:116 | when that name is already absolute, a successful conversion writes to the `clip.gif` that the prompt announces |
| Shell.InitialIsIdle | PyVideoToGifConverter.py:48-56 | the start-up state has no clip, the button disabled and the greeting shown, and satisfies the invariant |
| Shell.OpenFileCancelled | PyVideoToGifConverter.py:135 | a cancelled dialog changes nothing and raises nothing |
| Shell.OpenFileSelects | PyVideoToGifConverter.py:135-141 | a chosen name is stored and the button enabled; if the basename has a `.`, the prompt becomes `Convert title.type to title.gif?`; otherwise IndexError is raised and the prompt keeps its old text |
| Shell.OpenFileKeepsConsistent | PyVideoToGifConverter.py:135-137 | `openFile` keeps the invariant "button enabled exactly when the clip is non-empty", even when it raises |
| Shell.ConvertResets | PyVideoToGifConverter.py:111-123 | `convert` converts the stored clip to `.gif`; if that returns, the state is the start-up state; if it raises, the state is unchanged |
| Shell.ConvertKeepsConsistent | PyVideoToGifConverter.py:120-123 | `convert` keeps the invariant |
| Shell.RunKeepsConsistent | PyVideoToGifConverter.py:111-141 | after any sequence of file choices and Convert clicks, the invariant still holds |
| Shell.GifConversionGui.constructor | PyVideoToGifConverter.py:48-56 | the new window is in the start-up state and satisfies the invariant |
| Shell.GifConversionGui.OpenFile | PyVideoToGifConverter.py:126-141 | the new state and the raised error are those of `OpenFileStep`, and the invariant is kept |
| Shell.GifConversionGui.Convert | PyVideoToGifConverter.py:111-123 | the stored clip is non-empty; the new state and the outcome are those of `ConvertStep`; on success, the returned writer is closed and holds the converted file |

## Left out

- Widget construction, layout, menus, actions, shortcuts, the icon, the
  window size and the About box (lines 41-108, 143-152): presentation only.
- The wait cursor (lines 115, 117): visual feedback only. The model also
  leaves out that the cursor is never restored when `makeGif` raises.
- The file dialog and its filter string (lines 130-132): the dialog's answer
  is an input string, and `""` means cancelled.
- Video decoding and GIF encoding (lines 27, 30, 33): foreign library calls.
  Frames are opaque values. Metadata values are Dafny `real`s, which are
  copied and never computed with, so floating point does not matter.
- Reader errors in the middle of the frame sequence, and the reader handle,
  which the source never closes: the reader is a finite sequence that is
  already decoded.
- `os.path.abspath` (line 24): it depends on the working directory. It is the
  uninterpreted function `Disk.absPath`. Which paths can be read or written
  is given as data (`Disk.videos`, `Disk.writable`). How imageio recognises a
  container or chooses an encoder is not modelled.
- `main`, `QApplication`, the event loop and `sys.exit` (lines 155-163):
  process plumbing. It is also left out what PyQt does with an exception that
  escapes a slot. The model stops the handler at the exception, and the next
  action starts from the state left behind.
- `Shell.GifConversionGui.Convert` requires the button to be enabled. This is
  because Qt delivers no `clicked` signal from a disabled button (line 53), so
  the slot cannot run in any other state.
- Path syntax follows POSIX only: `/` is the one separator. On Windows,
  `os.path` is `ntpath`, which also accepts `\` as a separator and has drive
  letters. Neither is modelled.
- A `.gif` source is both read and written. `Paths.OutputOverwritesInput`
  shows that the reader and the writer then name the same file. The model's
  reader is already decoded, so it does not capture what writing over the
  source while still reading it does to the frames.
