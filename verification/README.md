# TTS-Cube text front end and corpus preparation, in Dafny

This project models the deterministic core of TTS-Cube's synthesis front end
(`cube/synthesis.py`) and its trainer (`cube/trainer.py`):

- **Text normalisation** (`Normalize`). There are two variants.
  - The older one reads the first line, strips it, turns tabs into spaces and
    repeats `replace('  ', ' ')` until nothing changes.
  - The newer one joins all lines and joins their whitespace-separated words
    with single spaces.
- **Character encoding** (`Phones`). A text becomes a `START` token, one
  `PhoneInfo` per character, and a `STOP` token. Each character token holds
  the lower-cased symbol, a `SPEAKER:<id>` tag and a `CASE:upper`,
  `CASE:lower` or `CASE:symb` tag.
- **Label files** (`LabFile`). `create_lab_file` writes the same encoding as
  tab-separated rows. The speaker identity comes from an explicit name or
  from the file's path.
- **Corpus preparation** (`Corpus`). This covers three parts of
  `phase_1_prepare_corpus`:
  - which examples of a folder are kept (both `.txt` and `.wav` exist, each
    base name once, in listing order);
  - the shared `total_files` counter;
  - the `prefix_NNNNN` artifact names.
- **Spectrogram layout** (`Spectrogram`). `render_spectrogram` draws cell
  `(x, y)` at pixel `(H-1-y, x)`.
- **Phase dispatch** (`Phases`). The four `if params.phase == 'k'` tests.

Strings are `seq<char>`. A file is modelled by its decoded text. A folder is
its listing (the `listdir` result filtered to files) together with the set of
names that exist in it.

Every operation is paired with a partner:
- a reference definition, such as `SqueezeSpaces` for the fixpoint loop or
  `Rendered` for the drawing loops;
- an inverse, such as `TokensText` for the encoding, `DecimalValue` for the
  zero-padded numeral, or `CellOf` for `PixelOf`;
- or an invariant that the operation establishes.

## Model

| member | source | states |
|---|---|---|
| Normalize.ReadLine | cube/synthesis.py:25 | `readline()` gives a prefix of the file. No newline occurs before its last character, and it is either the whole file or ends in a newline. |
| Normalize.ReplaceDoubleSpaces | cube/synthesis.py:28 | One `replace('  ', ' ')` pass leaves the string unchanged exactly when it has no two adjacent spaces. Otherwise the string gets strictly shorter, which is why the `while True` loop ends. |
| Normalize.CollapseSpaces | cube/synthesis.py:27-31 | The fixpoint loop ends with no two adjacent spaces. Its result equals the independent definition `SqueezeSpaces`: every run of spaces becomes one space. |
| Normalize.FileInputOld | cube/synthesis.py:23-34 | The older normalisation keeps exactly the words of the first line, in order: stripping, turning tabs into spaces and collapsing double spaces only change the whitespace between words. The result has no tab, no newline and no double space, and no whitespace at either end. |
| Normalize.WordsOfStrip | cube/synthesis.py:25 | `strip()` drops no word. |
| Normalize.TabsKeepWords | cube/synthesis.py:25 | `replace('\t', ' ')` keeps the words, because a tab and a space both separate words. |
| Normalize.WordsOfSqueeze | cube/synthesis.py:27-31 | Squeezing every run of spaces to one space keeps the words. |
| Normalize.FileInput | cube/synthesis.py:37-39 | `' '.join(' '.join(f.readlines()).split())` equals the words of the whole file joined by single spaces. Joining the lines first adds or loses no word. The result is normalised: its only whitespace is single inner spaces. |
| Normalize.WordsOfJoin | cube/synthesis.py:39 | Splitting words that were joined by single spaces gives back the same words. |
| Normalize.FileInputIdempotent | cube/synthesis.py:37-39 | Normalising an already normalised text changes nothing. |
| Phones.CaseStyle | cube/synthesis.py:48-53 | The three-way casing rule (`l == l.upper()` gives symb, `l != char` gives upper, otherwise lower) gives `CASE:upper` exactly for upper-case letters and `CASE:lower` exactly for lower-case letters. Every other character gets `CASE:symb`. |
| Phones.CharToken | cube/synthesis.py:48-55 | A character token has a one-character symbol that is never an upper-case letter, and exactly two tags. The speaker identity can be read back from the first tag (after `SPEAKER:`), and the original character from the symbol and the casing tag: upper-casing the symbol when the tag is `CASE:upper` gives it back. |
| Phones.PhoneInput | cube/synthesis.py:42-59 | The encoding has two more entries than the text. It starts with `START` and ends with `STOP`, both with empty tags. Entry `i+1` is the token of character `i`. |
| Phones.PhoneInputConcat | cube/synthesis.py:47-55 | Each token depends only on its own character: encoding a concatenation encodes the parts one after the other. |
| Phones.TextRoundTrip | cube/synthesis.py:47-55 | The casing tag makes lower-casing lossless. Re-upper-casing the symbols tagged `CASE:upper` gives back the original text. |
| Phones.LabInput | cube/synthesis.py:62-65 | `create_lab_input` is the token encoding, with the given speaker identity, of the file's words joined by single spaces. So the tokens spell a normalised text. |
| LabFile.SpeakerIdentity | cube/trainer.py:121-126 | A given speaker name wins. Otherwise, if the last path component (after turning `\` into `/`) has an underscore, the identity is the last `/`-component of the text before the path's first underscore. Otherwise it is `none`. |
| LabFile.SpeakerFromFileName | cube/trainer.py:123-124 | When no directory of the path has an underscore, the identity is the file name's text before its first underscore. |
| LabFile.SpeakerFromDirectory | cube/trainer.py:124 | When a top-level directory name has an underscore and the file name also has one, the identity comes from that directory, not from the file name. Without an underscore in the file name the identity is `none`, because only the last component is tested. |
| LabFile.LabLines | cube/trainer.py:103-133 | The label file has a `START` row, then one `symbol TAB SPEAKER:id TAB CASE:…` row per character of the older-normalised first line, then a `STOP` row. |
| LabFile.LabLinesAreTokenRows | cube/trainer.py:113-129 | Row `i` of the label file is token `i` of `get_phone_input_from_text` for the same line and speaker, written with its fields joined by tabs. |
| LabFile.LabTextLines | cube/trainer.py:113-129 | When no row holds a newline, splitting the written file on newlines gives back the rows, plus the empty text after the final newline. |
| Corpus.BaseName | cube/trainer.py:150 | `file[:-4]` drops the four-character extension. It is empty for a shorter name. |
| Corpus.ScanFolder | cube/trainer.py:149-155 | The scan keeps a base name exactly when both its `.txt` and its `.wav` exist. Each base name is kept once, in the order of its first occurrence in the listing. |
| Corpus.ZeroPad5Value | cube/trainer.py:194 | `{:05d}` loses nothing: reading the padded numeral back gives the counter. |
| Corpus.NumberedNamesDistinct | cube/trainer.py:194-196 | Different counters give different `prefix_NNNNN` names, including counters past 99999. |
| Corpus.NumberedNameCounter | cube/trainer.py:194 | The counter can be read back from a `prefix_NNNNN` name: the digits after `prefix_` denote it. |
| Corpus.PrepareFolder | cube/trainer.py:149-203 | One folder's scan followed by its processing loop: the kept base names are the paired scan of the listing, the counter advances by the number of kept examples, and each example is named and given its label source from its own counter value. |
| Corpus.NumberExamples | cube/trainer.py:180-203 | The counter goes up by one before each example. Example `i` of a folder is named after `counter0 + i + 1`, or after its base name when there is no prefix. Its label file is copied when `<base>.lab` exists and created otherwise. |
| Corpus.PrepareCorpus | cube/trainer.py:136-245 | Both folders are scanned. Training examples are numbered from 1 and development examples continue after them. `total_files` ends at the number of kept examples. With a prefix, no two examples share an artifact name. |
| Corpus.NumberedTargetsDistinct | cube/trainer.py:181-238 | One counter shared by the training and development loops gives every example of both folders its own name. |
| Spectrogram.PixelCellInverse | cube/trainer.py:96 | `(x, y) ↦ (H-1-y, x)` and `(row, col) ↦ (col, H-1-row)` undo each other and map the `W×H` cells exactly onto the `H×W` pixels. |
| Spectrogram.PixelOfInjective | cube/synthesis.py:78 | No two cells are drawn at the same pixel. |
| Spectrogram.WriteOrder | cube/trainer.py:91-96 | The `k`-th write of the nested loops goes to the pixel of cell `(k / H, k mod H)`. There are `W·H` writes. |
| Spectrogram.WritesCoverOnce | cube/synthesis.py:73-78 | The loops write every pixel of the image exactly once, and never write outside it. |
| Spectrogram.Render | cube/trainer.py:86-96 | Starting from a blank bitmap, the nested loops produce exactly the image whose pixel `(r, c)` shows cell `(c, H-1-r)`. No pixel stays blank or is overwritten. |
| Phases.PhaseDigitRoundTrip | cube/trainer.py:26-29 | The option values `1`–`4` and the four phases correspond one to one. Any other value names no phase. |
| Phases.Dispatch | cube/trainer.py:348-355 | At most one phase runs. Phase `p` runs exactly when the option is set to `p`'s digit. Nothing runs when the option is unset or names no phase. |

## Left out

- File, audio and image I/O are out of scope: opening, reading and writing files, copying files, `read_wave`/`write_wave`, `melspectrogram`, `array2file` and saving the PNG. File contents are parameters, and the folder is a listing plus a set of existing names.
- The neural models and their training are out of scope: `load_encoder`, `load_vocoder`, `synthesize`, and phases 2–4 beyond their selection. They are foreign code with no deterministic contract here.
- The option parser (`optparse`) is not modelled. `Phases.Dispatch` accepts any option value, although the parser already rejects values outside `1`–`4`.
- Pixel colours are not modelled: min–max scaling in `trainer.py`, clipping in `synthesis.py` and the `uint8` conversion are floating-point. `Spectrogram.Render` carries the cell values through unchanged as an opaque type `V`.
- Spectrogram.Render: does not model the `ValueError` that `mgc.min()` raises in `render_spectrogram` for a spectrogram with no frames or no bands. `Render` returns the empty-sized image there, as the drawing loops of `_render_spectrogram` do.
- Case mapping covers the ASCII letters only. Python's `str.lower`/`str.upper` also map non-ASCII letters, and a few of them change length. For those characters, `Phones.CaseStyle` and `Phones.CharToken` do not model the Python result.
- Text-mode universal-newline translation (`\r\n` to `\n`) is not modelled. The file text is taken as already translated, with `\n` line ends.
- An empty text is not an error. `get_phone_input_from_text` has no empty-input check and returns just `START` and `STOP`, so `Phones.PhoneInput` of the empty text is `[START, STOP]`.
- The progress messages written to `stdout` are left out.
- `io_modules.dataset.PhoneInfo` and `Dataset` are not part of this model. `PhoneInfo` is represented by its four constructor fields.
