# Block loading and placeholder rendering, modelled in Dafny

This project models the prompt-rendering pipeline of `render.py`. The
pipeline has three parts:

- **Block files.** Named blocks are written inline as `<!name> content <!/name>`.
- **Validator.** `validate_block_file` checks the structure of a block file.
  It reports every problem and does not stop at the first.
- **Loader and renderer.**
  - `loads_blocks` validates every block file, extracts its spans and merges
    them into one mapping. Later spans win.
  - `render` replaces each `${name}` in a template with the block of that
    name, in a single pass. It fails when a block is missing or empty.

Everything is modelled as pure functions over `string` (`seq<char>`) and
`map<string, string>`.

Modules:

- `Wrappers`: `Option` and `Result`.
- `Text`:
  - the character classes (whitespace as `str.isspace` and `\s` see it, and
    the name characters);
  - the greedy run of name characters;
  - `str.strip()` (`Strip`), characterised by what it keeps.
- `Markers`:
  - recognition of `<!name>` and `<!/name>`;
  - `Scan`, the left-to-right, resume-after-match scan that `re.finditer`
    performs.
  `Scan` is proved equal to `EveryPosition`, a reference listing of the
  marker at every offset. This shows that the scan finds exactly the markers
  of a file, in position order.
- `Validate`: `validate_block_file`. Python logs one warning per problem and
  returns a flag. The model returns the warnings as a list of `Diagnostic`
  values next to the flag.
- `Blocks`:
  - `SpanAt` and `ExtractBlocks`: the extraction pattern
    `<!(name)>\s*(.*?)\s*<!/\1>`. At an open marker, the content runs to the
    first later close marker of the same name and is stripped. The search
    then resumes after the close marker.
  - `LastWins`: the dict comprehension.
  - `LoadBlocks`: `loads_blocks` over a list of file contents given in order.
  - `Merge`: the loop that aborts at the first invalid file and otherwise
    overwrites with `update`.
- `Encoding`: block files written from a list of blocks. Writing a file and
  loading it back gives the blocks back, which pins down what extraction and
  validation accept. The module also covers the close-before-open file that
  the validator accepts.
- `Rendering`: `render` and `replace_block` as one pass over the template.
  - At a placeholder, the block's content is emitted and is not scanned
    again.
  - Elsewhere, one character is copied.
  - The first placeholder whose block is missing or empty turns the whole
    result into `Failure(UnresolvedBlock(name))`.
- `Pipeline`: loading a written block file and then rendering any template
  whose placeholders name non-empty blocks of that file.

Two behaviours of the code are worth spelling out, and the model follows the
code in both.

- The pair check is commented "Check for mismatched tag pairs (order
  sensitive)" (render.py:83). It compares only the two lists of names,
  position by position. It never checks that a close marker comes after its
  open marker.
  - `Encoding.CloseBeforeOpenAccepted` proves that `<!/a><!a>` passes
    validation.
  - The same file then loads as an empty mapping, because extraction finds no
    span in it.
- The `ValueError` raised by `replace_block` (render.py:128) names only the
  block, not the template being rendered. `render` is never told the
  template's name; only the file-reading caller knows it.

## Model

| member | source | states |
|---|---|---|
| Text.Strip | render.py:40 | the stripped content starts and ends with a non-whitespace character, or is empty |
| Text.StripKeepsInfix | render.py:40 | stripping keeps a contiguous infix of the text and drops only whitespace before and after it |
| Text.StripCharacterized | render.py:33-40 | any stripped infix with only whitespace around it is what `strip()` returns, so the regex's `\s*` trimming and `.strip()` agree |
| Text.StripIdempotent | render.py:40 | stripping text without outer whitespace changes nothing |
| Markers.MarkerAt | render.py:56-57 | a reported marker really is there: the lead `<!` or `<!/`, a non-empty name of name characters, then `>` |
| Markers.MarkerAtFindsMarker | render.py:56-57 | conversely, every marker at the start of the text is reported, with its name |
| Markers.MarkerNameIsLongestRun | render.py:56-57 | the greedy `[\w\-]+` run of a marker ends exactly at its `>` |
| Markers.MarkerUnique | render.py:56-57 | at most one marker of each kind starts at any position |
| Markers.CloseIsNeverOpen | render.py:56-64 | no position starts both an open and a close marker: `/` is not a name character, so `<!/x>` is never read as an open marker |
| Markers.OpenAndCloseDisjoint | render.py:59-64 | the open-marker list and the close-marker list of a file never share a position |
| Markers.ScanFindsEveryMarker | render.py:59-64 | the `finditer` scan, which resumes after each match, lists the same markers as the reference listing of the marker at every offset |
| Markers.EveryPositionSound | render.py:59-64 | every listed marker starts at its recorded position |
| Markers.EveryPositionComplete | render.py:59-64 | every marker that starts anywhere in the text is listed with its position |
| Markers.EveryPositionSorted | render.py:59-64 | the listing is in strictly increasing position order |
| Markers.MarkersExact | render.py:59-64 | a file's marker list holds exactly the markers starting in it, with their positions, in increasing position order |
| Markers.ScanSkipsPlainText | render.py:59-64 | text without `<` contributes no marker and only shifts later positions |
| Validate.UnmatchedDiagnostics | render.py:72-81 | one warning for each marker whose name is missing from the other kind's names, and only for those; none exactly when every name is present |
| Validate.PairDiagnostics | render.py:87-95 | one warning for each index where the i-th open and i-th close names differ, and only for those; none exactly when all pairs agree |
| Validate.ChecksPassIffNamesEqual | render.py:72-95 | the four checks pass together exactly when the open-name list equals the close-name list |
| Validate.ValidIffNamesAgree | render.py:72-95 | a file is valid exactly when its open names and close names, each in position order, are the same list |
| Validate.ValidIffNoDiagnostics | render.py:69-97 | the result is false exactly when at least one warning is produced |
| Validate.DiagnosticsComplete | render.py:69-97 | every unclosed open, every unopened close, a count mismatch and every mismatched pair is reported, all in one run |
| Validate.DiagnosticsSound | render.py:69-97 | every reported warning names a real problem of one of the four kinds |
| Validate.NoMarkersIsValid | render.py:69-97 | a file without any marker is valid, with nothing reported |
| Blocks.Find | render.py:33 | the lazy `.*?` stops at the earliest occurrence of the close marker, and there is none before it |
| Blocks.FindFirst | render.py:33 | any occurrence with no earlier occurrence is the one found |
| Blocks.SpanAt | render.py:33-40 | a span taken at the start of the text has a well-formed block name and trimmed content, and the search resumes strictly further on |
| Blocks.SpanAtFirstClose | render.py:33-40 | an open marker followed by a close marker of its name yields the span that ends at the first such close marker, with the text between stripped |
| Blocks.SpanAtNone | render.py:33 | no span starts exactly when there is no open marker, or its close marker never follows |
| Blocks.ExtractedBlocksAreTrimmed | render.py:39-42 | every extracted block has a well-formed name and no leading or trailing whitespace |
| Blocks.LastWinsKeys | render.py:39-42 | a file's mapping holds exactly the names of its spans |
| Blocks.LastWinsValue | render.py:39-42 | each name maps to the content of the last span with that name in the file |
| Blocks.FileBlocksTrimmed | render.py:39-42 | every value a file contributes is trimmed and keyed by a well-formed name |
| Blocks.MergeFails | render.py:35-38 | the loop fails exactly when some file is rejected, and it reports the first rejected file with its warnings |
| Blocks.MergeLastWins | render.py:35-43 | the merged keys are those of any file; each key holds the value of the last file that defines it |
| Blocks.ReadBlockFileOutcome | render.py:36-42 | a file is rejected exactly when it is invalid, with its non-empty warnings; otherwise it contributes its blocks |
| Blocks.LoadFailsIffSomeInvalid | render.py:35-38 | the load fails exactly when some file is invalid; the error names the first invalid file and its warnings, and every earlier file is valid |
| Blocks.LoadedNames | render.py:39-43 | a successful load holds exactly the block names that some file defines |
| Blocks.LoadedLastWins | render.py:39-43 | each loaded name has the content from the last file that defines it |
| Blocks.LoadedBlocksTrimmed | render.py:39-43 | every loaded block has a well-formed name and trimmed content |
| Blocks.LoadOneFile | render.py:35-44 | loading one file gives its blocks when it is valid, and its warnings otherwise |
| Encoding.ScanEncoded | render.py:59-64 | a written file's open markers and close markers both carry the blocks' names, in order |
| Encoding.EncodedIsValid | render.py:47-97 | a file written from well-formed blocks passes validation with nothing reported |
| Encoding.ExtractEncoded | render.py:33-42 | extraction reads a written file back as its blocks, contents stripped, for blocks with well-formed names and contents without `<` |
| Encoding.LoadEncoded | render.py:25-44 | loading a written file gives its blocks, last of each name winning, contents stripped, for blocks with well-formed names and contents without `<` |
| Encoding.LoadEncodedRoundTrip | render.py:25-44 | writing blocks with well-formed names and trimmed contents without `<` and loading the file back gives them back, last of each name winning |
| Encoding.ExtractSkipsPlainText | render.py:33-41 | text without `<` yields no span |
| Encoding.CloseThenOpenMarkers | render.py:59-64 | in `<!/a><!a>` the open list is `a` at the second marker and the close list is `a` at offset 0 |
| Encoding.CloseThenOpenExtractsNothing | render.py:33-41 | `<!/a><!a>` yields no span, because no close marker follows the open marker |
| Encoding.CloseBeforeOpenAccepted | render.py:72-97 | the validator accepts `<!/a><!a>`, since it never checks that a close follows its open; loading it gives an empty mapping |
| Rendering.PlaceholderAt | render.py:131 | a reported match really is `${name}` with a name of `[a-zA-Z0-9_-]+` |
| Rendering.PlaceholderAtExact | render.py:131 | the pattern matches at the start of the text exactly when a placeholder starts there, with that name |
| Rendering.PlaceholderIsAlone | render.py:131 | no other placeholder starts inside a placeholder, so matches never overlap |
| Rendering.RenderFailsIffUnresolved | render.py:124-131 | rendering fails exactly when some placeholder names a block that is absent or maps to the empty string |
| Rendering.RenderReportsFirstUnresolved | render.py:124-131 | a failed render names the leftmost placeholder whose block is absent or empty |
| Rendering.RenderIdentity | render.py:131 | a template with no placeholder renders to itself |
| Rendering.RenderWithoutDollar | render.py:131 | a template without `$` renders to itself |
| Rendering.RenderPlainText | render.py:131 | text in which no placeholder of the template starts, stray `$` included, is copied unchanged ahead of the rest of the output |
| Rendering.RenderPlaceholder | render.py:124-131 | a resolved placeholder is replaced by its block's content, verbatim, followed by the rest of the output |
| Rendering.RenderAssembled | render.py:124-131 | for any template split into literal text and placeholders, where no placeholder starts inside the literal text and every placeholder resolves, the output is the template with each placeholder replaced by its block and all other text, stray `$` included, kept in order |
| Rendering.RenderStrayDollar | render.py:131 | a `$` that does not start a placeholder is ordinary text: `$5 ${x}` with `x` bound to `y` renders to `$5 y` |
| Rendering.RenderOnePlaceholder | render.py:124-131 | one placeholder between two `$`-free texts is replaced by its block, and the surrounding text is kept |
| Rendering.RenderGreeting | render.py:112-131 | `Hello ${name}!` with `name` bound to `World` renders to `Hello World!` |
| Rendering.RenderDoesNotRescan | render.py:124-131 | substituted content is not scanned again: a block whose content is itself a placeholder is emitted as that text |
| Pipeline.LoadThenRender | render.py:18-22 | loading a file written from trimmed blocks and rendering any template whose placeholders name non-empty blocks of it, in any order and any number of times, gives the template with each placeholder replaced verbatim by the last block of that name |
| Pipeline.LoadThenRenderInOrder | render.py:18-22 | with distinct non-empty blocks and a template that references them in file order, each followed by a `$`-free separator, the output is the contents joined in that order |

## Left out

- `main`, `render_templates` and `save_rendered_file` (render.py:18-22, 100-109, 134-144) are left out. They read and write files, glob directories in an unspecified order, create directories and print. `LoadBlocks` takes the file contents as a list in the order given.
- The logging set-up and the logging calls (render.py:12-15) are left out. Each warning becomes a `Diagnostic` value. The wording of warnings and error messages is not modelled.
- Text.IsBlockNameChar: Python's `\w` in `[\w\-]` also accepts non-ASCII letters and digits. The model uses the ASCII class `[A-Za-z0-9_]` plus `-`. For files whose marker names hold non-ASCII characters, the model therefore gives different answers from the code: `<!é>` is valid in the model, while the code warns that `é` is opened but not closed and returns False; `<!é>x<!/é>` loads as an empty mapping in the model, while the code loads `{"é": "x"}`. For the same reason, the model's block names and placeholder names are the same character set, and `Pipeline.LoadThenRenderInOrder` relies on that.
- Encoding.Encodable: the written-file lemmas (`Encoding.ExtractEncoded`, `Encoding.LoadEncoded`, `Encoding.LoadEncodedRoundTrip`, `Pipeline.LoadThenRender`) are stated for block contents without `<`, although only contents holding a marker would break the round trip.
- Rendering.RenderError: it carries only the block name. The template name is known only to the file-reading caller.
- The structured (YAML) block encoding, the modification-time cache and the file watcher are not part of the code and are not modelled.
- `test.py` is not part of this model. It only calls third-party template and YAML libraries.
