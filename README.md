# Pixabay image fetcher, modelled in Dafny

The program reads a comma-separated list of image descriptions, a crop size
and a number of images per description. For each description it asks the
Pixabay search API for photos. It downloads every image it has not already
saved during the run, resizes and crops it, and saves it under `images/`
with a name made from the description and the Pixabay identifier. It
returns a mapping from each description to the paths saved for it, and
waits a fixed delay after each description.

This project models that core (`main.py`) and proves what it guarantees:

- `Text.dfy` holds the Python string operations it relies on:
  - `str.strip` with Python's full set of whitespace characters;
  - `str.split` on one character, with `join` as its inverse;
  - `str(int)`, `str.isdigit` and `int(str)`.
- `Filename.dfy` models `generate_filename`. The description is made safe by
  three chained replacements, then combined with the identifier.
- `Inputs.dfy` models how input becomes run parameters:
  - the page-size clamp `min(per_keyword, 20)`;
  - parsing of the three answers read by the script's entry point.
- `Pipeline.dfy` models the rest:
  - the search client's request and response handling (`fetch_images_from_pixabay`);
  - the orchestrator `process_images`, as a method with the program's two
    nested loops;
  - the entry point `RunScript`.

The network is modelled as two functions passed in with the run's
parameters (`Env`):
- `search` maps a query to a response (status and, if present, the `hits`
  list);
- `transform` says whether downloading, resizing, cropping and saving one
  image produced the file.

The orchestrator returns its mapping together with its observable effects:
- one `Attempt` per call of the image transformer, in call order (the files
  written are the attempts marked saved);
- the number of delays.

The method is proved equal to a specification by folds (`Run`, `RunFirst`,
`ProcessFirst`). The folds take their step as a parameter, so the run-level
properties are proved for every step with the relevant properties, and the
program's own steps are then shown to have them (`AttemptsBehave`,
`ProcessBehaves`).

Two behaviours of `main.py` are easy to misread:
- One might expect an image found for several descriptions to be listed
  under the first of them in input order. The code lists it under the first
  description whose download of it succeeded, because a failed download
  marks nothing as seen (`FailedDownloadRetriedScenario`).
- A description that occurs twice keeps the list of its last occurrence.
  That list may be empty although files were saved for the earlier one
  (`RepeatedDescriptionScenario`, `LastOccurrenceWins`).

## Model

| member | source | states |
|---|---|---|
| Text.TrimStartSpec | main.py:79 | `lstrip` removes exactly a whitespace-only prefix; what remains is empty or starts with a non-whitespace character |
| Text.TrimEndSpec | main.py:79 | `rstrip` removes exactly a whitespace-only suffix; what remains is empty or ends with a non-whitespace character |
| Text.StripSpec | main.py:79 | `strip` keeps the slice between a whitespace-only prefix and a whitespace-only suffix, and neither end of the result is whitespace |
| Text.StripIdempotent | main.py:79 | stripping twice is stripping once |
| Text.StripAllWhitespace | main.py:79 | a piece strips to the empty description exactly when it is all whitespace |
| Text.StripPadded | main.py:79 | any whitespace around a stripped string, empty or not, is removed again |
| Text.Split | main.py:79 | `split(sep)` yields one more piece than there are separators, so an input without commas gives one description |
| Text.SplitPartsNoSep | main.py:79 | no piece of a split holds the separator |
| Text.JoinSplit | main.py:79 | joining the pieces of a split with the separator gives the input back |
| Text.SplitJoin | main.py:79 | splitting a join of separator-free pieces gives the pieces back |
| Text.SplitPrefix | main.py:79 | a separator-free piece followed by the separator splits off as the first piece |
| Text.NatToString | main.py:40 | `str(n)` of a natural number is a non-empty digit string with no leading zero except for 0 |
| Text.IntToString | main.py:40 | `str(i)` is non-empty and holds only digits and the minus sign |
| Text.NatToStringRoundTrip | main.py:40 | the decimal digits of `str(n)` have value n |
| Text.DigitsToStringRoundTrip | main.py:40 | every digit string without a leading zero is `str(n)` of its value, so decimal strings and naturals correspond one to one |
| Text.ParseInt | main.py:83 | `int(s)` succeeds only on input that is not blank after stripping and holds no information separator (U+001C..U+001F) |
| Text.InfoSeparatorRejected | main.py:83 | `int` rejects a number preceded by an information separator, though `strip` removes that separator |
| Text.NoBreakSpaceSkipped | main.py:83 | `int` skips whitespace above U+007E, such as a trailing no-break space, and reads the number |
| Text.DigitStringParses | main.py:87 | `int` reads a plain digit string as its decimal value |
| Text.NegatedDigitStringParses | main.py:83 | `int` reads a minus sign followed by digits as the negated value |
| Text.IntToStringRoundTrip | main.py:40 | `int(str(i)) == i` for every integer (CPython's 4300-digit limit is not modelled) |
| Text.IntToStringInjective | main.py:40 | distinct identifiers have distinct decimal forms |
| Filename.Sanitize | main.py:39 | the safe description is the three replacements in turn (space to `_`, `"` removed, `'` removed); it holds no space and no quote; its length is in `SanitizeSafe` and its per-character meaning in `SanitizeCharwise` |
| Filename.ReplaceChar | main.py:39 | after `replace(c, t)` with `c` not in `t`, `c` no longer occurs |
| Filename.ReplaceCount | main.py:39 | `replace` keeps the count of uninvolved characters; one-for-one replacement keeps the length, and deletion shortens by the number deleted |
| Filename.SanitizeSafe | main.py:39 | the safe description has no space and no quote of either kind, and is shorter than the description by exactly the number of quotes |
| Filename.SanitizeCharwise | main.py:39 | the three chained replacements equal a character-by-character reference definition (space to `_`, quotes dropped, all else kept) |
| Filename.SanitizeFixpoint | main.py:39 | a description is left unchanged exactly when it holds no space and no quote |
| Filename.SanitizeIdempotent | main.py:39 | sanitizing twice is sanitizing once |
| Filename.SanitizeAppend | main.py:39 | sanitizing works piece by piece on a concatenation |
| Filename.SanitizeDropsQuote | main.py:39 | a quote anywhere in a description does not change its safe form (`A "Cat"` and `A Cat` share it) |
| Filename.SanitizeSpaceIsUnderscore | main.py:39 | a space and an underscore at the same place give the same safe form, so such descriptions share file stems |
| Filename.SanitizeTwoWords | main.py:39 | two plain words joined by a space become the words joined by `_` |
| Filename.GenerateFilename | main.py:37-40 | the path is `{base}/{safe description}-pixabay-{id}{ext}`: it starts with the base directory and `/` and is longer than base, marker and extension together; its full shape is in `FilenameShape`, and when two paths coincide is in `FilenameInjective` |
| Filename.FilenameShape | main.py:37-40 | the path is the base directory, `/`, a stem starting with the safe description and holding no space or quote, then the extension |
| Filename.StemSplit | main.py:40 | a stem `safe-pixabay-id` splits back into safe description and identifier in exactly one way |
| Filename.FilenameInjective | main.py:37-40 | two paths under the same base and extension are equal exactly when the identifiers are equal and the safe descriptions are equal |
| Inputs.PerPage | main.py:49 | the page size is the requested count when that is below 20 and 20 otherwise, so it never exceeds 20 |
| Inputs.StripAll | main.py:79 | each piece is stripped, in order, one output per piece |
| Inputs.ParseDescriptions | main.py:79 | one description per comma-separated piece (commas + 1); description i is the i-th piece stripped, so it is free of commas and of surrounding whitespace; empty pieces are kept |
| Inputs.ParseDescriptionsRoundTrip | main.py:79 | a non-empty list of stripped, comma-free descriptions, empty ones included, written with commas and any whitespace of its own before and after each, reads back as the same list |
| Inputs.TwoDescriptionsParse | main.py:79 | `first,<whitespace>second` reads back as the two descriptions, either of them possibly empty |
| Inputs.ParseEach | main.py:83 | `map(int, pieces)` succeeds exactly when every piece parses, and then holds each piece's value in order |
| Inputs.ParseCropSize | main.py:83 | no `x` gives the default (1200, 628); otherwise the size has one integer per `x`-separated piece (at least two), and a failure (ValueError) happens exactly when some piece is not an integer |
| Inputs.CropSizeRoundTrip | main.py:83 | `WxH` written in decimal reads back as [W, H], negative values included |
| Inputs.CappedCount | main.py:87 | `min(n, 20)`: the count is n when below 20 and 20 otherwise |
| Inputs.ParseNumImages | main.py:86-87 | the count is between 0 and 20: 1 unless the stripped answer is a digit string, and then `min(int(stripped answer), 20)` |
| Inputs.NumImagesRoundTrip | main.py:86-87 | a decimal count with any whitespace before it and any after it, each possibly empty, reads back capped at 20 |
| Inputs.ExampleAnswers | main.py:78-87 | the answers `first, second`, `WxH` and a decimal count give the two descriptions, [W, H] and the count capped at 20 |
| Pipeline.BuildQuery | main.py:45-50 | the query asks for photos matching the description; the page size is the requested count when that is at most 20, and 20 when more are requested |
| Pipeline.Candidates | main.py:52-56 | a 200 response gives the (URL, id) of every hit in order, and none when `hits` is absent; any other status gives none |
| Pipeline.FetchImages | main.py:42-56 | `fetch_images_from_pixabay` sends `BuildQuery`'s query and reads the response with `Candidates`: nothing for a non-200 status or a body without `hits`, else one candidate per hit (per-hit fields in `Candidates`) |
| Pipeline.CandidateStep | main.py:66-71 | one inner iteration: a seen identifier is skipped with no effect; otherwise exactly one transformer call is logged, and the identifier becomes seen exactly when it saved; the invariant it keeps is in `CandidateStepConsistent` and `CandidateStepEffects` |
| Pipeline.DescriptionStep | main.py:72-73 | one outer iteration: the description gets an entry, every other entry is unchanged, and one more delay is counted; over the run this gives `RunShape` and `LastOccurrenceWins` |
| Pipeline.ProcessImages | main.py:58-74 | the two loops compute exactly the reference fold `Run` (mapping and transformer calls), with one delay per description |
| Pipeline.CandidateStepConsistent | main.py:66-71 | one candidate keeps the invariant: the seen set is the set of saved identifiers, and no call repeats a saved identifier |
| Pipeline.BatchConsistent | main.py:65-71 | a description's inner loop keeps that invariant |
| Pipeline.BatchWellNamed | main.py:67-68 | every transformer call of the inner loop saves to the file name built from its description and identifier |
| Pipeline.CandidateStepEffects | main.py:66-71 | one candidate only appends to the calls, with a call for the current description, and appends exactly the path it saved |
| Pipeline.BatchEffects | main.py:64-71 | a description's list holds exactly the paths its own successful calls saved, in call order, and the call log only grows |
| Pipeline.SeenWhenNotTried | main.py:66 | before a candidate, its identifier is seen exactly when it is skipped |
| Pipeline.BatchKeeps | main.py:64-71 | the inner loop keeps, in search order, exactly the candidates that were not seen before, not beaten by an earlier saved candidate with the same id, and saved; afterwards every saved id is seen |
| Pipeline.RunConsistent | main.py:61-73 | the seen-set invariant holds after every description |
| Pipeline.RunWellNamed | main.py:67 | every call of the run saves to the name built from its description and identifier |
| Pipeline.RunShape | main.py:62-73 | after n descriptions the mapping's keys are exactly those descriptions, and there have been n delays |
| Pipeline.LastOccurrenceWins | main.py:72 | a description's entry is the list produced by its last occurrence |
| Pipeline.AttemptsBehave | main.py:66-69 | trying a candidate calls the transformer for its own id, under its description and its generated file name, and saves exactly when the transformer succeeds |
| Pipeline.ProcessBehaves | main.py:62-72 | processing a description keeps the seen-set invariant and the naming of files |
| Pipeline.SavedAtMostOnce | main.py:66-71 | across the run an identifier is saved at most once and no later call is made for it, so no two saved files share a path |
| Pipeline.SeenOnlyWhenSaved | main.py:69-71 | an identifier is seen exactly when some call saved it, so a failed download marks nothing as seen |
| Pipeline.ResultsCoverDescriptions | main.py:62-73 | the mapping has a key exactly for each description in the input, and there is one delay per description |
| Pipeline.DescriptionEntry | main.py:62-72 | a description's entry is, in search order, the paths of the candidates not saved earlier in the run that succeed and are not beaten by an earlier duplicate; all its calls carry the description |
| Pipeline.SharedImageScenario | main.py:62-72 | an image returned for two descriptions is downloaded once and listed only under the first |
| Pipeline.RepeatedDescriptionScenario | main.py:72 | a repeated description whose second search finds only saved images ends with an empty list, though its file was written |
| Pipeline.FailedSearchScenario | main.py:52-56 | a non-200 search gives its description an empty list and does not disturb the next description |
| Pipeline.FailedDownloadRetriedScenario | main.py:68-71 | an image whose download failed for one description is tried again, and saved, for a later one |
| Pipeline.TwoDescriptionsScenario | main.py:58-74 | two descriptions with one distinct, downloadable image each map to their one file each |
| Pipeline.RunScript | main.py:76-90 | the entry point fails (ValueError) exactly when the crop size does not parse, and otherwise returns the orchestrator's mapping for the parsed answers |
| Pipeline.TwoWordFileName | main.py:39-40 | a two-word description is saved as `images/<word>_<word>-pixabay-<id>.png` |
| Pipeline.EndToEndScenario | main.py:76-90 | answers `first, second`, `WxH` and a count, with one downloadable image per search, map each description to its one file |

## Left out

- HTTP requests, JSON decoding, the Pixabay API key and `.env` loading are left out. The search endpoint is a function parameter (`Env.search`) that gives a status and an optional `hits` list.
- A 200 response whose body is not JSON, or a hit without `webformatURL` or `id`, raises in Python. Those failures are not modelled; every hit is assumed well formed, with an integer `id`. Python would also accept an `id` given as a string: a hit with id `1` and one with id `"1"` would then be different identifiers saving to the same path, which `SavedAtMostOnce`'s statement about paths does not cover.
- Pipeline.ProcessImages: the stand-ins for the network always answer. In Python, a connection error in `requests.get` (main.py:18, main.py:51) or an undecodable image payload in `Image.open` (main.py:20) raises out of `process_images`, which has no handler. The run then ends with no mapping. The model always completes and returns a mapping.
- Pipeline.ProcessImages: `search` and `transform` are fixed functions of their arguments. A retry with the same URL, size and path gets the same answer: a duplicate candidate after a failed download, or a repeated description. A repeated description's second search also returns the same response as its first.
- Pipeline.ProcessImages: a transformer that raises after a successful download is not modelled. `Sanitize` keeps `/`, so the description `AC/DC` gives `images/AC/DC-pixabay-<id>.png`, a path in a subdirectory that main.py:31-32 never creates; `image.save` (main.py:33) then raises. Pillow's resize (main.py:25) also raises on a zero width or height, as for the crop answer `0x400`. Either ends the Python run with no mapping; in the model `transform` always answers, true or false.
- `resize_and_crop_image` is left out: the download, Pillow's resize and crop with floating-point geometry, `os.makedirs` and saving the PNG. It is a function parameter (`Env.transform`) that says whether the file was saved. Because `save_path` is never empty, "the returned path is truthy" is the same as "the file was saved".
- `time.sleep(60 / rate_limit)` is modelled as a delay count. The delay's length and the `rate_limit` parameter are left out. The script never passes `rate_limit`, so its default of 100 applies.
- `warnings.simplefilter`, the error message printed on a failed search, `input()` and the final `print` are left out. The three answers are parameters of `RunScript`, and its result is what would be printed.
- Pipeline.ProcessImages: the mapping's insertion order is not modelled. Dafny maps are unordered, so the printed order of keys is not stated.
- Pipeline.RunScript: the crop size is a sequence of integers, not a tuple. A crop size with three or more parts is passed through unchanged, as in Python.
- Text.ParseInt: no limit on the number of digits. CPython 3.11 and later refuse (ValueError) a string of more than 4300 digits, leading zeros included, and `str` refuses to produce one; the model reads and writes decimal strings of any length, so `DigitStringParses`, `IntToStringRoundTrip` and `NatToStringRoundTrip` hold here for lengths where CPython raises.
- Text.ParseInt: reads only optional whitespace, a sign and ASCII digits. Python's `int` also accepts underscores between digits and non-ASCII decimal digits; those inputs map to failure here. Its whitespace rule is modelled: the six ASCII whitespace characters and every whitespace character above U+007E are skipped around the number, and an information separator (U+001C..U+001F) anywhere makes it fail.
- Inputs.ParseNumImages: only ASCII digits count as digits. Python's `isdigit` also accepts other Unicode digits. For some of them, such as superscript two, `int` then raises and the script stops; that path is not modelled.
- Inputs.ParseNumImages: an answer of more than 4300 ASCII digits passes `isdigit` and then makes `int` raise, which stops the script; the model returns 20 for it instead, so `Pipeline.RunScript` returns a mapping where the script ends without one.
- Inputs.ParseCropSize: a piece of more than 4300 digits makes `int` raise in CPython; the model parses it, so `Pipeline.RunScript` returns a mapping where the script ends with a ValueError.
- Pipeline.EndToEndScenario: the example run (`red car, blue car`, `800x400`, `1`) is stated for arbitrary descriptions, sizes and count, with that run as one instance. The literal strings are not evaluated symbolically.
