# Sized image field: resized names, paths and formats

This project models the path and format helpers of the sized-image field
(`sizedimagefield/utils.py`) in Dafny and proves properties of them. The
field stores resized variants of uploaded images, and these helpers decide
where each variant lives:

- `get_resized_filename` splits a file name at its last dot into stem and
  extension. A name without a dot keeps the whole name as stem and gets the
  extension `jpg`. The result is `<stem>-<key>-<W>x<H>.<ext>`, with W and H
  rendered by `%d`.
- `get_resized_path` splits the image path into folder and file name (POSIX
  `os.path.split`), derives the resized name and joins `__sized`, the folder
  and that name (POSIX `os.path.join`). When a base URL is given, it resolves
  the joined path against it. Finally it deletes every space.
- `get_image_format_from_file_extension` looks the extension up in the
  five-entry table of accepted formats (`png`, `jpe`, `jpeg`, `jpg`, `gif`).
  Any other extension, including an upper-case one, gets JPEG.

Files:

- `text.dfy` (module `Text`) holds the Python string primitives the helpers
  use: `rfind` of one character, `rsplit(c, 1)`, `replace(c, '')` and the `%d`
  rendering of integers.
- `posixpath.dfy` (module `PosixPath`) holds `os.path.split` and
  `os.path.join` with the POSIX rules. Split cuts after the last `/`, and the
  head loses its trailing slashes unless it is made only of slashes. Join
  appends each component in turn. An absolute component discards what came
  before it, and a `/` is inserted only when the path so far is non-empty and
  does not end with one.
- `utils.dfy` (module `SizedImageUtils`) holds the constants, the three
  helpers, and the corrected placeholder branch (see Findings).
- `scenarios.dfy` (module `SizedImageScenarios`) holds concrete cases: a
  leading dot, a trailing dot, the empty name, a negative width, and the
  typical upload `images/photo.jpg` at 100x200 under the key `thumb`.

Modelling choices:

- Everything is a pure `function`, as in the source. No helper keeps state
  or loops.
- `path_to_image` is an `Option<string>`. Python's falsy test becomes
  `IsTruthy`: neither None nor the empty string.
- `urljoin(base_url, filepath_to_uri(joined_path))` is a function parameter
  `resolveUrl`. The model proves only what holds whatever that call returns:
  the result is built from it and has its spaces deleted.
- Dimensions are unbounded `int`, and `%d` is modelled for every integer. The
  limit some Python releases put on the number of digits is left out (see
  Left out).

Consequences of the code as written:

- The `GLOBAL-PLACEHOLDER` folder at sizedimagefield/utils.py:50 shows that
  the empty-path branch was meant to produce a placeholder path. The code
  raises `NameError` instead; see Findings.
- A derived path does not always start with `__sized/`. With an absolute
  folder (`/media/a.jpg`), `os.path.join` discards `__sized` and the result
  is `/media/a-<key>-<W>x<H>.jpg`. `ExpectedJoin` states this case and
  `SizedImageUtils.ResizedPathWithoutBaseUrl` proves it.
- Nothing checks that a dimension is non-negative. A negative width is
  rendered with its sign, which gives a doubled dash (`a-k--5x2.png`).

## Model

| member | source | states |
|---|---|---|
| Text.LastIndexOf | sizedimagefield/utils.py:32 | the index of the last occurrence of the character: None exactly when it is absent; otherwise the character is there and not after it |
| Text.RSplitOnce | sizedimagefield/utils.py:32 | `rsplit(c, 1)`: None exactly when `c` is absent; otherwise the text is left + c + right, and right has no `c` |
| Text.RSplitOnceUnique | sizedimagefield/utils.py:32 | any cut of the text at a `c` whose right part has no `c` is the one `rsplit` returns |
| Text.SplitAtFirstUnique | sizedimagefield/utils.py:36 | two cuts at a `c` that neither left part contains are the same cut |
| Text.SameContextSameMiddle | sizedimagefield/utils.py:36 | equal texts with the same prefix and suffix have equal middles |
| Text.RemoveAll | sizedimagefield/utils.py:67 | `replace(c, '')`: no `c` is left, and the result is no longer than the input |
| Text.RemoveAllCounts | sizedimagefield/utils.py:67 | every other character keeps its number of occurrences; only `c` is removed |
| Text.RemoveAllAppend | sizedimagefield/utils.py:67 | deletion distributes over concatenation |
| Text.RemoveAllIdentity | sizedimagefield/utils.py:67 | the text is unchanged if and only if it has no `c` |
| Text.RemoveAllIdempotent | sizedimagefield/utils.py:67 | deleting twice gives the same as deleting once |
| Text.DigitChar | sizedimagefield/utils.py:36 | a digit character whose value is the given digit |
| Text.NatToDecimal | sizedimagefield/utils.py:36 | non-empty, all digits, with no leading zero except for 0 itself |
| Text.IntToDecimal | sizedimagefield/utils.py:36 | `%d`: non-empty, starts with '-' exactly for negatives, and is digits otherwise |
| Text.NatToDecimalRoundTrip | sizedimagefield/utils.py:36 | reading the digits back gives the number |
| Text.IntToDecimalRoundTrip | sizedimagefield/utils.py:36 | parsing the `%d` rendering, sign included, gives the integer back |
| Text.IntToDecimalInjective | sizedimagefield/utils.py:36 | distinct integers have distinct renderings |
| PosixPath.RStripSlashes | sizedimagefield/utils.py:52 | a prefix of the input that does not end in '/', followed in the input only by slashes |
| PosixPath.Split | sizedimagefield/utils.py:52 | the tail is the suffix after the last '/' and contains no '/'; what precedes it is empty or ends in '/' |
| PosixPath.SplitHead | sizedimagefield/utils.py:52 | the head is what precedes the tail less its trailing slashes, unless that text is only slashes, in which case the head keeps it whole |
| PosixPath.SplitKeepsAbsentChar | sizedimagefield/utils.py:52 | a character absent from the path is absent from both parts |
| PosixPath.SplitDropsOneSlash | sizedimagefield/utils.py:52 | when the tail is preceded by a single '/', a head that is not all slashes is what precedes the tail less that '/' |
| PosixPath.SplitJoinWithSingleSeparator | sizedimagefield/utils.py:52-60 | when the tail is preceded by a single '/' (or only by slashes), joining the head and tail gives the path back |
| PosixPath.SplitJoinShortens | sizedimagefield/utils.py:52-60 | when two or more slashes separate the head from the tail, the join is shorter than the path |
| PosixPath.SplitJoinRoundTrip | sizedimagefield/utils.py:52-60 | joining the head and tail of a split gives the path back if and only if the tail is preceded by a single separating '/' or only by slashes |
| PosixPath.NoDoubleSlashSingleSeparator | sizedimagefield/utils.py:52 | a path with no doubled slash anywhere meets that condition, so it survives the round trip |
| PosixPath.JoinStep | sizedimagefield/utils.py:56-60 | one join step: the result ends with the component; an absolute component replaces the path; otherwise the path is kept as a prefix |
| PosixPath.Join | sizedimagefield/utils.py:56-60 | the result ends with the last component, and keeps the first one as a prefix when no component is absolute |
| PosixPath.JoinThree | sizedimagefield/utils.py:56-60 | joining three components, case by case: empty middle, absolute middle, middle ending in '/', plain middle |
| SizedImageUtils.ImageFormatFromExtension | sizedimagefield/utils.py:69-79 | always PNG, GIF or JPEG; PNG exactly for "png", GIF exactly for "gif" |
| SizedImageUtils.ImageFormatIsCaseSensitive | sizedimagefield/utils.py:76-79 | an extension with an upper-case letter (such as "PNG") gets JPEG |
| SizedImageUtils.ImageFormatAgreesWithTable | sizedimagefield/utils.py:13-23 | the five table extensions: "png" gets PNG, "gif" gets GIF, and "jpe", "jpeg" and "jpg" get JPEG |
| SizedImageUtils.StemAndExtension | sizedimagefield/utils.py:31-35 | with a dot, the name is stem + "." + extension and the extension has no dot; without one, the whole name and "jpg" |
| SizedImageUtils.StemAndExtensionWithDot | sizedimagefield/utils.py:31-32 | a name written as stem + "." + ext with a dot-free ext splits into exactly that stem and ext |
| SizedImageUtils.NoMarkInDecimal | sizedimagefield/utils.py:36 | a rendered dimension contains no 'x', '.', '/' or space |
| SizedImageUtils.DimensionsSegment | sizedimagefield/utils.py:36 | the `WxH` segment never holds a dot, a slash or a space, and is at least three characters long; `DimensionsSegmentInjective` proves that it determines both dimensions |
| SizedImageUtils.DimensionsSegmentInjective | sizedimagefield/utils.py:36 | distinct (width, height) pairs give distinct `WxH` segments |
| SizedImageUtils.ResizedFilename | sizedimagefield/utils.py:25-42 | the resized name ends with "." and the source's extension (or "jpg"); `ResizedFilenameWithDot`, `ResizedFilenameWithoutDot`, `ResizedFilenameSplitsBack` and `ResizedFilenameDistinguishesSizes` pin the rest |
| SizedImageUtils.ResizedFilenameSplitsBack | sizedimagefield/utils.py:25-42 | splitting the resized name at its last dot gives stem-key-WxH and the source's extension |
| SizedImageUtils.ResizedFilenameWithDot | sizedimagefield/utils.py:31-42 | a name with a dot gives the text before its last dot, "-", key, "-", WxH, ".", and the text after the last dot |
| SizedImageUtils.ResizedFilenameWithoutDot | sizedimagefield/utils.py:33-42 | a name without a dot is kept whole and gets ".jpg" |
| SizedImageUtils.ResizedFilenameOfEmpty | sizedimagefield/utils.py:33-42 | the empty name is accepted and gives "-key-WxH.jpg" |
| SizedImageUtils.ResizedFilenameDistinguishesSizes | sizedimagefield/utils.py:36-42 | one file under one key never gets the same name for two different sizes |
| SizedImageUtils.ResizedFilenameKeepsFormat | sizedimagefield/utils.py:25-42 | the variant's extension maps to the same image format as the source's |
| SizedImageUtils.ResizedFilenameIsRelative | sizedimagefield/utils.py:36-42 | a name not starting with '/' gives a resized name not starting with '/' |
| SizedImageUtils.ResizedFilenameWithoutSpaces | sizedimagefield/utils.py:36-42 | a name and key without spaces give a resized name without spaces |
| SizedImageUtils.AssemblePath | sizedimagefield/utils.py:54-67 | the joined (and possibly resolved) path never contains a space |
| SizedImageUtils.ResizedPath | sizedimagefield/utils.py:44-67 | fails exactly for a None or empty path, with NameError on SIZEDIMAGEFIELD_PLACEHOLDER_FILENAME; otherwise the path contains no space |
| SizedImageUtils.ResizedPathWithBaseUrl | sizedimagefield/utils.py:62-67 | with a base URL the resolver receives exactly the path built without one (`ExpectedJoin` of the folder and the resized name), and spaces are deleted from what it returns |
| SizedImageUtils.JoinUnderDirectory | sizedimagefield/utils.py:56-60 | joining `__sized`, a folder as split returns it and a relative name gives `ExpectedJoin`: `__sized/name`, `__sized/folder/name`, or the absolute folder in place of `__sized` |
| SizedImageUtils.FolderEndsWithSlash | sizedimagefield/utils.py:52 | a folder from split ends in '/' exactly when it is made only of slashes |
| SizedImageUtils.ResizedPathWithoutBaseUrl | sizedimagefield/utils.py:44-67 | without a base URL the result is `ExpectedJoin(folder, resized name)` with spaces deleted, for every non-empty path |
| SizedImageUtils.ResizedPathOfParts | sizedimagefield/utils.py:52-67 | the same, for a path whose split is given |
| SizedImageUtils.AssembleUnderDirectory | sizedimagefield/utils.py:54-67 | assembling a folder and a '/'-free file name without a base URL gives `ExpectedJoin` with spaces deleted |
| SizedImageUtils.ResizedPathRelativeFolder | sizedimagefield/utils.py:52-60 | a relative, non-empty folder gives `__sized/folder/resized name`, spaces deleted |
| SizedImageUtils.ResizedPathNoFolder | sizedimagefield/utils.py:52-60 | a path without '/' gives `__sized/resized name`, spaces deleted |
| SizedImageUtils.ResizedPathTrailingSlash | sizedimagefield/utils.py:52-54 | a path ending in '/' has an empty file name, so the resized name is "-key-WxH.jpg" |
| SizedImageUtils.ExpectedJoinWithoutSpaces | sizedimagefield/utils.py:56-60 | joining space-free parts adds no space |
| SizedImageUtils.ResizedPathWithoutSpaces | sizedimagefield/utils.py:66-67 | when path and key have no spaces, nothing is deleted and the result is the joined path itself |
| SizedImageUtils.EmptyPathRaisesNameError | sizedimagefield/utils.py:48-50 | as written, "" and None both fail |
| SizedImageUtils.ResizedPathWithPlaceholder | sizedimagefield/utils.py:44-67 | the corrected helper: never contains a space, and agrees with `ResizedPath` on every non-empty path |
| SizedImageUtils.PlaceholderPathFamily | sizedimagefield/utils.py:48-60 | corrected: None and "" give the same path, `__sized/GLOBAL-PLACEHOLDER/<resized placeholder name>` with spaces deleted |
| SizedImageUtils.JoinUnderPlaceholder | sizedimagefield/utils.py:50-60 | joining `__sized`, GLOBAL-PLACEHOLDER and a relative name puts '/' between each pair |
| SizedImageScenarios.ResizedFilenameLeadingDot | sizedimagefield/utils.py:32 | ".hidden" has an empty stem: "-k-1x2.hidden" |
| SizedImageScenarios.ResizedFilenameTrailingDot | sizedimagefield/utils.py:32 | "a." has an empty extension: "a-k-1x2." |
| SizedImageScenarios.ResizedFilenameEmptyName | sizedimagefield/utils.py:33-35 | the empty name gives "-k-1x2.jpg" |
| SizedImageScenarios.ResizedFilenameNegativeWidth | sizedimagefield/utils.py:36 | width -5 is rendered with its sign: "a-k--5x2.png" |
| SizedImageScenarios.DimensionsSegmentExample | sizedimagefield/utils.py:36 | 100 and 200 give "100x200" |
| SizedImageScenarios.StemAndExtensionExample | sizedimagefield/utils.py:32 | "photo.jpg" splits into "photo" and "jpg" |
| SizedImageScenarios.LastSlashExample | sizedimagefield/utils.py:52 | the last '/' of "images/photo.jpg" is at index 6 |
| SizedImageScenarios.SplitExample | sizedimagefield/utils.py:52 | "images/photo.jpg" splits into "images" and "photo.jpg" |
| SizedImageScenarios.ResizedFilenameExample | sizedimagefield/utils.py:25-42 | "photo.jpg" at 100x200 under "thumb" gives "photo-thumb-100x200.jpg" |
| SizedImageScenarios.ExpectedJoinExample | sizedimagefield/utils.py:56-60 | folder "images" and that name join to "__sized/images/photo-thumb-100x200.jpg" |
| SizedImageScenarios.ResizedPathExample | sizedimagefield/utils.py:44-67 | "images/photo.jpg" at 100x200 under "thumb", without a base URL, gives "__sized/images/photo-thumb-100x200.jpg" |

## Left out

- `autodiscover` (sizedimagefield/utils.py:81-112) is left out. It imports each installed application's module through Django and restores a global registry on failure, and none of that machinery is part of this model.
- The Python 2/3 import shim and the registry import (sizedimagefield/utils.py:1-9) are left out because they carry no logic.
- `urljoin` and `filepath_to_uri` are not part of this model. They are the parameter `resolveUrl`, so section 5.2 of RFC 3986 (reference resolution) and section 2.1 (percent-encoding) are not modelled.
- SizedImageUtils.ResizedPathWithBaseUrl: states what the resolver receives and that spaces are deleted from its answer, but nothing about the resolved URL itself, because the resolution is foreign code.
- CPython's `posixpath` module is not part of this model. `PosixPath.Split` and `PosixPath.Join` follow its POSIX behaviour for `str` arguments; bytes paths and Windows (`ntpath`) rules are left out.
- `os.path.split` followed by `os.path.join` does not restore a path whose tail follows two or more slashes (`a//b` gives `a/b`), unless only slashes precede the tail (`//b` comes back whole, because the head then keeps them), since otherwise split drops the whole run of separating slashes and join puts back one. `PosixPath.SplitJoinRoundTrip` states exactly which paths come back.
- Text.IntToDecimal: renders integers of any length. CPython 3.11 and later (and the security releases 3.10.7, 3.9.14, 3.8.14 and 3.7.14) raise ValueError when `%d` would produce more than `sys.int_info.default_max_str_digits` (4300 by default) digits; that error is not modelled. Python 2 and older 3.x releases have no such limit.
- Width and height are Python integers. Floats truncated by `%d` and other non-integer dimensions are left out.
- `path_to_image` values that are falsy but not strings (such as `0` or `False`) are not modelled. The model covers None and strings.
- The Python exception raised on an undefined name is modelled as the `Err(NameError(...))` outcome of `ResizedPath`, and no traceback or control transfer is modelled.
- The value of SIZEDIMAGEFIELD_PLACEHOLDER_FILENAME is not defined anywhere in the source. The corrected `ResizedPathWithPlaceholder` takes it as the parameter `placeholderFilename`.

## Findings

| source | as written | input that shows it | evidently intended | confidence | as-written member | corrected member |
|---|---|---|---|---|---|---|
| sizedimagefield/utils.py:49 | the empty-path branch reads SIZEDIMAGEFIELD_PLACEHOLDER_FILENAME, which the module neither defines nor imports, so a falsy path raises NameError | `path_to_image` equal to `""` or `None` | use a fixed placeholder file name in the GLOBAL-PLACEHOLDER folder, so that every missing image shares one path per size and key | high; not executed | SizedImageUtils.EmptyPathRaisesNameError | SizedImageUtils.PlaceholderPathFamily |
