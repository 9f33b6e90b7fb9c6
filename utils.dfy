/**
 * The path and format helpers of the sized-image field (sizedimagefield/utils.py):
 * the name of a resized variant of an image file, the path under the
 * `__sized` directory where that variant is stored, and the image format
 * (name and MIME type) implied by a file extension.
 */
module SizedImageUtils {
  import opened Text
  import opened PosixPath

  /** Top-level directory holding every resized variant. */
  const DirectoryName: string := "__sized"

  /** Folder used in place of the image's own folder when there is no image. */
  const PlaceholderFolder: string := "GLOBAL-PLACEHOLDER"

  /** Extension given to a file name that has none. */
  const DefaultExtension: string := "jpg"

  // ---------------------------------------------------------------------------
  // Image formats
  // ---------------------------------------------------------------------------

  /** A (format name, MIME type) pair. */
  datatype ImageFormat = ImageFormat(formatName: string, mimeType: string)

  const PNG: ImageFormat := ImageFormat("PNG", "image/png")
  const GIF: ImageFormat := ImageFormat("GIF", "image/gif")
  const JPEG: ImageFormat := ImageFormat("JPEG", "image/jpeg")

  /** The accepted extensions, lower-case only. */
  const AcceptedFileFormats: map<string, ImageFormat> :=
    map["png" := PNG, "jpe" := JPEG, "jpeg" := JPEG, "jpg" := JPEG, "gif" := GIF]

  /**
   * The format for a file extension: PNG for exactly "png", GIF for exactly
   * "gif", and JPEG for everything else (the three JPEG extensions and any
   * unknown one alike).
   */
  function ImageFormatFromExtension(fileExt: string): (r: ImageFormat)
    ensures r == PNG || r == GIF || r == JPEG
    ensures r == PNG <==> fileExt == "png"
    ensures r == GIF <==> fileExt == "gif"
  {
    if fileExt !in AcceptedFileFormats then JPEG else AcceptedFileFormats[fileExt]
  }

  predicate IsUpperAscii(ch: char) {
    'A' <= ch <= 'Z'
  }

  /** The lookup does not fold case: an extension with a capital letter is never PNG or GIF. */
  lemma ImageFormatIsCaseSensitive(fileExt: string, i: nat)
    requires i < |fileExt| && IsUpperAscii(fileExt[i])
    ensures ImageFormatFromExtension(fileExt) == JPEG
  {
    assert fileExt != "png" && fileExt != "gif";
  }

  /** The five extensions of the table: "png" gets PNG, "gif" gets GIF, and the JPEG extensions get JPEG. */
  lemma ImageFormatAgreesWithTable(fileExt: string)
    ensures fileExt == "png" ==> ImageFormatFromExtension(fileExt) == PNG
    ensures fileExt == "gif" ==> ImageFormatFromExtension(fileExt) == GIF
    ensures fileExt in {"jpe", "jpeg", "jpg"} ==> ImageFormatFromExtension(fileExt) == JPEG
  {
  }

  // ---------------------------------------------------------------------------
  // Resized file names
  // ---------------------------------------------------------------------------

  /**
   * `filename.rsplit('.', 1)`, falling back to (filename, "jpg") when the
   * split yields one part only.
   */
  function StemAndExtension(filename: string): (parts: (string, string))
    ensures '.' in filename ==> filename == parts.0 + "." + parts.1 && '.' !in parts.1
    ensures '.' !in filename ==> parts == (filename, DefaultExtension)
  {
    match RSplitOnce(filename, '.')
    case Some(p) => p
    case None => (filename, DefaultExtension)
  }

  /**
   * The `WxH` segment: both dimensions rendered by `%d`, joined by 'x'. It
   * never holds a dot, a slash or a space, so it cannot disturb the later
   * split at the extension's dot, the path split, or the space deletion.
   */
  function DimensionsSegment(width: int, height: int): (r: string)
    ensures |r| >= 3
    ensures '.' !in r && Sep !in r && ' ' !in r
  {
    NoMarkInDecimal(width);
    NoMarkInDecimal(height);
    IntToDecimal(width) + "x" + IntToDecimal(height)
  }

  lemma NoMarkInDecimal(n: int)
    ensures 'x' !in IntToDecimal(n) && '.' !in IntToDecimal(n)
    ensures Sep !in IntToDecimal(n) && ' ' !in IntToDecimal(n)
  {
    var r := IntToDecimal(n);
    forall i | 0 <= i < |r| ensures r[i] != 'x' && r[i] != '.' && r[i] != Sep && r[i] != ' ' {
    }
  }

  /** Distinct dimensions give distinct segments. */
  lemma DimensionsSegmentInjective(w1: int, h1: int, w2: int, h2: int)
    requires DimensionsSegment(w1, h1) == DimensionsSegment(w2, h2)
    ensures w1 == w2 && h1 == h2
  {
    NoMarkInDecimal(w1);
    NoMarkInDecimal(w2);
    SplitAtFirstUnique(IntToDecimal(w1), IntToDecimal(h1), IntToDecimal(w2), IntToDecimal(h2), 'x');
    IntToDecimalInjective(w1, w2);
    IntToDecimalInjective(h1, h2);
  }

  /** `get_resized_filename`: "<stem>-<key>-<W>x<H>.<ext>". */
  function ResizedFilename(filename: string, width: int, height: int, filenameKey: string): (r: string)
    ensures EndsWith(r, "." + StemAndExtension(filename).1)
  {
    var parts := StemAndExtension(filename);
    var front := parts.0 + "-" + filenameKey + "-" + DimensionsSegment(width, height);
    assert (front + "." + parts.1)[|front|..] == "." + parts.1;
    front + "." + parts.1
  }

  /**
   * Splitting a resized name at its last dot gives back the source's stem
   * followed by the key and dimensions, and the source's extension (or
   * "jpg"): the variant keeps the format of its source.
   */
  lemma ResizedFilenameSplitsBack(filename: string, width: int, height: int, filenameKey: string)
    ensures RSplitOnce(ResizedFilename(filename, width, height, filenameKey), '.')
         == Some((StemAndExtension(filename).0 + "-" + filenameKey + "-" + DimensionsSegment(width, height),
                  StemAndExtension(filename).1))
  {
    var (stem, ext) := StemAndExtension(filename);
    var front := stem + "-" + filenameKey + "-" + DimensionsSegment(width, height);
    assert front + "." + ext == front + ['.'] + ext;
    RSplitOnceUnique(front + "." + ext, '.', front, ext);
  }

  /** A name with a dot keeps the text before its last dot and the text after it. */
  lemma ResizedFilenameWithDot(filename: string, stem: string, ext: string, width: int, height: int, filenameKey: string)
    requires filename == stem + "." + ext && '.' !in ext
    ensures ResizedFilename(filename, width, height, filenameKey)
         == stem + "-" + filenameKey + "-" + DimensionsSegment(width, height) + "." + ext
  {
    StemAndExtensionWithDot(filename, stem, ext);
  }

  /** A name without a dot is kept whole and gets the extension "jpg". */
  lemma ResizedFilenameWithoutDot(filename: string, width: int, height: int, filenameKey: string)
    requires '.' !in filename
    ensures ResizedFilename(filename, width, height, filenameKey)
         == filename + "-" + filenameKey + "-" + DimensionsSegment(width, height) + "." + DefaultExtension
  {
  }

  /** A name with a dot splits into the text before its last dot and the text after it. */
  lemma StemAndExtensionWithDot(filename: string, stem: string, ext: string)
    requires filename == stem + "." + ext && '.' !in ext
    ensures StemAndExtension(filename) == (stem, ext)
  {
    assert filename == stem + ['.'] + ext;
    RSplitOnceUnique(filename, '.', stem, ext);
  }

  /** The resized name around its dimensions segment. */
  lemma ResizedFilenameAroundDimensions(filename: string, width: int, height: int, filenameKey: string)
    ensures ResizedFilename(filename, width, height, filenameKey)
         == StemAndExtension(filename).0 + "-" + filenameKey + "-" + DimensionsSegment(width, height)
            + ("." + StemAndExtension(filename).1)
  {
  }

  /** Different sizes of one file under one key never share a name. */
  lemma ResizedFilenameDistinguishesSizes(filename: string, filenameKey: string, w1: int, h1: int, w2: int, h2: int)
    requires ResizedFilename(filename, w1, h1, filenameKey) == ResizedFilename(filename, w2, h2, filenameKey)
    ensures w1 == w2 && h1 == h2
  {
    var prefix := StemAndExtension(filename).0 + "-" + filenameKey + "-";
    ResizedFilenameAroundDimensions(filename, w1, h1, filenameKey);
    ResizedFilenameAroundDimensions(filename, w2, h2, filenameKey);
    SameContextSameMiddle(prefix, DimensionsSegment(w1, h1), DimensionsSegment(w2, h2), "." + StemAndExtension(filename).1);
    DimensionsSegmentInjective(w1, h1, w2, h2);
  }

  /** The variant's own extension names the same image format as its source's. */
  lemma ResizedFilenameKeepsFormat(filename: string, width: int, height: int, filenameKey: string)
    ensures ImageFormatFromExtension(StemAndExtension(ResizedFilename(filename, width, height, filenameKey)).1)
         == ImageFormatFromExtension(StemAndExtension(filename).1)
  {
    ResizedFilenameSplitsBack(filename, width, height, filenameKey);
  }

  /** A file name that does not start with '/' gives a resized name that does not either. */
  lemma ResizedFilenameIsRelative(filename: string, width: int, height: int, filenameKey: string)
    requires !IsAbsolute(filename)
    ensures !IsAbsolute(ResizedFilename(filename, width, height, filenameKey))
  {
    var (stem, ext) := StemAndExtension(filename);
    var r := ResizedFilename(filename, width, height, filenameKey);
    assert r == stem + "-" + filenameKey + "-" + DimensionsSegment(width, height) + "." + ext;
    if stem != "" {
      assert stem[0] == filename[0];
      assert r[0] == stem[0];
    } else {
      assert r[0] == '-';
    }
  }

  // ---------------------------------------------------------------------------
  // Resized paths
  // ---------------------------------------------------------------------------

  datatype PathError = NameError(name: string)

  datatype Result<T> = Ok(value: T) | Err(error: PathError)

  /** Python truthiness of `path_to_image`: neither None nor the empty string. */
  predicate IsTruthy(s: Option<string>) {
    s.Some? && s.value != ""
  }

  /**
   * The common tail of `get_resized_path` once the folder and file name are
   * known: join `__sized`, the folder and the resized name; resolve against
   * the base URL when one is given (`resolveUrl` stands for
   * `urljoin(base_url, filepath_to_uri(joined_path))`); delete every ' '.
   */
  function AssemblePath(folder: string, filename: string, width: int, height: int, filenameKey: string,
                        baseUrl: Option<string>, resolveUrl: (string, string) -> string): (r: string)
    ensures ' ' !in r
  {
    var joined := Join(DirectoryName, [folder, ResizedFilename(filename, width, height, filenameKey)]);
    var pathToReturn := if IsTruthy(baseUrl) then resolveUrl(baseUrl.value, joined) else joined;
    RemoveAll(pathToReturn, ' ')
  }

  /**
   * `get_resized_path` as written: an empty or missing path reaches the
   * undefined name SIZEDIMAGEFIELD_PLACEHOLDER_FILENAME and fails; any other
   * path is split into folder and file name and assembled. The result never
   * contains a space.
   */
  function ResizedPath(pathToImage: Option<string>, width: int, height: int, filenameKey: string,
                       baseUrl: Option<string>, resolveUrl: (string, string) -> string): (r: Result<string>)
    ensures r.Err? <==> !IsTruthy(pathToImage)
    ensures r.Err? ==> r.error == NameError("SIZEDIMAGEFIELD_PLACEHOLDER_FILENAME")
    ensures r.Ok? ==> ' ' !in r.value
  {
    if !IsTruthy(pathToImage) then Err(NameError("SIZEDIMAGEFIELD_PLACEHOLDER_FILENAME"))
    else
      var parts := Split(pathToImage.value);
      Ok(AssemblePath(parts.0, parts.1, width, height, filenameKey, baseUrl, resolveUrl))
  }

  /** Proof step: without a base URL the assembled path is the joined path less its spaces. */
  lemma AssemblePathWithoutBaseUrl(folder: string, filename: string, width: int, height: int, filenameKey: string,
                                   baseUrl: Option<string>, resolveUrl: (string, string) -> string)
    requires !IsTruthy(baseUrl)
    ensures AssemblePath(folder, filename, width, height, filenameKey, baseUrl, resolveUrl)
         == RemoveAll(Join(DirectoryName, [folder, ResizedFilename(filename, width, height, filenameKey)]), ' ')
  {
  }

  /**
   * With a base URL, the URL resolver receives exactly the path the branch
   * without a base URL builds (`ExpectedJoin` of the folder and the resized
   * name), and spaces are deleted from what it returns.
   */
  lemma ResizedPathWithBaseUrl(path: string, width: int, height: int, filenameKey: string,
                               baseUrl: string, resolveUrl: (string, string) -> string)
    requires path != "" && baseUrl != ""
    ensures ResizedPath(Some(path), width, height, filenameKey, Some(baseUrl), resolveUrl)
         == Ok(RemoveAll(resolveUrl(baseUrl, ExpectedJoin(Split(path).0, ResizedFilename(Split(path).1, width, height, filenameKey))), ' '))
  {
    FolderEndsWithSlash(path);
    ResizedPathWithBaseUrlOfParts(path, Split(path).0, Split(path).1, width, height, filenameKey, baseUrl, resolveUrl);
  }

  /** Proof step: `ResizedPathWithBaseUrl` for a path whose split is known. */
  lemma ResizedPathWithBaseUrlOfParts(path: string, folder: string, filename: string, width: int, height: int,
                                      filenameKey: string, baseUrl: string, resolveUrl: (string, string) -> string)
    requires path != "" && baseUrl != ""
    requires Split(path) == (folder, filename)
    requires folder == "" || (folder[|folder| - 1] == Sep <==> AllSlashes(folder))
    ensures ResizedPath(Some(path), width, height, filenameKey, Some(baseUrl), resolveUrl)
         == Ok(RemoveAll(resolveUrl(baseUrl, ExpectedJoin(folder, ResizedFilename(filename, width, height, filenameKey))), ' '))
  {
    ResizedPathAssembles(path, width, height, filenameKey, Some(baseUrl), resolveUrl);
    AssembleWithBaseUrl(folder, filename, width, height, filenameKey, baseUrl, resolveUrl);
  }

  /** Proof step: `AssemblePath` with a base URL, for a folder and a file name as `Split` returns them. */
  lemma AssembleWithBaseUrl(folder: string, filename: string, width: int, height: int, filenameKey: string,
                            baseUrl: string, resolveUrl: (string, string) -> string)
    requires baseUrl != "" && Sep !in filename
    requires folder == "" || (folder[|folder| - 1] == Sep <==> AllSlashes(folder))
    ensures AssemblePath(folder, filename, width, height, filenameKey, Some(baseUrl), resolveUrl)
         == RemoveAll(resolveUrl(baseUrl, ExpectedJoin(folder, ResizedFilename(filename, width, height, filenameKey))), ' ')
  {
    ResizedFilenameIsRelative(filename, width, height, filenameKey);
    JoinUnderDirectory(folder, ResizedFilename(filename, width, height, filenameKey));
  }

  /** The path `get_resized_path` builds, before spaces are deleted, for a folder and a resized name. */
  function ExpectedJoin(folder: string, resized: string): string {
    if folder == "" then DirectoryName + "/" + resized
    else if !IsAbsolute(folder) then DirectoryName + "/" + folder + "/" + resized
    else if AllSlashes(folder) then folder + resized
    else folder + "/" + resized
  }

  /**
   * Joining `__sized`, a folder as `Split` returns it and a relative name:
   * the folder is skipped when empty and replaces `__sized` when absolute.
   */
  lemma JoinUnderDirectory(folder: string, name: string)
    requires !IsAbsolute(name)
    requires folder == "" || (folder[|folder| - 1] == Sep <==> AllSlashes(folder))
    ensures Join(DirectoryName, [folder, name]) == ExpectedJoin(folder, name)
  {
    JoinThree(DirectoryName, folder, name);
  }

  /** A folder from `Split` ends with '/' exactly when it is made of slashes only. */
  lemma FolderEndsWithSlash(path: string)
    ensures var folder := Split(path).0;
      folder != "" ==> (folder[|folder| - 1] == Sep <==> AllSlashes(folder))
  {
    SplitHead(path);
  }

  /**
   * Without a base URL the result is `__sized/<folder>/<resized name>` (just
   * `__sized/<resized name>` when the path has no folder), with every space
   * deleted. An absolute folder discards the `__sized` marker, as
   * `os.path.join` does with an absolute component.
   */
  lemma ResizedPathWithoutBaseUrl(path: string, width: int, height: int, filenameKey: string,
                                  baseUrl: Option<string>, resolveUrl: (string, string) -> string)
    requires path != ""
    requires !IsTruthy(baseUrl)
    ensures ResizedPath(Some(path), width, height, filenameKey, baseUrl, resolveUrl)
         == Ok(RemoveAll(ExpectedJoin(Split(path).0, ResizedFilename(Split(path).1, width, height, filenameKey)), ' '))
  {
    FolderEndsWithSlash(path);
    ResizedPathOfParts(path, Split(path).0, Split(path).1, width, height, filenameKey, baseUrl, resolveUrl);
  }

  /** `ResizedPathWithoutBaseUrl` for a path whose split is known. */
  lemma ResizedPathOfParts(path: string, folder: string, filename: string, width: int, height: int, filenameKey: string,
                           baseUrl: Option<string>, resolveUrl: (string, string) -> string)
    requires path != "" && !IsTruthy(baseUrl)
    requires Split(path) == (folder, filename)
    requires folder == "" || (folder[|folder| - 1] == Sep <==> AllSlashes(folder))
    ensures ResizedPath(Some(path), width, height, filenameKey, baseUrl, resolveUrl)
         == Ok(RemoveAll(ExpectedJoin(folder, ResizedFilename(filename, width, height, filenameKey)), ' '))
  {
    ResizedPathAssembles(path, width, height, filenameKey, baseUrl, resolveUrl);
    AssembleUnderDirectory(folder, filename, width, height, filenameKey, baseUrl, resolveUrl);
  }

  /** Proof step: a non-empty path is split into its folder and file name, which are then assembled. */
  lemma ResizedPathAssembles(path: string, width: int, height: int, filenameKey: string,
                             baseUrl: Option<string>, resolveUrl: (string, string) -> string)
    requires path != ""
    ensures ResizedPath(Some(path), width, height, filenameKey, baseUrl, resolveUrl)
         == Ok(AssemblePath(Split(path).0, Split(path).1, width, height, filenameKey, baseUrl, resolveUrl))
  {
  }

  /** `AssemblePath` without a base URL, for a folder and a file name as `Split` returns them. */
  lemma AssembleUnderDirectory(folder: string, filename: string, width: int, height: int, filenameKey: string,
                               baseUrl: Option<string>, resolveUrl: (string, string) -> string)
    requires !IsTruthy(baseUrl) && Sep !in filename
    requires folder == "" || (folder[|folder| - 1] == Sep <==> AllSlashes(folder))
    ensures AssemblePath(folder, filename, width, height, filenameKey, baseUrl, resolveUrl)
         == RemoveAll(ExpectedJoin(folder, ResizedFilename(filename, width, height, filenameKey)), ' ')
  {
    AssemblePathWithoutBaseUrl(folder, filename, width, height, filenameKey, baseUrl, resolveUrl);
    ResizedFilenameIsRelative(filename, width, height, filenameKey);
    JoinUnderDirectory(folder, ResizedFilename(filename, width, height, filenameKey));
  }

  /** A relative, non-empty folder lands under `__sized`: `__sized/<folder>/<resized name>`. */
  lemma ResizedPathRelativeFolder(path: string, width: int, height: int, filenameKey: string,
                                  resolveUrl: (string, string) -> string)
    requires path != "" && Split(path).0 != "" && !IsAbsolute(Split(path).0)
    ensures ResizedPath(Some(path), width, height, filenameKey, None, resolveUrl)
         == Ok(RemoveAll(DirectoryName + "/" + Split(path).0 + "/" + ResizedFilename(Split(path).1, width, height, filenameKey), ' '))
  {
    ResizedPathWithoutBaseUrl(path, width, height, filenameKey, None, resolveUrl);
  }

  /** A path without '/' has no folder: `__sized/<resized name>`. */
  lemma ResizedPathNoFolder(path: string, width: int, height: int, filenameKey: string,
                            resolveUrl: (string, string) -> string)
    requires path != "" && Sep !in path
    ensures ResizedPath(Some(path), width, height, filenameKey, None, resolveUrl)
         == Ok(RemoveAll(DirectoryName + "/" + ResizedFilename(path, width, height, filenameKey), ' '))
  {
    assert Split(path) == ("", path) by {
      assert path[..0] == "";
    }
    ResizedPathWithoutBaseUrl(path, width, height, filenameKey, None, resolveUrl);
  }

  /** The empty name yields "-<key>-<W>x<H>.jpg". */
  lemma ResizedFilenameOfEmpty(width: int, height: int, filenameKey: string)
    ensures ResizedFilename("", width, height, filenameKey) == "-" + filenameKey + "-" + DimensionsSegment(width, height) + ".jpg"
  {
  }

  /** The file name used is the text after the last '/'; a trailing '/' leaves it empty. */
  lemma ResizedPathTrailingSlash(path: string, width: int, height: int, filenameKey: string,
                                 resolveUrl: (string, string) -> string)
    requires path != "" && path[|path| - 1] == Sep
    ensures ResizedPath(Some(path), width, height, filenameKey, None, resolveUrl)
         == Ok(RemoveAll(ExpectedJoin(Split(path).0, "-" + filenameKey + "-" + DimensionsSegment(width, height) + ".jpg"), ' '))
  {
    assert Split(path).1 == "";
    ResizedFilenameOfEmpty(width, height, filenameKey);
    ResizedPathWithoutBaseUrl(path, width, height, filenameKey, None, resolveUrl);
  }

  /** Free of spaces when the name and the key are. */
  lemma ResizedFilenameWithoutSpaces(filename: string, width: int, height: int, filenameKey: string)
    requires ' ' !in filename && ' ' !in filenameKey
    ensures ' ' !in ResizedFilename(filename, width, height, filenameKey)
  {
    var parts := StemAndExtension(filename);
    assert ' ' !in parts.0 && ' ' !in parts.1 by {
      if '.' in filename {
        assert filename == parts.0 + "." + parts.1;
      }
    }
    NoMarkInDecimal(width);
    NoMarkInDecimal(height);
  }

  /**
   * Deleting spaces changes nothing when neither the path nor the key has
   * one: the result is then the joined path itself.
   */
  lemma ResizedPathWithoutSpaces(path: string, width: int, height: int, filenameKey: string,
                                 resolveUrl: (string, string) -> string)
    requires path != "" && ' ' !in path && ' ' !in filenameKey
    ensures ResizedPath(Some(path), width, height, filenameKey, None, resolveUrl)
         == Ok(ExpectedJoin(Split(path).0, ResizedFilename(Split(path).1, width, height, filenameKey)))
  {
    var parts := Split(path);
    var resized := ResizedFilename(parts.1, width, height, filenameKey);
    SplitKeepsAbsentChar(path, ' ');
    ResizedFilenameWithoutSpaces(parts.1, width, height, filenameKey);
    ExpectedJoinWithoutSpaces(parts.0, resized);
    RemoveAllIdentity(ExpectedJoin(parts.0, resized), ' ');
    ResizedPathWithoutBaseUrl(path, width, height, filenameKey, None, resolveUrl);
  }

  lemma ExpectedJoinWithoutSpaces(folder: string, name: string)
    requires ' ' !in folder && ' ' !in name
    ensures ' ' !in ExpectedJoin(folder, name)
  {
  }

  /** Counterexample: the empty path, which the code means to map to a placeholder, fails. */
  lemma EmptyPathRaisesNameError(resolveUrl: (string, string) -> string)
    ensures ResizedPath(Some(""), 100, 200, "thumb", None, resolveUrl).Err?
    ensures ResizedPath(None, 100, 200, "thumb", None, resolveUrl).Err?
  {
  }

  /**
   * `get_resized_path` as intended, with the placeholder file name given:
   * an empty or missing path uses the placeholder name in the
   * GLOBAL-PLACEHOLDER folder; any other path is handled exactly as by
   * `ResizedPath`.
   */
  function ResizedPathWithPlaceholder(pathToImage: Option<string>, width: int, height: int, filenameKey: string,
                                      baseUrl: Option<string>, resolveUrl: (string, string) -> string,
                                      placeholderFilename: string): (r: string)
    ensures ' ' !in r
    ensures IsTruthy(pathToImage) ==> ResizedPath(pathToImage, width, height, filenameKey, baseUrl, resolveUrl) == Ok(r)
  {
    var parts := if !IsTruthy(pathToImage) then (PlaceholderFolder, placeholderFilename) else Split(pathToImage.value);
    AssemblePath(parts.0, parts.1, width, height, filenameKey, baseUrl, resolveUrl)
  }

  /**
   * Every missing image shares one path per size and key:
   * `__sized/GLOBAL-PLACEHOLDER/<resized placeholder name>`, without spaces,
   * for None and "" alike.
   */
  lemma PlaceholderPathFamily(width: int, height: int, filenameKey: string,
                              resolveUrl: (string, string) -> string, placeholderFilename: string)
    requires !IsAbsolute(placeholderFilename)
    ensures ResizedPathWithPlaceholder(None, width, height, filenameKey, None, resolveUrl, placeholderFilename)
         == ResizedPathWithPlaceholder(Some(""), width, height, filenameKey, None, resolveUrl, placeholderFilename)
         == RemoveAll(DirectoryName + "/" + PlaceholderFolder + "/" + ResizedFilename(placeholderFilename, width, height, filenameKey), ' ')
  {
    AssemblePathWithoutBaseUrl(PlaceholderFolder, placeholderFilename, width, height, filenameKey, None, resolveUrl);
    ResizedFilenameIsRelative(placeholderFilename, width, height, filenameKey);
    JoinUnderPlaceholder(ResizedFilename(placeholderFilename, width, height, filenameKey));
  }

  lemma JoinUnderPlaceholder(name: string)
    requires !IsAbsolute(name)
    ensures Join(DirectoryName, [PlaceholderFolder, name]) == DirectoryName + "/" + PlaceholderFolder + "/" + name
  {
    JoinUnderDirectory(PlaceholderFolder, name);
  }
}
