/**
 * Worked examples of `get_resized_filename` and `get_resized_path` on
 * concrete names: the corner cases of the extension split and the full path
 * of a typical upload.
 */
module SizedImageScenarios {
  import opened Text
  import opened PosixPath
  import opened SizedImageUtils

  /** ".hidden" has an empty stem. */
  lemma ResizedFilenameLeadingDot()
    ensures ResizedFilename(".hidden", 1, 2, "k") == "-k-1x2.hidden"
  {
    StemAndExtensionWithDot(".hidden", "", "hidden");
  }

  /** "a." has an empty extension. */
  lemma ResizedFilenameTrailingDot()
    ensures ResizedFilename("a.", 1, 2, "k") == "a-k-1x2."
  {
    StemAndExtensionWithDot("a.", "a", "");
  }

  /** The empty name is accepted: empty stem, extension "jpg". */
  lemma ResizedFilenameEmptyName()
    ensures ResizedFilename("", 1, 2, "k") == "-k-1x2.jpg"
  {
  }

  /** A negative dimension is rendered with its minus sign. */
  lemma ResizedFilenameNegativeWidth()
    ensures ResizedFilename("a.png", -5, 2, "k") == "a-k--5x2.png"
  {
    StemAndExtensionWithDot("a.png", "a", "png");
  }

  /** Both dimensions are rendered in decimal around the 'x'. */
  lemma DimensionsSegmentExample()
    ensures DimensionsSegment(100, 200) == "100x200"
  {
    assert IntToDecimal(100) == "100";
    assert IntToDecimal(200) == "200";
  }

  lemma StemAndExtensionExample()
    ensures StemAndExtension("photo.jpg") == ("photo", "jpg")
  {
    StemAndExtensionWithDot("photo.jpg", "photo", "jpg");
  }

  /** The last '/' of "images/photo.jpg" is at index 6. */
  lemma LastSlashExample()
    ensures LastIndexOf("images/photo.jpg", Sep) == Some(6)
  {
    assert "images/photo.jpg"[6] == Sep;
    assert Sep !in "images/photo.jpg"[7..] by {
      assert "images/photo.jpg"[7..] == "photo.jpg";
    }
  }

  /** The folder of "images/photo.jpg" is "images", without the separating '/'. */
  lemma SplitExample()
    ensures Split("images/photo.jpg") == ("images", "photo.jpg")
  {
    var path := "images/photo.jpg";
    LastSlashExample();
    assert path[..7] == "images/" && path[7..] == "photo.jpg";
    assert RStripSlashes("images/") == "images";
  }

  // The typical upload "images/photo.jpg" at 100x200 under the key "thumb".
  // The name of the example is checked in stages (parts, then literal text),
  // which keeps the verifier from unfolding every definition on every literal
  // at once.

  /** The name of the example before its dimensions are rendered. */
  lemma ResizedFilenameExampleParts()
    ensures ResizedFilename("photo.jpg", 100, 200, "thumb")
         == "photo" + "-" + "thumb" + "-" + DimensionsSegment(100, 200) + "." + "jpg"
  {
    StemAndExtensionExample();
  }

  lemma ResizedFilenameExampleText()
    ensures "photo" + "-" + "thumb" + "-" + "100x200" + "." + "jpg" == "photo-thumb-100x200.jpg"
  {
  }

  /** A typical upload: "photo.jpg" at 100x200 under the key "thumb". */
  lemma ResizedFilenameExample()
    ensures ResizedFilename("photo.jpg", 100, 200, "thumb") == "photo-thumb-100x200.jpg"
  {
    ResizedFilenameExampleParts();
    DimensionsSegmentExample();
    ResizedFilenameExampleText();
  }

  lemma ExpectedJoinExampleParts(name: string)
    ensures ExpectedJoin("images", name) == DirectoryName + "/" + "images" + "/" + name
  {
  }

  /** The joined path of the example: `__sized`, then the folder, then the resized name. */
  lemma ExpectedJoinExample()
    ensures ExpectedJoin("images", "photo-thumb-100x200.jpg") == "__sized/images/photo-thumb-100x200.jpg"
  {
    ExpectedJoinExampleParts("photo-thumb-100x200.jpg");
  }

  /** The typical upload "images/photo.jpg", without a base URL, lands in `__sized/images`. */
  lemma ResizedPathExample(resolveUrl: (string, string) -> string)
    ensures ResizedPath(Some("images/photo.jpg"), 100, 200, "thumb", None, resolveUrl)
         == Ok("__sized/images/photo-thumb-100x200.jpg")
  {
    SplitExample();
    ResizedPathWithoutSpaces("images/photo.jpg", 100, 200, "thumb", resolveUrl);
    ResizedFilenameExample();
    ExpectedJoinExample();
  }
}
