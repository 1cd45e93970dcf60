/**
 * Image uploads: the extension allow-list check and the name under which an
 * accepted image is stored in the upload folder.
 */
module Uploads {
  import opened Wrappers
  import opened Text

  /** The extensions an uploaded image may have. */
  const ALLOWED_EXTENSIONS: set<string> := {"png", "jpg", "jpeg", "gif"}

  /** How many characters of the sanitised product name go into a stored image name. */
  const NAME_PART_LENGTH: nat := 20

  /** An extension that lower-cases to one on the allow-list. */
  predicate AllowedExtension(ext: string)
  {
    Lower(ext) in ALLOWED_EXTENSIONS
  }

  /** `allowed_file`: the name has a dot and its last suffix, lower-cased, is allowed. */
  predicate AllowedFile(filename: string)
  {
    '.' in filename && AllowedExtension(AfterLastDot(filename))
  }

  /** Position `i` holds the last dot of `filename`. */
  predicate LastDotAt(filename: string, i: int)
  {
    0 <= i < |filename| && filename[i] == '.' && '.' !in filename[i + 1..]
  }

  /**
   * Reference characterisation of `AllowedFile`: the name has a last dot
   * and the text after it lower-cases to an allowed extension.
   */
  lemma AllowedFileIff(filename: string)
    ensures AllowedFile(filename) <==>
      exists i :: LastDotAt(filename, i) && AllowedExtension(filename[i + 1..])
  {
    if AllowedFile(filename) {
      AllowedFileHasLastDot(filename);
    }
    if exists i :: LastDotAt(filename, i) && AllowedExtension(filename[i + 1..]) {
      var i :| LastDotAt(filename, i) && AllowedExtension(filename[i + 1..]);
      AllowedFileFromLastDot(filename, i);
    }
  }

  lemma AllowedFileHasLastDot(filename: string)
    requires AllowedFile(filename)
    ensures var i := |filename| - |AfterLastDot(filename)| - 1;
      LastDotAt(filename, i) && AllowedExtension(filename[i + 1..])
  {
    var r := AfterLastDot(filename);
    var i := |filename| - |r| - 1;
    assert filename[i + 1..] == r;
  }

  lemma AllowedFileFromLastDot(filename: string, i: int)
    requires LastDotAt(filename, i) && AllowedExtension(filename[i + 1..])
    ensures AllowedFile(filename)
  {
    var stem, ext := filename[..i], filename[i + 1..];
    assert filename == stem + "." + ext;
    AfterLastDotOfParts(stem, ext);
  }

  /** For a name `stem.ext` whose `ext` holds no dot, only `ext` decides. */
  lemma AllowedFileOfParts(stem: string, ext: string)
    requires '.' !in ext
    ensures AllowedFile(stem + "." + ext) <==> AllowedExtension(ext)
  {
    AfterLastDotOfParts(stem, ext);
  }

  /** "photo.PNG" is allowed: "PNG" lower-cases to "png". */
  lemma AllowedUpperCaseExtension()
    ensures AllowedFile("photo.PNG")
  {
    AllowedFileOfParts("photo", "PNG");
    assert "photo" + "." + "PNG" == "photo.PNG";
    assert Lower("PNG") == "png";
  }

  /** Only the last suffix counts: "archive.tar.gif" is allowed. */
  lemma LastSuffixAllowed()
    ensures AllowedFile("archive.tar.gif")
  {
    assert "archive.tar.gif" == "archive.tar" + "." + "gif";
    AllowedFileOfParts("archive.tar", "gif");
    assert AllowedExtension("gif") by { assert Lower("gif") == "gif"; }
  }

  /** Only the last suffix counts: "photo.png.exe" is refused. */
  lemma LastSuffixRefused()
    ensures !AllowedFile("photo.png.exe")
  {
    assert "photo.png.exe" == "photo.png" + "." + "exe";
    AllowedFileOfParts("photo.png", "exe");
    assert !AllowedExtension("exe") by { assert Lower("exe") == "exe"; }
  }

  /** "noext", "photo." and "malware.exe" are refused. */
  lemma RefusedNames()
    ensures !AllowedFile("noext")
    ensures !AllowedFile("photo.")
    ensures !AllowedFile("malware.exe")
  {
    assert forall i :: 0 <= i < |"noext"| ==> "noext"[i] != '.';
    AllowedFileOfParts("photo", "");
    assert "photo" + "." + "" == "photo.";
    AllowedFileOfParts("malware", "exe");
    assert "malware" + "." + "exe" == "malware.exe";
    assert Lower("exe") == "exe";
  }

  /** The image name format `<name_part>_<n>.<ext>`. */
  function ImageFilename(namePart: string, n: nat, ext: string): string
  {
    namePart + "_" + Decimal(n) + "." + ext
  }

  /**
   * A stored image name can be taken apart again: it starts with the name
   * part and an underscore, the digits between that and the last dot read
   * back as `n`, and the text after the last dot is the extension.
   */
  lemma ImageFilenameParts(namePart: string, n: nat, ext: string)
    requires '.' !in ext
    ensures var f := ImageFilename(namePart, n, ext);
      && |f| == |namePart| + 1 + |Decimal(n)| + 1 + |ext|
      && f[..|namePart|] == namePart
      && f[|namePart|] == '_'
      && AllDigits(f[|namePart| + 1..|f| - |ext| - 1])
      && DecimalValue(f[|namePart| + 1..|f| - |ext| - 1]) == n
      && '.' in f && AfterLastDot(f) == ext
  {
    var f := ImageFilename(namePart, n, ext);
    var digits := Decimal(n);
    assert f == (namePart + "_" + digits) + "." + ext;
    AfterLastDotOfParts(namePart + "_" + digits, ext);
    assert f[|namePart| + 1..|f| - |ext| - 1] == digits;
    DecimalRoundTrip(n);
  }

  /**
   * The image name format is injective: the last dot fixes the extension,
   * and since the digits hold no underscore, the underscore before them
   * fixes the name part and the number.
   */
  lemma ImageFilenameInjective(namePart1: string, n1: nat, ext1: string, namePart2: string, n2: nat, ext2: string)
    requires '.' !in ext1 && '.' !in ext2
    requires ImageFilename(namePart1, n1, ext1) == ImageFilename(namePart2, n2, ext2)
    ensures namePart1 == namePart2 && n1 == n2 && ext1 == ext2
  {
    var digits1, digits2 := Decimal(n1), Decimal(n2);
    var stem1, stem2 := namePart1 + "_" + digits1, namePart2 + "_" + digits2;
    var f := ImageFilename(namePart1, n1, ext1);
    assert f == stem1 + "." + ext1;
    assert f == stem2 + "." + ext2;
    AfterLastDotOfParts(stem1, ext1);
    AfterLastDotOfParts(stem2, ext2);
    assert stem1 == f[..|f| - |ext1| - 1] == stem2;
    assert |namePart1| == |namePart2| by {
      StemUnderscore(namePart1, digits1, namePart2, digits2);
      StemUnderscore(namePart2, digits2, namePart1, digits1);
    }
    assert namePart1 == stem1[..|namePart1|];
    assert digits1 == stem1[|namePart1| + 1..] == digits2;
    DecimalRoundTrip(n1);
    DecimalRoundTrip(n2);
  }

  /** In `namePart_digits`, the underscore after the name part is the last one. */
  lemma StemUnderscore(namePart1: string, digits1: string, namePart2: string, digits2: string)
    requires AllDigits(digits1)
    requires namePart1 + "_" + digits1 == namePart2 + "_" + digits2
    ensures |namePart2| <= |namePart1|
  {
    var stem := namePart1 + "_" + digits1;
    assert forall k :: |namePart1| < k < |stem| ==> stem[k] == digits1[k - |namePart1| - 1];
    assert forall k :: |namePart1| < k < |stem| ==> stem[k] != '_';
    assert stem[|namePart2|] == (namePart2 + "_" + digits2)[|namePart2|] == '_';
  }

  /** A name of the image format for the number `n`, with some name part and dot-free extension. */
  ghost predicate NamedFor(filename: string, n: nat)
  {
    exists namePart: string, ext: string :: '.' !in ext && filename == ImageFilename(namePart, n, ext)
  }

  /** An image name carries one number only. */
  lemma NamedForUnique(filename: string, n: nat, m: nat)
    requires NamedFor(filename, n) && NamedFor(filename, m)
    ensures n == m
  {
    var np1: string, e1: string :| '.' !in e1 && filename == ImageFilename(np1, n, e1);
    var np2: string, e2: string :| '.' !in e2 && filename == ImageFilename(np2, m, e2);
    ImageFilenameInjective(np1, n, e1, np2, m, e2);
  }

  /**
   * The name an accepted upload is stored under, for a product called
   * `productName` and the disambiguating number `n`; `sanitize` stands for
   * the sanitising library call. None when the sanitised upload name has no
   * dot, where taking the part after the last dot fails.
   */
  function StoredImageName(sanitize: string -> string, productName: string, n: nat, uploadName: string): (r: Option<string>)
    ensures r.None? <==> '.' !in sanitize(uploadName)
  {
    var filename := sanitize(uploadName);
    if '.' !in filename then None
    else
      var namePart := Take(sanitize(productName), NAME_PART_LENGTH);
      Some(ImageFilename(namePart, n, Lower(AfterLastDot(filename))))
  }

  /**
   * The shape of a stored name: at most twenty leading characters of the
   * sanitised product name, an underscore, digits that read back as `n`,
   * then a dot and the lower-cased last suffix of the sanitised upload name.
   */
  lemma StoredImageNameShape(sanitize: string -> string, productName: string, n: nat, uploadName: string)
    requires StoredImageName(sanitize, productName, n, uploadName).Some?
    ensures var f := StoredImageName(sanitize, productName, n, uploadName).value;
      var namePart := Take(sanitize(productName), NAME_PART_LENGTH);
      var ext := Lower(AfterLastDot(sanitize(uploadName)));
      && |namePart| <= NAME_PART_LENGTH && namePart <= sanitize(productName)
      && f[..|namePart|] == namePart && f[|namePart|] == '_'
      && AllDigits(f[|namePart| + 1..|f| - |ext| - 1])
      && DecimalValue(f[|namePart| + 1..|f| - |ext| - 1]) == n
      && '.' in f && AfterLastDot(f) == ext
  {
    var filename := sanitize(uploadName);
    var namePart := Take(sanitize(productName), NAME_PART_LENGTH);
    var ext := Lower(AfterLastDot(filename));
    LowerKeepsDots(AfterLastDot(filename));
    ImageFilenameParts(namePart, n, ext);
  }

  /**
   * A stored name has a lower-case extension, and it passes the allow-list
   * exactly when the sanitised upload name does.
   */
  lemma StoredImageNameAllowed(sanitize: string -> string, productName: string, n: nat, uploadName: string)
    requires StoredImageName(sanitize, productName, n, uploadName).Some?
    ensures var f := StoredImageName(sanitize, productName, n, uploadName).value;
      && '.' in f && Lower(AfterLastDot(f)) == AfterLastDot(f)
      && (AllowedFile(f) <==> AllowedFile(sanitize(uploadName)))
  {
    var filename := sanitize(uploadName);
    var namePart := Take(sanitize(productName), NAME_PART_LENGTH);
    var ext := Lower(AfterLastDot(filename));
    LowerKeepsDots(AfterLastDot(filename));
    assert ImageFilename(namePart, n, ext) == (namePart + "_" + Decimal(n)) + "." + ext;
    AfterLastDotOfParts(namePart + "_" + Decimal(n), ext);
    LowerIdempotent(AfterLastDot(filename));
  }

  /** A stored name is of the image format for its number. */
  lemma StoredImageNameNamedFor(sanitize: string -> string, productName: string, n: nat, uploadName: string)
    requires StoredImageName(sanitize, productName, n, uploadName).Some?
    ensures NamedFor(StoredImageName(sanitize, productName, n, uploadName).value, n)
  {
    var filename := sanitize(uploadName);
    var namePart := Take(sanitize(productName), NAME_PART_LENGTH);
    var ext := Lower(AfterLastDot(filename));
    LowerKeepsDots(AfterLastDot(filename));
    assert '.' !in ext && StoredImageName(sanitize, productName, n, uploadName).value == ImageFilename(namePart, n, ext);
  }
}
