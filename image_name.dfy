/** The name under which an uploaded image is stored, computed in
    `resizeImage` of backend/utils/sharp.js. `Date.now()` is the parameter
    `now`; the resizing and the file write are not part of the model. */
module ImageName {
  import opened Strings
  import opened Decimal

  const Extension := "webp"
  const ImagesDirectory := "images"

  /** `originalname.split(" ").join("_").split(".")[0]`. */
  function Stem(originalname: string): string
  {
    Split(Join(Split(originalname, ' '), '_'), '.')[0]
  }

  /** The returned file name: stem, the timestamp in decimal, `.webp`. */
  function StoredFilename(originalname: string, now: nat): string
  {
    Stem(originalname) + NatToDecimal(now) + "." + Extension
  }

  /** `path.join("images", filename)`, the path written to. */
  function OutputPath(filename: string): string
  {
    ImagesDirectory + "/" + filename
  }

  /** What `resizeImage` does with a file name: it writes to one path and
      returns another value. */
  datatype Resized = Resized(writtenTo: string, returned: string)

  function ResizeImage(originalname: string, now: nat): (r: Resized)
    ensures r.writtenTo == ImagesDirectory + "/" + r.returned
    ensures r.returned == StoredFilename(originalname, now)
  {
    var filename := StoredFilename(originalname, now);
    Resized(OutputPath(filename), filename)
  }

  /** The stem is the space-to-underscore form of the name up to its first
      dot (all of it when there is none); it has no space and no dot, and may
      be empty. */
  lemma StemMeaning(originalname: string)
    ensures ' ' !in Stem(originalname) && '.' !in Stem(originalname)
    ensures Stem(originalname) <= Replace(originalname, ' ', '_')
    ensures |Stem(originalname)| < |originalname| ==> originalname[|Stem(originalname)|] == '.'
  {
    var underscored := Join(Split(originalname, ' '), '_');
    SplitJoinReplaces(originalname, ' ', '_');
    FirstPiece(underscored, '.');
    var stem := Stem(originalname);
    forall i | 0 <= i < |stem|
      ensures stem[i] != ' '
    {
      assert stem[i] == underscored[i];
    }
  }

  /** Every stored name splits on "." into exactly the stem followed by the
      digits of the timestamp, and the extension: one dot, no space, so no
      ".." segment can take the written path out of the images directory. */
  lemma FilenameShape(originalname: string, now: nat)
    ensures var f := StoredFilename(originalname, now);
      && Split(f, '.') == [Stem(originalname) + NatToDecimal(now), Extension]
      && ' ' !in f
      && f[|f| - 5..] == "." + Extension
  {
    StemMeaning(originalname);
    var head := Stem(originalname) + NatToDecimal(now);
    assert forall i | 0 <= i < |NatToDecimal(now)| :: IsDigit(NatToDecimal(now)[i]);
    assert '.' !in head;
    assert StoredFilename(originalname, now) == Join([head, Extension], '.');
    SplitJoin([head, Extension], '.');
  }

  /** A name without spaces whose first dot follows `base` has stem `base`. */
  lemma StemOfPlainName(base: string, rest: string)
    requires ' ' !in base + rest && '.' !in base
    ensures Stem(base + "." + rest) == base
  {
    var name := base + "." + rest;
    assert ' ' !in name by {
      assert forall i | 0 <= i < |name| :: name[i] == '.' || name[i] in base + rest;
    }
    SplitWithoutSeparator(name, ' ');
    assert name == base + ['.'] + rest;
    SplitAtSeparator(base, rest, '.');
  }

  /** Names are not unique across uploads: two different original names,
      stored ten milliseconds apart, can receive the same stored name. */
  lemma NamesCanCollide()
    ensures StoredFilename("a1.png", 7) == StoredFilename("a.png", 17)
  {
    StemOfPlainName("a1", "png");
    StemOfPlainName("a", "png");
    assert "a1" + "." + "png" == "a1.png";
    assert "a" + "." + "png" == "a.png";
    assert NatToDecimal(7) == "7";
    assert NatToDecimal(17) == NatToDecimal(1) + "7" == "17";
    assert "a1" + "7" == "a" + "17";
  }
}
