/**
 * The on-disk image cache (`struct ImageStorage`): one file per comic in the
 * `comics` folder of the app's documents directory, named after the comic
 * number. The folder's contents are a map from file name to bytes.
 */
module ImageStorage {
  import opened Wrappers
  import Decimal

  type Bytes = seq<bv8>

  /** A file-system location, as its path components. */
  type Path = seq<string>

  const ComicsFolder: string := "comics"
  const Extension: string := ".jpeg"

  /** The name of the file that holds comic `number`'s image: `"\(number).jpeg"`. */
  function FileName(number: int): (name: string)
    ensures |name| > |Extension| && name[|name| - |Extension|..] == Extension
    ensures Decimal.ParseInteger(name[..|name| - |Extension|]) == Some(number)
  {
    var name := Decimal.Render(number) + Extension;
    assert name[..|name| - |Extension|] == Decimal.Render(number);
    Decimal.RenderRoundTrip(number);
    name
  }

  /** Distinct comic numbers never share a file. */
  lemma FileNameInjective(a: int, b: int)
    requires FileName(a) == FileName(b)
    ensures a == b
  {
  }

  /** The full path of comic `number`'s image inside `directory`. */
  function PathOf(directory: Path, number: int): (path: Path)
    ensures |path| == |directory| + 1 && path[..|directory|] == directory
    ensures path[|directory|] == FileName(number)
  {
    directory + [FileName(number)]
  }

  /** The blob stored for comic `number` in a folder whose contents are `files`. */
  function Lookup(files: map<string, Bytes>, number: int): Option<Bytes> {
    if FileName(number) in files then Some(files[FileName(number)]) else None
  }

  /** Writing comic `n`'s file replaces its blob and leaves every other comic's blob as it was. */
  lemma SaveReplacesOnlyItsOwn(files: map<string, Bytes>, png: Bytes, n: int, m: int)
    ensures Lookup(files[FileName(n) := png], n) == Some(png)
    ensures m != n ==> Lookup(files[FileName(n) := png], m) == Lookup(files, m)
  {
    if m != n && FileName(m) == FileName(n) {
      FileNameInjective(m, n);
    }
  }

  class ImageStorage {
    /** `directory`: the `comics` subfolder of the documents directory. */
    const directory: Path
    /** The files in `directory`, by name. */
    var files: map<string, Bytes>

    /**
     * The lazily initialised `directory`, created under `documents` (the
     * folder the file manager reports); `existing` is what it already holds.
     */
    constructor (documents: Path, existing: map<string, Bytes>)
      ensures directory == documents + [ComicsFolder]
      ensures files == existing
    {
      directory := documents + [ComicsFolder];
      files := existing;
    }

    /** `save(image:forComic:)`: write the image's bytes to comic `number`'s file, replacing any earlier file. */
    method Save(png: Bytes, number: int)
      modifies this
      ensures files == old(files)[FileName(number) := png]
      ensures Lookup(files, number) == Some(png)
      ensures forall m :: m != number ==> Lookup(files, m) == Lookup(old(files), m)
    {
      files := files[FileName(number) := png];
      forall m | m != number ensures Lookup(files, m) == Lookup(old(files), m) {
        SaveReplacesOnlyItsOwn(old(files), png, number, m);
      }
    }

    /**
     * The file `getImage(forComic:targetSize:)` reads: the same path `Save`
     * writes for that number. `None` when there is no such file.
     */
    method GetImage(number: int) returns (blob: Option<Bytes>, path: Path)
      ensures path == PathOf(directory, number)
      ensures blob == Lookup(files, number)
      ensures blob.Some? <==> FileName(number) in files
    {
      path := PathOf(directory, number);
      if FileName(number) in files {
        blob := Some(files[FileName(number)]);
      } else {
        blob := None;
      }
    }
  }

  /** Reading comic `n` right after saving it returns exactly what was saved. */
  method SaveThenGet(storage: ImageStorage, png: Bytes, n: int) returns (blob: Option<Bytes>)
    modifies storage
    ensures blob == Some(png)
  {
    storage.Save(png, n);
    var path;
    blob, path := storage.GetImage(n);
  }
}
