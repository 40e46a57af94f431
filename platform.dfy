/**
 * What the application asks of the operating system and of Pillow, as
 * oracles: whether a path exists, what a directory lists, and whether a
 * file decodes to an image. The model never looks inside a file; it only
 * follows the answers these give.
 */
module Platform {
  import opened Base

  type Pos = n: int | n > 0 witness 1

  /**
   * An image as `open_image_try` returns it: an identity (so that the model
   * can say which image a pixel comes from) and its size. A decodable file
   * always has at least one pixel in each direction.
   */
  datatype Picture = Picture(id: nat, width: Pos, height: Pos)

  datatype FileKind = RegularFile | Directory | Special

  /** One entry of `Path(dir).iterdir()`. */
  datatype Entry = Entry(name: string, kind: FileKind)

  datatype Disk = Disk(
    /** `os.path.exists(p)` */
    pathExists: string -> bool,
    /** `Path(p).is_dir()` */
    isDir: string -> bool,
    /** the entries of `Path(p).iterdir()` in the order the system gives them, or None when listing raises */
    listing: string -> Option<seq<Entry>>,
    /** `open_image_try(p)`: None when Pillow cannot open or convert the file */
    decode: string -> Option<Picture>)
}
