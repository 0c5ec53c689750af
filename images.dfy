/**
 * The image-path decisions of add, edit and delete. The disk is the set of paths
 * that exist; copying a staged file into `images/` adds its managed path, and
 * releasing an image removes its path unless it is empty or the shared placeholder.
 */
module Images {
  import opened Wrappers

  const ImageDir: string := "images"

  /** The shared image shown for records without one; it is never deleted. */
  const Placeholder: string := "images/empty_image.jpg"

  /** `os.path.basename`: the longest suffix of `path` without a '/'. */
  function Basename(path: string): (name: string)
    ensures '/' !in name
    ensures |name| <= |path| && name == path[|path| - |name|..]
    ensures |name| == |path| || path[|path| - |name| - 1] == '/'
    decreases |path|
  {
    if |path| == 0 || path[|path| - 1] == '/' then ""
    else Basename(path[..|path| - 1]) + [path[|path| - 1]]
  }

  /** `os.path.join("images", os.path.basename(src))`: where an adopted copy lands. */
  function ManagedPath(src: string): string {
    ImageDir + "/" + Basename(src)
  }

  /** A record's image that a release may delete. */
  predicate Releasable(path: string) {
    path != "" && path != Placeholder
  }

  /** Deletes `path` if it is releasable and exists; a missing file is no error. */
  function Release(disk: set<string>, path: string): (d: set<string>)
    ensures d <= disk
    ensures forall q :: q in disk && q != path ==> q in d
    ensures path in d <==> path in disk && !Releasable(path)
    ensures Placeholder in disk ==> Placeholder in d
  {
    if Releasable(path) && path in disk then disk - {path} else disk
  }

  /** Releasing the same image twice deletes nothing more the second time. */
  lemma ReleaseTwice(disk: set<string>, path: string)
    ensures Release(Release(disk, path), path) == Release(disk, path)
  {
  }

  /** Where an image ends up and which paths exist afterwards. */
  datatype Placement = Placement(path: string, disk: set<string>)

  /** Copies an existing `src` into `images/`; a missing `src` is kept as it is, uncopied. */
  function Adopt(disk: set<string>, src: string): (r: Placement)
    ensures disk <= r.disk
    ensures r.path in r.disk <==> src in disk
    ensures src in disk ==> r.path == ManagedPath(src) && r.disk == disk + {r.path}
    ensures src !in disk ==> r == Placement(src, disk)
  {
    if src in disk then Placement(ManagedPath(src), disk + {ManagedPath(src)})
    else Placement(src, disk)
  }

  /**
   * The image of a new record: the staged path (or "" if none was staged), copied into
   * `images/` when it names an existing file.
   */
  function PlaceForAdd(staged: Option<string>, disk: set<string>): (r: Placement)
    ensures disk <= r.disk
    ensures Placeholder in disk ==> Placeholder in r.disk
    ensures staged == None ==> r == Placement("", disk)
    ensures staged.Some? && staged.value != "" && staged.value in disk ==>
              r.path == ManagedPath(staged.value) && r.disk == disk + {r.path}
    ensures staged.Some? && (staged.value == "" || staged.value !in disk) ==> r == Placement(staged.value, disk)
  {
    var path := staged.GetOr("");
    if path != "" && path in disk then Adopt(disk, path) else Placement(path, disk)
  }

  /**
   * The image of an edited record. With nothing staged the current path stays and the disk is
   * untouched; otherwise the current image is released and the staged one adopted. A missing
   * staged file copies nothing, and re-staging the current image deletes it before the copy
   * would read it, so the record keeps a path to a deleted file.
   */
  function PlaceForEdit(current: string, staged: Option<string>, disk: set<string>): (r: Placement)
    ensures staged == None ==> r == Placement(current, disk)
    ensures Placeholder in disk ==> Placeholder in r.disk
    ensures staged.Some? ==> forall q :: q != current && q != ManagedPath(staged.value) ==> (q in r.disk <==> q in disk)
    ensures staged.Some? && Releasable(current) && current != ManagedPath(staged.value) ==> current !in r.disk
    ensures staged.Some? && staged.value in disk && staged.value != current ==>
              r.path == ManagedPath(staged.value) && r.path in r.disk
    ensures staged.Some? && staged.value !in disk ==> r.path == staged.value && r.disk == Release(disk, current)
    ensures staged.Some? && staged.value !in Release(disk, current) ==> r == Placement(staged.value, Release(disk, current))
    ensures staged.Some? && staged.value == current && Releasable(current) && current in disk ==>
              r.path == current && current !in r.disk
  {
    match staged
    case None => Placement(current, disk)
    case Some(src) => Adopt(Release(disk, current), src)
  }
}
