/**
 * The output directory as the builder sees it: the `angle_<a>` and
 * `angle_<a>/rotation_<r>` directories that exist under it, and the log of
 * photos placed into them (copied, or moved when no output directory is given).
 */
module OutputTree {
  import opened Intervals

  datatype Dir = AngleDir(angle: int) | RotationDir(angle: int, rotation: int)

  /** A photo placed at `<dest>/<photo file name>`. */
  datatype Placement = Placement(photo: Photo, dest: Dir)

  /** `angle_<a>` lies directly under the output root, which exists; a rotation directory under its angle. */
  predicate ParentPresent(d: Dir, dirs: set<Dir>)
  {
    d.RotationDir? ==> AngleDir(d.angle) in dirs
  }

  class Tree {
    var dirs: set<Dir>
    var placed: seq<Placement>

    constructor (existing: set<Dir>)
      ensures dirs == existing && placed == []
    {
      dirs := existing;
      placed := [];
    }

    /** Creates one directory; like `Path.mkdir()` without `exist_ok` or `parents`, it fails on an existing directory or a missing parent. */
    method Mkdir(d: Dir) returns (ok: bool)
      modifies this
      ensures ok <==> d !in old(dirs) && ParentPresent(d, old(dirs))
      ensures dirs == (if ok then old(dirs) + {d} else old(dirs))
      ensures placed == old(placed)
    {
      ok := d !in dirs && ParentPresent(d, dirs);
      if ok {
        dirs := dirs + {d};
      }
    }

    /** Copies or moves a photo into a directory, which must exist (`cluster_photo`, lines 94-98). */
    method Place(photo: Photo, dest: Dir) returns (ok: bool)
      modifies this
      ensures ok <==> dest in old(dirs)
      ensures dirs == old(dirs)
      ensures placed == (if ok then old(placed) + [Placement(photo, dest)] else old(placed))
    {
      ok := dest in dirs;
      if ok {
        placed := placed + [Placement(photo, dest)];
      }
    }
  }
}
