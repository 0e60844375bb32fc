/** The public disk the controller writes uploads to, seen as the set of
    paths (relative to the public root) of the files it holds. */
module Storage {
  import opened ImageList

  /** Some length no stored path reaches. */
  lemma LongerThanAll(files: set<string>) returns (n: nat)
    ensures forall p :: p in files ==> |p| < n
  {
    if files == {} {
      n := 0;
    } else {
      var x :| x in files;
      var m := LongerThanAll(files - {x});
      n := if m > |x| then m else |x| + 1;
    }
  }

  function Zeros(n: nat): (r: string)
    ensures |r| == n
  {
    if n == 0 then "" else "0" + Zeros(n - 1)
  }

  class Disk {
    var files: set<string>

    constructor (initial: set<string>)
      ensures files == initial
    {
      files := initial;
    }

    /** `file_exists(public_path($path))`. */
    method FileExists(path: string) returns (present: bool)
      ensures present <==> path in files
    {
      present := path in files;
    }

    /** `unlink(public_path($path))`; the controller only calls it on a
        file it has just seen. */
    method Unlink(path: string)
      requires path in files
      modifies this
      ensures path !in files
      ensures files == old(files) - {path}
    {
      files := files - {path};
    }

    /** `$image->move(public_path($dir), $name)`: the uploaded file now
        exists at `dir/name`, replacing any file of that name. */
    method Move(dir: string, name: string)
      modifies this
      ensures dir + "/" + name in files
      ensures files == old(files) + {dir + "/" + name}
    {
      files := files + {dir + "/" + name};
    }

    /** The name `time() . '_' . uniqid() . '.' . $ext` for an upload taken
        at clock reading `now`. `uniqid()` is an oracle: it returns some `id`
        whose generated file does not exist yet in the images directory. */
    method FreshName(now: nat, ext: string) returns (id: string, name: string)
      ensures name == GeneratedName(now, id, ext)
      ensures ImagePath(name) !in files
    {
      ghost var n := LongerThanAll(files);
      GeneratedPathShape(now, Zeros(n), ext);
      assert ImagePath(GeneratedName(now, Zeros(n), ext)) !in files;
      id :| ImagePath(GeneratedName(now, id, ext)) !in files;
      name := GeneratedName(now, id, ext);
    }
  }
}
