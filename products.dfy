/** The image handling of the product controller: `store` saves one file
    per upload and builds the product's list of paths, `update` drops the
    delete-requested paths (unlinking their files) and appends the new
    uploads, `destroy` unlinks every file the list refers to. Each returns
    the list the controller hands to the record it saves. */
module Products {
  import opened ImageList
  import opened Storage

  /** An uploaded file, known here by its client-side extension. */
  datatype Upload = Upload(extension: string)

  /** `paths` are the paths saved for `uploads`, one per upload and in
      upload order: each is generated from the clock reading and that
      upload's extension, none names a file of `before`, and no two are
      equal. */
  ghost predicate FreshUploadPaths(paths: seq<string>, uploads: seq<Upload>, now: nat, before: set<string>) {
    && |paths| == |uploads|
    && (forall i :: 0 <= i < |uploads| ==> GeneratedPath(paths[i], now, uploads[i].extension))
    && (forall i :: 0 <= i < |paths| ==> paths[i] !in before)
    && (forall i, j :: 0 <= i < j < |paths| ==> paths[i] != paths[j])
  }

  class ProductController {
    const disk: Disk

    constructor (disk: Disk)
      ensures this.disk == disk
    {
      this.disk := disk;
    }

    /** The upload loop shared by `store` and `update`: every upload, in
        order, is moved under a fresh generated name into the images
        directory and its path is collected. */
    method MoveUploads(uploads: seq<Upload>, now: nat) returns (paths: seq<string>)
      modifies disk
      ensures FreshUploadPaths(paths, uploads, now, old(disk.files))
      ensures disk.files == old(disk.files) + Elems(paths)
    {
      paths := [];
      for k := 0 to |uploads|
        invariant |paths| == k
        invariant forall i :: 0 <= i < k ==> GeneratedPath(paths[i], now, uploads[i].extension)
        invariant forall i :: 0 <= i < k ==> paths[i] !in old(disk.files)
        invariant forall i, j :: 0 <= i < j < k ==> paths[i] != paths[j]
        invariant disk.files == old(disk.files) + Elems(paths)
      {
        var id, imageName := disk.FreshName(now, uploads[k].extension);
        disk.Move(ImagesDir, imageName);
        assert ImagePath(imageName) == ImagePath(GeneratedName(now, id, uploads[k].extension));
        paths := paths + [ImagePath(imageName)];
      }
    }

    /** `store`: one path per upload, in upload order, each a freshly
        generated name with that upload's extension; every returned path is
        stored and no file that existed before is removed. */
    method Store(uploads: seq<Upload>, now: nat) returns (imagePaths: seq<string>)
      modifies disk
      ensures |imagePaths| == |uploads|
      ensures forall i :: 0 <= i < |uploads| ==> GeneratedPath(imagePaths[i], now, uploads[i].extension)
      ensures forall i :: 0 <= i < |imagePaths| ==> imagePaths[i] !in old(disk.files)
      ensures forall i, j :: 0 <= i < j < |imagePaths| ==> imagePaths[i] != imagePaths[j]
      ensures disk.files == old(disk.files) + Elems(imagePaths)
      ensures AllStored(imagePaths, disk.files) && old(disk.files) <= disk.files
      ensures uploads == [] ==> imagePaths == [] && disk.files == old(disk.files)
    {
      imagePaths := MoveUploads(uploads, now);
      assert FreshUploadPaths(imagePaths, uploads, now, old(disk.files));
      assert uploads == [] ==> Elems(imagePaths) == {};
    }

    /** The delete loop of `update`: for each requested path, in request
        order, the file is unlinked if it exists and every equal entry is
        filtered out of the list. A request whose file is absent leaves the
        disk as it is; one naming a path the list lacks leaves the list. */
    method DeleteRequested(list: seq<string>, deleteImages: seq<string>) returns (remaining: seq<string>)
      modifies disk
      ensures remaining == RemoveAll(list, deleteImages)
      ensures disk.files == old(disk.files) - Elems(deleteImages)
    {
      remaining := list;
      for k := 0 to |deleteImages|
        invariant remaining == RemoveAll(list, deleteImages[..k])
        invariant disk.files == old(disk.files) - Elems(deleteImages[..k])
      {
        var delImg := deleteImages[k];
        var present := disk.FileExists(delImg);
        if present {
          disk.Unlink(delImg);
        }
        RemoveAllSnoc(list, deleteImages[..k], delImg);
        assert deleteImages[..k + 1] == deleteImages[..k] + [delImg];
        remaining := Without(remaining, delImg);
      }
      assert deleteImages[..|deleteImages|] == deleteImages;
    }

    /** `update`: the current list (null read as empty) loses every
        occurrence of each delete-requested path, and each requested file
        that exists is unlinked, whether or not the list names it; then one
        fresh path per upload is appended, after all survivors. */
    method Update(current: Option<seq<string>>, deleteImages: seq<string>, uploads: seq<Upload>, now: nat)
      returns (finalImages: seq<string>, ghost added: seq<string>)
      modifies disk
      ensures finalImages == RemoveAll(ImagesOrEmpty(current), deleteImages) + added
      ensures FreshUploadPaths(added, uploads, now, old(disk.files) - Elems(deleteImages))
      ensures disk.files == (old(disk.files) - Elems(deleteImages)) + Elems(added)
      ensures AllStored(ImagesOrEmpty(current), old(disk.files)) ==> AllStored(finalImages, disk.files)
    {
      var kept := DeleteRequested(ImagesOrEmpty(current), deleteImages);
      if AllStored(ImagesOrEmpty(current), old(disk.files)) {
        SurvivorsStored(ImagesOrEmpty(current), deleteImages, old(disk.files));
      }
      var paths := MoveUploads(uploads, now);
      added := paths;
      finalImages := kept + paths;
    }

    /** `destroy`: every file the list refers to is unlinked if present;
        no other file is touched; a null or empty list changes nothing. */
    method Destroy(images: Option<seq<string>>)
      modifies disk
      ensures disk.files == old(disk.files) - Elems(ImagesOrEmpty(images))
      ensures forall i :: 0 <= i < |ImagesOrEmpty(images)| ==> ImagesOrEmpty(images)[i] !in disk.files
      ensures images.None? || images == Some([]) ==> disk.files == old(disk.files)
    {
      if images.Some? && images.value != [] {
        var list := images.value;
        for k := 0 to |list|
          invariant disk.files == old(disk.files) - Elems(list[..k])
        {
          var img := list[k];
          var present := disk.FileExists(img);
          if present {
            disk.Unlink(img);
          }
          assert list[..k + 1] == list[..k] + [img];
        }
        assert list[..|list|] == list;
      } else {
        assert Elems(ImagesOrEmpty(images)) == {};
      }
    }
  }

  /** Scenario: a product with images a, b, c; b is deleted and one png is
      uploaded; the list becomes a, c and the new path, b's file is gone. */
  method UpdateScenario(now: nat) {
    var disk := new Disk({"images/a.png", "images/b.png", "images/c.png"});
    var controller := new ProductController(disk);
    var list := ["images/a.png", "images/b.png", "images/c.png"];
    assert RemoveAll(list, ["images/b.png"]) == ["images/a.png", "images/c.png"];
    var result, added := controller.Update(Some(list), ["images/b.png"], [Upload("png")], now);
    assert result[..2] == ["images/a.png", "images/c.png"] && |result| == 3;
    assert "images/a.png" in disk.files && result[2] in disk.files;
    assert GeneratedPath(result[2], now, "png");
    ghost var id :| result[2] == ImagePath(GeneratedName(now, id, "png"));
    GeneratedPathShape(now, id, "png");
    assert result[2][7] == Decimal(now)[0] != 'b';
    assert "images/b.png" !in disk.files;
  }
}
