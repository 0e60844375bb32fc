# Product image lifecycle

A Dafny model of the image handling in the Laravel `ProductController` of a
small product catalog. Each product record holds an ordered list of image
paths such as `images/1718000000_665f1c2a3b4d5.png`. Each path names a file
under the public directory. The controller keeps that list and the files in
step through three actions:

- `store` moves every upload into `images/` under a freshly generated name and
  returns the list of their paths, in upload order.
- `update` starts from the current list, with `null` read as empty
  (`ImageList.ImagesOrEmpty`, app/Http/Controllers/ProductController.php:90). For each
  delete-requested path, in request order, it unlinks the file if it exists and
  filters every equal entry out of the list. It then appends one freshly
  generated path per new upload.
- `destroy` unlinks every file the list names that still exists.

The public disk is modelled as the class `Storage.Disk`. Its one field,
`files`, is the set of paths (relative to the public directory) of the files
present. The PHP calls map onto it like this:

- `file_exists` is a membership test on `files`.
- `unlink` removes a path from `files`.
- `move` inserts a path into `files`.
- `time()` is the parameter `now`.
- `uniqid()` is an oracle (`Disk.FreshName`). It returns some id whose
  generated path is not yet on the disk.

The controller is the class `Products.ProductController`, which holds the
disk. Its methods contain the source's loops. Their postconditions tie the
returned list and the new disk contents to the pure functions of module
`ImageList`:

- `RemoveAll` models the sequential delete loop.
- `Keep` is a one-pass reference filter. The lemma `RemoveAllIsKeep` proves
  `RemoveAll` equal to it.

The properties of the list filtering are proved about these two functions:
membership, multiplicities, relative order, idempotence, and independence from
the order and repetition of requests.

The source does not check that a delete-requested path belongs to the product.
Requests are a list. A requested path the list does not contain leaves the list
unchanged (`RemoveAllUnknownRequests`), but its file is still unlinked if it
exists. `DeleteRequested` and `Update` state this in the disk clause of their
postconditions. `RemoveAllSameRequests` shows that only the set of requested
paths matters for the resulting list.

## Model

| member | source | states |
|---|---|---|
| ImageList.Decimal | app/Http/Controllers/ProductController.php:45 | the rendering of the clock reading is a non-empty string of decimal digits, one digit exactly when the reading is below ten, with no leading zero |
| ImageList.DecimalValue | app/Http/Controllers/ProductController.php:45 | the digits of the rendering denote exactly the clock reading |
| ImageList.GeneratedPathShape | app/Http/Controllers/ProductController.php:45-49 | a generated path starts with `images/`, the clock reading and `_`, ends with `.` and the upload's extension, and is longer than the unique id |
| ImageList.RemoveAllIsKeep | app/Http/Controllers/ProductController.php:94-101 | filtering the requested paths one after another equals a single pass keeping exactly the entries no request names |
| ImageList.RemoveAllCount | app/Http/Controllers/ProductController.php:100 | after the delete loop a path is listed iff it was listed and not requested; every occurrence of a requested path is gone, duplicates included, and each surviving path keeps its number of occurrences |
| ImageList.RemoveAllOrder | app/Http/Controllers/ProductController.php:100 | survivors are a subsequence of the current list: they keep their relative order |
| ImageList.RemoveAllAppend | app/Http/Controllers/ProductController.php:100 | deleting from a concatenation deletes from each part, so order is kept within and across every split of the list |
| ImageList.RemoveAllSameRequests | app/Http/Controllers/ProductController.php:94-101 | two request lists naming the same paths, in any order and with any repetition, give the same list |
| ImageList.RemoveAllRepeatedRequest | app/Http/Controllers/ProductController.php:94-101 | requesting a path twice gives the list that requesting it once gives |
| ImageList.RemoveAllIdempotent | app/Http/Controllers/ProductController.php:94-101 | running the same delete requests a second time changes nothing |
| ImageList.RemoveAllUnknownRequests | app/Http/Controllers/ProductController.php:94-101 | requests that name no listed path leave the list unchanged |
| ImageList.SurvivorsStored | app/Http/Controllers/ProductController.php:94-101 | if every listed path is on disk, every survivor is still on disk once the requested files are unlinked |
| Storage.LongerThanAll | app/Http/Controllers/ProductController.php:45 | some length exceeds that of every stored path, so an unused generated name always exists |
| Storage.Disk.FileExists | app/Http/Controllers/ProductController.php:96 | the answer is true exactly when the path is on disk |
| Storage.Disk.Unlink | app/Http/Controllers/ProductController.php:97 | the path is no longer on disk and no other file changes |
| Storage.Disk.Move | app/Http/Controllers/ProductController.php:47 | the file now exists at directory/name and no other file changes |
| Storage.Disk.FreshName | app/Http/Controllers/ProductController.php:45 | the name is `<time>_<uniqid>.<ext>` for the given clock reading and extension, and its path under `images/` is not on disk |
| Products.ProductController.MoveUploads | app/Http/Controllers/ProductController.php:106-110 | one path per upload, in upload order: each is generated from the clock and that upload's extension, none was on disk before, all differ, and exactly these paths are added to the disk |
| Products.ProductController.Store | app/Http/Controllers/ProductController.php:39-51 | one fresh, distinct generated path per upload, in upload order; all of them on disk afterwards; no file removed; with no uploads, the empty list and an unchanged disk |
| Products.ProductController.DeleteRequested | app/Http/Controllers/ProductController.php:93-102 | the list becomes the sequential filter of all requested paths; the disk loses exactly the requested paths, listed or not, and a request whose file is absent changes nothing on disk |
| Products.ProductController.Update | app/Http/Controllers/ProductController.php:89-111 | the new list is the current list (null as empty) with every requested path filtered out, survivors in order, followed by the fresh upload paths in upload order; the disk loses the requested files and gains exactly the new ones; if every current path was on disk, every final path is |
| Products.ProductController.Destroy | app/Http/Controllers/ProductController.php:131-138 | the disk loses exactly the files the list names, so none of them remains and others are untouched; a null or empty list changes nothing |

## Left out

- Request validation (`$request->validate`, `image|max:2048`) is left out. It is a framework boundary check, so the inputs are taken as already valid.
- The product record itself is left out: `Product::create`, `$product->update`, `$product->delete` and the redirects with flash messages. The methods return the list the controller would save.
- The attributes name, details, size, color, category and price are left out. They pass through the core unchanged.
- The listing, create and edit views are left out. They are Blade templates and browser JavaScript (repeater rows, previews, thumbnail badges) with no state of their own.
- File contents and the absolute `public_path()` root are left out. An upload is known only by its client-side extension, and a file only by its path relative to the public directory.
- `uniqid()` is not computed. It is an oracle that returns an id whose generated path is not yet stored, as its practical uniqueness intends.
- Products.ProductController.MoveUploads: reads the clock once per request as `now`, while the source calls `time()` once per upload.
- Failures of `move` (a full disk, a permission error) are left out. The source has no handling for them: the exception ends the request.
- Concurrent edits of the same product are left out. The source does nothing about them.
- Products.ProductController.DeleteRequested: takes each request to name at most one file, by exactly that string, and never a directory, as the edit form's checkbox values (resources/views/products/edit.blade.php:35) do. In the source a request spelled differently (`./images/a.png`, `images//a.png`) unlinks the listed file while the list keeps its entry, and a request naming a directory (`images`) passes `file_exists`, makes `unlink` fail and aborts the request after the earlier unlinks. The model does neither.
- Products.ProductController.Update: its disk clause and its clause that every final path is on disk rest on the same assumption of one path string per file and no directory requests; an aliasing request leaves a listed path with no file behind it in the source.
- ImageList.SurvivorsStored: holds under the same assumption; with an aliasing request a survivor's file can be gone in the source.
