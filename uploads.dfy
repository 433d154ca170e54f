/** Photo uploads attached to loan events and reports. Only files whose declared content type
    starts with `image/` are stored; the stored path is `/static/uploads/<prefix>_<unique name>`.
    The unique name (a fresh uuid plus the file's extension) is an input, and the file's bytes
    are not modelled. */
module Uploads {
  import opened Common

  datatype Upload = Upload(contentType: Option<string>, uniqueName: string)

  const UploadsUrlDir: string := "/static/uploads/"

  /** `file.content_type and file.content_type.startswith('image/')`. */
  predicate IsImage(u: Upload)
  {
    Truthy(u.contentType) && StartsWith(u.contentType.value, "image/")
  }

  function StoredPath(prefix: string, u: Upload): string
  {
    UploadsUrlDir + prefix + "_" + u.uniqueName
  }

  /** The paths `save_*_photos` returns, in upload order. */
  function ImagePaths(prefix: string, uploads: seq<Upload>): (r: seq<string>)
    ensures |r| <= |uploads|
  {
    if |uploads| == 0 then []
    else
      var last := uploads[|uploads| - 1];
      ImagePaths(prefix, uploads[..|uploads| - 1]) + (if IsImage(last) then [StoredPath(prefix, last)] else [])
  }

  lemma {:induction false} ImagePathsMembership(prefix: string, uploads: seq<Upload>, p: string)
    ensures p in ImagePaths(prefix, uploads) <==>
            exists i :: 0 <= i < |uploads| && IsImage(uploads[i]) && p == StoredPath(prefix, uploads[i])
  {
    if |uploads| > 0 {
      var init := uploads[..|uploads| - 1];
      ImagePathsMembership(prefix, init, p);
      if p in ImagePaths(prefix, init) {
        var i :| 0 <= i < |init| && IsImage(init[i]) && p == StoredPath(prefix, init[i]);
        assert uploads[i] == init[i];
      }
      if exists i :: 0 <= i < |uploads| && IsImage(uploads[i]) && p == StoredPath(prefix, uploads[i]) {
        var i :| 0 <= i < |uploads| && IsImage(uploads[i]) && p == StoredPath(prefix, uploads[i]);
        if i < |init| {
          assert init[i] == uploads[i];
        }
      }
    }
  }

  /** Exactly the image uploads are kept: one path for each. */
  lemma {:induction false} ImagePathsCount(prefix: string, uploads: seq<Upload>)
    ensures |ImagePaths(prefix, uploads)| == Count(uploads, IsImage)
  {
    if |uploads| > 0 {
      ImagePathsCount(prefix, uploads[..|uploads| - 1]);
    }
  }

  /** The loop shared by `save_transaction_photos`, `save_damage_photos`, `save_found_photos`
      and the inline loops of the student report endpoints. */
  method SavePhotos(prefix: string, uploads: seq<Upload>) returns (paths: seq<string>)
    ensures paths == ImagePaths(prefix, uploads)
  {
    paths := [];
    var k := 0;
    while k < |uploads|
      invariant 0 <= k <= |uploads|
      invariant paths == ImagePaths(prefix, uploads[..k])
    {
      var u := uploads[k];
      if u.contentType.Some? && u.contentType.value != "" && StartsWith(u.contentType.value, "image/") {
        paths := paths + [StoredPath(prefix, u)];
      }
      assert uploads[..k + 1][..k] == uploads[..k];
      k := k + 1;
    }
    assert uploads[..|uploads|] == uploads;
  }
}
