/** Upload parameters chosen by the multer middleware (middlewares/multerMiddleware.js):
    the extension of the uploaded file's original name decides whether the chat
    attachment is stored as an image, a video or a raw file. */
module Uploads {
  import opened Common
  import opened Text

  /** `s.split('.')`: the pieces between dots, in order (one more piece than there are dots). */
  function Split(s: string): (r: seq<string>)
    ensures |r| >= 1
    ensures forall k :: 0 <= k < |r| ==> '.' !in r[k]
    ensures Join(r) == s
  {
    if s == [] then [[]]
    else
      var rest := Split(s[1..]);
      if s[0] == '.' then [[]] + rest
      else
        assert Join([[s[0]] + rest[0]] + rest[1..]) == [s[0]] + Join(rest) by {
          if |rest| > 1 { assert ([[s[0]] + rest[0]] + rest[1..])[1..] == rest[1..]; }
        }
        [[s[0]] + rest[0]] + rest[1..]
  }

  /** `pieces.join('.')`, the inverse of `Split`. */
  function Join(pieces: seq<string>): string
  {
    if |pieces| <= 1 then (if pieces == [] then [] else pieces[0])
    else pieces[0] + ['.'] + Join(pieces[1..])
  }

  function Last(pieces: seq<string>): string
    requires |pieces| >= 1
  {
    pieces[|pieces| - 1]
  }

  /** `file.originalname.split('.').pop().toLowerCase()`. */
  function Extension(originalName: string): (r: string)
    ensures '.' !in r
    ensures forall i :: 0 <= i < |r| ==> !('A' <= r[i] <= 'Z')
  {
    var pieces := Split(originalName);
    assert '.' !in Last(pieces);
    Lower(Last(pieces))
  }

  /** The extension is the lower-cased text after the last dot. */
  lemma {:induction false} ExtensionAfterLastDot(stem: string, ext: string)
    requires '.' !in ext
    ensures Extension(stem + ['.'] + ext) == Lower(ext)
  {
    LastPieceAfterLastDot(stem, ext);
  }

  lemma {:induction false} LastPieceAfterLastDot(stem: string, ext: string)
    requires '.' !in ext
    ensures |Split(stem + ['.'] + ext)| >= 2
    ensures Last(Split(stem + ['.'] + ext)) == ext
  {
    var s := stem + ['.'] + ext;
    if stem == [] {
      assert s[1..] == ext;
      NoDotIsOnePiece(ext);
    } else {
      assert s[1..] == stem[1..] + ['.'] + ext;
      LastPieceAfterLastDot(stem[1..], ext);
    }
  }

  /** A name without a dot is its own extension (lower-cased). */
  lemma {:induction false} NoDotIsOnePiece(name: string)
    requires '.' !in name
    ensures Split(name) == [name]
    ensures Extension(name) == Lower(name)
  {
    if name != [] {
      assert '.' !in name[1..];
      NoDotIsOnePiece(name[1..]);
      assert [name[0]] + name[1..] == name;
    }
  }

  function LowerAll(pieces: seq<string>): (r: seq<string>)
    ensures |r| == |pieces|
    ensures forall k :: 0 <= k < |pieces| ==> r[k] == Lower(pieces[k])
  {
    if pieces == [] then [] else [Lower(pieces[0])] + LowerAll(pieces[1..])
  }

  /** Lower-casing commutes with splitting on the dot, which is not a letter. */
  lemma {:induction false} SplitLower(s: string)
    ensures Split(Lower(s)) == LowerAll(Split(s))
  {
    if s != [] {
      var l := Lower(s);
      assert l[1..] == Lower(s[1..]);
      SplitLower(s[1..]);
      var rest := Split(s[1..]);
      if s[0] != '.' {
        LowerAppend([s[0]], rest[0]);
        assert Lower([s[0]]) == [l[0]];
      }
    }
  }

  /** Classification is case-insensitive: names equal up to ASCII case have the same extension. */
  lemma ExtensionIgnoresCase(a: string, b: string)
    requires Lower(a) == Lower(b)
    ensures Extension(a) == Extension(b)
  {
    SplitLower(a);
    SplitLower(b);
    assert Extension(a) == Last(Split(Lower(a)));
    assert Extension(b) == Last(Split(Lower(b)));
  }

  const ImageExtensions: seq<string> := ["jpg", "jpeg", "png", "gif", "bmp", "webp"]
  const VideoExtensions: seq<string> := ["mp4", "mov", "avi", "mkv"]
  const ChunkSize: nat := 6000000

  /** The formats a profile picture may have (`profileStorage`). */
  const ProfileFormats: seq<string> := ["jpg", "jpeg", "png"]

  /** The storage parameters of one chat attachment. `allowedFormats` is `None` when the
      parameter object has no `allowed_formats` key. */
  datatype UploadParams = UploadParams(
    folder: string,
    resourceType: string,
    chunkSize: nat,
    allowedFormats: Option<seq<string>>)

  /** The `fileStorage` params function: classify by extension, then build the
      parameter object, adding `allowed_formats` only when a format list was chosen. */
  method FileParams(originalName: string) returns (params: UploadParams)
    ensures params.chunkSize == ChunkSize
    ensures var ext := Extension(originalName);
      && (ext in ImageExtensions ==>
            params.resourceType == "image" && params.folder == "chat-app-images"
            && params.allowedFormats == Some(ImageExtensions))
      && (ext in VideoExtensions ==>
            params.resourceType == "video" && params.folder == "chat-app-videos"
            && params.allowedFormats == Some(VideoExtensions))
      && (ext !in ImageExtensions && ext !in VideoExtensions ==>
            params.resourceType == "raw" && params.folder == "chat-app-files"
            && params.allowedFormats == None)
  {
    var fileExt := Extension(originalName);
    var resourceType := "raw";
    var folder := "chat-app-files";
    var allowedFormats: Option<seq<string>> := None;
    if fileExt in ImageExtensions {
      resourceType := "image";
      folder := "chat-app-images";
      allowedFormats := Some(ImageExtensions);
    } else if fileExt in VideoExtensions {
      resourceType := "video";
      folder := "chat-app-videos";
      allowedFormats := Some(VideoExtensions);
    }
    params := UploadParams(folder, resourceType, ChunkSize, None);
    if allowedFormats.Some? {
      params := params.(allowedFormats := allowedFormats);
    }
  }

  /** No extension is both an image and a video extension, so the branches of
      `FileParams` never overlap and every extension gets exactly one class. */
  lemma ImageAndVideoDisjoint(ext: string)
    ensures !(ext in ImageExtensions && ext in VideoExtensions)
  {
  }

  /** Every format a profile picture may have is also accepted as a chat image. */
  lemma ProfileFormatsAreImages()
    ensures forall f :: f in ProfileFormats ==> f in ImageExtensions
  {
  }
}
