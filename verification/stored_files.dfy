/**
  Which file an upload is stored under, at what size, and which stored file a
  replacement or deletion removes. The randomness of the file stem is a
  parameter; image resizing and the file system itself are not modelled.
 */
module StoredFiles {
  import opened Wrappers
  import opened Sequences
  import opened Entities

  /** The names stored for rows that never had an upload. */
  const DefaultProfilePic: string := "default_profile_pic.jpg"
  const DefaultPostPic: string := "default_post_pic.jpg"

  /** Target sizes of the cover-crop applied before saving. */
  const ProfileSize: (int, int) := (250, 250)
  const PostSize: (int, int) := (1000, 800)

  /** Eight random bytes rendered as 16 lower-case hexadecimal digits. */
  const RandomStemLength: int := 16

  predicate IsLowerHexDigit(c: char) { '0' <= c <= '9' || 'a' <= c <= 'f' }

  /** A possible value of `secrets.token_hex(8)`. */
  predicate IsRandomStem(h: string) {
    |h| == RandomStemLength && AllOf(h, IsLowerHexDigit)
  }

  /**
    The extension `os.path.splitext` (POSIX flavour) splits off `p`: from the
    last dot to the end, provided that dot lies after the last `/` and is not
    one of the dots a file name starts with; otherwise empty.
   */
  function Extension(p: string): (ext: string)
    ensures |ext| <= |p| && p[|p| - |ext|..] == ext
    ensures ext != [] ==> ext[0] == '.' && '.' !in ext[1..] && '/' !in ext
    ensures ext != [] <==> HasExtension(p)
  {
    match LastIndexOf(p, '.')
    case None => ""
    case Some(dot) =>
      var nameStart := match LastIndexOf(p, '/') case None => 0 case Some(sep) => sep + 1;
      assert '/' !in p[nameStart..];
      if nameStart <= dot && !AllOf(p[nameStart..dot], c => c == '.') then
        assert '/' !in p[dot..];
        var k :| 0 <= k < dot - nameStart && p[nameStart..dot][k] != '.';
        assert p[nameStart + k..] == p[nameStart..][k..];
        assert ExtensionAfter(p, dot, nameStart + k);
        p[dot..]
      else
        assert !HasExtension(p) by {
          forall j | 0 <= j < dot
            ensures !ExtensionAfter(p, dot, j)
          {
            if LastIndexOf(p, '/').Some? && j < nameStart {
              var sep := LastIndexOf(p, '/').value;
              assert p[j..][sep - j] == '/';
            } else if nameStart <= dot {
              assert p[nameStart..dot][j - nameStart] == p[j];
            }
          }
        }
        ""
  }

  /**
    `p` has an extension: a last dot exists, and some character before it that
    is not a dot lies in the same path component, so the dot is neither part
    of a directory name nor among the leading dots of the file name.
   */
  ghost predicate HasExtension(p: string) {
    exists dot, j :: LastIndexOf(p, '.') == Some(dot) && ExtensionAfter(p, dot, j)
  }

  /** Position `j` precedes `dot`, holds no dot, and no `/` follows it. */
  predicate ExtensionAfter(p: string, dot: nat, j: int) {
    0 <= j < dot <= |p| && p[j] != '.' && '/' !in p[j..]
  }

  /** The file name `save_picture` and `save_newsletter_file` build: random stem, original extension. */
  function StoredName(uploadName: string, stem: string): (name: string)
    requires IsRandomStem(stem)
    ensures |name| == RandomStemLength + |Extension(uploadName)|
    ensures name[..RandomStemLength] == stem && name[RandomStemLength..] == Extension(uploadName)
    ensures '/' !in name
  {
    stem + Extension(uploadName)
  }

  /** Where a saved picture goes and at what size. */
  datatype SavedPicture = SavedPicture(path: FilePath, size: (int, int))

  /**
    `save_picture`: a "profile" upload goes to the profile directory at
    250x250, anything else to the post directory at 1000x800; the name is the
    random stem followed by the upload's extension.
   */
  function SavePicture(uploadName: string, kind: string, stem: string): (r: SavedPicture)
    requires IsRandomStem(stem)
    ensures r.path.name == StoredName(uploadName, stem)
    ensures kind == "profile" ==> r.path.dir == ProfilePics && r.size == ProfileSize
    ensures kind != "profile" ==> r.path.dir == PostPics && r.size == PostSize
  {
    var name := StoredName(uploadName, stem);
    if kind == "profile" then SavedPicture(FilePath(ProfilePics, name), ProfileSize)
    else SavedPicture(FilePath(PostPics, name), PostSize)
  }

  /**
    `delete_picture`: the file removed, if any. A default name is never
    removed, and a kind other than "profile" or "post" removes nothing.
   */
  function DeletePicture(name: string, kind: string): (r: Option<FilePath>)
    ensures r.Some? <==>
      (kind == "profile" && name != DefaultProfilePic) || (kind == "post" && name != DefaultPostPic)
    ensures r.Some? ==> r.value.name == name
    ensures r.Some? ==> (r.value.dir == ProfilePics <==> kind == "profile")
    ensures r.Some? ==> r.value.dir in {ProfilePics, PostPics}
  {
    if name != DefaultProfilePic && kind == "profile" then Some(FilePath(ProfilePics, name))
    else if name != DefaultPostPic && kind == "post" then Some(FilePath(PostPics, name))
    else None
  }

  /** `save_newsletter_file`: the newsletter directory, random stem plus original extension. */
  function SaveNewsletterFile(uploadName: string, stem: string): (r: FilePath)
    requires IsRandomStem(stem)
    ensures r.dir == NewsletterFiles
    ensures r.name == StoredName(uploadName, stem)
  {
    FilePath(NewsletterFiles, StoredName(uploadName, stem))
  }

  /** `delete_newsletter_file`: always removes the named file from the newsletter directory. */
  function DeleteNewsletterFile(name: string): (r: FilePath)
    ensures r.dir == NewsletterFiles && r.name == name
  {
    FilePath(NewsletterFiles, name)
  }

  /** A stored name splits back into the upload's extension: the stem hides nothing. */
  lemma {:induction false} StoredNameKeepsExtension(uploadName: string, stem: string)
    requires IsRandomStem(stem)
    ensures Extension(StoredName(uploadName, stem)) == Extension(uploadName)
  {
    var ext := Extension(uploadName);
    var p := stem + ext;
    assert p[..RandomStemLength] == stem;
    assert '/' !in p by {
      assert forall i :: 0 <= i < RandomStemLength ==> p[i] == stem[i];
    }
    assert LastIndexOf(p, '/') == None;
    if ext == [] {
      assert p == stem;
      assert '.' !in stem by {
        assert forall i :: 0 <= i < |stem| ==> IsLowerHexDigit(stem[i]);
      }
      assert LastIndexOf(p, '.') == None;
    } else {
      assert p[RandomStemLength] == '.';
      assert p[RandomStemLength + 1..] == ext[1..];
      LastIndexOfUnique(p, '.', RandomStemLength);
      assert p[0..RandomStemLength] == stem;
      assert p[0] != '.';
      assert p[RandomStemLength..] == ext;
    }
  }

  /** A plain "name.ext" upload keeps ".ext". */
  lemma SimpleNameExtension(base: string, suffix: string)
    requires base != [] && '.' !in base && '/' !in base
    requires '.' !in suffix && '/' !in suffix
    ensures Extension(base + "." + suffix) == "." + suffix
  {
    var p := base + "." + suffix;
    assert p[|base| + 1..] == suffix;
    LastIndexOfUnique(p, '.', |base|);
    assert '/' !in p by {
      forall i | 0 <= i < |p|
        ensures p[i] != '/'
      {
        if i < |base| {
          assert p[i] == base[i];
        } else if i > |base| {
          assert p[i] == suffix[i - |base| - 1];
        }
      }
    }
    assert p[0] == base[0];
    assert p[|base|..] == "." + suffix;
  }

  /** A hidden-file name such as ".bashrc" has no extension, so the stored name is the bare stem. */
  lemma LeadingDotIsNoExtension(stem: string)
    requires IsRandomStem(stem)
    ensures StoredName(".bashrc", stem) == stem
  {
    var p := ".bashrc";
    LastIndexOfUnique(p, '.', 0);
    assert p[0..0] == [];
  }
}
