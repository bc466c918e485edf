/**
 * Where the save handler puts a screenshot: a file outside the asset folder
 * is copied in under the bug's id and the original extension; a path that
 * already names the asset folder is kept; no file means "No Image".
 * Paths follow POSIX rules (separator '/').
 */
module Attachment {
  import opened Tables

  /** The asset folder, relative to the working directory. */
  const ImageFolder := "bug_assets"

  /** Whether `sub` occurs somewhere in `s`. */
  predicate Contains(s: string, sub: string)
    decreases |s|
  {
    if |s| < |sub| then false
    else s[..|sub|] == sub || Contains(s[1..], sub)
  }

  lemma {:induction false} ContainsAt(s: string, sub: string, i: nat)
    requires i + |sub| <= |s| && s[i..i + |sub|] == sub
    ensures Contains(s, sub)
  {
    if i > 0 {
      assert s[1..][i - 1..i - 1 + |sub|] == s[i..i + |sub|];
      ContainsAt(s[1..], sub, i - 1);
    }
  }

  /** Position of the last `ch` in `s`, or -1. */
  function LastIndexOf(s: string, ch: char): (i: int)
    ensures -1 <= i < |s|
    ensures i >= 0 ==> s[i] == ch
    ensures forall j :: i < j < |s| ==> s[j] != ch
  {
    if s == [] then -1
    else if s[|s| - 1] == ch then |s| - 1
    else LastIndexOf(s[..|s| - 1], ch)
  }

  /**
   * The extension of a path as os.path.splitext gives it: from the last dot
   * of the file name, provided the name has something other than dots before it.
   */
  function Extension(path: string): (ext: string)
    ensures ext == "" || (|ext| <= |path| && ext == path[|path| - |ext|..])
    ensures ext != "" ==> ext[0] == '.' && forall j :: 1 <= j < |ext| ==> ext[j] != '.' && ext[j] != '/'
    ensures ext != "" ==> exists k :: LastIndexOf(path, '/') < k < |path| - |ext| && path[k] != '.'
  {
    var sep := LastIndexOf(path, '/');
    var dot := LastIndexOf(path, '.');
    if dot > sep && exists k :: sep < k < dot && path[k] != '.' then
      assert forall j :: 1 <= j < |path[dot..]| ==> path[dot..][j] == path[dot + j];
      path[dot..]
    else ""
  }

  /**
   * Conversely, a file name with a dot somewhere after a character other than
   * a dot has a non-empty extension.
   */
  lemma ExtensionPresent(path: string, k: int, d: int)
    requires LastIndexOf(path, '/') < k < d < |path|
    requires path[k] != '.' && path[d] == '.'
    ensures Extension(path) != ""
  {
    var dot := LastIndexOf(path, '.');
    assert dot >= d;
    assert LastIndexOf(path, '/') < k < dot && path[k] != '.';
  }

  /** os.path.join of two POSIX path parts. */
  function Join(dir: string, name: string): (p: string)
    ensures |name| > 0 && name[0] == '/' ==> p == name
    ensures !(|name| > 0 && name[0] == '/') && dir != [] && dir[|dir| - 1] != '/' ==> p == dir + "/" + name
  {
    if |name| > 0 && name[0] == '/' then name
    else if dir == [] || dir[|dir| - 1] == '/' then dir + name
    else dir + "/" + name
  }

  /**
   * The Image_Path cell the save handler records for `imagePath` (the file
   * chosen on the form, "" for none; `imageExists` says whether it exists).
   */
  function AttachmentPath(imagePath: string, imageExists: bool, bugId: string): (r: string)
    ensures imagePath == "" || !imageExists ==> r == NoImage
    ensures imagePath != "" && imageExists && Contains(imagePath, ImageFolder) ==> r == imagePath
    ensures imagePath != "" && imageExists && !Contains(imagePath, ImageFolder) && !(|bugId| > 0 && bugId[0] == '/') ==>
      r == ImageFolder + "/" + bugId + Extension(imagePath)
    ensures imagePath != "" && imageExists && !Contains(imagePath, ImageFolder) && |bugId| > 0 && bugId[0] == '/' ==>
      r == bugId + Extension(imagePath)
  {
    if imagePath != "" && imageExists then
      if !Contains(imagePath, ImageFolder) then Join(ImageFolder, bugId + Extension(imagePath))
      else imagePath
    else NoImage
  }

  /** Whether saving with this chosen file copies it into the asset folder. */
  predicate CopiesFile(imagePath: string, imageExists: bool)
  {
    imagePath != "" && imageExists && !Contains(imagePath, ImageFolder)
  }

  /**
   * Re-saving a record with its stored path handed back keeps that path and
   * copies nothing, as long as the bug id is not an absolute path.
   */
  lemma AttachmentStable(imagePath: string, bugId: string)
    requires imagePath != ""
    requires !(|bugId| > 0 && bugId[0] == '/')
    ensures var stored := AttachmentPath(imagePath, true, bugId);
      !CopiesFile(stored, true) && AttachmentPath(stored, true, bugId) == stored
  {
    var stored := AttachmentPath(imagePath, true, bugId);
    if !Contains(imagePath, ImageFolder) {
      assert stored[0..|ImageFolder|] == ImageFolder;
      ContainsAt(stored, ImageFolder, 0);
    }
  }
}
