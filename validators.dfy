/** src/validators.ts: the checks run before a command works on the active
    editor, each answering with a validity flag and, when invalid, a fixed
    message. The editor itself is reduced to whether there is one. */
module Validators {
  import opened Text

  datatype ValidationResult = ValidationResult(isValid: bool, errorMessage: Option<string>)

  const EditorMessage := "Open a package.xml (or related XML) and select members to work with."
  const FolderMessage := "This command only runs on files inside a 'manifest' folder."
  const Folder := "manifest"

  /** Lines 11-22: without an editor the result is invalid with its fixed
      message; with one it is valid and carries no message. */
  function ValidateEditorExists(editorPresent: bool): (r: ValidationResult)
    ensures r.isValid <==> editorPresent
    ensures !r.isValid ==> r.errorMessage == Some(EditorMessage)
    ensures r.isValid ==> r.errorMessage == None
  {
    if !editorPresent then ValidationResult(false, Some(EditorMessage))
    else ValidationResult(true, None)
  }

  predicate IsSeparator(c: char)
  {
    c == '/' || c == '\\'
  }

  /** `/[\\\/]manifest([\\\/]|$)/i` matches at offset `i`: a separator, then
      "manifest" in any letter case, then a separator or the end. */
  predicate ManifestAt(path: string, i: int)
  {
    0 <= i && i + 1 + |Folder| <= |path| && IsSeparator(path[i]) && StartsCI(path, i + 1, Folder)
    && (i + 1 + |Folder| == |path| || IsSeparator(path[i + 1 + |Folder|]))
  }

  /** `test` from offset `from` on: some offset there has a match. */
  function MatchesFrom(path: string, from: nat): (r: bool)
    ensures r <==> exists i :: from <= i && ManifestAt(path, i)
    decreases |path| - from
  {
    if from + 1 + |Folder| > |path| then false
    else ManifestAt(path, from) || MatchesFrom(path, from + 1)
  }

  /** Lines 24-32: a path is accepted exactly when a separator followed by
      "manifest" (any letter case) and then a separator or the end occurs in
      it; a rejection carries the fixed message, an acceptance none. */
  function ValidateManifestFolder(filePath: string): (r: ValidationResult)
    ensures r.isValid <==> exists i :: ManifestAt(filePath, i)
    ensures !r.isValid ==> r.errorMessage == Some(FolderMessage)
    ensures r.isValid ==> r.errorMessage == None
  {
    if !MatchesFrom(filePath, 0) then ValidationResult(false, Some(FolderMessage))
    else ValidationResult(true, None)
  }

  /** Line 25: a leading "manifest" without a separator before it does not
      count. */
  lemma NoLeadingSeparator()
    ensures !ValidateManifestFolder("manifest/x.xml").isValid
  {
    var p := "manifest/x.xml";
    assert forall i :: 0 <= i <= 5 ==> !IsSeparator(p[i]);
  }

  /** Line 25: "manifests" is another folder. */
  lemma LongerFolderName()
    ensures !ValidateManifestFolder("/manifests/x").isValid
  {
    var p := "/manifests/x";
    assert !IsSeparator(p[9]);
    assert forall i :: 1 <= i <= 3 ==> !IsSeparator(p[i]);
  }

  /** Line 25: letter case does not matter, and a backslash separates. */
  lemma MixedCaseFolder()
    ensures ValidateManifestFolder("C:\\proj\\MaNiFeSt\\package.xml").isValid
  {
    var p := "C:\\proj\\MaNiFeSt\\package.xml";
    assert StartsCI(p, 8, Folder) by {
      assert Lower('M') == 'm' && Lower('N') == 'n' && Lower('F') == 'f' && Lower('S') == 's';
    }
    assert ManifestAt(p, 7);
  }

  /** Line 25: the folder may also end the path. */
  lemma FolderAtEnd()
    ensures ValidateManifestFolder("/work/manifest").isValid
  {
    var p := "/work/manifest";
    assert StartsCI(p, 6, Folder);
    assert ManifestAt(p, 5);
  }
}
