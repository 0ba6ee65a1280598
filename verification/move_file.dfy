/** The decision `moveFile` makes around the cleaned title. The vault is the
    set of paths it holds; the host's rename is an abstract success or
    failure handed in by the caller. */
module MoveFile {
  import opened Optional
  import opened JsString
  import TitleSanitizer

  type Vault = set<string>

  /** What `moveFile` resolves to, the vault after it, and whether a rename
      took place. */
  datatype Outcome = Outcome(returned: Option<string>, vault: Vault, renamed: bool)

  /** `${newFolder}/${cleanedTitle}.md`: the folder, a slash, a clean file
      name and the markdown extension. */
  function TargetPath(newFolder: string, newTitle: string): (p: string)
    ensures StartsWith(p, newFolder + "/") && EndsWith(p, ".md")
    ensures |p| == |newFolder| + 4 + |TitleSanitizer.Clean(newTitle)|
    ensures p[|newFolder| + 1..|p| - 3] == TitleSanitizer.Clean(newTitle)
    ensures TitleSanitizer.IsCleanTitle(p[|newFolder| + 1..|p| - 3])
  {
    var name := TitleSanitizer.Clean(newTitle);
    PathParts(newFolder, name);
    newFolder + "/" + name + ".md"
  }

  /** Where the folder, the file name and the extension sit in a path. */
  lemma PathParts(folder: string, name: string)
    ensures var p := folder + "/" + name + ".md";
            && p[..|folder| + 1] == folder + "/"
            && p[|folder| + 1..|p| - 3] == name
            && p[|p| - 3..] == ".md"
  {
  }

  /** The decision `moveFile` takes once the target path is known. A missing
      file gives null and leaves the vault alone; a target equal to the
      current path is returned without renaming; otherwise the rename
      decides between the target and null. Whatever path comes back exists
      in the vault afterwards. */
  function Decide(vault: Vault, currentPath: string, target: string, renameSucceeds: bool): (o: Outcome)
    ensures currentPath !in vault ==> o == Outcome(None, vault, false)
    ensures o.renamed <==> currentPath in vault && target != currentPath && renameSucceeds
    ensures o.returned.Some? <==> currentPath in vault && (target == currentPath || renameSucceeds)
    ensures o.returned.Some? ==> o.returned.value == target && o.returned.value in o.vault
    ensures o.renamed ==> o.vault == vault - {currentPath} + {target}
    ensures !o.renamed ==> o.vault == vault
  {
    if currentPath !in vault then Outcome(None, vault, false)
    else if target == currentPath then Outcome(Some(target), vault, false)
    else if renameSucceeds then Outcome(Some(target), vault - {currentPath} + {target}, true)
    else Outcome(None, vault, false)
  }

  /** `moveFile(currentPath, newTitle, newFolder)`: the decision above, taken
      for the folder and the cleaned title. */
  function Move(vault: Vault, currentPath: string, newTitle: string, newFolder: string,
                renameSucceeds: bool): (o: Outcome)
    ensures currentPath !in vault ==> o == Outcome(None, vault, false)
    ensures o.renamed <==>
              currentPath in vault && TargetPath(newFolder, newTitle) != currentPath && renameSucceeds
    ensures o.returned.Some? <==>
              currentPath in vault && (TargetPath(newFolder, newTitle) == currentPath || renameSucceeds)
    ensures o.returned.Some? ==>
              o.returned.value == TargetPath(newFolder, newTitle) && o.returned.value in o.vault
    ensures o.renamed ==> o.vault == vault - {currentPath} + {TargetPath(newFolder, newTitle)}
    ensures !o.renamed ==> o.vault == vault
  {
    Decide(vault, currentPath, TargetPath(newFolder, newTitle), renameSucceeds)
  }

  /** Deciding again for the path a first decision returned, with the same
      target, returns that path and renames nothing. */
  lemma DecideAgainIsNoOp(vault: Vault, currentPath: string, target: string,
                          renameSucceeds: bool, again: bool)
    requires Decide(vault, currentPath, target, renameSucceeds).returned.Some?
    ensures var o := Decide(vault, currentPath, target, renameSucceeds);
            Decide(o.vault, o.returned.value, target, again) == Outcome(o.returned, o.vault, false)
  {
  }

  /** Moving a file again to where a successful move put it, with the same
      title and folder, returns the same path and renames nothing, whatever
      the rename would have done. */
  lemma MoveAgainIsNoOp(vault: Vault, currentPath: string, newTitle: string, newFolder: string,
                        renameSucceeds: bool, again: bool)
    requires currentPath in vault && (renameSucceeds || TargetPath(newFolder, newTitle) == currentPath)
    ensures var o := Move(vault, currentPath, newTitle, newFolder, renameSucceeds);
            Move(o.vault, o.returned.value, newTitle, newFolder, again)
              == Outcome(o.returned, o.vault, false)
  {
  }

  /** A title that is already clean lands on the same path as the raw title
      it was cleaned from. */
  lemma TargetOfCleanedTitle(newFolder: string, newTitle: string)
    ensures TargetPath(newFolder, TitleSanitizer.Clean(newTitle)) == TargetPath(newFolder, newTitle)
  {
    TitleSanitizer.CleanIdempotent(newTitle);
  }

  /** Two titles go to the same path in a folder exactly when they clean to
      the same file name. */
  lemma TargetPathInjective(newFolder: string, a: string, b: string)
    ensures (TargetPath(newFolder, a) == TargetPath(newFolder, b))
        <==> (TitleSanitizer.Clean(a) == TitleSanitizer.Clean(b))
  {
    var ca := TitleSanitizer.Clean(a);
    var cb := TitleSanitizer.Clean(b);
    PathParts(newFolder, ca);
    PathParts(newFolder, cb);
    var pa := newFolder + "/" + ca + ".md";
    var pb := newFolder + "/" + cb + ".md";
    assert TargetPath(newFolder, a) == pa && TargetPath(newFolder, b) == pb;
    if pa == pb {
      assert ca == pa[|newFolder| + 1..|pa| - 3] == pb[|newFolder| + 1..|pb| - 3] == cb;
    }
  }
}
