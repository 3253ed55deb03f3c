/** file-viewer/src/components/CreateFolderDialog.tsx: the dialog that asks
    for a new folder's name, validates it and hands it to the tree. */
module CreateFolderDialog {
  import opened Wrappers
  import opened Strings

  const NAME_REQUIRED: string := "Folder name is required"
  const NAME_CHARSET: string := "Folder name can only contain letters, numbers, spaces, hyphens, underscores, and dots"
  const NAME_INVALID: string := "Invalid folder name"
  const CREATE_FAILED: string := "Failed to create folder"

  /** One character of the class `[a-zA-Z0-9\-_\s\.]`. */
  predicate NameChar(c: char) {
    || 'a' <= c <= 'z' || 'A' <= c <= 'Z' || '0' <= c <= '9'
    || c == '-' || c == '_' || IsSpace(c) || c == '.'
  }

  /** `/^[a-zA-Z0-9\-_\s\.]+$/.test(s)`. */
  predicate MatchesNamePattern(s: string) {
    s != [] && forall i :: 0 <= i < |s| ==> NameChar(s[i])
  }

  datatype Validation = Accepted(name: string) | Rejected(error: string)

  /** The checks of `handleCreate`, in order, on the trimmed name. */
  function Validate(folderName: string): Validation {
    var trimmedName := Trim(folderName);
    if trimmedName == [] then Rejected(NAME_REQUIRED)
    else if !MatchesNamePattern(trimmedName) then Rejected(NAME_CHARSET)
    else if StartsWith(trimmedName, ".") || Contains(trimmedName, "..")
         || Contains(trimmedName, "/") || Contains(trimmedName, "\\") then Rejected(NAME_INVALID)
    else Accepted(trimmedName)
  }

  /** The separator tests of the third check never fire: a name that
      passes the character-class test has neither '/' nor '\'. */
  lemma SeparatorTestsUnreachable(s: string)
    requires MatchesNamePattern(s)
    ensures !Contains(s, "/") && !Contains(s, "\\")
  {
    ContainsChar(s, '/');
    ContainsChar(s, '\\');
    assert !NameChar('/') && !NameChar('\\');
  }

  /** Each outcome of validation, stated on the typed name: all white space
      gives the required-name error; a character outside the class gives the
      charset error; a leading '.' or two adjacent dots give the invalid-name
      error; anything else is accepted, trimmed. */
  lemma ValidateOutcomes(folderName: string)
    ensures var t := Trim(folderName);
      && (Validate(folderName) == Rejected(NAME_REQUIRED) <==>
            forall i :: 0 <= i < |folderName| ==> IsSpace(folderName[i]))
      && (Validate(folderName) == Rejected(NAME_CHARSET) <==>
            t != [] && exists i :: 0 <= i < |t| && !NameChar(t[i]))
      && (Validate(folderName) == Rejected(NAME_INVALID) <==>
            MatchesNamePattern(t) &&
            (t[0] == '.' || exists i :: 0 <= i < |t| - 1 && t[i] == '.' && t[i + 1] == '.'))
      && (Validate(folderName).Accepted? ==> Validate(folderName).name == t)
  {
    var t := Trim(folderName);
    TrimEmpty(folderName);
    if MatchesNamePattern(t) {
      SeparatorTestsUnreachable(t);
      ContainsPair(t, '.', '.');
      assert StartsWith(t, ".") <==> t[0] == '.';
    }
  }

  /** An accepted name is non-empty, has no white space at either end,
      does not start with '.', has no two adjacent dots and no separator. */
  lemma AcceptedNameIsSafe(folderName: string)
    requires Validate(folderName).Accepted?
    ensures var t := Validate(folderName).name;
      && t != [] && !IsSpace(t[0]) && !IsSpace(t[|t| - 1])
      && t[0] != '.'
      && (forall i :: 0 <= i < |t| - 1 ==> !(t[i] == '.' && t[i + 1] == '.'))
      && '/' !in t && '\\' !in t
  {
    var t := Trim(folderName);
    TrimEnds(folderName);
    assert !StartsWith(t, ".") && !Contains(t, "..");
    assert t[..1] == [t[0]];
    ContainsPair(t, '.', '.');
    assert forall i :: 0 <= i < |t| ==> NameChar(t[i]);
    assert !NameChar('/') && !NameChar('\\');
  }

  /** What awaiting `onConfirm` produced: it resolved, or it threw an
      `Error` with a message (Some) or some other value (None). */
  datatype CreateOutcome = Confirmed | Threw(message: Option<string>)

  /** The dialog's state fields. */
  class DialogState {
    var folderName: string
    var error: string
    var creating: bool

    constructor ()
      ensures folderName == "" && error == "" && !creating
    {
      folderName := "";
      error := "";
      creating := false;
    }

    /** `handleCreate` up to the await: on a rejected name only the error
        changes; on an accepted one creation starts, the error clears and
        the trimmed name is what `onConfirm` receives. The typed name is
        never changed. */
    method HandleCreate() returns (confirmed: Option<string>)
      modifies this
      ensures folderName == old(folderName)
      ensures Validate(old(folderName)).Rejected? ==>
        confirmed == None && error == Validate(old(folderName)).error && creating == old(creating)
      ensures Validate(old(folderName)).Accepted? ==>
        confirmed == Some(Validate(old(folderName)).name) && error == "" && creating
    {
      var trimmedName := Trim(folderName);
      if trimmedName == [] {
        error := NAME_REQUIRED;
        return None;
      }
      if !MatchesNamePattern(trimmedName) {
        error := NAME_CHARSET;
        return None;
      }
      if StartsWith(trimmedName, ".") || Contains(trimmedName, "..")
         || Contains(trimmedName, "/") || Contains(trimmedName, "\\") {
        error := NAME_INVALID;
        return None;
      }
      creating := true;
      error := "";
      confirmed := Some(trimmedName);
    }

    /** `handleCreate` after the await: success closes (and so resets) the
        dialog; a failure shows the thrown message and keeps the name.
        Either way creation is over. */
    method CompleteCreate(outcome: CreateOutcome)
      modifies this
      ensures !creating
      ensures outcome.Confirmed? ==> folderName == "" && error == ""
      ensures outcome.Threw? ==>
        && folderName == old(folderName)
        && error == (if outcome.message.Some? then outcome.message.value else CREATE_FAILED)
    {
      if outcome.Confirmed? {
        HandleClose();
      } else {
        error := if outcome.message.Some? then outcome.message.value else CREATE_FAILED;
      }
      creating := false;
    }

    /** `handleClose`: every field back to its initial value. */
    method HandleClose()
      modifies this
      ensures folderName == "" && error == "" && !creating
    {
      folderName := "";
      error := "";
      creating := false;
    }

    /** `handleKeyPress`: Enter starts `handleCreate` unless a creation is
        under way; any other key, or Enter while creating, does nothing. */
    method HandleKeyPress(key: string) returns (confirmed: Option<string>)
      modifies this
      ensures !(key == "Enter" && !old(creating)) ==>
        confirmed == None && folderName == old(folderName) && error == old(error) && creating == old(creating)
      ensures key == "Enter" && !old(creating) && Validate(old(folderName)).Accepted? ==>
        confirmed == Some(Validate(old(folderName)).name) && error == "" && creating
      ensures key == "Enter" && !old(creating) && Validate(old(folderName)).Rejected? ==>
        confirmed == None && error == Validate(old(folderName)).error && !creating
    {
      if key == "Enter" && !creating {
        confirmed := HandleCreate();
      } else {
        confirmed := None;
      }
    }
  }
}
