/**
 * The two pieces of CodeManagerSettingsWindow that are logic rather than
 * layout: re-pointing the rules' regex indexes after a regex is deleted
 * from the list, and the list of regex names shown in the rule editors.
 */
module SettingsWindow {
  import opened Common
  import opened CleanCode
  import opened Settings

  /** CodeManagerRegex: a named regex of the settings' regex list. */
  datatype CodeManagerRegex = CodeManagerRegex(Name: string, Regex: string)

  /** Where a rule's regex index points once regex `removed` is gone: -1 for the deleted one, one lower above it. */
  function Reindexed(index: int, removed: int): int {
    if index == removed then -1 else if index > removed then index - 1 else index
  }

  function ReindexUnwanted(u: UnwantedCode, removed: int): UnwantedCode {
    u.(RegexIndex := Reindexed(u.RegexIndex, removed))
  }

  function ReindexDocumentation(d: CodeDocumentation, removed: int): CodeDocumentation {
    d.(RegexIndex := Reindexed(d.RegexIndex, removed))
  }

  /** Both indexes of a guideline are adjusted, each on its own. */
  function ReindexGuideline(g: CodeGuideline, removed: int): CodeGuideline {
    g.(SearchRegexIndex := Reindexed(g.SearchRegexIndex, removed), MatchRegexIndex := Reindexed(g.MatchRegexIndex, removed))
  }

  /** The regex list after the list control deletes entry `removed`. */
  function Without(regexes: seq<CodeManagerRegex>, removed: nat): (r: seq<CodeManagerRegex>)
    requires removed < |regexes|
    ensures |r| == |regexes| - 1
  {
    regexes[..removed] + regexes[removed + 1..]
  }

  // ------------------------------------------------------------ what the reindexing means

  /**
   * A rule that pointed at a surviving regex points at the same regex in the
   * shortened list; one that pointed at the deleted regex points at none.
   */
  lemma ReindexedFollowsRegex(regexes: seq<CodeManagerRegex>, removed: nat, index: int)
    requires removed < |regexes| && -1 <= index < |regexes|
    ensures -1 <= Reindexed(index, removed) < |regexes| - 1
    ensures index == removed || index == -1 <==> Reindexed(index, removed) == -1
    ensures 0 <= index && index != removed ==> Without(regexes, removed)[Reindexed(index, removed)] == regexes[index]
  {
  }

  /** An unwanted code stays valid exactly when its regex survives, and keeps its ID, name and description. */
  lemma ReindexUnwantedValidity(u: UnwantedCode, removed: nat)
    ensures ReindexUnwanted(u, removed).IsValid() <==> u.IsValid() && u.RegexIndex != removed
    ensures ReindexUnwanted(u, removed).(RegexIndex := u.RegexIndex) == u
  {
  }

  /** A documentation rule stays valid exactly when its regex survives, and keeps its other fields. */
  lemma ReindexDocumentationValidity(d: CodeDocumentation, removed: nat)
    ensures ReindexDocumentation(d, removed).IsValid() <==> d.IsValid() && d.RegexIndex != removed
    ensures ReindexDocumentation(d, removed).(RegexIndex := d.RegexIndex) == d
  {
  }

  /** A guideline stays valid exactly when neither of its regexes was the deleted one. */
  lemma ReindexGuidelineValidity(g: CodeGuideline, removed: nat)
    ensures ReindexGuideline(g, removed).IsValid() <==>
              g.IsValid() && g.SearchRegexIndex != removed && g.MatchRegexIndex != removed
    ensures ReindexGuideline(g, removed).(SearchRegexIndex := g.SearchRegexIndex, MatchRegexIndex := g.MatchRegexIndex) == g
  {
  }

  /** Every regex index of a rule in [-1, n). */
  predicate IndexesInRange(settings: CodeManagerSettings, n: int)
    requires settings.ArraysSet()
    reads settings`UnwantedCodes, settings`CodeGuidelines, settings`CodeDocumentations
    reads settings.UnwantedCodes, settings.CodeGuidelines, settings.CodeDocumentations
  {
    (forall i :: 0 <= i < settings.UnwantedCodes.Length ==> -1 <= settings.UnwantedCodes[i].RegexIndex < n) &&
    (forall i :: 0 <= i < settings.CodeDocumentations.Length ==> -1 <= settings.CodeDocumentations[i].RegexIndex < n) &&
    (forall i :: 0 <= i < settings.CodeGuidelines.Length ==>
       -1 <= settings.CodeGuidelines[i].SearchRegexIndex < n && -1 <= settings.CodeGuidelines[i].MatchRegexIndex < n)
  }

  // ------------------------------------------------------------ the callback

  /**
   * onElementRemovedCallback of the regex list: adjust the unwanted codes,
   * then the documentations, then the guidelines. A missing array is a
   * NullReferenceException at its loop, after the arrays before it were done.
   */
  method RemoveRegexIndex(settings: CodeManagerSettings, removed: int) returns (r: Outcome<()>)
    modifies settings.UnwantedCodes, settings.CodeDocumentations, settings.CodeGuidelines
    ensures r.Return? <==> settings.ArraysSet()
    ensures r.Throw? ==> r.fault == NullReference
    ensures settings.UnwantedCodes != null ==>
      forall i :: 0 <= i < settings.UnwantedCodes.Length ==>
        settings.UnwantedCodes[i] == ReindexUnwanted(old(settings.UnwantedCodes[i]), removed)
    ensures settings.CodeDocumentations != null ==>
      forall i :: 0 <= i < settings.CodeDocumentations.Length ==>
        settings.CodeDocumentations[i] == (if settings.UnwantedCodes == null then old(settings.CodeDocumentations[i])
                                           else ReindexDocumentation(old(settings.CodeDocumentations[i]), removed))
    ensures settings.CodeGuidelines != null ==>
      forall i :: 0 <= i < settings.CodeGuidelines.Length ==>
        settings.CodeGuidelines[i] == (if settings.UnwantedCodes == null || settings.CodeDocumentations == null
                                       then old(settings.CodeGuidelines[i])
                                       else ReindexGuideline(old(settings.CodeGuidelines[i]), removed))
  {
    var unwanted := settings.UnwantedCodes;
    if unwanted == null {
      return Throw(NullReference);
    }
    for i := 0 to unwanted.Length
      modifies unwanted
      invariant forall j :: 0 <= j < i ==> unwanted[j] == ReindexUnwanted(old(unwanted[j]), removed)
      invariant forall j :: i <= j < unwanted.Length ==> unwanted[j] == old(unwanted[j])
    {
      if unwanted[i].RegexIndex == removed {
        unwanted[i] := unwanted[i].(RegexIndex := -1);
      } else if unwanted[i].RegexIndex > removed {
        unwanted[i] := unwanted[i].(RegexIndex := unwanted[i].RegexIndex - 1);
      }
    }
    var documentations := settings.CodeDocumentations;
    if documentations == null {
      return Throw(NullReference);
    }
    for i := 0 to documentations.Length
      modifies documentations
      invariant forall j :: 0 <= j < i ==> documentations[j] == ReindexDocumentation(old(documentations[j]), removed)
      invariant forall j :: i <= j < documentations.Length ==> documentations[j] == old(documentations[j])
    {
      if documentations[i].RegexIndex == removed {
        documentations[i] := documentations[i].(RegexIndex := -1);
      } else if documentations[i].RegexIndex > removed {
        documentations[i] := documentations[i].(RegexIndex := documentations[i].RegexIndex - 1);
      }
    }
    var guidelines := settings.CodeGuidelines;
    if guidelines == null {
      return Throw(NullReference);
    }
    for i := 0 to guidelines.Length
      modifies guidelines
      invariant forall j :: 0 <= j < i ==> guidelines[j] == ReindexGuideline(old(guidelines[j]), removed)
      invariant forall j :: i <= j < guidelines.Length ==> guidelines[j] == old(guidelines[j])
    {
      if guidelines[i].SearchRegexIndex == removed {
        guidelines[i] := guidelines[i].(SearchRegexIndex := -1);
      } else if guidelines[i].SearchRegexIndex > removed {
        guidelines[i] := guidelines[i].(SearchRegexIndex := guidelines[i].SearchRegexIndex - 1);
      }
      if guidelines[i].MatchRegexIndex == removed {
        guidelines[i] := guidelines[i].(MatchRegexIndex := -1);
      } else if guidelines[i].MatchRegexIndex > removed {
        guidelines[i] := guidelines[i].(MatchRegexIndex := guidelines[i].MatchRegexIndex - 1);
      }
    }
    r := Return(());
  }

  /** Deleting one of n regexes keeps every rule index in range: [-1, n) before gives [-1, n - 1) after. */
  method RemoveRegexKeepsRange(settings: CodeManagerSettings, removed: nat, n: nat) returns (r: Outcome<()>)
    requires removed < n && settings.ArraysSet() && IndexesInRange(settings, n)
    modifies settings.UnwantedCodes, settings.CodeDocumentations, settings.CodeGuidelines
    ensures r.Return? && IndexesInRange(settings, n - 1)
  {
    r := RemoveRegexIndex(settings, removed);
    forall i | 0 <= i < settings.UnwantedCodes.Length
      ensures -1 <= settings.UnwantedCodes[i].RegexIndex < n - 1
    {
      assert -1 <= old(settings.UnwantedCodes[i]).RegexIndex < n;
    }
    forall i | 0 <= i < settings.CodeDocumentations.Length
      ensures -1 <= settings.CodeDocumentations[i].RegexIndex < n - 1
    {
      assert -1 <= old(settings.CodeDocumentations[i]).RegexIndex < n;
    }
    forall i | 0 <= i < settings.CodeGuidelines.Length
      ensures -1 <= settings.CodeGuidelines[i].SearchRegexIndex < n - 1
      ensures -1 <= settings.CodeGuidelines[i].MatchRegexIndex < n - 1
    {
      assert -1 <= old(settings.CodeGuidelines[i]).SearchRegexIndex < n;
      assert -1 <= old(settings.CodeGuidelines[i]).MatchRegexIndex < n;
    }
  }

  // ------------------------------------------------------------ regex names

  /** GetRegexNames: a new array holding each regex's name at its index. */
  method GetRegexNames(regexes: array?<CodeManagerRegex>) returns (r: Outcome<array<string>>)
    ensures regexes == null <==> r.Throw?
    ensures r.Throw? ==> r.fault == NullReference
    ensures r.Return? ==> fresh(r.value) && r.value.Length == regexes.Length &&
                          forall i :: 0 <= i < regexes.Length ==> r.value[i] == regexes[i].Name
  {
    if regexes == null {
      return Throw(NullReference);
    }
    var names := new string[regexes.Length];
    for i := 0 to names.Length
      invariant forall j :: 0 <= j < i ==> names[j] == regexes[j].Name
    {
      names[i] := regexes[i].Name;
    }
    r := Return(names);
  }
}
