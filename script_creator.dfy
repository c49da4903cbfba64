/**
 * ScriptCreator: a new script is a script template whose %Name% placeholders
 * are replaced by their values. The values are the user's placeholders from
 * the settings plus the two default ones, ScriptName and TemplateName.
 */
module ScriptCreation {
  import opened Common
  import opened MatchCutter
  import opened CodePieces
  import opened Inspection
  import opened Inspector

  /** A placeholder: a name and its value; either may be null (an unset slot has both null). */
  datatype Placeholder = Placeholder(Name: Option<string>, Value: Option<string>)

  /** The default value of the Placeholder struct. */
  const Unset: Placeholder := Placeholder(None, None)

  /** The placeholders every script gets, in the order their values are passed. */
  const DefaultPlaceholders: seq<string> := ["ScriptName", "TemplateName"]

  predicate IsDefaultName(name: Option<string>) {
    name.Some? && name.value in DefaultPlaceholders
  }

  /** IsDefaultPlaceholderName: a search of the default names; null is none of them. */
  method IsDefaultPlaceholderName(placeholderName: Option<string>) returns (b: bool)
    ensures b <==> placeholderName == Some("ScriptName") || placeholderName == Some("TemplateName")
    ensures b <==> IsDefaultName(placeholderName)
  {
    for i := 0 to |DefaultPlaceholders|
      invariant forall j :: 0 <= j < i ==> placeholderName != Some(DefaultPlaceholders[j])
    {
      if Some(DefaultPlaceholders[i]) == placeholderName {
        return true;
      }
    }
    assert placeholderName != Some(DefaultPlaceholders[0]) && placeholderName != Some(DefaultPlaceholders[1]);
    return false;
  }

  // ------------------------------------------------------------ looking a value up

  /** The value of the first placeholder called `name`; None when there is none (or its value is null). */
  function ValueOf(name: string, placeholders: seq<Placeholder>): Option<string>
    decreases |placeholders|
  {
    if placeholders == [] then None
    else if placeholders[0].Name == Some(name) then placeholders[0].Value
    else ValueOf(name, placeholders[1..])
  }

  /** The first placeholder of the name decides, whatever comes after it. */
  lemma {:induction false} ValueOfIsFirstMatch(name: string, placeholders: seq<Placeholder>, i: nat)
    requires i < |placeholders| && placeholders[i].Name == Some(name)
    requires forall j :: 0 <= j < i ==> placeholders[j].Name != Some(name)
    ensures ValueOf(name, placeholders) == placeholders[i].Value
    decreases i
  {
    if i > 0 {
      ValueOfIsFirstMatch(name, placeholders[1..], i - 1);
    }
  }

  /** No placeholder of the name: null. */
  lemma {:induction false} ValueOfAbsent(name: string, placeholders: seq<Placeholder>)
    requires forall j :: 0 <= j < |placeholders| ==> placeholders[j].Name != Some(name)
    ensures ValueOf(name, placeholders) == None
    decreases |placeholders|
  {
    if placeholders != [] {
      ValueOfAbsent(name, placeholders[1..]);
    }
  }

  /** Entries after the part a name is looked up in do not matter when none of them has the name. */
  lemma {:induction false} ValueOfIgnoresOtherNames(name: string, a: seq<Placeholder>, b: seq<Placeholder>)
    requires forall j :: 0 <= j < |b| ==> b[j].Name != Some(name)
    ensures ValueOf(name, a + b) == ValueOf(name, a)
    decreases |a|
  {
    if a == [] {
      assert a + b == b;
      ValueOfAbsent(name, b);
    } else {
      assert (a + b)[0] == a[0] && (a + b)[1..] == a[1..] + b;
      ValueOfIgnoresOtherNames(name, a[1..], b);
    }
  }

  /** Entries before the part a name is looked up in do not matter when none of them has the name. */
  lemma {:induction false} ValueOfSkipsOtherNames(name: string, a: seq<Placeholder>, b: seq<Placeholder>)
    requires forall j :: 0 <= j < |a| ==> a[j].Name != Some(name)
    ensures ValueOf(name, a + b) == ValueOf(name, b)
    decreases |a|
  {
    if a == [] {
      assert a + b == b;
    } else {
      assert (a + b)[0] == a[0] && (a + b)[1..] == a[1..] + b;
      ValueOfSkipsOtherNames(name, a[1..], b);
    }
  }

  /** FindPlaceholderValue: a search of the array for the first placeholder of the name. */
  method FindPlaceholderValue(placeHolderName: string, placeholders: array<Placeholder>) returns (v: Option<string>)
    ensures v == ValueOf(placeHolderName, placeholders[..])
  {
    for i := 0 to placeholders.Length
      invariant ValueOf(placeHolderName, placeholders[..]) == ValueOf(placeHolderName, placeholders[i..])
    {
      assert placeholders[i..][0] == placeholders[i] && placeholders[i..][1..] == placeholders[i + 1..];
      if placeholders[i].Name == Some(placeHolderName) {
        return placeholders[i].Value;
      }
    }
    assert placeholders[placeholders.Length..] == [];
    return None;
  }

  // ------------------------------------------------------------ the values a script is filled with

  /** The user's placeholders, with those using a default name left unset. */
  function Masked(user: seq<Placeholder>): (r: seq<Placeholder>)
    ensures |r| == |user|
  {
    seq(|user|, i requires 0 <= i < |user| => if IsDefaultName(user[i].Name) then Unset else user[i])
  }

  /** The default placeholders with the values passed for them; a default without a value stays unset. */
  function DefaultEntries(defaultValues: seq<string>): (r: seq<Placeholder>)
    requires |defaultValues| <= |DefaultPlaceholders|
    ensures |r| == |DefaultPlaceholders|
  {
    seq(|DefaultPlaceholders|, k requires 0 <= k < |DefaultPlaceholders| =>
      if k < |defaultValues| then Placeholder(Some(DefaultPlaceholders[k]), Some(defaultValues[k])) else Unset)
  }

  /** What LoadPlaceholderValues fills its array with: the masked user entries, then the defaults. */
  function Loaded(user: seq<Placeholder>, defaultValues: seq<string>): (r: seq<Placeholder>)
    requires |defaultValues| <= |DefaultPlaceholders|
    ensures |r| == |user| + |DefaultPlaceholders|
  {
    Masked(user) + DefaultEntries(defaultValues)
  }

  /**
   * LoadPlaceholderValues: without a settings asset, false and an empty
   * array; otherwise an array of the user's placeholders (skipping default
   * names) followed by the default ones. Loading the asset is the parameter
   * `settings`.
   */
  method LoadPlaceholderValues(settings: Option<array<Placeholder>>, defaultValues: seq<string>)
    returns (ok: bool, placeholders: array<Placeholder>)
    requires |defaultValues| <= |DefaultPlaceholders|
    ensures fresh(placeholders)
    ensures ok <==> settings.Some?
    ensures !ok ==> placeholders.Length == 0
    ensures ok ==> placeholders[..] == Loaded(settings.value[..], defaultValues)
  {
    if settings.None? {
      placeholders := new Placeholder[0];
      return false, placeholders;
    }
    var user := settings.value;
    placeholders := new Placeholder[user.Length + |DefaultPlaceholders|](_ => Unset);
    for i := 0 to user.Length
      invariant forall j :: 0 <= j < i ==> placeholders[j] == Masked(user[..])[j]
      invariant forall j :: i <= j < placeholders.Length ==> placeholders[j] == Unset
    {
      var isDefault := IsDefaultPlaceholderName(user[i].Name);
      if !isDefault {
        placeholders[i] := user[i];
      }
    }
    for i := 0 to |defaultValues|
      invariant forall j :: 0 <= j < user.Length ==> placeholders[j] == Masked(user[..])[j]
      invariant forall k :: 0 <= k < i ==> placeholders[user.Length + k] == DefaultEntries(defaultValues)[k]
      invariant forall j :: user.Length + i <= j < placeholders.Length ==> placeholders[j] == Unset
    {
      placeholders[i + user.Length] := Placeholder(Some(DefaultPlaceholders[i]), Some(defaultValues[i]));
    }
    assert placeholders[..] == Loaded(user[..], defaultValues);
    return true, placeholders;
  }

  /** A masked entry never carries a default name. */
  lemma MaskedHasNoDefaultName(user: seq<Placeholder>, k: nat)
    requires k < |DefaultPlaceholders|
    ensures forall j :: 0 <= j < |user| ==> Masked(user)[j].Name != Some(DefaultPlaceholders[k])
  {
  }

  /** Masking changes no lookup of a name that is not a default one. */
  lemma {:induction false} MaskedKeepsOtherNames(name: string, user: seq<Placeholder>)
    requires !IsDefaultName(Some(name))
    ensures ValueOf(name, Masked(user)) == ValueOf(name, user)
    decreases |user|
  {
    if user != [] {
      assert Masked(user)[1..] == Masked(user[1..]);
      MaskedKeepsOtherNames(name, user[1..]);
    }
  }

  /** A default placeholder always resolves to the value passed for it: a user entry of that name cannot shadow it. */
  lemma LoadedDefaultsWin(user: seq<Placeholder>, defaultValues: seq<string>, k: nat)
    requires |defaultValues| == |DefaultPlaceholders| && k < |DefaultPlaceholders|
    ensures ValueOf(DefaultPlaceholders[k], Loaded(user, defaultValues)) == Some(defaultValues[k])
  {
    var name := DefaultPlaceholders[k];
    MaskedHasNoDefaultName(user, k);
    ValueOfSkipsOtherNames(name, Masked(user), DefaultEntries(defaultValues));
    ValueOfIsFirstMatch(name, DefaultEntries(defaultValues), k);
  }

  /** Any other name resolves as among the user's placeholders alone, the first of that name winning. */
  lemma LoadedUserEntries(user: seq<Placeholder>, defaultValues: seq<string>, name: string)
    requires |defaultValues| <= |DefaultPlaceholders| && !IsDefaultName(Some(name))
    ensures ValueOf(name, Loaded(user, defaultValues)) == ValueOf(name, user)
  {
    ValueOfIgnoresOtherNames(name, Masked(user), DefaultEntries(defaultValues));
    MaskedKeepsOtherNames(name, user);
  }

  // ------------------------------------------------------------ filling the placeholders

  /** The placeholder name inside a match of %.*%: its text without the first and the last character. */
  function PlaceholderName(code: string): (name: string)
    requires 2 <= |code|
    ensures |name| == |code| - 2
    ensures forall i :: 0 <= i < |name| ==> name[i] == code[i + 1]
  {
    code[1..|code| - 1]
  }

  /** The value a placeholder piece gets; None when it is null or empty, which stops the substitution. */
  function FillValue(code: string, values: seq<Placeholder>): Option<string>
    requires 2 <= |code|
  {
    var v := ValueOf(PlaceholderName(code), values);
    if v.Some? && v.value != "" then v else None
  }

  predicate Fillable(s: Segment, values: seq<Placeholder>) {
    s.source.Some? ==> 2 <= |s.text| && FillValue(s.text, values).Some?
  }

  /** Every placeholder of the cut has a value. */
  predicate AllFillable(segs: seq<Segment>, values: seq<Placeholder>) {
    forall k :: 0 <= k < |segs| ==> Fillable(segs[k], values)
  }

  /** A cut segment once filled: a placeholder's text becomes its value, a literal run stays. */
  function FilledSegment(s: Segment, values: seq<Placeholder>): Segment {
    if s.source.Some? && 2 <= |s.text| && FillValue(s.text, values).Some? then Segment(FillValue(s.text, values).value, s.source)
    else s
  }

  function Filled(segs: seq<Segment>, values: seq<Placeholder>): (r: seq<Segment>)
    ensures |r| == |segs|
  {
    seq(|segs|, k requires 0 <= k < |segs| => FilledSegment(segs[k], values))
  }

  /**
   * Filling keeps the document's shape: the same placeholders in the same
   * order, the literal runs untouched, and every placeholder replaced by a
   * non-empty value.
   */
  lemma {:induction false} FilledKeepsShape(segs: seq<Segment>, values: seq<Placeholder>)
    requires AllFillable(segs, values)
    ensures MatchesIn(Filled(segs, values)) == MatchesIn(segs)
    ensures forall k :: 0 <= k < |segs| && segs[k].source.None? ==> Filled(segs, values)[k] == segs[k]
    ensures forall k :: 0 <= k < |segs| && segs[k].source.Some? ==>
              Filled(segs, values)[k].text != "" && Some(Filled(segs, values)[k].text) == ValueOf(PlaceholderName(segs[k].text), values)
    decreases |segs|
  {
    if segs != [] {
      var pre := segs[..|segs| - 1];
      assert AllFillable(pre, values) by {
        forall k | 0 <= k < |pre| ensures Fillable(pre[k], values) {
          assert pre[k] == segs[k];
        }
      }
      FilledKeepsShape(pre, values);
      assert Filled(segs, values)[..|segs| - 1] == Filled(pre, values);
      assert Fillable(segs[|segs| - 1], values);
    }
  }

  /** The %ScriptName% and %TemplateName% placeholders become the script's and the template's name, when those are not empty. */
  lemma DefaultPlaceholdersFilled(user: seq<Placeholder>, scriptName: string, templateName: string)
    ensures scriptName != "" ==> FillValue("%ScriptName%", Loaded(user, [scriptName, templateName])) == Some(scriptName)
    ensures templateName != "" ==> FillValue("%TemplateName%", Loaded(user, [scriptName, templateName])) == Some(templateName)
    ensures scriptName == "" ==> FillValue("%ScriptName%", Loaded(user, [scriptName, templateName])) == None
  {
    assert PlaceholderName("%ScriptName%") == DefaultPlaceholders[0];
    assert PlaceholderName("%TemplateName%") == DefaultPlaceholders[1];
    LoadedDefaultsWin(user, [scriptName, templateName], 0);
    LoadedDefaultsWin(user, [scriptName, templateName], 1);
  }

  /**
   * The loop of CreateNewScript over the found placeholder pieces: each
   * piece's Code becomes the value of its placeholder; the first piece
   * without a value ends the loop with false.
   */
  method FillPlaceholders(found: array<CodePiece?>, values: array<Placeholder>, ghost pieces: set<CodePiece>) returns (ok: bool)
    requires forall j :: 0 <= j < found.Length ==> found[j] != null && found[j] in pieces && found[j].Valid() && 2 <= |found[j].code|
    requires forall i, j :: 0 <= i < j < found.Length ==> found[i] != found[j]
    modifies pieces
    ensures forall j :: 0 <= j < found.Length ==> found[j].Valid()
    ensures ok <==> forall j :: 0 <= j < found.Length ==> FillValue(old(found[j].code), values[..]).Some?
    ensures ok ==> forall j :: 0 <= j < found.Length ==> found[j].code == FillValue(old(found[j].code), values[..]).value
  {
    for i := 0 to found.Length
      invariant forall j :: 0 <= j < found.Length ==> found[j].Valid()
      invariant forall j :: 0 <= j < i ==>
                  FillValue(old(found[j].code), values[..]).Some? && found[j].code == FillValue(old(found[j].code), values[..]).value
      invariant forall j :: i <= j < found.Length ==> found[j].code == old(found[j].code)
    {
      var inspectionPart := found[i];
      var placeHolderName := inspectionPart.code[1..|inspectionPart.code| - 1];
      var placeHolderValue := FindPlaceholderValue(placeHolderName, values);
      if placeHolderValue.None? || placeHolderValue.value == "" {
        return false;
      }
      inspectionPart.SetCode(placeHolderValue.value);
    }
    return true;
  }

  /** Before the loop: the found pieces are distinct valid match pieces of the list, each still holding its match's text. */
  lemma FoundPiecesReady(ci: CodeInspection, found: seq<CodePiece?>)
    requires ci.Valid() && found == MatchNodes(ci.codePiecesList) && WellCut(ci.Segments())
    ensures forall j :: 0 <= j < |found| ==>
              found[j] != null && found[j] in ci.codePiecesList && found[j].Match.Some? && found[j].Valid()
              && found[j].code == found[j].Match.value.Value
    ensures forall i, j :: 0 <= i < j < |found| ==> found[i] != found[j]
  {
    var ps := ci.codePiecesList;
    var segs := ci.Segments();
    MatchNodesMembers(ps);
    forall j | 0 <= j < |found| ensures found[j] != null && found[j].code == found[j].Match.value.Value {
      assert found[j] in MatchNodes(ps);
      var k := PositionOf(ps, found[j]);
      SegmentsOfIndex(ps, k);
      assert WellCutSegment(segs[k]);
    }
  }

  /** Every placeholder of the cut has a value exactly when every found piece has one. */
  lemma FillableIffFound(ps: seq<CodePiece>, found: seq<CodePiece?>, segs: seq<Segment>, values: seq<Placeholder>)
    requires found == MatchNodes(ps) && |segs| == |ps| && WellCut(segs)
    requires forall k :: 0 <= k < |ps| ==> segs[k].source == ps[k].Match
    requires forall j :: 0 <= j < |found| ==> found[j] != null && found[j].Match.Some? && 2 <= |found[j].Match.value.Value|
    ensures AllFillable(segs, values) <==> forall j :: 0 <= j < |found| ==> FillValue(found[j].Match.value.Value, values).Some?
  {
    MatchNodesMembers(ps);
    if AllFillable(segs, values) {
      forall j | 0 <= j < |found| ensures FillValue(found[j].Match.value.Value, values).Some? {
        assert found[j] in MatchNodes(ps);
        var k := PositionOf(ps, found[j]);
        assert Fillable(segs[k], values) && WellCutSegment(segs[k]);
      }
    } else {
      var k :| 0 <= k < |segs| && !Fillable(segs[k], values);
      assert ps[k] in MatchNodes(ps) && WellCutSegment(segs[k]);
      var j :| 0 <= j < |found| && found[j] == ps[k];
    }
  }

  /** After the loop: every match piece holds its value and every literal piece its old text, so the pieces stand for the filled cut. */
  lemma PiecesStandForFilled(ps: seq<CodePiece>, segs: seq<Segment>, values: seq<Placeholder>)
    requires |segs| == |ps| && WellCut(segs) && AllFillable(segs, values)
    requires forall k :: 0 <= k < |ps| ==> segs[k].source == ps[k].Match
    requires forall k :: 0 <= k < |ps| && ps[k].Match.None? ==> ps[k].code == segs[k].text
    requires forall k :: 0 <= k < |ps| && ps[k].Match.Some? ==>
               2 <= |ps[k].Match.value.Value| && ps[k].code == FillValue(ps[k].Match.value.Value, values).value
    ensures SegmentsOf(ps) == Filled(segs, values)
  {
    forall k | 0 <= k < |ps| ensures SegmentsOf(ps)[k] == Filled(segs, values)[k] {
      SegmentsOfIndex(ps, k);
      assert WellCutSegment(segs[k]) && Fillable(segs[k], values);
    }
  }

  /** After the loop, in list terms: how it ended, and what the pieces stand for when it went through. */
  lemma AfterFill(ps: seq<CodePiece>, found: seq<CodePiece?>, segs: seq<Segment>, values: seq<Placeholder>, ok: bool)
    requires found == MatchNodes(ps) && |segs| == |ps| && WellCut(segs)
    requires forall k :: 0 <= k < |ps| ==> segs[k].source == ps[k].Match
    requires forall j :: 0 <= j < |found| ==> found[j] != null && found[j].Match.Some? && 2 <= |found[j].Match.value.Value|
    requires forall k :: 0 <= k < |ps| && ps[k].Match.None? ==> ps[k].code == segs[k].text
    requires ok <==> forall j :: 0 <= j < |found| ==> FillValue(found[j].Match.value.Value, values).Some?
    requires ok ==> forall j :: 0 <= j < |found| ==> found[j].code == FillValue(found[j].Match.value.Value, values).value
    ensures ok <==> AllFillable(segs, values)
    ensures ok ==> SegmentsOf(ps) == Filled(segs, values)
  {
    FillableIffFound(ps, found, segs, values);
    if ok {
      MatchNodesMembers(ps);
      forall k | 0 <= k < |ps| && ps[k].Match.Some?
        ensures 2 <= |ps[k].Match.value.Value| && ps[k].code == FillValue(ps[k].Match.value.Value, values).value
      {
        assert ps[k] in MatchNodes(ps);
        var j :| 0 <= j < |found| && found[j] == ps[k];
      }
      PiecesStandForFilled(ps, segs, values);
    }
  }

  /**
   * The substitution loop on the inspection's pieces: it succeeds exactly
   * when every placeholder has a value, and then the document the pieces
   * stand for is the filled cut.
   */
  method FillInspection(ci: CodeInspection, found: array<CodePiece?>, values: array<Placeholder>) returns (ok: bool)
    requires ci.Valid() && found[..] == MatchNodes(ci.codePiecesList) && WellCut(ci.Segments())
    requires forall j :: 0 <= j < found.Length ==> found[j] != null && found[j].Match.Some? && 2 <= |found[j].Match.value.Value|
    modifies set p | p in ci.codePiecesList && p.Match.Some?
    ensures ci.Valid()
    ensures ok <==> AllFillable(old(ci.Segments()), values[..])
    ensures ok ==> ci.Segments() == Filled(old(ci.Segments()), values[..])
  {
    ghost var ps := ci.codePiecesList;
    ghost var edited := set p | p in ps && p.Match.Some?;
    FoundPiecesReady(ci, found[..]);
    ok := FillPlaceholders(found, values, edited);
    assert forall p :: p in ps && p !in edited ==> unchanged(p);
    FilledPiecesStandForFilled(FillRun(ci, found[..], values[..], ok));
  }

  /** One run of the substitution loop: the inspection, the nodes it filled, the values used and the loop's answer. */
  datatype FillRun = FillRun(inspection: CodeInspection, found: seq<CodePiece?>, values: seq<Placeholder>, ok: bool)

  /**
   * After the loop has rewritten the match nodes (and nothing else), the
   * inspection is still valid and its pieces stand for the filled cut.
   */
  twostate lemma FilledPiecesStandForFilled(run: FillRun)
    requires old(run.inspection.Valid()) && unchanged(run.inspection) && old(WellCut(run.inspection.Segments()))
    requires run.found == MatchNodes(run.inspection.codePiecesList)
    requires forall j :: 0 <= j < |run.found| ==>
               run.found[j] != null && run.found[j].Match.Some? && 2 <= |run.found[j].Match.value.Value| &&
               run.found[j].Valid() && old(run.found[j].code) == run.found[j].Match.value.Value
    requires forall p :: p in run.inspection.codePiecesList && p.Match.None? ==> unchanged(p)
    requires run.ok <==> forall j :: 0 <= j < |run.found| ==> FillValue(old(run.found[j].code), run.values).Some?
    requires run.ok ==> forall j :: 0 <= j < |run.found| ==>
                          run.found[j].code == FillValue(old(run.found[j].code), run.values).value
    ensures run.inspection.Valid()
    ensures run.ok <==> AllFillable(old(run.inspection.Segments()), run.values)
    ensures run.ok ==> run.inspection.Segments() == Filled(old(run.inspection.Segments()), run.values)
  {
    var ci := run.inspection;
    var ps := ci.codePiecesList;
    var segs := old(ci.Segments());
    MatchNodesMembers(ps);
    OldSegmentsOf(ps);
    forall p | p in ps ensures p.Valid() {
      if p.Match.Some? {
        assert p in MatchNodes(ps);
      }
    }
    PieceEditsKeepValid(ci);
    AfterFill(ps, run.found, segs, run.values, run.ok);
  }

  /** The segments before the loop, read piece by piece: the old text, the (unchanged) match. */
  twostate lemma {:induction false} OldSegmentsOf(ps: seq<CodePiece>)
    ensures forall k :: 0 <= k < |ps| ==> old(SegmentsOf(ps))[k] == Segment(old(ps[k].code), ps[k].Match)
    decreases |ps|
  {
    if ps != [] {
      OldSegmentsOf(ps[..|ps| - 1]);
    }
  }

  /** Piece edits leave the inspection's own fields alone, so valid pieces keep it valid. */
  twostate lemma PieceEditsKeepValid(ci: CodeInspection)
    requires old(ci.Valid()) && unchanged(ci)
    requires forall p :: p in ci.codePiecesList ==> p.Valid()
    ensures ci.Valid()
  {
  }

  // ------------------------------------------------------------ creating a script

  /**
   * The placeholder branch of CreateNewScript once the values are loaded:
   * the substitution loop, then Commit of the TEXT inspection, whose
   * CompleteCode becomes the filled document.
   */
  method FillAndCommit(ci: CodeInspection, found: array<CodePiece?>, values: array<Placeholder>) returns (ok: bool)
    requires ci.Valid() && ci.Type == TEXT && ci.Mode == READ_WRITE && ci.codePiecesList != []
    requires found[..] == MatchNodes(ci.codePiecesList) && WellCut(ci.Segments())
    requires forall j :: 0 <= j < found.Length ==> found[j] != null && found[j].Match.Some? && 2 <= |found[j].Match.value.Value|
    modifies ci`codePiecesList, ci`editationActive, ci`CompleteCode
    modifies set p | p in ci.codePiecesList && p.Match.Some?
    ensures ok <==> AllFillable(old(ci.Segments()), values[..])
    ensures ok ==> ci.CompleteCode == Joined(Filled(old(ci.Segments()), values[..]))
  {
    ok := FillInspection(ci, found, values);
    if !ok {
      return;
    }
    // a TEXT inspection writes no file, so the host does not matter
    var committed := ci.Commit(Host("\n", true));
  }

  /** The file CreateNewScript writes: its path and its content. */
  datatype NewScript = NewScript(path: string, content: string)

  /** What the pattern %.*% guarantees of its matches: each is at least the two '%' long. */
  ghost predicate PlaceholderPattern(regex: Regex) {
    forall s, i :: 0 <= i < |regex(s)| ==> 2 <= |regex(s)[i].Value|
  }

  /** The placeholder list the settings asset holds, None when there are no settings. */
  function SettingsPlaceholders(settings: Option<array<Placeholder>>): Option<seq<Placeholder>>
    reads if settings.Some? then {settings.value} else {}
  {
    if settings.Some? then Some(settings.value[..]) else None
  }

  /**
   * The reference outcome of filling a cut template with placeholders:
   * nothing without settings or when some placeholder has no value,
   * otherwise the filled document.
   */
  function FilledScript(file: string, segs: seq<Segment>, user: Option<seq<Placeholder>>, defaultValues: seq<string>)
    : Outcome<Option<NewScript>>
    requires |defaultValues| <= |DefaultPlaceholders|
  {
    if user.None? then Return(None)
    else
      var values := Loaded(user.value, defaultValues);
      if AllFillable(segs, values) then Return(Some(NewScript(file, Joined(Filled(segs, values))))) else Return(None)
  }

  /**
   * The reference outcome of CreateNewScript for a template without an
   * existing file: the template's placeholder matches `ms` are cut out and
   * filled; without placeholders the template is written as it is.
   */
  function ScriptFor(scriptName: string, template: string, templateName: string, path: string,
                     user: Option<seq<Placeholder>>, ms: seq<RegexMatch>): Outcome<Option<NewScript>>
    requires MatchesOf(ms, template)
  {
    var file := path + scriptName + ".cs";
    if !Ordered(ms) then Throw(StartBeforeCursor)
    else if ms == [] then Return(Some(NewScript(file, template)))
    else FilledScript(file, CutAll(template, ms).segments, user, [scriptName, templateName])
  }

  /**
   * CreateNewScript: nothing when the file exists; otherwise a TEXT
   * inspection of the template, FindAll of the placeholder pattern, the
   * values, the substitution loop and a Commit. The result is the file
   * written, None when the method logs an error and returns. `fileExists`
   * and `settings` stand for File.Exists and loading the settings asset.
   */
  method CreateNewScript(inspector: CodeInspector, scriptName: string, template: string, templateName: string,
                         path: string, fileExists: bool, settings: Option<array<Placeholder>>, placeholderRegex: Regex)
    returns (r: Outcome<Option<NewScript>>)
    requires inspector.WellFormed() && Sound(placeholderRegex) && PlaceholderPattern(placeholderRegex)
    modifies inspector`inspectionIDCounter
    ensures inspector.WellFormed() && inspector.fileBlockings == old(inspector.fileBlockings)
    ensures inspector.inspectionIDCounter == old(inspector.inspectionIDCounter) + (if fileExists then 0 else 1)
    ensures fileExists ==> r == Return(None)
    ensures !fileExists ==>
              MatchesOf(placeholderRegex(template), template)
              && r == ScriptFor(scriptName, template, templateName, path,
                                SettingsPlaceholders(settings), placeholderRegex(template))
  {
    if fileExists {
      return Return(None);
    }
    var codeInspection := inspector.InspectText(template);
    r := ScriptFromInspection(codeInspection, scriptName, template, templateName, path, settings, placeholderRegex);
  }

  /** What FindAll of the placeholder pattern hands to the substitution: a non-empty list whose found pieces each hold a match of two or more characters. */
  lemma FoundPlaceholders(ci: CodeInspection, found: seq<CodePiece?>, ms: seq<RegexMatch>)
    requires found == MatchNodes(ci.codePiecesList) && |found| == |ms| > 0
    requires forall j :: 0 <= j < |ms| ==> 2 <= |ms[j].Value|
    requires forall j :: 0 <= j < |found| ==> found[j] != null && found[j].Match == Some(ms[j])
    ensures ci.codePiecesList != []
    ensures forall j :: 0 <= j < |found| ==> found[j] != null && found[j].Match.Some? && 2 <= |found[j].Match.value.Value|
  {
    MatchNodesMembers(ci.codePiecesList);
    assert found[0] in MatchNodes(ci.codePiecesList);
  }

  /** The placeholder branch of CreateNewScript: load the values, fill the placeholders, commit. */
  method FillTemplate(ci: CodeInspection, found: array<CodePiece?>, file: string, defaultValues: seq<string>,
                      settings: Option<array<Placeholder>>) returns (r: Outcome<Option<NewScript>>)
    requires ci.Valid() && ci.Type == TEXT && ci.Mode == READ_WRITE && ci.codePiecesList != []
    requires found[..] == MatchNodes(ci.codePiecesList) && WellCut(ci.Segments())
    requires forall j :: 0 <= j < found.Length ==> found[j] != null && found[j].Match.Some? && 2 <= |found[j].Match.value.Value|
    requires |defaultValues| <= |DefaultPlaceholders|
    modifies ci`codePiecesList, ci`editationActive, ci`CompleteCode
    modifies set p | p in ci.codePiecesList && p.Match.Some?
    ensures r == FilledScript(file, old(ci.Segments()), SettingsPlaceholders(settings), defaultValues)
  {
    var ok, placeholderValues := LoadPlaceholderValues(settings, defaultValues);
    if !ok {
      return Return(None);
    }
    ok := FillAndCommit(ci, found, placeholderValues);
    if !ok {
      return Return(None);
    }
    return Return(Some(NewScript(file, ci.CompleteCode)));
  }

  /** CreateNewScript from the fresh TEXT inspection of the template on: FindAll, the values, the substitution and the Commit. */
  method ScriptFromInspection(codeInspection: CodeInspection, scriptName: string, template: string, templateName: string,
                              path: string, settings: Option<array<Placeholder>>, placeholderRegex: Regex)
    returns (r: Outcome<Option<NewScript>>)
    requires codeInspection.Valid() && codeInspection.Type == TEXT && codeInspection.Mode == READ_WRITE
    requires codeInspection.CompleteCode == template && codeInspection.codePiecesList == []
    requires !codeInspection.editationActive && codeInspection.settings == DefaultSettings
    requires Sound(placeholderRegex) && PlaceholderPattern(placeholderRegex)
    modifies codeInspection
    ensures MatchesOf(placeholderRegex(template), template)
    ensures r == ScriptFor(scriptName, template, templateName, path,
                           SettingsPlaceholders(settings), placeholderRegex(template))
  {
    ghost var ms := placeholderRegex(template);
    assert MatchesOf(ms, template);
    var found, foundPlaceholders := codeInspection.FindAll(placeholderRegex);
    if found.Throw? {
      return Throw(found.fault);
    }
    assert forall j :: 0 <= j < |ms| ==> 2 <= |ms[j].Value|;
    r := ScriptFromPlaceholders(codeInspection, foundPlaceholders, ms, scriptName, template, templateName, path, settings);
  }

  /** CreateNewScript once FindAll has cut the template at its ordered placeholder matches `ms`. */
  method ScriptFromPlaceholders(codeInspection: CodeInspection, foundPlaceholders: array<CodePiece?>, ghost ms: seq<RegexMatch>,
                                scriptName: string, template: string, templateName: string, path: string,
                                settings: Option<array<Placeholder>>) returns (r: Outcome<Option<NewScript>>)
    requires codeInspection.Valid() && codeInspection.Type == TEXT && codeInspection.Mode == READ_WRITE
    requires codeInspection.CompleteCode == template && MatchesOf(ms, template) && Ordered(ms)
    requires forall j :: 0 <= j < |ms| ==> 2 <= |ms[j].Value|
    requires foundPlaceholders.Length == |ms| && foundPlaceholders[..] == MatchNodes(codeInspection.codePiecesList)
    requires forall j :: 0 <= j < |ms| ==> foundPlaceholders[j] != null && foundPlaceholders[j].Match == Some(ms[j])
    requires codeInspection.Segments() == CutAll(template, ms).segments
    modifies codeInspection`codePiecesList, codeInspection`editationActive, codeInspection`CompleteCode
    modifies set p | p in codeInspection.codePiecesList && p.Match.Some?
    ensures r == ScriptFor(scriptName, template, templateName, path, SettingsPlaceholders(settings), ms)
  {
    var file := path + scriptName + ".cs";
    CutAllCorrect(template, ms);
    if foundPlaceholders.Length > 0 {
      FoundPlaceholders(codeInspection, foundPlaceholders[..], ms);
      r := FillTemplate(codeInspection, foundPlaceholders, file, [scriptName, templateName], settings);
    } else {
      r := Return(Some(NewScript(file, codeInspection.CompleteCode)));
    }
  }

  /**
   * What a created script is: the template cut at its placeholder matches,
   * in order, with every literal run kept and every placeholder replaced by
   * its non-empty value; the script is made exactly when every placeholder
   * has one.
   */
  lemma ScriptForFillsEachPlaceholder(scriptName: string, template: string, templateName: string, path: string,
                                      user: seq<Placeholder>, ms: seq<RegexMatch>)
    requires MatchesOf(ms, template) && Ordered(ms) && ms != []
    requires forall j :: 0 <= j < |ms| ==> 2 <= |ms[j].Value|
    ensures var segs := CutAll(template, ms).segments;
            var values := Loaded(user, [scriptName, templateName]);
            var r := ScriptFor(scriptName, template, templateName, path, Some(user), ms);
            Joined(segs) == template && MatchesIn(segs) == ms
            && r.Return? && (r.value.Some? <==> AllFillable(segs, values))
            && (r.value.Some? ==>
                  r.value.value == NewScript(path + scriptName + ".cs", Joined(Filled(segs, values)))
                  && MatchesIn(Filled(segs, values)) == ms
                  && (forall k :: 0 <= k < |segs| && segs[k].source.None? ==> Filled(segs, values)[k] == segs[k])
                  && (forall k :: 0 <= k < |segs| && segs[k].source.Some? ==>
                        Filled(segs, values)[k].text != ""
                        && Some(Filled(segs, values)[k].text) == ValueOf(PlaceholderName(segs[k].text), values)))
  {
    CutAllCorrect(template, ms);
    var segs := CutAll(template, ms).segments;
    var values := Loaded(user, [scriptName, templateName]);
    if AllFillable(segs, values) {
      FilledKeepsShape(segs, values);
    }
  }
}
