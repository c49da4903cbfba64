/**
 * The three kinds of clean-code rule (UnwantedCode, CodeGuideline,
 * CodeDocumentation) and the ICleanCodeRule interface they share.
 * The C# structs are values: SetID on a struct is modelled as a function
 * returning the struct with its new ID, and the caller stores it back.
 */
module CleanCode {

  /** ICleanCodeRule.CleanCodeRuleType. */
  datatype CleanCodeRuleType = CodingGuidelineType | UnwantedCodeType | CodeDocumentationType | NoRuleType

  /** A regex whose every match in a script is a violation. */
  datatype UnwantedCode = UnwantedCode(Name: string, RegexIndex: int, Description: string, ID: nat)
  {
    /** Valid once a regex is chosen: an index of -1 means none. */
    predicate IsValid() { RegexIndex >= 0 }

    function GetID(): nat { ID }

    function GetName(): string { Name }

    function GetType(): CleanCodeRuleType { UnwantedCodeType }

    /** GetID afterwards answers `id`; every other field is kept. */
    function SetID(id: nat): (r: UnwantedCode)
      ensures r.GetID() == id
      ensures r.GetName() == GetName() && r.IsValid() == IsValid() && r.GetType() == GetType()
      ensures r.RegexIndex == RegexIndex && r.Description == Description
      ensures r.(ID := GetID()) == this
    {
      this.(ID := id)
    }
  }

  /** A search regex with a named group whose captured text must match a second regex. */
  datatype CodeGuideline = CodeGuideline(Name: string, SearchRegexIndex: int, GroupName: string,
                                         MatchRegexIndex: int, Description: string, ID: nat)
  {
    /** Valid once both regexes are chosen and the group is named. */
    predicate IsValid() { SearchRegexIndex >= 0 && MatchRegexIndex >= 0 && GroupName != "" }

    function GetID(): nat { ID }

    function GetName(): string { Name }

    function GetType(): CleanCodeRuleType { CodingGuidelineType }

    /** GetID afterwards answers `id`; every other field is kept. */
    function SetID(id: nat): (r: CodeGuideline)
      ensures r.GetID() == id
      ensures r.GetName() == GetName() && r.IsValid() == IsValid() && r.GetType() == GetType()
      ensures r.SearchRegexIndex == SearchRegexIndex && r.MatchRegexIndex == MatchRegexIndex
      ensures r.GroupName == GroupName && r.Description == Description
      ensures r.(ID := GetID()) == this
    {
      this.(ID := id)
    }
  }

  /** A regex marking code that must be preceded by a documentation comment. */
  datatype CodeDocumentation = CodeDocumentation(Name: string, RegexIndex: int, Description: string, ID: nat)
  {
    /** Valid once a regex is chosen. */
    predicate IsValid() { RegexIndex >= 0 }

    function GetID(): nat { ID }

    function GetName(): string { Name }

    function GetType(): CleanCodeRuleType { CodeDocumentationType }

    /** GetID afterwards answers `id`; every other field is kept. */
    function SetID(id: nat): (r: CodeDocumentation)
      ensures r.GetID() == id
      ensures r.GetName() == GetName() && r.IsValid() == IsValid() && r.GetType() == GetType()
      ensures r.RegexIndex == RegexIndex && r.Description == Description
      ensures r.(ID := GetID()) == this
    {
      this.(ID := id)
    }
  }

  /** A rule seen through ICleanCodeRule (the boxed struct stored in the rules dictionary). */
  datatype CleanCodeRule =
    | Unwanted(unwanted: UnwantedCode)
    | Guideline(guideline: CodeGuideline)
    | Documentation(documentation: CodeDocumentation)
  {
    predicate IsValid() {
      match this
      case Unwanted(u) => u.IsValid()
      case Guideline(g) => g.IsValid()
      case Documentation(d) => d.IsValid()
    }

    function GetID(): nat {
      match this
      case Unwanted(u) => u.GetID()
      case Guideline(g) => g.GetID()
      case Documentation(d) => d.GetID()
    }

    function GetName(): string {
      match this
      case Unwanted(u) => u.GetName()
      case Guideline(g) => g.GetName()
      case Documentation(d) => d.GetName()
    }

    /** The type a rule reports names its kind, and no rule reports None. */
    function GetType(): (t: CleanCodeRuleType)
      ensures t != NoRuleType
      ensures t == UnwantedCodeType <==> Unwanted?
      ensures t == CodingGuidelineType <==> Guideline?
      ensures t == CodeDocumentationType <==> Documentation?
    {
      match this
      case Unwanted(u) => u.GetType()
      case Guideline(g) => g.GetType()
      case Documentation(d) => d.GetType()
    }

    /** SetID through the interface: the same kind of rule, the new ID, validity and name kept. */
    function SetID(id: nat): (r: CleanCodeRule)
      ensures r.GetID() == id
      ensures r.GetName() == GetName() && r.IsValid() == IsValid() && r.GetType() == GetType()
    {
      match this
      case Unwanted(u) => Unwanted(u.SetID(id))
      case Guideline(g) => Guideline(g.SetID(id))
      case Documentation(d) => Documentation(d.SetID(id))
    }
  }

  /** Setting a rule's ID and then its old ID back gives the rule it was. */
  lemma SetIDRoundTrip(rule: CleanCodeRule, id: nat)
    ensures rule.SetID(id).SetID(rule.GetID()) == rule
  {
  }
}
