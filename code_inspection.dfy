/**
 * CodeInspection: a handle on one file or text. The document is cut into a
 * list of CodePieces around regex matches; callers edit the pieces, and
 * Commit stitches them back together and writes the result.
 */
module Inspection {
  import opened Common
  import opened MatchCutter
  import opened CodeManagerUtility
  import opened CodePieces

  /** READ_WRITE lets the inspection write its file; a file blocked READ_WRITE is blocked for everyone else. */
  datatype InspectionMode = READ | READ_WRITE

  /** FILE inspections are blocked in the registry and write to disk; TEXT inspections are free. */
  datatype InspectionType = FILE | TEXT

  /** The settings that matter to the model: line tracking and the RightToLeft regex option. */
  datatype CodeInspectionSettings = CodeInspectionSettings(AddLineIndex: bool, RightToLeft: bool)

  /** CodeInspectionSettings.Default: no regex options, no line tracking. */
  const DefaultSettings := CodeInspectionSettings(false, false)

  /** What writing a file depends on outside the program: the host newline and whether the write goes through. */
  datatype Host = Host(newLine: string, writeSucceeds: bool)

  /**
   * The newline normalisation of WriteFile: every "\r\n", every lone '\r' and
   * every '\n' becomes `nl`, scanning left to right as the alternation
   * \r\n?|\n does.
   */
  function NormalizeNewlines(s: string, nl: string): string
    decreases |s|
  {
    if s == [] then ""
    else if s[0] == '\r' then nl + NormalizeNewlines(if |s| > 1 && s[1] == '\n' then s[2..] else s[1..], nl)
    else if s[0] == '\n' then nl + NormalizeNewlines(s[1..], nl)
    else [s[0]] + NormalizeNewlines(s[1..], nl)
  }

  /** With a host newline free of '\r', no '\r' survives normalisation. */
  lemma {:induction false} NormalizeRemovesCarriageReturns(s: string, nl: string)
    requires '\r' !in nl
    ensures '\r' !in NormalizeNewlines(s, nl)
    decreases |s|
  {
    if s != [] {
      if s[0] == '\r' {
        NormalizeRemovesCarriageReturns(if |s| > 1 && s[1] == '\n' then s[2..] else s[1..], nl);
      } else {
        NormalizeRemovesCarriageReturns(s[1..], nl);
      }
    }
  }

  /** Text already in '\n' form is left alone by normalising to "\n". */
  lemma {:induction false} NormalizeKeepsUnixText(s: string)
    requires '\r' !in s
    ensures NormalizeNewlines(s, "\n") == s
    decreases |s|
  {
    if s != [] {
      assert '\r' !in s[1..];
      NormalizeKeepsUnixText(s[1..]);
      if s[0] == '\n' {
        assert "\n" + s[1..] == s;
      } else {
        assert [s[0]] + s[1..] == s;
      }
    }
  }

  /** On a Unix host, writing twice writes the same thing: normalisation is idempotent. */
  lemma NormalizeIdempotentOnUnix(s: string)
    ensures NormalizeNewlines(NormalizeNewlines(s, "\n"), "\n") == NormalizeNewlines(s, "\n")
  {
    NormalizeRemovesCarriageReturns(s, "\n");
    NormalizeKeepsUnixText(NormalizeNewlines(s, "\n"));
  }

  /** The segments a list of pieces stands for: each piece's current text and the match it came from. */
  function SegmentsOf(ps: seq<CodePiece>): (r: seq<Segment>)
    reads ps
    ensures |r| == |ps|
    decreases |ps|
  {
    if ps == [] then [] else SegmentsOf(ps[..|ps| - 1]) + [Segment(ps[|ps| - 1].code, ps[|ps| - 1].Match)]
  }

  lemma {:induction false} SegmentsOfAppend(a: seq<CodePiece>, b: seq<CodePiece>)
    ensures SegmentsOf(a + b) == SegmentsOf(a) + SegmentsOf(b)
    decreases |b|
  {
    if b == [] {
      assert a + b == a;
    } else {
      assert (a + b)[..|a + b| - 1] == a + b[..|b| - 1];
      SegmentsOfAppend(a, b[..|b| - 1]);
    }
  }

  lemma {:induction false} SegmentsOfIndex(ps: seq<CodePiece>, i: nat)
    requires i < |ps|
    ensures SegmentsOf(ps)[i] == Segment(ps[i].code, ps[i].Match)
    decreases |ps|
  {
    if i < |ps| - 1 {
      SegmentsOfIndex(ps[..|ps| - 1], i);
    }
  }

  /** The segments of a prefix of the pieces are the prefix of their segments. */
  lemma SegmentsOfPrefix(ps: seq<CodePiece>, k: nat)
    requires k <= |ps|
    ensures SegmentsOf(ps[..k]) == SegmentsOf(ps)[..k]
    ensures SegmentsOf(ps[k..]) == SegmentsOf(ps)[k..]
  {
    assert ps == ps[..k] + ps[k..];
    SegmentsOfAppend(ps[..k], ps[k..]);
  }

  lemma SegmentsOfSingle(p: CodePiece)
    ensures SegmentsOf([p]) == [Segment(p.code, p.Match)]
  {
    assert [p][..0] == [];
  }

  /** The pieces that were cut from a match, in list order (the nodes FindAll hands out). */
  function MatchNodes(ps: seq<CodePiece>): seq<CodePiece?>
    decreases |ps|
  {
    if ps == [] then []
    else MatchNodes(ps[..|ps| - 1]) + (if ps[|ps| - 1].Match.Some? then [ps[|ps| - 1]] else [])
  }

  /** The match pieces are the list's pieces cut from a match; in a list of distinct nodes each appears once. */
  lemma {:induction false} MatchNodesMembers(ps: seq<CodePiece>)
    ensures forall p: CodePiece :: p in MatchNodes(ps) <==> p in ps && p.Match.Some?
    ensures null !in MatchNodes(ps)
    ensures (forall i, j :: 0 <= i < j < |ps| ==> ps[i] != ps[j]) ==>
              forall i, j :: 0 <= i < j < |MatchNodes(ps)| ==> MatchNodes(ps)[i] != MatchNodes(ps)[j]
    decreases |ps|
  {
    if ps != [] {
      var pre := ps[..|ps| - 1];
      var last := ps[|ps| - 1];
      MatchNodesMembers(pre);
      assert ps == pre + [last];
      if forall i, j :: 0 <= i < j < |ps| ==> ps[i] != ps[j] {
        assert last !in pre;
      }
    }
  }

  /** The array FindAll hands out: the match pieces, in order. */
  method NodeArray(nodes: seq<CodePiece>) returns (a: array<CodePiece?>)
    ensures fresh(a) && a[..] == nodes
  {
    a := new CodePiece?[|nodes|](i requires 0 <= i < |nodes| => nodes[i]);
    assert a[..] == nodes;
  }

  /** The sum of what each piece adds to the line index, from the first piece on. */
  function LinesIn(ps: seq<CodePiece>): int
    reads ps
    decreases |ps|
  {
    if ps == [] then 0 else ps[0].LineAdvance() + LinesIn(ps[1..])
  }

  /** With line tracking on, the line count of a run of pieces is the number of '\n' in their joined text. */
  lemma {:induction false} LinesInCountsNewlines(ps: seq<CodePiece>)
    requires forall p :: p in ps ==> p.Valid() && p.calcLineCount
    ensures LinesIn(ps) == CountOf('\n', Joined(SegmentsOf(ps)))
    decreases |ps|
  {
    if ps != [] {
      var p := ps[0];
      assert ps[0] in ps;
      forall q | q in ps[1..] ensures q.Valid() && q.calcLineCount {
        assert q in ps;
      }
      LinesInCountsNewlines(ps[1..]);
      assert ps == [p] + ps[1..];
      SegmentsOfAppend([p], ps[1..]);
      SegmentsOfSingle(p);
      JoinedAppend([Segment(p.code, p.Match)], SegmentsOf(ps[1..]));
      AppendSegment([], Segment(p.code, p.Match));
      assert [] + [Segment(p.code, p.Match)] == [Segment(p.code, p.Match)];
      CountOfAppend('\n', p.code, Joined(SegmentsOf(ps[1..])));
      assert Joined([Segment(p.code, p.Match)]) == p.code;
      assert SegmentsOf(ps) == [Segment(p.code, p.Match)] + SegmentsOf(ps[1..]);
      assert Joined(SegmentsOf(ps)) == p.code + Joined(SegmentsOf(ps[1..]));
      assert p.LineAdvance() == CountOf('\n', p.code);
      assert LinesIn(ps) == p.LineAdvance() + LinesIn(ps[1..]);
    }
  }

  /** The line count of the pieces before the k-th is the number of '\n' in the text they stand for. */
  lemma LinesBeforeCountsNewlines(ps: seq<CodePiece>, k: nat)
    requires k <= |ps| && forall p :: p in ps ==> p.Valid() && p.calcLineCount
    ensures LinesIn(ps[..k]) == CountOf('\n', Joined(SegmentsOf(ps)[..k]))
  {
    forall p | p in ps[..k] ensures p.Valid() && p.calcLineCount {
      assert p in ps;
    }
    LinesInCountsNewlines(ps[..k]);
    SegmentsOfPrefix(ps, k);
  }

  /** Where node `p` stands in the list; a node of a valid inspection stands in one place only. */
  ghost function PositionOf(ps: seq<CodePiece>, p: CodePiece): (k: nat)
    requires p in ps
    ensures k < |ps| && ps[k] == p
  {
    var k :| 0 <= k < |ps| && ps[k] == p; k
  }

  /** In a list of distinct nodes, a node has one position. */
  lemma DistinctPosition(ps: seq<CodePiece>, k: nat)
    requires k < |ps| && forall i, j :: 0 <= i < j < |ps| ==> ps[i] != ps[j]
    ensures forall k' :: 0 <= k' < |ps| && ps[k'] == ps[k] ==> k' == k
  {
  }

  class CodeInspection {
    var Mode: InspectionMode
    const Type: InspectionType
    var settings: CodeInspectionSettings
    /** The inspected file and its name; None for a TEXT inspection. */
    const Path: Option<string>
    const FileName: Option<string>
    var CompleteCode: string
    /** The ID the registry issued; 0 once the inspection was stopped. */
    var CodeInspectionID: nat
    var editationActive: bool
    /** The LinkedList of pieces, first to last; a node handle is the piece itself. */
    var codePiecesList: seq<CodePiece>

    /**
     * The session invariant: pieces are distinct nodes, a non-empty list means
     * an editation is active, every piece keeps its line data and tracks lines
     * exactly when the settings do, and FILE inspections have a non-empty path.
     */
    predicate Valid()
      reads this, codePiecesList
    {
      (forall i, j :: 0 <= i < j < |codePiecesList| ==> codePiecesList[i] != codePiecesList[j])
      && (codePiecesList != [] ==> editationActive)
      && (forall p :: p in codePiecesList ==> p.Valid() && p.calcLineCount == settings.AddLineIndex)
      && (Type == FILE <==> Path.Some?)
      && (Type == FILE <==> FileName.Some?)
      && (Path.Some? ==> Path.value != "")
    }

    /** The document the pieces currently stand for. */
    function Segments(): seq<Segment>
      reads this`codePiecesList, codePiecesList
    {
      SegmentsOf(codePiecesList)
    }

    function CurrentCode(): string
      reads this`codePiecesList, codePiecesList
    {
      Joined(Segments())
    }

    /** Fresh pieces may be cut: no editation is active, or a READ inspection may simply drop it. */
    predicate CanStartEditation()
      reads this
    {
      !editationActive || Mode == READ
    }

    /** HasWritePermission: TEXT inspections always may write, FILE inspections only in READ_WRITE mode. */
    predicate HasWritePermission()
      reads this
    {
      !(Type == FILE && Mode != READ_WRITE)
    }

    /** IsCodeInspectionActive: a stopped FILE inspection (ID 0) may do nothing. */
    predicate IsCodeInspectionActive()
      reads this
    {
      !(Type == FILE && CodeInspectionID == 0)
    }

    /** HasAllWriteRequirements: a TEXT inspection, or a live READ_WRITE FILE inspection. */
    function HasAllWriteRequirements(): (r: bool)
      reads this
      ensures r <==> Type == TEXT || (Mode == READ_WRITE && CodeInspectionID != 0)
    {
      HasWritePermission() && IsCodeInspectionActive()
    }

    /** The successful constructor: a fresh inspection with default settings and no pieces. */
    constructor (codeInspectionID: nat, mode: InspectionMode, inspectionType: InspectionType, pathOrText: string, fileContent: Option<string>)
      requires inspectionType == FILE ==> pathOrText != "" && fileContent.Some?
      ensures Valid()
      ensures settings == DefaultSettings && CodeInspectionID == codeInspectionID && Mode == mode && Type == inspectionType
      ensures codePiecesList == [] && !editationActive
      ensures inspectionType == TEXT ==> CompleteCode == pathOrText && Path == None && FileName == None
      ensures inspectionType == FILE ==> CompleteCode == fileContent.value && Path == Some(pathOrText)
                                         && FileName == Some(GetFileNameInPathWithExtension(pathOrText))
    {
      settings := DefaultSettings;
      CodeInspectionID := codeInspectionID;
      Mode := mode;
      Type := inspectionType;
      codePiecesList := [];
      editationActive := false;
      if inspectionType == FILE {
        Path := Some(pathOrText);
        FileName := Some(GetFileNameInPathWithExtension(pathOrText));
        CompleteCode := fileContent.value;
      } else {
        Path := None;
        FileName := None;
        CompleteCode := pathOrText;
      }
    }

    // ------------------------------------------------------------ list primitives

    /** LinkedList.AddLast of a new piece. */
    method AppendPiece(p: CodePiece)
      requires Valid() && editationActive && p !in codePiecesList
      requires p.Valid() && p.calcLineCount == settings.AddLineIndex
      modifies this`codePiecesList
      ensures Valid()
      ensures codePiecesList == old(codePiecesList) + [p]
      ensures Segments() == old(Segments()) + [Segment(p.code, p.Match)]
      ensures MatchNodes(codePiecesList) == MatchNodes(old(codePiecesList)) + (if p.Match.Some? then [p] else [])
    {
      codePiecesList := codePiecesList + [p];
      assert codePiecesList[..|codePiecesList| - 1] == old(codePiecesList);
    }

    /** `codePiecesList.AddLast(CreateCodePiece(...))`: a new piece with the given text and source, at the end. */
    method AddLastNew(code: string, source: Option<RegexMatch>) returns (p: CodePiece)
      requires Valid() && (source.Some? ==> code == source.value.Value)
      modifies this`codePiecesList, this`editationActive
      ensures Valid() && editationActive && fresh(p)
      ensures p.code == code && p.Match == source
      ensures codePiecesList == old(codePiecesList) + [p]
      ensures Segments() == old(Segments()) + [Segment(code, source)]
      ensures MatchNodes(codePiecesList) == MatchNodes(old(codePiecesList)) + (if source.Some? then [p] else [])
    {
      if source.Some? {
        p := CreateCodePieceFromMatch(source.value);
      } else {
        p := CreateCodePiece(code);
      }
      AppendPiece(p);
    }

    /** A literal run `CompleteCode[from..to]` at the end of the list, when it is not empty. */
    method AddLiteral(from: nat, to: nat)
      requires Valid() && from <= to <= |CompleteCode|
      modifies this`codePiecesList, this`editationActive
      ensures Valid() && old(codePiecesList) <= codePiecesList
      ensures from < to ==> editationActive
      ensures forall q :: q in codePiecesList && q !in old(codePiecesList) ==> fresh(q)
      ensures from == to ==> editationActive == old(editationActive)
      ensures Segments() == old(Segments()) + (if from < to then [Segment(CompleteCode[from..to], None)] else [])
      ensures MatchNodes(codePiecesList) == MatchNodes(old(codePiecesList))
    {
      if from < to {
        var p := AddLastNew(CompleteCode[from..to], None);
      }
    }

    /** Linking a new piece in at position k (AddFirst, AddBefore, AddAfter). */
    method InsertPiece(k: nat, p: CodePiece)
      requires Valid() && editationActive && p !in codePiecesList && k <= |codePiecesList|
      requires p.Valid() && p.calcLineCount == settings.AddLineIndex
      modifies this`codePiecesList
      ensures Valid()
      ensures codePiecesList == old(codePiecesList)[..k] + [p] + old(codePiecesList)[k..]
      ensures Segments() == old(Segments())[..k] + [Segment(p.code, p.Match)] + old(Segments())[k..]
    {
      codePiecesList := codePiecesList[..k] + [p] + codePiecesList[k..];
      forall i, j | 0 <= i < j < |codePiecesList| ensures codePiecesList[i] != codePiecesList[j] {
        if i < k && j > k {
          assert codePiecesList[j] == old(codePiecesList)[j - 1];
        } else if i > k {
          assert codePiecesList[i] == old(codePiecesList)[i - 1] && codePiecesList[j] == old(codePiecesList)[j - 1];
        }
      }
      forall q | q in codePiecesList ensures q.Valid() && q.calcLineCount == settings.AddLineIndex {
        if q != p {
          assert q in old(codePiecesList);
        }
      }
      SegmentsOfPrefix(old(codePiecesList), k);
      SegmentsOfAppend(old(codePiecesList)[..k] + [p], old(codePiecesList)[k..]);
      SegmentsOfAppend(old(codePiecesList)[..k], [p]);
      SegmentsOfSingle(p);
    }

    /** ResetCodeInspection: drops every piece and ends the editation. */
    method ResetCodeInspection()
      requires Valid()
      modifies this`codePiecesList, this`editationActive
      ensures Valid()
      ensures codePiecesList == [] && !editationActive
    {
      codePiecesList := [];
      editationActive := false;
    }

    /** CreateCodePiece(string): a new literal piece, tracking lines as the settings say; starts an editation. */
    method CreateCodePiece(code: string) returns (p: CodePiece)
      requires Valid()
      modifies this`editationActive
      ensures Valid() && editationActive
      ensures fresh(p) && p.Valid()
      ensures p.code == code && p.Match == None && p.calcLineCount == settings.AddLineIndex
    {
      editationActive := true;
      p := new CodePiece.FromString(code, settings.AddLineIndex);
    }

    /** CreateCodePiece(Match): a new piece for a match; starts an editation. */
    method CreateCodePieceFromMatch(m: RegexMatch) returns (p: CodePiece)
      requires Valid()
      modifies this`editationActive
      ensures Valid() && editationActive
      ensures fresh(p) && p.Valid()
      ensures p.code == m.Value && p.Match == Some(m) && p.calcLineCount == settings.AddLineIndex
    {
      editationActive := true;
      p := new CodePiece.FromMatch(m, settings.AddLineIndex);
    }

    // ------------------------------------------------------------ guards

    /**
     * IsNoEditationActive: true when no editation is active; a READ inspection
     * with an active editation commits it, which for READ is a reset.
     */
    method IsNoEditationActive() returns (r: bool)
      requires Valid()
      modifies this`codePiecesList, this`editationActive
      ensures Valid()
      ensures r == old(CanStartEditation())
      ensures r ==> codePiecesList == [] && !editationActive
      ensures !r ==> codePiecesList == old(codePiecesList) && editationActive
    {
      if editationActive {
        if Mode == READ_WRITE {
          return false;
        } else {
          ResetCodeInspection();
          return true;
        }
      }
      return true;
    }

    /** HasAllReadRequirements: IsNoEditationActive, then IsCodeInspectionActive. */
    method HasAllReadRequirements() returns (r: bool)
      requires Valid()
      modifies this`codePiecesList, this`editationActive
      ensures Valid()
      ensures r == (old(CanStartEditation()) && IsCodeInspectionActive())
      ensures old(CanStartEditation()) ==> codePiecesList == [] && !editationActive
      ensures !old(CanStartEditation()) ==> codePiecesList == old(codePiecesList) && editationActive
    {
      r := IsNoEditationActive();
      if r {
        r := IsCodeInspectionActive();
      }
    }

    // ------------------------------------------------------------ reading the pieces

    /**
     * CreateCurrentCode: the texts of the pieces joined in list order. The
     * source reads First without a null check, so an empty list faults.
     */
    method CreateCurrentCode() returns (r: Outcome<string>)
      ensures codePiecesList == [] ==> r == Throw(NullReference)
      ensures codePiecesList != [] ==> r == Return(CurrentCode())
    {
      if codePiecesList == [] {
        return Throw(NullReference);
      }
      var sb := "";
      var i := 0;
      while i < |codePiecesList|
        invariant 0 <= i <= |codePiecesList|
        invariant sb == Joined(Segments()[..i])
      {
        var code := codePiecesList[i].code;
        if code != "" {
          sb := sb + code;
        }
        assert Segments()[..i + 1] == Segments()[..i] + [Segments()[i]];
        SegmentsOfIndex(codePiecesList, i);
        AppendSegment(Segments()[..i], Segments()[i]);
        i := i + 1;
      }
      assert Segments()[..i] == Segments();
      return Return(sb);
    }

    /**
     * GetLineIndex: the 1-based line on which `node` starts, or -1 without line
     * tracking. A node not in the list (a stale handle after Commit or Cancel)
     * has no previous node, so it starts on line 1; a null node faults.
     */
    method GetLineIndex(node: CodePiece?) returns (r: Outcome<int>)
      requires Valid()
      ensures !settings.AddLineIndex ==> r == Return(-1)
      ensures settings.AddLineIndex && node == null ==> r == Throw(NullReference)
      ensures settings.AddLineIndex && node != null && node !in codePiecesList ==> r == Return(1)
      ensures settings.AddLineIndex && node in codePiecesList ==>
                r == Return(1 + LinesIn(codePiecesList[..PositionOf(codePiecesList, node)]))
                && r == Return(1 + CountOf('\n', Joined(Segments()[..PositionOf(codePiecesList, node)])))
    {
      if !settings.AddLineIndex {
        return Return(-1);
      }
      if node == null {
        return Throw(NullReference);
      }
      if node !in codePiecesList {
        return Return(1);
      }
      var k :| 0 <= k < |codePiecesList| && codePiecesList[k] == node;
      var lineCounter := CountLinesBefore(k);
      LineIndexIsNewlineCount(node, k);
      return Return(lineCounter);
    }

    /** The walk's total for the node at position k is the number of '\n' in the document before it. */
    lemma LineIndexIsNewlineCount(node: CodePiece, k: nat)
      requires Valid() && settings.AddLineIndex && k < |codePiecesList| && codePiecesList[k] == node
      ensures PositionOf(codePiecesList, node) == k
      ensures LinesIn(codePiecesList[..k]) == CountOf('\n', Joined(Segments()[..k]))
    {
      LinesBeforeCountsNewlines(codePiecesList, k);
      DistinctPosition(codePiecesList, k);
    }

    /** The do/while walk of GetLineIndex from the k-th piece back to the first, summing what each previous piece advances. */
    method CountLinesBefore(k: nat) returns (lineCounter: int)
      requires k <= |codePiecesList|
      ensures lineCounter == 1 + LinesIn(codePiecesList[..k])
    {
      lineCounter := 1;
      var j := k;
      // codePiecesList[j - 1] is `previous`; the walk ends at the first piece
      while j > 0
        invariant 0 <= j <= k
        invariant lineCounter == 1 + LinesIn(codePiecesList[j..k])
      {
        var previous := codePiecesList[j - 1];
        lineCounter := lineCounter + (if previous.EndWithNewLine then previous.lineCount else previous.lineCount - 1);
        assert codePiecesList[j - 1..k][1..] == codePiecesList[j..k];
        j := j - 1;
      }
      assert codePiecesList[0..k] == codePiecesList[..k];
    }

    // ------------------------------------------------------------ writing

    /** WriteFile: normalises the newlines, and on a successful write adopts the written text. */
    method WriteFile(newContent: string, host: Host) returns (success: bool)
      modifies this`CompleteCode
      ensures success == host.writeSucceeds
      ensures success ==> CompleteCode == NormalizeNewlines(newContent, host.newLine)
      ensures !success ==> CompleteCode == old(CompleteCode)
    {
      var normalized := NormalizeNewlines(newContent, host.newLine);
      if !host.writeSucceeds {
        return false;
      }
      CompleteCode := normalized;
      return true;
    }

    /** WriteNewContent: a TEXT inspection adopts the text; a FILE inspection writes its file. */
    method WriteNewContent(newContent: string, host: Host) returns (success: bool)
      modifies this`CompleteCode
      ensures Type == TEXT ==> success && CompleteCode == newContent
      ensures Type == FILE ==> success == host.writeSucceeds
      ensures Type == FILE && success ==> CompleteCode == NormalizeNewlines(newContent, host.newLine)
      ensures !success ==> CompleteCode == old(CompleteCode)
    {
      if Type == TEXT {
        CompleteCode := newContent;
        return true;
      }
      success := WriteFile(newContent, host);
    }

    /**
     * Commit: a READ inspection just drops its pieces. A READ_WRITE inspection
     * that may write joins the pieces, writes the result, and drops the pieces
     * only when the write went through.
     */
    method Commit(host: Host) returns (r: Outcome<bool>)
      requires Valid()
      modifies this`codePiecesList, this`editationActive, this`CompleteCode
      ensures Valid()
      ensures Mode == READ ==>
                r == Return(true) && codePiecesList == [] && !editationActive && CompleteCode == old(CompleteCode)
      ensures Mode == READ_WRITE && !HasAllWriteRequirements() ==>
                r == Return(false) && unchanged(this)
      ensures Mode == READ_WRITE && HasAllWriteRequirements() && old(codePiecesList) == [] ==>
                r == Throw(NullReference) && unchanged(this)
      ensures Mode == READ_WRITE && HasAllWriteRequirements() && old(codePiecesList) != [] ==>
                r.Return?
                && (Type == TEXT ==> r.value && CompleteCode == old(CurrentCode()))
                && (Type == FILE ==> r.value == host.writeSucceeds)
                && (Type == FILE && r.value ==> CompleteCode == NormalizeNewlines(old(CurrentCode()), host.newLine))
                && (r.value ==> codePiecesList == [] && !editationActive)
                && (!r.value ==> unchanged(this))
    {
      if Mode == READ {
        ResetCodeInspection();
        return Return(true);
      }
      if !HasAllWriteRequirements() {
        return Return(false);
      }
      var newCode := CreateCurrentCode();
      if newCode.Throw? {
        return Throw(newCode.fault);
      }
      var success := WriteNewContent(newCode.value, host);
      if success {
        ResetCodeInspection();
      }
      return Return(success);
    }

    /** Cancel: drops every piece without writing. */
    method Cancel()
      requires Valid()
      modifies this`codePiecesList, this`editationActive
      ensures Valid()
      ensures codePiecesList == [] && !editationActive
    {
      ResetCodeInspection();
    }

    /** The Settings setter: takes effect only when no editation blocks it (see IsNoEditationActive). */
    method SetSettings(value: CodeInspectionSettings)
      requires Valid()
      modifies this`settings, this`codePiecesList, this`editationActive
      ensures Valid()
      ensures old(CanStartEditation()) ==> settings == value && codePiecesList == [] && !editationActive
      ensures !old(CanStartEditation()) ==> unchanged(this)
    {
      var ok := IsNoEditationActive();
      if ok {
        settings := value;
      }
    }

    /** SetEverything: replaces the whole text of a TEXT inspection; refused for FILE. */
    method SetEverything(newCode: string) returns (r: bool)
      requires Valid()
      modifies this`codePiecesList, this`editationActive, this`CompleteCode
      ensures Valid()
      ensures r <==> Type == TEXT
      ensures r ==> CompleteCode == newCode && codePiecesList == [] && !editationActive
      ensures !r ==> unchanged(this)
    {
      if Type == FILE {
        return false;
      }
      ResetCodeInspection();
      CompleteCode := newCode;
      return true;
    }

    /** AddFirst: a new piece at the front, if the inspection may write; otherwise null and nothing changes. */
    method AddFirst(newCodePiece: string) returns (r: CodePiece?)
      requires Valid()
      modifies this`codePiecesList, this`editationActive
      ensures Valid()
      ensures !HasAllWriteRequirements() ==> r == null && unchanged(this)
      ensures HasAllWriteRequirements() ==>
                r != null && fresh(r) && r.code == newCodePiece && r.Match == None && editationActive
                && codePiecesList == [r] + old(codePiecesList)
    {
      if !HasAllWriteRequirements() {
        return null;
      }
      var p := CreateCodePiece(newCodePiece);
      InsertPiece(0, p);
      return p;
    }

    /** AddLast: a new piece at the end, if the inspection may write; otherwise null and nothing changes. */
    method AddLast(newCodePiece: string) returns (r: CodePiece?)
      requires Valid()
      modifies this`codePiecesList, this`editationActive
      ensures Valid()
      ensures !HasAllWriteRequirements() ==> r == null && unchanged(this)
      ensures HasAllWriteRequirements() ==>
                r != null && fresh(r) && r.code == newCodePiece && r.Match == None && editationActive
                && codePiecesList == old(codePiecesList) + [r]
    {
      if !HasAllWriteRequirements() {
        return null;
      }
      var p := CreateCodePiece(newCodePiece);
      AppendPiece(p);
      return p;
    }

    /**
     * AddAfter: a new piece right behind `node`. The piece is created (and the
     * editation started) before the list checks the node, so a null node or a
     * node outside the list throws with the editation already marked active.
     */
    method AddAfter(node: CodePiece?, newCodePiece: string) returns (r: Outcome<CodePiece?>)
      requires Valid()
      modifies this`codePiecesList, this`editationActive
      ensures Valid()
      ensures !HasAllWriteRequirements() ==> r == Return(null) && unchanged(this)
      ensures HasAllWriteRequirements() ==> editationActive
      ensures HasAllWriteRequirements() && node == null ==>
                r == Throw(ArgumentNull) && codePiecesList == old(codePiecesList)
      ensures HasAllWriteRequirements() && node != null && node !in old(codePiecesList) ==>
                r == Throw(InvalidOperation) && codePiecesList == old(codePiecesList)
      ensures HasAllWriteRequirements() ==>
                forall k :: 0 <= k < |old(codePiecesList)| && old(codePiecesList)[k] == node ==>
                  r.Return? && r.value != null && fresh(r.value) && r.value.code == newCodePiece && r.value.Match == None
                  && codePiecesList == old(codePiecesList)[..k + 1] + [r.value] + old(codePiecesList)[k + 1..]
    {
      if !HasAllWriteRequirements() {
        return Return(null);
      }
      var p := CreateCodePiece(newCodePiece);
      if node == null {
        return Throw(ArgumentNull);
      }
      if node !in codePiecesList {
        return Throw(InvalidOperation);
      }
      var k :| 0 <= k < |codePiecesList| && codePiecesList[k] == node;
      InsertPiece(k + 1, p);
      forall k' | 0 <= k' < |old(codePiecesList)| && old(codePiecesList)[k'] == node
        ensures k' == k
      {
      }
      return Return(p);
    }

    /** AddBefore: a new piece right in front of `node`; the same guards and faults as AddAfter. */
    method AddBefore(node: CodePiece?, newCodePiece: string) returns (r: Outcome<CodePiece?>)
      requires Valid()
      modifies this`codePiecesList, this`editationActive
      ensures Valid()
      ensures !HasAllWriteRequirements() ==> r == Return(null) && unchanged(this)
      ensures HasAllWriteRequirements() ==> editationActive
      ensures HasAllWriteRequirements() && node == null ==>
                r == Throw(ArgumentNull) && codePiecesList == old(codePiecesList)
      ensures HasAllWriteRequirements() && node != null && node !in old(codePiecesList) ==>
                r == Throw(InvalidOperation) && codePiecesList == old(codePiecesList)
      ensures HasAllWriteRequirements() ==>
                forall k :: 0 <= k < |old(codePiecesList)| && old(codePiecesList)[k] == node ==>
                  r.Return? && r.value != null && fresh(r.value) && r.value.code == newCodePiece && r.value.Match == None
                  && codePiecesList == old(codePiecesList)[..k] + [r.value] + old(codePiecesList)[k..]
    {
      if !HasAllWriteRequirements() {
        return Return(null);
      }
      var p := CreateCodePiece(newCodePiece);
      if node == null {
        return Throw(ArgumentNull);
      }
      if node !in codePiecesList {
        return Throw(InvalidOperation);
      }
      var k :| 0 <= k < |codePiecesList| && codePiecesList[k] == node;
      InsertPiece(k, p);
      forall k' | 0 <= k' < |old(codePiecesList)| && old(codePiecesList)[k'] == node
        ensures k' == k
      {
      }
      return Return(p);
    }

    // ------------------------------------------------------------ cutting

    /** CutCompleteCode(Match): appends the text before the match, the match and the text after it. */
    method CutCompleteCodeMatch(m: RegexMatch) returns (matchCodePiece: CodePiece)
      requires Valid() && MatchOf(m, CompleteCode)
      modifies this`codePiecesList, this`editationActive
      ensures Valid() && editationActive
      ensures Segments() == old(Segments()) + CutSingle(CompleteCode, m)
      ensures matchCodePiece in codePiecesList && matchCodePiece.Match == Some(m)
    {
      CutSingleParts(CompleteCode, m);
      ghost var s0 := Segments();
      AddLiteral(0, m.Index);
      ghost var s1 := Segments();
      matchCodePiece := AddLastNew(m.Value, Some(m));
      ghost var s2 := Segments();
      ghost var list2 := codePiecesList;
      AddLiteral(m.End(), |CompleteCode|);
      AppendThree(s0, s1, s2, Segments(),
                  if 0 < m.Index then [Segment(CompleteCode[0..m.Index], None)] else [],
                  [Segment(m.Value, Some(m))],
                  if m.End() < |CompleteCode| then [Segment(CompleteCode[m.End()..|CompleteCode|], None)] else []);
      assert matchCodePiece in list2 && list2 <= codePiecesList;
    }

    /** One turn of the cut's loop for a match at or after the cursor: the gap before it, if any, then the match. */
    method AddGapAndMatch(cursor: nat, m: RegexMatch) returns (node: CodePiece)
      requires Valid() && MatchOf(m, CompleteCode) && cursor <= m.Index
      modifies this`codePiecesList, this`editationActive
      ensures Valid()
      ensures Segments() == old(Segments()) + StepSegments(CompleteCode, cursor, m)
      ensures MatchNodes(codePiecesList) == MatchNodes(old(codePiecesList)) + [node]
      ensures node.Match == Some(m) && editationActive
      ensures forall q :: q in codePiecesList && q !in old(codePiecesList) ==> fresh(q)
    {
      ghost var s0 := Segments();
      AddLiteral(cursor, m.Index);
      ghost var s1 := Segments();
      ghost var list1 := codePiecesList;
      node := AddLastNew(m.Value, Some(m));
      assert Segments() == s0 + StepSegments(CompleteCode, cursor, m) by {
        AppendTwo(s0, s1, Segments(), if cursor < m.Index then [Segment(CompleteCode[cursor..m.Index], None)] else [],
                  [Segment(m.Value, Some(m))]);
      }
      forall q | q in codePiecesList && q !in old(codePiecesList) ensures fresh(q) {
        assert q in list1 || q == node;
      }
    }

    /**
     * What the loop of CutCompleteCode(MatchCollection) keeps after `i`
     * matches: the pieces appended since the start (`segs0`, `nodes0`) are
     * the cut of the first `i` matches, `nodes` holds their match pieces,
     * and the cursor is where the last of them ends.
     */
    ghost predicate CutLoopInvariant(ms: seq<RegexMatch>, i: nat, st: CutState, cursor: nat, nodes: seq<CodePiece>,
                                     segs0: seq<Segment>, nodes0: seq<CodePiece?>)
      reads this, codePiecesList
    {
      Valid() && i <= |ms| && MatchesOf(ms, CompleteCode)
      && st == CutMatches(CompleteCode, ms[..i]) && st.inOrder && cursor == st.cursor
      && Segments() == segs0 + st.segments
      && |nodes| == i && MatchNodes(codePiecesList) == nodes0 + nodes
      && (forall j :: 0 <= j < i ==> nodes[j].Match == Some(ms[j]))
    }

    /** One turn of the loop: false at a match before the cursor, else its gap and match appended. */
    method CutLoopTurn(ms: seq<RegexMatch>, i: nat, cursor: nat, nodes: seq<CodePiece>,
                       ghost st: CutState, ghost segs0: seq<Segment>, ghost nodes0: seq<CodePiece?>)
      returns (ok: bool, cursor': nat, nodes': seq<CodePiece>, ghost st': CutState)
      requires i < |ms| && CutLoopInvariant(ms, i, st, cursor, nodes, segs0, nodes0)
      modifies this`codePiecesList, this`editationActive
      ensures ok ==> CutLoopInvariant(ms, i + 1, st', cursor', nodes', segs0, nodes0)
      ensures !ok ==> Valid() && !Ordered(ms) && Segments() == segs0 + CutMatches(CompleteCode, ms).segments
      ensures !ok ==> codePiecesList == old(codePiecesList) && editationActive == old(editationActive)
      ensures forall q :: q in codePiecesList && q !in old(codePiecesList) ==> fresh(q)
      ensures editationActive <==> old(editationActive) || |codePiecesList| > |old(codePiecesList)|
    {
      var m := ms[i];
      CutMatchesStep(CompleteCode, ms, i);
      if m.Index < cursor {
        CutStopsAt(CompleteCode, ms, i);
        return false, cursor, nodes, st;
      }
      ghost var s0 := Segments();
      ghost var n0 := MatchNodes(codePiecesList);
      var node := AddGapAndMatch(cursor, m);
      AppendTwo(segs0, s0, Segments(), st.segments, StepSegments(CompleteCode, cursor, m));
      AppendTwo<CodePiece?>(nodes0, n0, MatchNodes(codePiecesList), nodes, [node]);
      nodes' := nodes + [node];
      st' := CutStep(CompleteCode, st, m);
      ok, cursor' := true, m.End();
    }

    /**
     * The loop of CutCompleteCode(MatchCollection): for each match, the gap
     * since the cursor and the match itself. Reports false at the first
     * match that starts before the cursor, leaving the pieces appended so far.
     */
    method CutMatchesLoop(ms: seq<RegexMatch>) returns (inOrder: bool, currentStartIndex: nat, nodes: seq<CodePiece>)
      requires Valid() && MatchesOf(ms, CompleteCode)
      modifies this`codePiecesList, this`editationActive
      ensures Valid()
      ensures inOrder <==> Ordered(ms)
      ensures Segments() == old(Segments()) + CutMatches(CompleteCode, ms).segments
      ensures inOrder ==> currentStartIndex == CutMatches(CompleteCode, ms).cursor
      ensures inOrder ==> |nodes| == |ms| && MatchNodes(codePiecesList) == MatchNodes(old(codePiecesList)) + nodes
      ensures inOrder ==> forall j :: 0 <= j < |nodes| ==> nodes[j].Match == Some(ms[j])
      ensures forall q :: q in codePiecesList && q !in old(codePiecesList) ==> fresh(q)
      ensures editationActive <==> old(editationActive) || |codePiecesList| > |old(codePiecesList)|
    {
      currentStartIndex := 0;
      nodes := [];
      ghost var st := CutState([], 0, true);
      ghost var segs0 := Segments();
      ghost var nodes0 := MatchNodes(codePiecesList);
      assert ms[..0] == [];
      for i := 0 to |ms|
        invariant CutLoopInvariant(ms, i, st, currentStartIndex, nodes, segs0, nodes0)
        invariant forall q :: q in codePiecesList && q !in old(codePiecesList) ==> fresh(q)
        invariant editationActive <==> old(editationActive) || |codePiecesList| > |old(codePiecesList)|
      {
        var ok;
        ok, currentStartIndex, nodes, st := CutLoopTurn(ms, i, currentStartIndex, nodes, st, segs0, nodes0);
        if !ok {
          return false, currentStartIndex, nodes;
        }
      }
      assert ms[..|ms|] == ms;
      CutInOrderIffOrdered(CompleteCode, ms);
      return true, currentStartIndex, nodes;
    }

    /**
     * CutCompleteCode(MatchCollection): the loop, then the rest of the
     * document after the last match. A match that starts before the cursor
     * throws, leaving the pieces appended so far.
     */
    method CutCompleteCodeCollection(ms: seq<RegexMatch>) returns (r: Outcome<array<CodePiece?>>)
      requires Valid() && MatchesOf(ms, CompleteCode)
      modifies this`codePiecesList, this`editationActive
      ensures Valid()
      ensures forall q :: q in codePiecesList && q !in old(codePiecesList) ==> fresh(q)
      ensures editationActive <==> old(editationActive) || |codePiecesList| > |old(codePiecesList)|
      ensures r.Throw? <==> !Ordered(ms)
      ensures r.Throw? ==> (r.fault == StartBeforeCursor
                            && Segments() == old(Segments()) + CutMatches(CompleteCode, ms).segments)
      ensures r.Return? ==> Segments() == old(Segments()) + CutAll(CompleteCode, ms).segments
      ensures r.Return? ==> (fresh(r.value) && r.value.Length == |ms|
                             && MatchNodes(codePiecesList) == MatchNodes(old(codePiecesList)) + r.value[..]
                             && forall j :: 0 <= j < |ms| ==> r.value[j] != null && r.value[j].Match == Some(ms[j]))
    {
      var inOrder, currentStartIndex, nodes := CutMatchesLoop(ms);
      if !inOrder {
        return Throw(StartBeforeCursor);
      }
      var codePieces := NodeArray(nodes);
      CutInOrderIffOrdered(CompleteCode, ms);
      AddRest(currentStartIndex, CutMatches(CompleteCode, ms), old(Segments()));
      return Return(codePieces);
    }

    /** After the loop: the text from the cursor to the end of the document, when there is any. */
    method AddRest(currentStartIndex: nat, ghost st: CutState, ghost segs0: seq<Segment>)
      requires Valid() && st.inOrder && st.cursor == currentStartIndex && currentStartIndex <= |CompleteCode|
      requires Segments() == segs0 + st.segments
      modifies this`codePiecesList, this`editationActive
      ensures Valid()
      ensures Segments() == segs0 + CutTail(CompleteCode, st).segments
      ensures forall q :: q in codePiecesList && q !in old(codePiecesList) ==> fresh(q)
      ensures MatchNodes(codePiecesList) == MatchNodes(old(codePiecesList))
      ensures editationActive <==> old(editationActive) || |codePiecesList| > |old(codePiecesList)|
    {
      if currentStartIndex < |CompleteCode| {
        var rest := AddLastNew(CompleteCode[currentStartIndex..], None);
      }
    }

    // ------------------------------------------------------------ searching

    /** The calls that cut pieces may go ahead: no blocking editation and an active inspection. */
    predicate ReadAllowed()
      reads this
    {
      CanStartEditation() && IsCodeInspectionActive()
    }

    /**
     * Find: cuts the document around the first match. Refused (false, null)
     * without read requirements; (false, null) when nothing matches.
     */
    method Find(regex: Regex) returns (found: bool, codePiece: CodePiece?)
      requires Valid() && Sound(regex)
      modifies this`codePiecesList, this`editationActive
      ensures Valid()
      ensures found <==> old(ReadAllowed()) && regex(CompleteCode) != []
      ensures !found ==> codePiece == null
      ensures !old(CanStartEditation()) ==> codePiecesList == old(codePiecesList) && editationActive
      ensures old(CanStartEditation()) && !found ==> codePiecesList == [] && !editationActive
      ensures found ==>
                codePiece != null && codePiece in codePiecesList && codePiece.Match == Some(regex(CompleteCode)[0])
                && Segments() == CutSingle(CompleteCode, regex(CompleteCode)[0])
                && CurrentCode() == CompleteCode
    {
      var ok := HasAllReadRequirements();
      if !ok {
        return false, null;
      }
      var matches := regex(CompleteCode);
      assert MatchesOf(matches, CompleteCode);
      if matches == [] {
        return false, null;
      }
      assert MatchOf(matches[0], CompleteCode);
      codePiece := CutCompleteCodeMatch(matches[0]);
      CutSingleCorrect(CompleteCode, matches[0]);
      return true, codePiece;
    }

    /**
     * FindAll: cuts the document around every match. Refused (false, null)
     * without read requirements or with RightToLeft; otherwise true exactly
     * when something matched, with one node per match in match order.
     */
    method FindAll(regex: Regex) returns (r: Outcome<bool>, codePieces: array?<CodePiece?>)
      requires Valid() && Sound(regex)
      modifies this`codePiecesList, this`editationActive
      ensures Valid()
      ensures !old(ReadAllowed()) || settings.RightToLeft ==> r == Return(false) && codePieces == null
      ensures !old(CanStartEditation()) ==> codePiecesList == old(codePiecesList) && editationActive
      ensures old(CanStartEditation()) && settings.RightToLeft ==> codePiecesList == [] && !editationActive
      ensures old(CanStartEditation()) && !old(IsCodeInspectionActive()) ==> codePiecesList == [] && !editationActive
      ensures old(CanStartEditation()) ==> (editationActive <==> codePiecesList != [])
      ensures forall q :: q in codePiecesList && q !in old(codePiecesList) ==> fresh(q)
      ensures old(ReadAllowed()) && !settings.RightToLeft ==>
                var ms := regex(CompleteCode);
                (r.Throw? <==> !Ordered(ms))
                && (r.Throw? ==> r.fault == StartBeforeCursor && codePieces == null
                                 && Segments() == CutMatches(CompleteCode, ms).segments)
                && (r.Return? ==>
                      r.value == (|ms| > 0)
                      && codePieces != null && fresh(codePieces) && codePieces.Length == |ms|
                      && codePieces[..] == MatchNodes(codePiecesList)
                      && (forall j :: 0 <= j < |ms| ==> codePieces[j] != null && codePieces[j].Match == Some(ms[j]))
                      && Segments() == CutAll(CompleteCode, ms).segments
                      && CurrentCode() == CompleteCode)
    {
      var ok := HasAllReadRequirements();
      if !ok {
        return Return(false), null;
      }
      var matches := regex(CompleteCode);
      assert MatchesOf(matches, CompleteCode);
      if settings.RightToLeft {
        return Return(false), null;
      }
      r, codePieces := CutEveryMatch(matches);
    }

    /** The rest of FindAll, on a cleared inspection: the collection cut, its throw, and the answer. */
    method CutEveryMatch(ms: seq<RegexMatch>) returns (r: Outcome<bool>, codePieces: array?<CodePiece?>)
      requires Valid() && MatchesOf(ms, CompleteCode) && codePiecesList == [] && !editationActive
      modifies this`codePiecesList, this`editationActive
      ensures Valid()
      ensures editationActive <==> codePiecesList != []
      ensures forall q :: q in codePiecesList ==> fresh(q)
      ensures r.Throw? <==> !Ordered(ms)
      ensures r.Throw? ==> r.fault == StartBeforeCursor && codePieces == null
                           && Segments() == CutMatches(CompleteCode, ms).segments
      ensures r.Return? ==>
                r.value == (|ms| > 0)
                && codePieces != null && fresh(codePieces) && codePieces.Length == |ms|
                && codePieces[..] == MatchNodes(codePiecesList)
                && (forall j :: 0 <= j < |ms| ==> codePieces[j] != null && codePieces[j].Match == Some(ms[j]))
                && Segments() == CutAll(CompleteCode, ms).segments
                && CurrentCode() == CompleteCode
    {
      assert Segments() == [] && MatchNodes(codePiecesList) == [];
      var cut := CutCompleteCodeCollection(ms);
      if cut.Throw? {
        FirstMatchAlwaysCut(CompleteCode, ms);
        assert |Segments()| == |codePiecesList|;
        return Throw(cut.fault), null;
      }
      CutAllCorrect(CompleteCode, ms);
      return Return(cut.value.Length > 0), cut.value;
    }

    /** GetEverything: the whole document as one piece, if the read requirements hold. */
    method GetEverything() returns (ok: bool, codePiece: CodePiece?)
      requires Valid()
      modifies this`codePiecesList, this`editationActive
      ensures Valid()
      ensures ok == old(ReadAllowed())
      ensures !ok ==> codePiece == null
      ensures !old(CanStartEditation()) ==> codePiecesList == old(codePiecesList) && editationActive
      ensures old(CanStartEditation()) && !ok ==> codePiecesList == [] && !editationActive
      ensures ok ==> codePiece != null && fresh(codePiece) && codePiecesList == [codePiece]
                     && Segments() == [Segment(CompleteCode, None)] && CurrentCode() == CompleteCode
    {
      ok := HasAllReadRequirements();
      if !ok {
        return false, null;
      }
      codePiece := CutWhole();
    }

    /** The single piece GetEverything cuts: the whole document, as a literal run. */
    method CutWhole() returns (p: CodePiece)
      requires Valid() && codePiecesList == []
      modifies this`codePiecesList, this`editationActive
      ensures Valid() && fresh(p) && codePiecesList == [p]
      ensures Segments() == [Segment(CompleteCode, None)] && CurrentCode() == CompleteCode
    {
      p := CreateCodePiece(CompleteCode);
      AppendPiece(p);
      AppendSegment([], Segment(CompleteCode, None));
      assert [] + [Segment(CompleteCode, None)] == [Segment(CompleteCode, None)];
    }

    // ------------------------------------------------------------ registry hooks

    /** SetInactive: the inspection no longer holds an ID. */
    method SetInactive()
      requires Valid()
      modifies this`CodeInspectionID
      ensures Valid() && CodeInspectionID == 0
    {
      CodeInspectionID := 0;
    }

    /** GrantWritePermission: switches to READ_WRITE with no pieces, unless an editation blocks it. */
    method GrantWritePermission() returns (r: bool)
      requires Valid()
      modifies this`Mode, this`codePiecesList, this`editationActive
      ensures Valid()
      ensures r == old(CanStartEditation())
      ensures r ==> Mode == READ_WRITE && codePiecesList == [] && !editationActive
      ensures !r ==> unchanged(this)
    {
      var ok := IsNoEditationActive();
      if ok {
        Mode := READ_WRITE;
        ResetCodeInspection();
        return true;
      }
      return false;
    }
  }

  /**
   * `new CodeInspection(...)` with its argument checks: a null `pathOrText`
   * (None) is refused for either type, a FILE inspection needs a non-empty
   * path and a readable file (`fileContent` is what reading it yields, None
   * when it cannot be read); each refusal is an ArgumentException.
   */
  method NewCodeInspection(codeInspectionID: nat, mode: InspectionMode, inspectionType: InspectionType,
                           pathOrText: Option<string>, fileContent: Option<string>)
    returns (r: Outcome<CodeInspection>)
    ensures r.Throw? <==> pathOrText.None? || (inspectionType == FILE && (pathOrText.value == "" || fileContent.None?))
    ensures r.Throw? ==> r.fault == ArgumentError
    ensures r.Return? ==>
              fresh(r.value) && r.value.Valid() && r.value.codePiecesList == [] && !r.value.editationActive
              && r.value.settings == DefaultSettings && r.value.CodeInspectionID == codeInspectionID
              && r.value.Mode == mode && r.value.Type == inspectionType
              && (inspectionType == TEXT ==> r.value.CompleteCode == pathOrText.value && r.value.Path == None)
              && (inspectionType == FILE ==> r.value.CompleteCode == fileContent.value && r.value.Path == pathOrText)
  {
    if pathOrText.None? {
      return Throw(ArgumentError);
    }
    if inspectionType == FILE && (pathOrText.value == "" || fileContent.None?) {
      return Throw(ArgumentError);
    }
    var ci := new CodeInspection(codeInspectionID, mode, inspectionType, pathOrText.value, fileContent);
    return Return(ci);
  }
}
