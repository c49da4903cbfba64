/** The string helpers of CodeManagerUtility: line counting and path slicing. */
module CodeManagerUtility {
  import opened Common

  const ScriptTemplateFolder: string := "ScriptTemplates"
  const ScriptTemplateFolderPath: string := "Assets/" + ScriptTemplateFolder
  /** The folder path as CodeManager stores it, with a trailing '/'. */
  const ScriptTemplatePath: string := ScriptTemplateFolderPath + "/"

  /** `s` without any occurrence of `c`; the contract gives the length `s.Replace(c, "")` has. */
  function RemoveAll(s: string, c: char): (r: string)
    ensures c !in r
    ensures |r| == |s| - CountOf(c, s)
    decreases |s|
  {
    if s == [] then "" else RemoveAll(s[..|s| - 1], c) + (if s[|s| - 1] == c then "" else [s[|s| - 1]])
  }

  /** `s` with every `from` replaced by `to`: what `s.Replace(from, to)` returns for one-character strings. */
  function ReplaceChar(s: string, from: char, to: char): (r: string)
    ensures |r| == |s|
    ensures forall i :: 0 <= i < |s| ==> r[i] == (if s[i] == from then to else s[i])
  {
    seq(|s|, i requires 0 <= i < |s| => if s[i] == from then to else s[i])
  }

  /** String.LastIndexOf(char): the position of the last `c` in `s`, or -1. */
  function LastIndexOf(s: string, c: char): (r: int)
    ensures -1 <= r < |s|
    ensures r >= 0 ==> s[r] == c
    ensures forall i :: r < i < |s| ==> s[i] != c
    decreases |s|
  {
    if s == [] then -1 else if s[|s| - 1] == c then |s| - 1 else LastIndexOf(s[..|s| - 1], c)
  }

  /**
   * GetLineCount: the number of lines of `str` and whether it ends with '\n'.
   * The count is the length lost by deleting every '\n', plus one for an
   * unterminated last line; null and "" both give (true, 0).
   */
  function GetLineCount(str: string): (r: (bool, nat))
    ensures str == "" ==> r == (true, 0)
    ensures str != "" ==> r.1 == CountOf('\n', str) + (if str[|str| - 1] != '\n' then 1 else 0)
    ensures !r.0 <==> str != "" && str[|str| - 1] != '\n'
  {
    if str == "" then (true, 0)
    else
      var count := |str| - |RemoveAll(str, '\n')|;
      if str[|str| - 1] != '\n' then (false, count + 1) else (true, count)
  }

  /**
   * What a piece contributes to the line index of the pieces after it: its
   * line count, or one less when its last line is continued by the next piece.
   * This is exactly the number of '\n' in the piece.
   */
  lemma LineAdvanceIsNewlineCount(str: string)
    ensures var (endWithNewLine, lineCount) := GetLineCount(str);
            (if endWithNewLine then lineCount else lineCount - 1) == CountOf('\n', str)
  {
  }

  /** ConvertToOpertingSystemPath: drops one trailing '/'; the source indexes the last character, so "" is refused. */
  function ConvertToOpertingSystemPath(str: string): (r: string)
    requires str != ""
    ensures str[|str| - 1] == '/' ==> r + "/" == str
    ensures str[|str| - 1] != '/' ==> r == str
  {
    if str[|str| - 1] == '/' then str[..|str| - 1] else str
  }

  /** A folder path with its trailing '/' converts back to the folder path itself. */
  lemma ConvertStripsFolderSlash(folder: string)
    ensures ConvertToOpertingSystemPath(folder + "/") == folder
    ensures ConvertToOpertingSystemPath(ScriptTemplatePath) == ScriptTemplateFolderPath
  {
    assert ScriptTemplatePath == ScriptTemplateFolderPath + "/";
  }

  /** GetFolderNameInPath: everything up to and including the last '/', or "" when there is none. */
  function GetFolderNameInPath(path: string): (r: string)
    ensures |r| <= |path| && r == path[..|r|]
    ensures r == "" <==> '/' !in path
    ensures r != "" ==> r[|r| - 1] == '/'
    ensures forall i :: |r| <= i < |path| ==> path[i] != '/'
  {
    path[..LastIndexOf(path, '/') + 1]
  }

  /** GetFileNameInPathWithExtension: everything after the last '/' or '\\'. */
  function GetFileNameInPathWithExtension(path: string): (r: string)
    ensures |r| <= |path| && r == path[|path| - |r|..]
    ensures '/' !in r && '\\' !in r
    ensures |r| < |path| ==> path[|path| - |r| - 1] == '/' || path[|path| - |r| - 1] == '\\'
  {
    var normalized := ReplaceChar(path, '\\', '/');
    var k := LastIndexOf(normalized, '/');
    assert forall i :: k < i < |path| ==> path[i] != '/' && path[i] != '\\' by {
      forall i | k < i < |path| ensures path[i] != '/' && path[i] != '\\' {
        assert normalized[i] != '/';
      }
    }
    path[k + 1..]
  }

  /** For a path without '\\', the folder name and the file name split the path exactly. */
  lemma FolderAndFileNameSplitPath(path: string)
    requires '\\' !in path
    ensures GetFolderNameInPath(path) + GetFileNameInPathWithExtension(path) == path
  {
    var normalized := ReplaceChar(path, '\\', '/');
    assert normalized == path by {
      assert forall i :: 0 <= i < |path| ==> normalized[i] == path[i];
    }
  }

  /** GetFileNameInPathWithoutExtension: the file name up to its last '.'; Substring(0, -1) throws when it has none. */
  function GetFileNameInPathWithoutExtension(path: string): (r: string)
    requires '.' in GetFileNameInPathWithExtension(path)
    ensures var name := GetFileNameInPathWithExtension(path);
            |r| < |name| && r == name[..|r|] && name[|r|] == '.' && '.' !in name[|r| + 1..]
  {
    var nameWithExtension := GetFileNameInPathWithExtension(path);
    nameWithExtension[..LastIndexOf(nameWithExtension, '.')]
  }

  /** The examples of the doc comments, for Assets/Scripts/Controller.cs. */
  lemma FolderNameExample()
    ensures GetFolderNameInPath("Assets/Scripts/Controller.cs") == "Assets/Scripts/"
  {
    var p := "Assets/Scripts/Controller.cs";
    assert p[14] == '/';
    assert LastIndexOf(p, '/') == 14;
  }

  lemma FileNameExample()
    ensures GetFileNameInPathWithExtension("Assets/Scripts/Controller.cs") == "Controller.cs"
  {
    var n := ReplaceChar("Assets/Scripts/Controller.cs", '\\', '/');
    assert n[14] == '/';
    assert LastIndexOf(n, '/') == 14;
  }

  lemma FileNameWithoutExtensionExample()
    ensures GetFileNameInPathWithoutExtension("Assets\\Scripts\\Controller.cs") == "Controller"
  {
    var q := "Assets\\Scripts\\Controller.cs";
    var p := ReplaceChar(q, '\\', '/');
    assert p[14] == '/';
    assert LastIndexOf(p, '/') == 14;
    assert GetFileNameInPathWithExtension(q) == "Controller.cs";
    var name := "Controller.cs";
    assert name[10] == '.';
    assert LastIndexOf(name, '.') == 10;
  }
}
