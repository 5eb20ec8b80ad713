/** scripts/auto-commit.js: the automatic commit message (`generateCommitMessage`)
    and the parsing of `git status --porcelain` output (`getModifiedFiles`). */
module AutoCommit {
  import opened Strings
  import opened Seqs

  datatype Category = Components | Context | Hooks | Utils | E2e | Tests | Docs | Config | Other

  /** The order the classifier tries the categories in. */
  const CategoryOrder: seq<Category> := [Components, Context, Hooks, Utils, E2e, Tests, Docs, Config, Other]

  /** Whether `file` has what category `c` looks for, regardless of the other categories. */
  predicate Matches(file: string, c: Category)
  {
    match c
      case Components => Contains(file, "components/")
      case Context => Contains(file, "context/")
      case Hooks => Contains(file, "hooks/")
      case Utils => Contains(file, "utils/")
      case E2e => Contains(file, "e2e/")
      case Tests => Contains(file, "test") || Contains(file, ".spec.") || Contains(file, ".test.")
      case Docs => Contains(file, "docs/") || Contains(file, "README")
      case Config => Contains(file, "package.json") || Contains(file, ".config.")
                     || Contains(file, ".eslintrc") || Contains(file, ".prettierrc")
      case Other => true
  }

  /** The `if / else if` chain of the classifying `forEach`. */
  function Classify(file: string): (c: Category)
    ensures Matches(file, c)
  {
    if Contains(file, "components/") then Components
    else if Contains(file, "context/") then Context
    else if Contains(file, "hooks/") then Hooks
    else if Contains(file, "utils/") then Utils
    else if Contains(file, "e2e/") then E2e
    else if Contains(file, "test") || Contains(file, ".spec.") || Contains(file, ".test.") then Tests
    else if Contains(file, "docs/") || Contains(file, "README") then Docs
    else if Contains(file, "package.json") || Contains(file, ".config.")
            || Contains(file, ".eslintrc") || Contains(file, ".prettierrc") then Config
    else Other
  }

  /** First match wins: a file goes to the first category in `CategoryOrder`
      whose test it passes, and it passes none of the earlier ones. */
  lemma ClassifyIsFirstMatch(file: string)
    ensures exists k :: 0 <= k < |CategoryOrder| && CategoryOrder[k] == Classify(file)
                        && Matches(file, CategoryOrder[k])
                        && forall j :: 0 <= j < k ==> !Matches(file, CategoryOrder[j])
  {
    var c := Classify(file);
    var k := Rank(c);
    assert Matches(file, c);
    assert forall j :: 0 <= j < k ==> !Matches(file, CategoryOrder[j]);
  }

  /** The position of a category in `CategoryOrder`. */
  function Rank(c: Category): (k: nat)
    ensures k < |CategoryOrder| && CategoryOrder[k] == c
  {
    match c
      case Components => 0
      case Context => 1
      case Hooks => 2
      case Utils => 3
      case E2e => 4
      case Tests => 5
      case Docs => 6
      case Config => 7
      case Other => 8
  }

  /** The files of one category, in the order they were given. */
  function InCategory(files: seq<string>, c: Category): seq<string>
  {
    Filter(files, f => Classify(f) == c)
  }

  /** The classifying `forEach`: every file pushed onto the list of its category. */
  method GroupFiles(files: seq<string>) returns (groups: map<Category, seq<string>>)
    ensures forall c :: c in groups && groups[c] == InCategory(files, c)
  {
    groups := map[Components := [], Context := [], Hooks := [], Utils := [], E2e := [],
                  Tests := [], Docs := [], Config := [], Other := []];
    var i := 0;
    forall c
      ensures c in groups && groups[c] == InCategory(files[..0], c)
    {
      assert files[..0] == [];
      assert c.Components? || c.Context? || c.Hooks? || c.Utils? || c.E2e? || c.Tests? || c.Docs? || c.Config? || c.Other?;
    }
    while i < |files|
      invariant 0 <= i <= |files|
      invariant forall c :: c in groups && groups[c] == InCategory(files[..i], c)
    {
      var file := files[i];
      var c := Classify(file);
      assert files[..i + 1] == files[..i] + [file];
      forall d
        ensures InCategory(files[..i + 1], d) == InCategory(files[..i], d) + (if c == d then [file] else [])
      {
        FilterSnoc(files[..i], f => Classify(f) == d, file);
      }
      groups := groups[c := groups[c] + [file]];
      i := i + 1;
    }
    assert files[..i] == files;
  }

  /** Every file lands in exactly one category's list. */
  lemma EachFileInOneCategory(files: seq<string>, file: string, c: Category)
    requires file in files
    ensures file in InCategory(files, c) <==> c == Classify(file)
  {
    FilterMembership(files, f => Classify(f) == c, file);
  }

  /** The commit type the header starts with. */
  datatype CommitType = Test | Documentation | Chore | Feat | Refactor

  /** The type as it is written in the header. */
  function TypeName(t: CommitType): (r: string)
    ensures r != [] && '(' !in r && ':' !in r
  {
    match t
      case Test => "test"
      case Documentation => "docs"
      case Chore => "chore"
      case Feat => "feat"
      case Refactor => "refactor"
  }

  /** The scope written in parentheses after the type, if any. */
  datatype Scope = NoScope | E2eScope | UnitScope | ConfigScope | ComponentsScope | ContextScope | HooksScope | UtilsScope

  /** The scope as it is written in the header; only `NoScope` is empty. */
  function ScopeName(s: Scope): (r: string)
    ensures r == [] <==> s == NoScope
  {
    match s
      case NoScope => ""
      case E2eScope => "e2e"
      case UnitScope => "unit"
      case ConfigScope => "config"
      case ComponentsScope => "components"
      case ContextScope => "context"
      case HooksScope => "hooks"
      case UtilsScope => "utils"
  }

  datatype Header = Header(kind: CommitType, scope: Scope, description: string)

  /** `path.basename(f, path.extname(f))` for a POSIX path. */
  function StripTrailingSlashes(p: string): (r: string)
    ensures |r| <= |p| && r == p[..|r|]
    ensures r == [] || r[|r| - 1] != '/'
  {
    if p != [] && p[|p| - 1] == '/' then StripTrailingSlashes(p[..|p| - 1]) else p
  }

  /** Index just after the last `/` of `p`, or 0. */
  function AfterLastSlash(p: string): (k: nat)
    ensures k <= |p|
    ensures forall i :: k <= i < |p| ==> p[i] != '/'
    ensures k > 0 ==> p[k - 1] == '/'
  {
    if p == [] then 0
    else if p[|p| - 1] == '/' then |p|
    else AfterLastSlash(p[..|p| - 1])
  }

  /** `path.basename(p)`: the last segment, trailing slashes ignored. */
  function BaseName(p: string): (r: string)
    ensures '/' !in r
  {
    var q := StripTrailingSlashes(p);
    q[AfterLastSlash(q)..]
  }

  /** Index of the last `.` of `s`, or -1. */
  function LastDot(s: string): (k: int)
    ensures -1 <= k < |s|
    ensures k >= 0 ==> s[k] == '.'
    ensures forall i :: k < i < |s| ==> s[i] != '.'
  {
    if s == [] then -1
    else if s[|s| - 1] == '.' then |s| - 1
    else LastDot(s[..|s| - 1])
  }

  /** `path.extname` on a last segment: from its last `.` on, except when
      there is no `.`, when the only `.` is the first character (a dotfile),
      or when the segment is `..`. */
  function ExtName(base: string): (r: string)
    ensures |r| <= |base| && r == base[|base| - |r|..]
  {
    var k := LastDot(base);
    if k <= 0 || base == ".." then [] else base[k..]
  }

  /** A dotfile's only `.` is its first character. */
  lemma DotfileHasNoExtension(base: string)
    requires base != [] && base[0] == '.' && '.' !in base[1..]
    ensures LastDot(base) == 0
  {
  }

  /** The component name listed in the description. */
  function NameWithoutExt(file: string): string
  {
    var base := BaseName(file);
    base[..|base| - |ExtName(base)|]
  }

  /** The name and the extension make up the last segment; the name is never
      empty when the segment is not, a non-empty extension starts with the
      segment's last `.` and holds no other, and a dotfile keeps its whole name. */
  lemma NameAndExtension(file: string)
    ensures var base := BaseName(file);
            var ext := ExtName(base);
            NameWithoutExt(file) + ext == base
            && (base != [] ==> NameWithoutExt(file) != [])
            && (ext != [] ==> ext[0] == '.' && '.' !in ext[1..])
            && (base != [] && base[0] == '.' && '.' !in base[1..] ==> NameWithoutExt(file) == base)
            && '/' !in NameWithoutExt(file)
  {
    var base := BaseName(file);
    SegmentParts(base);
    assert NameWithoutExt(file) == base[..|base| - |ExtName(base)|];
  }

  /** `NameAndExtension` for one path segment. */
  lemma SegmentParts(base: string)
    requires '/' !in base
    ensures var ext := ExtName(base);
            var name := base[..|base| - |ext|];
            name + ext == base
            && (base != [] ==> name != [])
            && (ext != [] ==> ext[0] == '.' && '.' !in ext[1..])
            && (base != [] && base[0] == '.' && '.' !in base[1..] ==> name == base)
            && '/' !in name
  {
    var k := LastDot(base);
    if base != [] && base[0] == '.' && '.' !in base[1..] {
      DotfileHasNoExtension(base);
    }
    if k <= 0 || base == ".." {
      assert ExtName(base) == [];
      assert base[..|base|] == base;
    } else {
      ExtensionParts(base, k);
    }
  }

  /** A segment with an extension: the name is the text before the last `.`. */
  lemma ExtensionParts(base: string, k: int)
    requires '/' !in base && k == LastDot(base) && k > 0
    ensures base[..k] + base[k..] == base && base[..k] != [] && base[k..][0] == '.'
    ensures '.' !in base[k..][1..] && '/' !in base[..k]
  {
    assert base[k..][1..] == base[k + 1..];
    NoneAfter(base, k, '.');
    assert forall c :: c in base[..k] ==> c in base;
  }

  /** A character absent from every position after `k` is absent from the rest. */
  lemma NoneAfter(s: string, k: nat, c: char)
    requires k < |s| && forall i :: k < i < |s| ==> s[i] != c
    ensures c !in s[k + 1..]
  {
    var rest := s[k + 1..];
    assert forall j :: 0 <= j < |rest| ==> rest[j] == s[k + 1 + j];
  }

  /** The commit header's three parts, chosen by the `if / else if` chain on
      the categories present. */
  function Decide(files: seq<string>): Header
  {
    if InCategory(files, Tests) != [] || InCategory(files, E2e) != [] then
      Header(Test, if InCategory(files, E2e) != [] then E2eScope else UnitScope, "update tests")
    else if InCategory(files, Docs) != [] then
      Header(Documentation, NoScope, "update documentation")
    else if InCategory(files, Config) != [] then
      Header(Chore, ConfigScope, "update configuration")
    else if InCategory(files, Components) != [] then
      Header(Feat, ComponentsScope, "update " + ComponentNames(InCategory(files, Components)))
    else if InCategory(files, Context) != [] || InCategory(files, Hooks) != [] then
      Header(Feat, if InCategory(files, Context) != [] then ContextScope else HooksScope, "update state management")
    else if InCategory(files, Utils) != [] then
      Header(Refactor, UtilsScope, "update utilities")
    else
      Header(Chore, NoScope, "update files")
  }

  /** `.map(basename without extension).slice(0, 2).join(', ')`. */
  function ComponentNames(components: seq<string>): string
  {
    var names := Map(components, NameWithoutExt);
    Join(if |names| <= 2 then names else names[..2], ", ")
  }

  /** The components description names the first two component files, or the one there is. */
  lemma AtMostTwoNames(components: seq<string>)
    ensures |components| == 0 ==> ComponentNames(components) == []
    ensures |components| == 1 ==> ComponentNames(components) == NameWithoutExt(components[0])
    ensures |components| >= 2 ==> ComponentNames(components)
                                  == NameWithoutExt(components[0]) + ", " + NameWithoutExt(components[1])
  {
    var names := Map(components, NameWithoutExt);
    if |components| >= 2 {
      var chosen := if |names| <= 2 then names else names[..2];
      assert chosen == [names[0], names[1]];
      assert Join([names[0], names[1]], ", ") == names[0] + ", " + Join([names[1]], ", ");
    }
  }

  predicate Has(files: seq<string>, c: Category)
  {
    exists i :: 0 <= i < |files| && Classify(files[i]) == c
  }

  lemma HasIsNonEmpty(files: seq<string>, c: Category)
    ensures InCategory(files, c) != [] <==> Has(files, c)
  {
    if Has(files, c) {
      var i :| 0 <= i < |files| && Classify(files[i]) == c;
      FilterMembership(files, f => Classify(f) == c, files[i]);
    }
    if InCategory(files, c) != [] {
      var x := InCategory(files, c)[0];
      FilterMembership(files, f => Classify(f) == c, x);
      var i :| 0 <= i < |files| && files[i] == x;
    }
  }

  /** The commit type and scope, by precedence: tests and e2e first (scope
      `e2e` exactly when an e2e file is present), then docs, config,
      components, context or hooks (context first), then utils. */
  lemma CommitPrecedence(files: seq<string>)
    ensures Decide(files).kind == Test <==> Has(files, Tests) || Has(files, E2e)
    ensures Decide(files).scope == E2eScope <==> Has(files, E2e)
    ensures Decide(files).scope == UnitScope <==> Has(files, Tests) && !Has(files, E2e)
    ensures Decide(files).kind == Documentation <==> !Has(files, Tests) && !Has(files, E2e) && Has(files, Docs)
    ensures Decide(files).scope == ConfigScope
            <==> !Has(files, Tests) && !Has(files, E2e) && !Has(files, Docs) && Has(files, Config)
    ensures Decide(files).scope == ComponentsScope
            <==> !Has(files, Tests) && !Has(files, E2e) && !Has(files, Docs) && !Has(files, Config)
                 && Has(files, Components)
    ensures Decide(files).scope == ContextScope
            <==> !Has(files, Tests) && !Has(files, E2e) && !Has(files, Docs) && !Has(files, Config)
                 && !Has(files, Components) && Has(files, Context)
    ensures Decide(files).scope == HooksScope
            <==> !Has(files, Tests) && !Has(files, E2e) && !Has(files, Docs) && !Has(files, Config)
                 && !Has(files, Components) && !Has(files, Context) && Has(files, Hooks)
    ensures Decide(files).kind == Feat
            <==> !Has(files, Tests) && !Has(files, E2e) && !Has(files, Docs) && !Has(files, Config)
                 && (Has(files, Components) || Has(files, Context) || Has(files, Hooks))
    ensures Decide(files).kind == Refactor
            <==> !Has(files, Tests) && !Has(files, E2e) && !Has(files, Docs) && !Has(files, Config)
                 && !Has(files, Components) && !Has(files, Context) && !Has(files, Hooks) && Has(files, Utils)
  {
    HasIsNonEmpty(files, Tests);
    HasIsNonEmpty(files, E2e);
    HasIsNonEmpty(files, Docs);
    HasIsNonEmpty(files, Config);
    HasIsNonEmpty(files, Components);
    HasIsNonEmpty(files, Context);
    HasIsNonEmpty(files, Hooks);
    HasIsNonEmpty(files, Utils);
  }

  /** The catch-all header `chore: update files` is chosen exactly when
      every file falls in no category. */
  lemma CatchAllHeader(files: seq<string>)
    ensures Decide(files) == Header(Chore, NoScope, "update files")
            <==> forall i :: 0 <= i < |files| ==> Classify(files[i]) == Other
  {
    if forall i :: 0 <= i < |files| ==> Classify(files[i]) == Other {
      forall c | c != Other
        ensures InCategory(files, c) == []
      {
        HasIsNonEmpty(files, c);
      }
      assert Decide(files) == Header(Chore, NoScope, "update files");
    } else {
      var i :| 0 <= i < |files| && Classify(files[i]) != Other;
      HasIsNonEmpty(files, Classify(files[i]));
    }
  }

  /** `${type}${scopePart}: ${description}`, the scope in parentheses only when non-empty. */
  function HeaderText(h: Header): string
  {
    var scope := ScopeName(h.scope);
    TypeName(h.kind) + (if scope != [] then "(" + scope + ")" else "") + ": " + h.description
  }

  /** A header starts with its type, and has a parenthesis right after it
      exactly when its scope is non-empty. */
  lemma ScopeInParentheses(h: Header)
    ensures var name := TypeName(h.kind);
            |name| < |HeaderText(h)| && HeaderText(h)[..|name|] == name
            && (HeaderText(h)[|name|] == '(' <==> h.scope != NoScope)
  {
  }

  const MaxListed: nat := 5

  /** One entry of the list: `- file`. */
  function ListItem(file: string): string
  {
    "- " + file
  }

  /** The closing line for `n` files not listed. */
  function MoreLine(n: nat): string
  {
    "- ... and " + NatToString(n) + " more files"
  }

  lemma LinesHaveNoNewline(file: string, n: nat)
    requires '\n' !in file
    ensures '\n' !in ListItem(file) && '\n' !in MoreLine(n)
  {
    var digits := NatToString(n);
    assert '\n' !in digits;
    assert MoreLine(n) == "- ... and " + digits + " more files";
  }

  /** `files.slice(0, 5).map(f => '- ' + f).join('\n')` followed by the
      `\n- ... and N more files` line when there are more than five. */
  function FileListText(files: seq<string>): string
  {
    var shown := if |files| <= MaxListed then files else files[..MaxListed];
    Join(Map(shown, ListItem), "\n") + (if |files| > MaxListed then "\n" + MoreLine(|files| - MaxListed) else "")
  }

  /** The lines of the file list: the first five files, each as `- file`,
      then one `... and N more files` line when N = total - 5 is positive. */
  function FileLines(files: seq<string>): seq<string>
  {
    var shown := if |files| <= MaxListed then files else files[..MaxListed];
    Map(shown, ListItem) + (if |files| > MaxListed then [MoreLine(|files| - MaxListed)] else [])
  }

  lemma ItemsHaveNoNewline(shown: seq<string>)
    requires forall i :: 0 <= i < |shown| ==> '\n' !in shown[i]
    ensures forall k :: 0 <= k < |Map(shown, ListItem)| ==> '\n' !in Map(shown, ListItem)[k]
  {
    forall k | 0 <= k < |shown|
      ensures '\n' !in Map(shown, ListItem)[k]
    {
      LinesHaveNoNewline(shown[k], 0);
    }
  }

  /** The file list reads back as its lines: at most five file entries and the
      extra line exactly when there are more than five files. */
  lemma FileListLines(files: seq<string>)
    requires files != []
    requires forall i :: 0 <= i < |files| ==> '\n' !in files[i]
    ensures Split(FileListText(files), '\n') == FileLines(files)
    ensures |FileLines(files)| == (if |files| <= MaxListed then |files| else MaxListed + 1)
  {
    if |files| > MaxListed {
      LongFileList(files);
    } else {
      ItemsHaveNoNewline(files);
      assert "\n" == ['\n'];
      JoinSplit(Map(files, ListItem), '\n');
      var text := Join(Map(files, ListItem), "\n");
      assert FileListText(files) == text + "";
      assert text + "" == text;
      assert FileLines(files) == Map(files, ListItem) + [];
    }
  }

  lemma LongFileList(files: seq<string>)
    requires |files| > MaxListed
    requires forall i :: 0 <= i < |files| ==> '\n' !in files[i]
    ensures Split(FileListText(files), '\n') == FileLines(files)
    ensures |FileLines(files)| == MaxListed + 1
  {
    var shown := files[..MaxListed];
    var lines := Map(shown, ListItem);
    var more := MoreLine(|files| - MaxListed);
    var all := lines + [more];
    assert FileLines(files) == all;
    assert FileListText(files) == Join(all, "\n") by {
      JoinSnoc(lines, more, "\n");
      assert Join(lines, "\n") + ("\n" + more) == Join(lines, "\n") + "\n" + more;
    }
    assert forall k :: 0 <= k < |all| ==> '\n' !in all[k] by {
      ItemsHaveNoNewline(shown);
      LinesHaveNoNewline([], |files| - MaxListed);
    }
    assert "\n" == ['\n'];
    JoinSplit(all, '\n');
  }

  /** The whole message: header, a blank line, and the file list. */
  function CommitMessage(files: seq<string>): (r: string)
    ensures StartsWith(r, TypeName(Decide(files).kind))
  {
    HeaderText(Decide(files)) + "\n\n" + FileListText(files)
  }

  /** `generateCommitMessage`: group the files, choose the type, scope and
      description through the `if / else if` chain, then assemble the text. */
  method GenerateCommitMessage(files: seq<string>) returns (message: string)
    ensures message == CommitMessage(files)
  {
    var filesByType := GroupFiles(files);
    var kind := Chore;
    var scope := NoScope;
    var description := "";
    if |filesByType[Tests]| > 0 || |filesByType[E2e]| > 0 {
      kind := Test;
      scope := if |filesByType[E2e]| > 0 then E2eScope else UnitScope;
      description := "update tests";
    } else if |filesByType[Docs]| > 0 {
      kind := Documentation;
      description := "update documentation";
    } else if |filesByType[Config]| > 0 {
      kind := Chore;
      scope := ConfigScope;
      description := "update configuration";
    } else if |filesByType[Components]| > 0 {
      kind := Feat;
      scope := ComponentsScope;
      description := "update " + ComponentNames(filesByType[Components]);
    } else if |filesByType[Context]| > 0 || |filesByType[Hooks]| > 0 {
      kind := Feat;
      scope := if |filesByType[Context]| > 0 then ContextScope else HooksScope;
      description := "update state management";
    } else if |filesByType[Utils]| > 0 {
      kind := Refactor;
      scope := UtilsScope;
      description := "update utilities";
    } else {
      description := "update files";
    }
    assert Header(kind, scope, description) == Decide(files) by {
      assert forall c :: |filesByType[c]| > 0 <==> InCategory(files, c) != [];
    }
    message := HeaderText(Header(kind, scope, description)) + "\n\n" + FileListText(files);
  }

  // ---------------------------------------------------------------------
  // `getModifiedFiles`: the lines of `git status --porcelain`, each
  // `XY path`, reduced to the paths.

  /** `line.match(/^..\s+(.+)$/)`: two characters other than line
      terminators, then whitespace, then the capture, at least one character
      and no line terminator, running to the end. The whitespace run is
      greedy, so it gives back only what the capture needs to be non-empty.
      Empty when the line does not match. */
  function MatchPorcelain(line: string): (r: string)
    ensures r != [] ==> |r| <= |line| - 3 && r == line[|line| - |r|..]
    ensures forall i :: 0 <= i < |r| ==> !IsLineTerminator(r[i])
  {
    if |line| < 4 || IsLineTerminator(line[0]) || IsLineTerminator(line[1]) then []
    else
      var rest := line[2..];
      var spaces := LeadingSpaces(rest);
      var start := if spaces < |rest| then spaces else |rest| - 1;
      if spaces == 0 || exists i :: start <= i < |rest| && IsLineTerminator(rest[i]) then []
      else rest[start..]
  }

  predicate NonBlank(line: string)
  {
    Trim(line) != []
  }

  /** The filter / map / filter chain over the lines of the listing. */
  function PathsOfLines(lines: seq<string>): seq<string>
  {
    Filter(Map(Filter(lines, NonBlank), MatchPorcelain), m => m != [])
  }

  /** `getModifiedFiles` as written: the output is trimmed as a whole before
      it is cut into lines. */
  function GetModifiedFiles(output: string): (r: seq<string>)
    ensures forall i :: 0 <= i < |r| ==> r[i] != []
  {
    PathsOfLines(Split(Trim(output), '\n'))
  }

  /** `getModifiedFiles` as evidently intended: only trailing whitespace is
      removed, so the first line keeps its leading status column. */
  function GetModifiedFilesFixed(output: string): (r: seq<string>)
    ensures forall i :: 0 <= i < |r| ==> r[i] != []
  {
    PathsOfLines(Split(TrimEnd(output), '\n'))
  }

  /** One entry of the porcelain listing: index status, worktree status, path. */
  datatype Entry = Entry(x: char, y: char, path: string)

  /** A path as the listing prints it: non-empty, no whitespace at either end,
      no line terminator inside. */
  predicate WellFormedPath(p: string)
  {
    p != [] && !IsJsSpace(p[0]) && !IsJsSpace(p[|p| - 1]) && forall i :: 0 <= i < |p| ==> !IsLineTerminator(p[i])
  }

  predicate WellFormedEntry(e: Entry)
  {
    !IsLineTerminator(e.x) && !IsLineTerminator(e.y) && WellFormedPath(e.path)
  }

  function EntryLine(e: Entry): string
  {
    [e.x, e.y, ' '] + e.path
  }

  /** The listing: one `XY path` line per entry, each ended by a newline. */
  function Listing(entries: seq<Entry>): string
  {
    Join(Map(entries, EntryLine), "\n") + "\n"
  }

  function Paths(entries: seq<Entry>): seq<string>
  {
    Map(entries, (e: Entry) => e.path)
  }

  /** A well-formed line yields its path. */
  lemma MatchEntryLine(e: Entry)
    requires WellFormedEntry(e)
    ensures MatchPorcelain(EntryLine(e)) == e.path
    ensures NonBlank(EntryLine(e))
  {
    var line := EntryLine(e);
    var rest := line[2..];
    assert rest == [' '] + e.path;
    assert LeadingSpaces(rest) == 1;
    assert rest[1..] == e.path;
    assert forall i :: 1 <= i < |rest| ==> rest[i] == e.path[i - 1];
    var t := TrimStart(line);
    assert line[|line| - 1] == e.path[|e.path| - 1];
  }

  lemma {:induction false} PathsOfEntryLines(entries: seq<Entry>)
    requires forall i :: 0 <= i < |entries| ==> WellFormedEntry(entries[i])
    ensures PathsOfLines(Map(entries, EntryLine)) == Paths(entries)
  {
    var lines := Map(entries, EntryLine);
    forall i | 0 <= i < |entries|
      ensures NonBlank(lines[i]) && MatchPorcelain(lines[i]) == entries[i].path
    {
      MatchEntryLine(entries[i]);
    }
    FilterAll(lines, NonBlank);
    var matched := Map(lines, MatchPorcelain);
    assert matched == Paths(entries);
    FilterAll(matched, m => m != []);
  }

  /** The evidently intended behaviour: on any listing of well-formed
      entries, every path comes back, in order. */
  lemma FixedReturnsEveryPath(entries: seq<Entry>)
    requires entries != []
    requires forall i :: 0 <= i < |entries| ==> WellFormedEntry(entries[i])
    ensures GetModifiedFilesFixed(Listing(entries)) == Paths(entries)
  {
    var lines := Map(entries, EntryLine);
    var body := Join(lines, "\n");
    forall k | 0 <= k < |lines|
      ensures '\n' !in lines[k] && lines[k] != [] && !IsJsSpace(lines[k][|lines[k]| - 1])
    {
      var e := entries[k];
      assert lines[k] == [e.x, e.y, ' '] + e.path;
      assert lines[k][|lines[k]| - 1] == e.path[|e.path| - 1];
      assert forall i :: 3 <= i < |lines[k]| ==> lines[k][i] == e.path[i - 3];
    }
    JoinLastChar(lines);
    assert TrimEnd(body + "\n") == body by {
      var s := body + "\n";
      assert EndOfText(s) == |body| by {
        assert EndOfText(s) == EndOfText(s[..|s| - 1]);
        assert s[..|s| - 1] == body;
      }
    }
    JoinSplit(lines, '\n');
    PathsOfEntryLines(entries);
  }

  /** The last character of a join is the last character of the last piece. */
  lemma {:induction false} JoinLastChar(lines: seq<string>)
    requires lines != [] && lines[|lines| - 1] != []
    ensures Join(lines, "\n") != [] && Join(lines, "\n")[|Join(lines, "\n")| - 1] == lines[|lines| - 1][|lines[|lines| - 1]| - 1]
  {
    if |lines| > 1 {
      JoinLastChar(lines[1..]);
    }
  }

  /** The defect: when the first entry is changed only in the working tree
      (status ` M`), trimming the whole output removes that line's leading
      space, the line no longer matches, and its file is dropped. */
  lemma FirstUnstagedFileDropped(path: string)
    requires WellFormedPath(path)
    ensures GetModifiedFiles(Listing([Entry(' ', 'M', path)])) == []
    ensures GetModifiedFilesFixed(Listing([Entry(' ', 'M', path)])) == [path]
  {
    AsWrittenDropsFirst(path);
    var e := Entry(' ', 'M', path);
    FixedReturnsEveryPath([e]);
    assert Paths([e]) == [path];
  }

  lemma AsWrittenDropsFirst(path: string)
    requires WellFormedPath(path)
    ensures GetModifiedFiles(Listing([Entry(' ', 'M', path)])) == []
  {
    var trimmed := ['M', ' '] + path;
    TrimmedListing(path);
    assert '\n' !in trimmed by {
      assert forall i :: 2 <= i < |trimmed| ==> trimmed[i] == path[i - 2];
    }
    JoinSplit([trimmed], '\n');
    ShiftedLineDropped(path);
  }

  /** Trimming the one-entry listing ` M path\n` leaves `M path`. */
  lemma TrimmedListing(path: string)
    requires WellFormedPath(path)
    ensures Trim(Listing([Entry(' ', 'M', path)])) == ['M', ' '] + path
  {
    var e := Entry(' ', 'M', path);
    var out := Listing([e]);
    assert Map([e], EntryLine) == [EntryLine(e)];
    assert out == [' ', 'M', ' '] + path + "\n";
    var trimmed := ['M', ' '] + path;
    assert LeadingSpaces(out) == 1;
    assert out[1..] == trimmed + "\n";
    var t := TrimStart(out);
    assert t == trimmed + "\n";
    assert EndOfText(t) == EndOfText(t[..|t| - 1]);
    assert t[..|t| - 1] == trimmed;
    assert trimmed[|trimmed| - 1] == path[|path| - 1];
    assert EndOfText(trimmed) == |trimmed|;
  }

  /** The line `M path`, its status column shifted left, yields no path. */
  lemma ShiftedLineDropped(path: string)
    requires WellFormedPath(path)
    ensures PathsOfLines([['M', ' '] + path]) == []
  {
    var line := ['M', ' '] + path;
    assert line[2..] == path;
    assert LeadingSpaces(line[2..]) == 0;
    assert MatchPorcelain(line) == [];
    var kept := Filter([line], NonBlank);
    assert kept == [] || kept == [line];
    var matched := Map(kept, MatchPorcelain);
    assert forall i :: 0 <= i < |matched| ==> matched[i] == [];
    FilterNone(matched);
  }

  lemma {:induction false} FilterNone(s: seq<string>)
    requires forall i :: 0 <= i < |s| ==> s[i] == []
    ensures Filter(s, m => m != []) == []
  {
    if s != [] {
      FilterNone(s[1..]);
    }
  }
}
