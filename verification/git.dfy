/**
 * The simulated Git repository that the terminal keeps per directory:
 * the repository record, staging, committing, and the text that
 * `git status`, `git log`, `git branch` and `git clone` print.
 * (src/services/terminalService.ts)
 */
module Git {
  import opened Wrappers
  import opened Text

  // ---------------------------------------------------------------
  // Insertion-ordered sets (a JavaScript `Set<string>`)
  // ---------------------------------------------------------------

  predicate Distinct(s: seq<string>) {
    forall i, j :: 0 <= i < j < |s| ==> s[i] != s[j]
  }

  /** `set.add(x)`: a new element goes to the end, an existing one keeps its place. */
  function Insert(s: seq<string>, x: string): (r: seq<string>)
    ensures forall y :: y in r <==> y in s || y == x
    ensures s <= r
    ensures Distinct(s) ==> Distinct(r)
  {
    if x in s then s else s + [x]
  }

  /**
   * `set.delete(x)`: the filter that drops `x`, so the other elements keep
   * their order (`WithoutAppend`).
   */
  function Delete(s: seq<string>, x: string): (r: seq<string>)
    ensures forall y :: y in r <==> y in s && y != x
    ensures x !in s ==> r == s
    ensures Distinct(s) ==> Distinct(r)
  {
    WithoutDistinct(s, x);
    Without(s, x)
  }

  /** Filtering out one element keeps a sequence free of duplicates. */
  lemma {:induction false} WithoutDistinct(s: seq<string>, x: string)
    ensures Distinct(s) ==> Distinct(Without(s, x))
    decreases |s|
  {
    if s != [] && Distinct(s) {
      WithoutDistinct(s[1..], x);
      assert s == [s[0]] + s[1..];
      WithoutAppend([s[0]], s[1..], x);
      assert s[0] !in s[1..];
    }
  }

  /** `new Set(xs)`: the first occurrence of each element, in order. */
  function Dedup(xs: seq<string>): (r: seq<string>)
    ensures forall y :: y in r <==> y in xs
    ensures Distinct(r)
  {
    if xs == [] then [] else Insert(Dedup(DropLast(xs)), Last(xs))
  }

  /** A sequence that already has no duplicates comes out of `new Set` unchanged. */
  lemma {:induction false} DedupDistinct(xs: seq<string>)
    requires Distinct(xs)
    ensures Dedup(xs) == xs
  {
    if xs != [] {
      DedupDistinct(DropLast(xs));
      DropLastLast(xs);
    }
  }

  // ---------------------------------------------------------------
  // The repository record
  // ---------------------------------------------------------------

  /** A commit; `date` is the already rendered `Date.toDateString()` text. */
  datatype Commit = Commit(hash: string, message: string, author: string, date: string, files: seq<string>)

  datatype Repository = Repository(
    branch: string,
    commits: seq<Commit>,
    staged: seq<string>,
    modified: seq<string>,
    untracked: seq<string>,
    initialized: bool)

  const DefaultBranch := "main"
  const Author := "User <user@example.com>"

  /** What every commit the terminal creates looks like. */
  predicate WellFormedCommit(c: Commit) {
    c.message != "" && c.files != [] && Distinct(c.files) && c.author == Author
  }

  /** What every repository the terminal creates keeps: set semantics and well-formed commits. */
  predicate WellFormed(r: Repository) {
    && r.initialized
    && r.branch == DefaultBranch
    && Distinct(r.staged) && Distinct(r.modified) && Distinct(r.untracked)
    && forall k :: 0 <= k < |r.commits| ==> WellFormedCommit(r.commits[k])
  }

  /** No file is in two of the three sets at once. */
  predicate Disjoint(r: Repository) {
    && (forall x :: x in r.staged ==> x !in r.modified && x !in r.untracked)
    && (forall x :: x in r.modified ==> x !in r.untracked)
  }

  /** The record `git init` creates: on `main`, no commits, every given file untracked. */
  function Initial(files: seq<string>): (r: Repository)
    ensures WellFormed(r) && Disjoint(r)
    ensures r.commits == [] && r.staged == [] && r.modified == []
    ensures forall f :: f in r.untracked <==> f in files
  {
    Repository(DefaultBranch, [], [], [], Dedup(files), true)
  }

  // ---------------------------------------------------------------
  // git add
  // ---------------------------------------------------------------

  const NothingSpecified := "Nothing specified, nothing added."

  /** The files `git add` works through: the untracked set for `.`, else the arguments. */
  function Selected(r: Repository, args: seq<string>): seq<string>
    requires args != []
  {
    if args[0] == "." then r.untracked else args
  }

  /** One iteration of the staging loop: an untracked, else a modified, file moves to the staged set. */
  function Stage(r: Repository, f: string): (r': Repository)
    ensures r'.branch == r.branch && r'.commits == r.commits && r'.initialized == r.initialized
    ensures r.staged <= r'.staged
    ensures forall x :: x in r'.staged <==> x in r.staged || (x == f && (x in r.untracked || x in r.modified))
    ensures forall x :: x in r'.untracked <==> x in r.untracked && x != f
    ensures forall x :: x in r'.modified <==> x in r.modified && (x != f || x in r.untracked)
    ensures WellFormed(r) ==> WellFormed(r')
    ensures Disjoint(r) ==> Disjoint(r')
  {
    if f in r.untracked then r.(untracked := Delete(r.untracked, f), staged := Insert(r.staged, f))
    else if f in r.modified then r.(modified := Delete(r.modified, f), staged := Insert(r.staged, f))
    else r
  }

  /** The staging loop over `files`, first to last. */
  function StageAll(r: Repository, files: seq<string>): (r': Repository)
    ensures r'.branch == r.branch && r'.commits == r.commits && r'.initialized == r.initialized
    ensures r.staged <= r'.staged
    ensures forall x :: x in r'.untracked <==> x in r.untracked && x !in files
    ensures forall x :: x in r'.modified ==> x in r.modified
    ensures forall x :: (x in r'.staged || x in r'.untracked || x in r'.modified)
                   <==> (x in r.staged || x in r.untracked || x in r.modified)
    ensures WellFormed(r) ==> WellFormed(r')
    ensures Disjoint(r) ==> Disjoint(r')
    decreases |files|
  {
    if files == [] then r
    else
      var s := StageAll(r, DropLast(files));
      DropLastLast(files);
      Stage(s, Last(files))
  }

  /** After `git add files`, a file is staged exactly when it was, or it was listed and untracked or modified. */
  lemma {:induction false} StagedAfterAdd(r: Repository, files: seq<string>, x: string)
    ensures x in StageAll(r, files).staged
        <==> x in r.staged || (x in files && (x in r.untracked || x in r.modified))
    decreases |files|
  {
    if files != [] {
      StagedAfterAdd(r, DropLast(files), x);
      DropLastLast(files);
    }
  }

  /** On a repository whose sets are disjoint, a listed file leaves the modified set. */
  lemma {:induction false} ModifiedAfterAdd(r: Repository, files: seq<string>, x: string)
    requires Disjoint(r)
    ensures x in StageAll(r, files).modified <==> x in r.modified && x !in files
    decreases |files|
  {
    if files != [] {
      ModifiedAfterAdd(r, DropLast(files), x);
      DropLastLast(files);
    }
  }

  /**
   * `git add .` on a well-formed, disjoint repository stages every untracked
   * file, in order, after the files already staged, and leaves nothing untracked.
   */
  lemma AddAllStagesUntracked(r: Repository)
    requires WellFormed(r) && Disjoint(r)
    ensures StageAll(r, r.untracked).staged == r.staged + r.untracked
    ensures StageAll(r, r.untracked).untracked == []
  {
    StageUntrackedPrefix(r, |r.untracked|);
    assert r.untracked[..|r.untracked|] == r.untracked;
  }

  /** Staging the file at the front of the untracked set moves it to the end of the staged set. */
  lemma StageFront(s: Repository, f: string, rest: seq<string>)
    requires s.untracked == [f] + rest && f !in rest && f !in s.staged
    ensures Stage(s, f).staged == s.staged + [f]
    ensures Stage(s, f).untracked == rest
  {
    assert ([f] + rest)[1..] == rest;
  }



  lemma StageAllSnoc(r: Repository, files: seq<string>, f: string)
    ensures StageAll(r, files + [f]) == Stage(StageAll(r, files), f)
  {
    assert DropLast(files + [f]) == files;
  }

  /** An element of a duplicate-free sequence occurs neither before nor after its own place. */
  lemma DistinctAt(u: seq<string>, k: nat)
    requires Distinct(u) && k < |u|
    ensures u[k] !in u[..k] && u[k] !in u[k + 1..]
  {
  }

  /** One more step of the staging loop over the untracked set, from the front. */
  lemma StagePrefixStep(r: Repository, pre: seq<string>, f: string, rest: seq<string>)
    requires StageAll(r, pre).staged == r.staged + pre
    requires StageAll(r, pre).untracked == [f] + rest
    requires f !in rest && f !in pre && f !in r.staged
    ensures StageAll(r, pre + [f]).staged == r.staged + (pre + [f])
    ensures StageAll(r, pre + [f]).untracked == rest
  {
    var s := StageAll(r, pre);
    StageFront(s, f, rest);
    StageAllSnoc(r, pre, f);
    var a, b := r.staged, pre;
    assert s.staged == a + b;
    assert Stage(s, f).staged == (a + b) + [f];
    AppendAssoc(a, b, [f]);
  }

  /** The slices on either side of an element. */
  lemma SlicesAt(u: seq<string>, k: nat)
    requires k < |u|
    ensures u[k..] == [u[k]] + u[k + 1..] && u[..k + 1] == u[..k] + [u[k]] && u[k] in u
  {
  }

  /** Staging the first `i` untracked files moves exactly those, in order. */
  lemma {:induction false} StageUntrackedPrefix(r: Repository, i: nat)
    requires Distinct(r.untracked) && (forall x :: x in r.untracked ==> x !in r.staged)
    requires i <= |r.untracked|
    ensures StageAll(r, r.untracked[..i]).staged == r.staged + r.untracked[..i]
    ensures StageAll(r, r.untracked[..i]).untracked == r.untracked[i..]
    decreases i
  {
    var u := r.untracked;
    if i > 0 {
      StageUntrackedPrefix(r, i - 1);
      DistinctAt(u, i - 1);
      SlicesAt(u, i - 1);
      StagePrefixStep(r, u[..i - 1], u[i - 1], u[i..]);
    }
    else {
      assert u[..0] == [];
    }
  }

  // ---------------------------------------------------------------
  // git commit
  // ---------------------------------------------------------------

  /** Printed by `git commit` with nothing staged, and by `git status` on a clean tree. */
  const NothingToCommit := "nothing to commit, working tree clean"
  const EmptyMessage := "Aborting commit due to empty commit message."

  /** `xs.indexOf(x)`, with `None` for -1. */
  function IndexIn(xs: seq<string>, x: string): (r: Option<nat>)
    ensures r.None? <==> x !in xs
    ensures r.Some? ==> r.value < |xs| && xs[r.value] == x && x !in xs[..r.value]
  {
    if xs == [] then None
    else if xs[0] == x then Some(0)
    else
      match IndexIn(xs[1..], x)
      case None => None
      case Some(i) =>
        assert xs[..i + 1] == [xs[0]] + xs[1..][..i];
        Some(i + 1)
  }

  predicate IsQuote(c: char) {
    c == '"' || c == '\''
  }

  /** `.replace(/^["']|["']$/g, '')`: at most one leading and one trailing quote character go. */
  function StripQuotes(s: string): string {
    var t := if s != [] && IsQuote(s[0]) then s[1..] else s;
    if t != [] && IsQuote(Last(t)) then DropLast(t) else t
  }

  /** A message wrapped in quote characters loses exactly the wrapping. */
  lemma StripQuotesQuoted(open: char, m: string, close: char)
    requires IsQuote(open) && IsQuote(close)
    ensures StripQuotes([open] + m + [close]) == m
  {
    var s := [open] + m + [close];
    assert s[1..] == m + [close];
    assert DropLast(m + [close]) == m;
  }

  /** A message that neither starts nor ends with a quote character is kept as it is. */
  lemma StripQuotesUnquoted(s: string)
    requires s != [] && !IsQuote(s[0]) && !IsQuote(Last(s))
    ensures StripQuotes(s) == s
  {
  }

  /**
   * The message of `git commit`: the arguments after the first `-m`, joined
   * by spaces, with quotes stripped; empty when `-m` is missing or is not
   * followed by a non-empty argument.
   */
  function CommitMessage(args: seq<string>): string {
    match IndexIn(args, "-m")
    case None => ""
    case Some(i) =>
      if i + 1 < |args| && args[i + 1] != "" then StripQuotes(JoinWith(args[i + 1..], " ")) else ""
  }

  /** Everything after the first `-m` is the message. */
  lemma CommitMessageAfterFlag(before: seq<string>, words: seq<string>)
    requires "-m" !in before && words != [] && words[0] != ""
    ensures CommitMessage(before + ["-m"] + words) == StripQuotes(JoinWith(words, " "))
  {
    var args := before + ["-m"] + words;
    var i := IndexIn(args, "-m").value;
    assert args[|before|] == "-m";
    assert i == |before|;
    assert args[i + 1..] == words;
  }

  /** Without `-m`, or with `-m` as the last argument, there is no message. */
  lemma NoMessageWithoutText(before: seq<string>)
    requires "-m" !in before
    ensures CommitMessage(before) == ""
    ensures CommitMessage(before + ["-m"]) == ""
  {
    var args := before + ["-m"];
    assert args[|before|] == "-m";
    assert IndexIn(args, "-m").value == |before|;
  }

  /** The record after committing: the staged files become the newest commit and the staged set empties. */
  function Committed(r: Repository, hash: string, message: string, date: string): (r': Repository)
    ensures r'.commits == r.commits + [Commit(hash, message, Author, date, r.staged)]
    ensures r'.staged == []
    ensures r'.branch == r.branch && r'.modified == r.modified && r'.untracked == r.untracked
    ensures WellFormed(r) && r.staged != [] && message != "" ==> WellFormed(r')
    ensures Disjoint(r) ==> Disjoint(r')
  {
    r.(commits := r.commits + [Commit(hash, message, Author, date, r.staged)], staged := [])
  }

  function Plural(n: nat): string {
    if n != 1 then "s" else ""
  }

  /** `[branch hash] message` and the count of files in the commit. */
  function CommitSummary(branch: string, hash: string, message: string, n: nat): string {
    "[" + branch + " " + hash + "] " + message + "\n " + NatToString(n) + " file" + Plural(n) + " changed"
  }

  /**
   * `git add .` followed by a commit on a repository with nothing staged
   * records exactly the previously untracked files, in order, and leaves
   * nothing staged or untracked.
   */
  lemma AddAllThenCommit(r: Repository, hash: string, message: string, date: string)
    requires WellFormed(r) && Disjoint(r) && r.staged == []
    ensures var r' := Committed(StageAll(r, Selected(r, ["."])), hash, message, date);
      && Last(r'.commits).files == r.untracked
      && r'.staged == [] && r'.untracked == []
  {
    assert Selected(r, ["."]) == r.untracked;
    AddAllStagesUntracked(r);
  }

  // ---------------------------------------------------------------
  // git log
  // ---------------------------------------------------------------

  const NoCommitsYet := "fatal: your current branch 'main' does not have any commits yet"

  /** Text wrapped in an ANSI colour escape and the reset escape. */
  function Colored(code: string, s: string): string {
    "\U{1B}[" + code + "m" + s + "\U{1B}[0m"
  }

  /** The `k`-th commit counting from the newest. */
  function Newest(commits: seq<Commit>, k: nat): Commit
    requires k < |commits|
  {
    commits[|commits| - 1 - k]
  }

  function OnelineEntry(c: Commit): string {
    Colored("33", c.hash) + " " + c.message
  }

  /** The five lines of a commit in the full format. */
  function EntryLines(c: Commit): seq<string> {
    [Colored("33", "commit " + c.hash), "Author: " + c.author, "Date:   " + c.date, "", "    " + c.message]
  }

  /** The lines one commit contributes; in the full format a blank line separates it from the next. */
  function LogEntry(c: Commit, oneline: bool, separated: bool): seq<string> {
    if oneline then [OnelineEntry(c)]
    else EntryLines(c) + (if separated then [""] else [])
  }

  /** The lines of the `i` newest commits, newest first. */
  function LogPrefix(commits: seq<Commit>, oneline: bool, i: nat): seq<string>
    requires i <= |commits|
    decreases i
  {
    if i == 0 then []
    else LogPrefix(commits, oneline, i - 1) + LogEntry(Newest(commits, i - 1), oneline, i - 1 < |commits| - 1)
  }

  function LogLines(commits: seq<Commit>, oneline: bool): seq<string> {
    LogPrefix(commits, oneline, |commits|)
  }

  /** What `git log [--oneline]` prints for a repository. */
  function LogOutput(r: Repository, args: seq<string>): string {
    if r.commits == [] then NoCommitsYet
    else JoinWith(LogLines(r.commits, "--oneline" in args), "\n")
  }

  /** `--oneline`: one line per commit, newest first, holding its hash and message. */
  lemma {:induction false} OnelineLog(commits: seq<Commit>, i: nat)
    requires i <= |commits|
    ensures |LogPrefix(commits, true, i)| == i
    ensures forall k :: 0 <= k < i ==> LogPrefix(commits, true, i)[k] == OnelineEntry(Newest(commits, k))
    decreases i
  {
    if i > 0 {
      OnelineLog(commits, i - 1);
    }
  }

  /** A slice that lies inside the first part of a concatenation. */
  lemma SliceOfAppend(front: seq<string>, back: seq<string>, a: nat, b: nat)
    requires a <= b <= |front|
    ensures (front + back)[a..b] == front[a..b]
  {
  }

  /** A slice that starts where the second part of a concatenation starts. */
  lemma SliceOfAppendBack(front: seq<string>, back: seq<string>, n: nat)
    requires n <= |back|
    ensures (front + back)[|front| .. |front| + n] == back[..n]
  {
  }

  /**
   * The full format: six lines per commit, newest first, the last commit
   * without the trailing blank line.
   */
  lemma {:induction false} FullLog(commits: seq<Commit>, i: nat)
    requires i <= |commits|
    ensures |LogPrefix(commits, false, i)| == 6 * i - (if i == |commits| > 0 then 1 else 0)
    ensures forall k :: 0 <= k < i ==>
      LogPrefix(commits, false, i)[6 * k .. 6 * k + 5] == EntryLines(Newest(commits, k))
    ensures forall k :: 0 <= k < i && k + 1 < |commits| ==>
      LogPrefix(commits, false, i)[6 * k .. 6 * k + 6] == EntryLines(Newest(commits, k)) + [""]
    decreases i
  {
    if i > 0 {
      FullLog(commits, i - 1);
      var prev := LogPrefix(commits, false, i - 1);
      var entry := LogEntry(Newest(commits, i - 1), false, i < |commits|);
      var cur := prev + entry;
      assert |prev| == 6 * (i - 1);
      forall k | 0 <= k < i
        ensures cur[6 * k .. 6 * k + 5] == EntryLines(Newest(commits, k))
      {
        if k < i - 1 {
          SliceOfAppend(prev, entry, 6 * k, 6 * k + 5);
        } else {
          SliceOfAppendBack(prev, entry, 5);
        }
      }
      forall k | 0 <= k < i && k + 1 < |commits|
        ensures cur[6 * k .. 6 * k + 6] == EntryLines(Newest(commits, k)) + [""]
      {
        if k < i - 1 {
          SliceOfAppend(prev, entry, 6 * k, 6 * k + 6);
        } else {
          SliceOfAppendBack(prev, entry, 6);
        }
      }
    }
  }

  /** After a commit, `git log --oneline` starts with that commit. */
  lemma NewestCommitFirst(r: Repository, hash: string, message: string, date: string)
    ensures var r' := Committed(r, hash, message, date);
      LogLines(r'.commits, true)[0] == OnelineEntry(Commit(hash, message, Author, date, r.staged))
  {
    var r' := Committed(r, hash, message, date);
    OnelineLog(r'.commits, |r'.commits|);
  }

  // ---------------------------------------------------------------
  // git status
  // ---------------------------------------------------------------

  /** The three sections `git status` may print, in the order it prints them. */
  datatype Section = StagedSection | ModifiedSection | UntrackedSection

  function Files(r: Repository, sec: Section): seq<string> {
    match sec
    case StagedSection => r.staged
    case ModifiedSection => r.modified
    case UntrackedSection => r.untracked
  }

  function Title(sec: Section): string {
    match sec
    case StagedSection => "Changes to be committed:"
    case ModifiedSection => "Changes not staged for commit:"
    case UntrackedSection => "Untracked files:"
  }

  /** The hint under a title, indented by two spaces. */
  function Hint(sec: Section): string {
    "  " + HintText(sec)
  }

  function HintText(sec: Section): string {
    match sec
    case StagedSection => "(use \"git restore --staged <file>...\" to unstage)\n"
    case ModifiedSection => "(use \"git add <file>...\" to update what will be committed)\n"
    case UntrackedSection => "(use \"git add <file>...\" to include in what will be committed)\n"
  }

  /** A tab, then the file in green (staged) or red (modified, untracked). */
  function FileLine(sec: Section, f: string): string {
    match sec
    case StagedSection => "\t" + Colored("32", "new file:   " + f)
    case ModifiedSection => "\t" + Colored("31", "modified:   " + f)
    case UntrackedSection => "\t" + Colored("31", f)
  }

  /** A section: title, hint, one line per file in set order, a blank line; nothing for an empty set. */
  function SectionLines(sec: Section, files: seq<string>): seq<string> {
    if files == [] then []
    else [Title(sec), Hint(sec)] + Body(sec, files) + [""]
  }

  function Clean(r: Repository): bool {
    r.staged == [] && r.modified == [] && r.untracked == []
  }

  /** The lines `git status` joins with newlines. */
  function StatusLines(r: Repository): seq<string> {
    StatusHeader(r)
    + SectionLines(StagedSection, r.staged)
    + SectionLines(ModifiedSection, r.modified)
    + SectionLines(UntrackedSection, r.untracked)
    + (if Clean(r) then [NothingToCommit] else [])
  }

  /** The branch line, then the no-commits note or an empty line. */
  function StatusHeader(r: Repository): seq<string> {
    ["On branch " + r.branch, if r.commits == [] then "\nNo commits yet\n" else ""]
  }

  function StatusOutput(r: Repository): string {
    JoinWith(StatusLines(r), "\n")
  }

  /** The status text opens with the current branch. */
  lemma StatusNamesBranch(r: Repository)
    ensures StartsWith(StatusOutput(r), "On branch " + r.branch)
  {
    JoinWithStartsWith(StatusLines(r), "\n");
  }

  /** The first characters that keep the kinds of status lines apart. */
  lemma FirstCharacters(sec: Section)
    ensures Hint(sec) != [] && Hint(sec)[0] == ' '
    ensures Title(sec) != [] && Title(sec)[0] in "CU"
    ensures forall f :: FileLine(sec, f)[0] == '\t'
  {
    match sec
    case StagedSection =>
    case ModifiedSection =>
    case UntrackedSection =>
  }

  /** The file lines of a section, in set order. */
  function Body(sec: Section, files: seq<string>): seq<string> {
    seq(|files|, k requires 0 <= k < |files| => FileLine(sec, files[k]))
  }

  /** Listing one more file adds its line at the end. */
  lemma BodySnoc(sec: Section, files: seq<string>, k: nat)
    requires k < |files|
    ensures Body(sec, files[..k + 1]) == Body(sec, files[..k]) + [FileLine(sec, files[k])]
  {
  }

  /** Membership in a section-shaped sequence: two lines, a body, one more line. */
  lemma MemberOfFour(x: string, a: string, b: string, c: seq<string>, d: string)
    ensures x in [a, b] + c + [d] <==> x == a || x == b || x in c || x == d
  {
  }

  /** No line that starts with one of `cs` is a hint, a file line or a blank line of a section. */
  lemma OnlyTitlesMatch(sec: Section, files: seq<string>, line: string)
    requires line != [] && line[0] in "CUn"
    ensures line in SectionLines(sec, files) <==> files != [] && line == Title(sec)
  {
    FirstCharacters(sec);
    if files != [] {
      var body := Body(sec, files);
      assert line !in body by {
        forall k | 0 <= k < |body| ensures body[k] != line {
          assert body[k][0] == '\t';
        }
      }
      assert line != Hint(sec) && line != "";
      MemberOfFour(line, Title(sec), Hint(sec), body, "");
    }
  }

  /** A section title appears in a section's lines exactly when it is that section's and the set is non-empty. */
  lemma TitleInSection(sec: Section, files: seq<string>, t: Section)
    ensures Title(t) in SectionLines(sec, files) <==> files != [] && t == sec
  {
    FirstCharacters(t);
    OnlyTitlesMatch(sec, files, Title(t));
  }

  /** The clean-tree line is never part of a section. */
  lemma CleanLineOutsideSections(sec: Section, files: seq<string>)
    ensures NothingToCommit !in SectionLines(sec, files)
  {
    FirstCharacters(sec);
    OnlyTitlesMatch(sec, files, NothingToCommit);
  }

  /** The status lines split into header, the three sections and the clean-tree line. */
  lemma StatusParts(r: Repository, line: string)
    requires line != [] && line[0] in "CUn"
    ensures line in StatusLines(r)
        <==> || line in SectionLines(StagedSection, r.staged)
             || line in SectionLines(ModifiedSection, r.modified)
             || line in SectionLines(UntrackedSection, r.untracked)
             || (Clean(r) && line == NothingToCommit)
  {
    assert line !in StatusHeader(r);
  }

  /** Each section's title is printed exactly when its set is non-empty. */
  lemma StatusSections(r: Repository, t: Section)
    ensures Title(t) in StatusLines(r) <==> Files(r, t) != []
  {
    FirstCharacters(t);
    StatusParts(r, Title(t));
    TitleInSection(StagedSection, r.staged, t);
    TitleInSection(ModifiedSection, r.modified, t);
    TitleInSection(UntrackedSection, r.untracked, t);
  }

  /** The clean-tree line is printed exactly when all three sets are empty. */
  lemma StatusCleanLine(r: Repository)
    ensures NothingToCommit in StatusLines(r) <==> Clean(r)
  {
    StatusParts(r, NothingToCommit);
    CleanLineOutsideSections(StagedSection, r.staged);
    CleanLineOutsideSections(ModifiedSection, r.modified);
    CleanLineOutsideSections(UntrackedSection, r.untracked);
  }

  /** Every file of every set is listed on its own line. */
  lemma StatusListsFiles(r: Repository, t: Section, f: string)
    requires f in Files(r, t)
    ensures FileLine(t, f) in StatusLines(r)
  {
    var files := Files(r, t);
    var k :| 0 <= k < |files| && files[k] == f;
    assert Body(t, files)[k] == FileLine(t, f);
    assert FileLine(t, f) in SectionLines(t, files);
  }

  /** The sections come staged, modified, untracked, each right after the previous one. */
  lemma StatusOrder(r: Repository)
    ensures var L := StatusLines(r);
      var m := 2 + |SectionLines(StagedSection, r.staged)|;
      var u := m + |SectionLines(ModifiedSection, r.modified)|;
      && (r.staged != [] ==> L[2] == Title(StagedSection))
      && (r.modified != [] ==> m < |L| && L[m] == Title(ModifiedSection))
      && (r.untracked != [] ==> u < |L| && L[u] == Title(UntrackedSection))
  {
    PartStarts(StatusHeader(r), SectionLines(StagedSection, r.staged), SectionLines(ModifiedSection, r.modified),
      SectionLines(UntrackedSection, r.untracked), if Clean(r) then [NothingToCommit] else []);
  }

  /** Where each non-empty part of a five-part concatenation starts. */
  lemma PartStarts(a: seq<string>, b: seq<string>, c: seq<string>, d: seq<string>, e: seq<string>)
    ensures b != [] ==> (a + b + c + d + e)[|a|] == b[0]
    ensures c != [] ==> (a + b + c + d + e)[|a| + |b|] == c[0]
    ensures d != [] ==> (a + b + c + d + e)[|a| + |b| + |c|] == d[0]
  {
  }

  /** A fresh repository with no files reports its branch, no commits and a clean tree. */
  lemma FreshStatus()
    ensures StatusLines(Initial([])) == ["On branch " + DefaultBranch, "\nNo commits yet\n", NothingToCommit]
  {
    var r := Initial([]);
    assert r.untracked == [];
  }

  // ---------------------------------------------------------------
  // git branch, git clone
  // ---------------------------------------------------------------

  const BranchNotImplemented := "Branch operations not yet fully implemented"

  /** `git branch` lists the one branch, marked current; any argument is not supported. */
  function BranchOutput(r: Repository, args: seq<string>): string {
    if args == [] then "* " + Colored("32", r.branch) else BranchNotImplemented
  }

  const CloneMissingUrl := "fatal: You must specify a repository to clone."

  function CloneMessage(name: string): string {
    "Cloning into '" + name + "'...\nNote: This is a simulated clone. Real Git clone would require backend support."
  }

  /** The directory name as written: the last path segment with its first `.git` removed. */
  function CloneNameAsWritten(url: string): string {
    var name := ReplaceFirst(Last(SplitOn(url, "/")), ".git", "");
    if name == "" then "repository" else name
  }

  /** The directory name git uses: the last path segment without a trailing `.git`. */
  function CloneName(url: string): (name: string)
    ensures name != ""
    ensures var seg := Last(SplitOn(url, "/"));
      || (name == "repository" && (seg == "" || seg == ".git"))
      || (EndsWith(seg, ".git") && name + ".git" == seg)
      || (!EndsWith(seg, ".git") && name == seg)
    ensures !Contains(name, "/") || name == "repository"
  {
    var seg := Last(SplitOn(url, "/"));
    var name := if EndsWith(seg, ".git") then seg[..|seg| - 4] else seg;
    assert EndsWith(seg, ".git") ==> seg == name + ".git";
    if name == "" then "repository" else
      assert !Contains(name, "/") by {
        if Contains(name, "/") {
          OccursInPrefix(seg, "/", |name|, IndexOf(name, "/").value);
        }
      }
      name
  }

  /** What `git clone` prints, with the corrected directory name. */
  function CloneOutput(args: seq<string>): string {
    if args == [] then CloneMissingUrl else CloneMessage(CloneName(args[0]))
  }

  /**
   * The as-written name removes the first `.git` anywhere in the segment:
   * for `<dir>/.git<m>.git` (a repository such as `.github.git`) it yields
   * `<m>.git` where git would use `.git<m>`.
   */
  lemma CloneNameKeepsSuffix(dir: string, m: string)
    requires forall k :: 0 <= k < |m| ==> m[k] != '/'
    ensures var url := dir + "/" + (".git" + m + ".git");
      CloneNameAsWritten(url) == m + ".git" && CloneName(url) == ".git" + m
  {
    var seg := ".git" + m + ".git";
    var url := dir + "/" + seg;
    LastSegment(dir, seg);
    GitOnBothSides(m);
    AsWrittenOfSegment(url, seg);
    CorrectedOfSegment(url, seg);
  }

  /** `.git<m>.git` starts and ends with `.git`. */
  lemma GitOnBothSides(m: string)
    ensures var seg := ".git" + m + ".git";
      && StartsWith(seg, ".git") && seg[4..] == m + ".git"
      && EndsWith(seg, ".git") && seg[..|seg| - 4] == ".git" + m
  {
    var seg := ".git" + m + ".git";
    assert seg[..4] == ".git";
    assert seg[|seg| - 4..] == ".git";
  }

  /** The as-written name of a URL whose last segment starts with `.git`: the segment without that prefix. */
  lemma AsWrittenOfSegment(url: string, seg: string)
    requires Last(SplitOn(url, "/")) == seg && StartsWith(seg, ".git") && |seg| > 4
    ensures CloneNameAsWritten(url) == seg[4..]
  {
    ReplacePrefix(seg, ".git");
  }

  /** The corrected name of a URL whose last segment ends with `.git`: the segment without that suffix. */
  lemma CorrectedOfSegment(url: string, seg: string)
    requires Last(SplitOn(url, "/")) == seg && EndsWith(seg, ".git") && |seg| > 4
    ensures CloneName(url) == seg[..|seg| - 4]
  {
  }

  /** The last `/`-separated segment of `dir/seg`, for a segment without `/`, is that segment. */
  lemma LastSegment(dir: string, seg: string)
    requires forall k :: 0 <= k < |seg| ==> seg[k] != '/'
    ensures Last(SplitOn(dir + "/" + seg, "/")) == seg
  {
    IndexOfChar(seg, '/', |seg|);
    LastPieceAfterSeparator(dir, '/', seg);
  }

  // ---------------------------------------------------------------
  // touch
  // ---------------------------------------------------------------

  /** `touch` adds the file to the untracked set, whatever set it is already in. */
  function Touched(r: Repository, f: string): (r': Repository)
    ensures forall x :: x in r'.untracked <==> x in r.untracked || x == f
    ensures r'.staged == r.staged && r'.modified == r.modified && r'.commits == r.commits
    ensures WellFormed(r) ==> WellFormed(r')
  {
    r.(untracked := Insert(r.untracked, f))
  }

  /** Touching a file that is neither staged nor modified keeps the sets disjoint. */
  lemma TouchKeepsDisjoint(r: Repository, f: string)
    requires Disjoint(r) && f !in r.staged && f !in r.modified
    ensures Disjoint(Touched(r, f))
  {
  }

  /** Touching a staged file leaves it both staged and untracked. */
  lemma TouchStagedFile(r: Repository, f: string)
    requires f in r.staged
    ensures !Disjoint(Touched(r, f))
    ensures f in Touched(r, f).staged && f in Touched(r, f).untracked
  {
  }

  /** No operation ever puts a file in the modified set: starting empty, it stays empty. */
  lemma ModifiedStaysEmpty(r: Repository, files: seq<string>, f: string, hash: string, message: string, date: string)
    requires r.modified == []
    ensures StageAll(r, files).modified == []
    ensures Committed(r, hash, message, date).modified == []
    ensures Touched(r, f).modified == []
  {
  }
}
