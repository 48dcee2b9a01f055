/**
 * The terminal behind the IDE's console: it splits a command line into
 * words, routes it to a handler, runs that handler against a virtual file
 * system and a per-directory Git repository, and tells its listeners
 * about Git and file events.  (src/services/terminalService.ts)
 */
module Terminal {
  import opened Wrappers
  import opened Text
  import opened Git

  // ---------------------------------------------------------------
  // Listeners and events
  // ---------------------------------------------------------------

  /** A listener, identified by the handle it subscribed with (closures compare by reference). */
  type Listener = nat

  /** A `TerminalEventType` with its payload. */
  datatype Event =
    | GitInitEvent(path: string)
    | GitAddEvent(file: string)
    | GitRmEvent(file: string)
    | FileTouchEvent(file: string)

  /** One call of one listener with one event. */
  datatype Delivery = Delivery(listener: Listener, event: Event)

  /** The calls one notification makes: every listener, in subscription order. */
  function FanOut(listeners: seq<Listener>, e: Event): seq<Delivery> {
    seq(|listeners|, k requires 0 <= k < |listeners| => Delivery(listeners[k], e))
  }

  /** The calls a series of notifications makes, one event after the other. */
  function Broadcast(listeners: seq<Listener>, es: seq<Event>): seq<Delivery> {
    if es == [] then [] else Broadcast(listeners, DropLast(es)) + FanOut(listeners, Last(es))
  }

  /** The notifications of `git add`: one per selected file, in order. */
  function AddEvents(files: seq<string>): seq<Event> {
    seq(|files|, k requires 0 <= k < |files| => GitAddEvent(files[k]))
  }

  /** Every subscribed listener is called with the event, each once per subscription, in order. */
  lemma {:induction false} BroadcastCalls(ls: seq<Listener>, es: seq<Event>, k: nat, j: nat)
    requires k < |es| && j < |ls|
    ensures |Broadcast(ls, es)| == |es| * |ls|
    ensures Broadcast(ls, es)[k * |ls| + j] == Delivery(ls[j], es[k])
    decreases |es|
  {
    var front := Broadcast(ls, DropLast(es));
    if k < |es| - 1 {
      BroadcastCalls(ls, DropLast(es), k, j);
      assert (k + 1) * |ls| <= |front| by {
        assert |front| == (|es| - 1) * |ls|;
        MulMonotone(k + 1, |es| - 1, |ls|);
      }
      assert k * |ls| + j < (k + 1) * |ls|;
    } else {
      if |es| > 1 {
        BroadcastCalls(ls, DropLast(es), 0, j);
      }
      assert |front| == k * |ls|;
    }
  }

  lemma MulMonotone(a: nat, b: nat, c: nat)
    requires a <= b
    ensures a * c <= b * c
  {
  }

  /** A listener that has unsubscribed is not called. */
  lemma UnsubscribedNotCalled(ls: seq<Listener>, l: Listener, e: Event)
    ensures forall d :: d in FanOut(Without(ls, l), e) ==> d.listener != l
  {
    var ws := Without(ls, l);
    forall d | d in FanOut(ws, e)
      ensures d.listener != l
    {
      var k :| 0 <= k < |ws| && FanOut(ws, e)[k] == d;
      assert ws[k] in ws;
    }
  }

  // ---------------------------------------------------------------
  // The file system and the working directory
  // ---------------------------------------------------------------

  const Home := "~/project"
  const ReadmePath := "~/project/README.md"
  const ReadmeContent := "# Project\nWelcome to your project!"

  /**
   * `getCurrentFiles`: the paths under `dir + "/"`, in insertion order,
   * with that prefix replaced away.
   */
  function CurrentFiles(paths: seq<string>, dir: string): seq<string> {
    if paths == [] then []
    else
      var rest := CurrentFiles(DropLast(paths), dir);
      var p := Last(paths);
      if StartsWith(p, dir + "/") then rest + [ReplaceFirst(p, dir + "/", "")] else rest
  }

  /** `ls` lists a name exactly when the directory holds a path `dir/name`. */
  lemma {:induction false} CurrentFilesMembers(paths: seq<string>, dir: string, name: string)
    ensures name in CurrentFiles(paths, dir) <==> dir + "/" + name in paths
    decreases |paths|
  {
    if paths != [] {
      CurrentFilesMembers(DropLast(paths), dir, name);
      var p := Last(paths);
      var prefix := dir + "/";
      assert paths == DropLast(paths) + [p];
      if StartsWith(p, prefix) {
        ReplacePrefix(p, prefix);
        assert p == prefix + p[|prefix|..];
      }
      if p == prefix + name {
        assert StartsWith(p, prefix);
      }
    }
  }

  /** The directory `cd` moves to. */
  function CdTarget(cur: string, arg: Option<string>): string {
    if arg.None? || arg.value == "" || arg.value == "~" then Home
    else if arg.value == ".." then
      var up := JoinWith(DropLast(SplitOn(cur, "/")), "/");
      if up == "" then "~" else up
    else if StartsWith(arg.value, "/") then arg.value
    else cur + "/" + arg.value
  }

  /** Dropping the last `/`-separated piece of `a/b` leaves `a`. */
  lemma ParentOfChild(a: string, b: string)
    requires forall k :: 0 <= k < |b| ==> b[k] != '/'
    ensures JoinWith(DropLast(SplitOn(a + "/" + b, "/")), "/") == a
  {
    var parts := SplitOn(a + "/" + b, "/");
    LastPieceIsChild(a, b);
    JoinDropLast(parts, "/");
    SameBeforeSuffix(JoinWith(DropLast(parts), "/"), a, "/", b);
  }

  /** `a/b` splits into at least two pieces, the last being `b`. */
  lemma LastPieceIsChild(a: string, b: string)
    requires forall k :: 0 <= k < |b| ==> b[k] != '/'
    ensures |SplitOn(a + "/" + b, "/")| >= 2
    ensures Last(SplitOn(a + "/" + b, "/")) == b
  {
    IndexOfChar(b, '/', |b|);
    assert a + "/" + b == a + ['/'] + b;
    LastPieceAfterSeparator(a, '/', b);
  }

  /** Joining all pieces is joining all but the last, then the separator and the last. */
  lemma JoinDropLast(parts: seq<string>, sep: string)
    requires |parts| >= 2
    ensures JoinWith(DropLast(parts), sep) + sep + Last(parts) == JoinWith(parts, sep)
  {
    DropLastLast(parts);
    JoinWithSnoc(DropLast(parts), Last(parts), sep);
  }

  /** Two strings followed by the same separator and suffix into the same text are equal. */
  lemma SameBeforeSuffix(x: string, y: string, sep: string, suffix: string)
    requires x + sep + suffix == y + sep + suffix
    ensures x == y
  {
    assert x == (x + sep + suffix)[..|x|];
    assert y == (y + sep + suffix)[..|y|];
  }

  /** `cd name` followed by `cd ..` comes back, for a relative one-segment name. */
  lemma CdIntoThenUp(cur: string, name: string)
    requires cur != ""
    requires name != "" && name != "~" && name != ".." && name[0] != '/'
    requires forall k :: 0 <= k < |name| ==> name[k] != '/'
    ensures CdTarget(CdTarget(cur, Some(name)), Some("..")) == cur
  {
    assert !StartsWith(name, "/");
    ParentOfChild(cur, name);
  }

  /** `cd ..` from a directory without a `/` in it, such as `~`, lands on `~`. */
  lemma CdUpAtTop(cur: string)
    requires forall k :: 0 <= k < |cur| ==> cur[k] != '/'
    ensures CdTarget(cur, Some("..")) == "~"
  {
    IndexOfChar(cur, '/', |cur|);
    assert SplitOn(cur, "/") == [cur];
  }

  // ---------------------------------------------------------------
  // Commands
  // ---------------------------------------------------------------

  /** A command line after splitting, as `executeCommand` dispatches it. */
  datatype Command =
    | GitCommand(args: seq<string>)
    | Ls
    | Pwd
    | Cd(arg: Option<string>)
    | Mkdir(arg: Option<string>)
    | Touch(arg: Option<string>)
    | Cat(arg: Option<string>)
    | Echo(args: seq<string>)
    | Clear
    | Help
    | Blank
    | NotFound(name: string)

  /** The dispatch on the first word; `parts[1]` is `undefined` when there is no second word. */
  function Parse(parts: seq<string>): Command
    requires parts != []
  {
    var name := parts[0];
    var arg := if |parts| > 1 then Some(parts[1]) else None;
    if name == "git" then GitCommand(parts[1..])
    else if name == "ls" then Ls
    else if name == "pwd" then Pwd
    else if name == "cd" then Cd(arg)
    else if name == "mkdir" then Mkdir(arg)
    else if name == "touch" then Touch(arg)
    else if name == "cat" then Cat(arg)
    else if name == "echo" then Echo(parts[1..])
    else if name == "clear" then Clear
    else if name == "help" then Help
    else if parts == [""] then Blank
    else NotFound(name)
  }

  /** Words typed with single spaces are dispatched as those words. */
  lemma ParseTyped(words: seq<string>)
    requires words != []
    requires forall k :: 0 <= k < |words| ==> words[k] != [] && NoSpace(words[k])
    ensures Parse(Tokens(JoinWith(words, " "))) == Parse(words)
  {
    TokensOfJoin(words);
  }

  /** A line is blank exactly when it holds no word. */
  lemma ParseBlank(line: string)
    ensures Parse(Tokens(line)) == Blank <==> Words(line) == []
  {
    var parts := Tokens(line);
    if Words(line) != [] {
      assert parts != [""];
    }
  }

  /** An unknown command is reported by its first word. */
  lemma ParseNotFound(line: string)
    ensures Parse(Tokens(line)).NotFound? ==> Parse(Tokens(line)).name == Words(line)[0]
  {
  }

  const ClearScreen := "\U{1B}[2J\U{1B}[H"
  const NotARepository := "fatal: not a git repository (or any of the parent directories): .git"

  /** A missing or empty operand (`!arg` in the source). */
  predicate Missing(arg: Option<string>) {
    arg.None? || arg.value == ""
  }

  function MkdirOutput(arg: Option<string>): string {
    if Missing(arg) then "mkdir: missing operand" else ""
  }

  /** The lines of `help`. */
  const HelpLines: seq<string> := [
    "Available commands:",
    "  Git commands:",
    "    git init          - Initialize a new git repository",
    "    git status        - Show the working tree status",
    "    git add <file>    - Add file contents to the index",
    "    git add .         - Add all files to the index",
    "    git commit -m     - Record changes to the repository",
    "    git log           - Show commit logs",
    "    git log --oneline - Show commit logs in one line",
    "    git branch        - List branches",
    "    git clone <url>   - Clone a repository",
    "",
    "  File commands:",
    "    ls                - List directory contents",
    "    pwd               - Print working directory",
    "    cd <dir>          - Change directory",
    "    mkdir <dir>       - Make directory",
    "    touch <file>      - Create empty file",
    "    cat <file>        - Display file contents",
    "    echo <text>       - Display text",
    "    clear             - Clear the terminal",
    "    help              - Show this help message"
  ]

  const HelpText := JoinWith(HelpLines, "\n")

  /** The lines `git` prints without a subcommand. */
  const GitHelpLines: seq<string> := [
    "usage: git [--version] [--help] [-C <path>] [-c <name>=<value>]",
    "           [--exec-path[=<path>]] [--html-path] [--man-path] [--info-path]",
    "           [-p | --paginate | -P | --no-pager] [--no-replace-objects] [--bare]",
    "           [--git-dir=<path>] [--work-tree=<path>] [--namespace=<name>]",
    "           <command> [<args>]",
    "",
    "Available commands:",
    "   init       Create an empty Git repository",
    "   clone      Clone a repository into a new directory",
    "   add        Add file contents to the index",
    "   status     Show the working tree status",
    "   commit     Record changes to the repository",
    "   log        Show commit logs",
    "   branch     List, create, or delete branches"
  ]

  const GitHelpText := JoinWith(GitHelpLines, "\n")

  /** The subcommands `handleGitCommand` knows. */
  datatype Subcommand = InitSub | StatusSub | AddSub | CommitSub | LogSub | BranchSub | CloneSub | OtherSub(name: string)

  function ParseSubcommand(name: string): Subcommand {
    if name == "init" then InitSub
    else if name == "status" then StatusSub
    else if name == "add" then AddSub
    else if name == "commit" then CommitSub
    else if name == "log" then LogSub
    else if name == "branch" then BranchSub
    else if name == "clone" then CloneSub
    else OtherSub(name)
  }

  function UnknownGitCommand(sub: string): string {
    "git: '" + sub + "' is not a git command. See 'git --help'."
  }

  /** Pushing title, hint, file lines and a blank line onto `lines` appends the section. */
  lemma SectionOfLines(lines: seq<string>, sec: Section, files: seq<string>)
    requires files != []
    ensures lines + [Title(sec), Hint(sec)] + Body(sec, files) + [""] == lines + SectionLines(sec, files)
  {
  }

  /** `gitStatus`: pushes one section's lines, as it does for each non-empty set. */
  method AppendSection(lines: seq<string>, sec: Section, files: seq<string>) returns (out: seq<string>)
    ensures out == lines + SectionLines(sec, files)
  {
    out := lines;
    if files != [] {
      var head := lines + [Title(sec), Hint(sec)];
      out := head;
      for k := 0 to |files|
        invariant out == head + Body(sec, files[..k])
      {
        BodySnoc(sec, files, k);
        out := out + [FileLine(sec, files[k])];
      }
      assert files[..|files|] == files;
      out := out + [""];
      SectionOfLines(lines, sec, files);
    }
  }

  /** `gitStatus`'s line building for one repository. */
  method StatusText(r: Repository) returns (out: string)
    ensures out == StatusOutput(r)
  {
    var lines := ["On branch " + r.branch];
    var notice := if r.commits == [] then "\nNo commits yet\n" else "";
    lines := lines + [notice];
    assert lines == StatusHeader(r);
    lines := AppendSection(lines, StagedSection, r.staged);
    lines := AppendSection(lines, ModifiedSection, r.modified);
    lines := AppendSection(lines, UntrackedSection, r.untracked);
    ghost var sections := lines;
    if r.staged == [] && r.modified == [] && r.untracked == [] {
      lines := lines + [NothingToCommit];
    }
    assert lines == sections + if Clean(r) then [NothingToCommit] else [];
    out := JoinWith(lines, "\n");
  }

  /** `gitAdd`'s staging loop: each file moves from the untracked, else the modified, set to the staged set. */
  method StageFiles(r: Repository, files: seq<string>) returns (repo: Repository)
    ensures repo == StageAll(r, files)
  {
    repo := r;
    for i := 0 to |files|
      invariant repo == StageAll(r, files[..i])
    {
      assert DropLast(files[..i + 1]) == files[..i];
      var f := files[i];
      if f in repo.untracked {
        repo := repo.(untracked := Delete(repo.untracked, f), staged := Insert(repo.staged, f));
      } else if f in repo.modified {
        repo := repo.(modified := Delete(repo.modified, f), staged := Insert(repo.staged, f));
      }
    }
    assert files[..|files|] == files;
  }

  // ---------------------------------------------------------------
  // The service
  // ---------------------------------------------------------------

  class TerminalService {
    var currentDir: string
    /** One repository record per directory where `git init` ran. */
    var repos: map<string, Repository>
    /** The keys of the file map, in insertion order. */
    var paths: seq<string>
    var contents: map<string, string>
    var listeners: seq<Listener>
    /** Every event notified so far, and every listener call it made. */
    ghost var events: seq<Event>
    ghost var deliveries: seq<Delivery>

    /** The file map's keys are its paths, once each; every repository is well formed. */
    ghost predicate Valid()
      reads this
    {
      && Distinct(paths)
      && (forall p :: p in contents <==> p in paths)
      && (forall d :: d in repos ==> WellFormed(repos[d]))
    }

    // -- frames -----------------------------------------------------

    twostate predicate FilesKept()
      reads this
    {
      paths == old(paths) && contents == old(contents)
    }

    twostate predicate ListenersKept()
      reads this
    {
      listeners == old(listeners)
    }

    /** Exactly the events `es` were notified, each to the listeners subscribed beforehand. */
    twostate predicate Notified(es: seq<Event>)
      reads this
    {
      events == old(events) + es && deliveries == old(deliveries) + Broadcast(old(listeners), es)
    }

    /** No event was notified. */
    twostate predicate EventsKept()
      reads this
    {
      events == old(events) && deliveries == old(deliveries)
    }

    /** Nothing changed: the state of a read-only command. */
    twostate predicate Kept()
      reads this
    {
      unchanged(this)
    }

    // -- construction and listeners ----------------------------------

    /** Starts in `~/project`, holding only its README, with no repository and no listener. */
    constructor()
      ensures Valid()
      ensures currentDir == Home && repos == map[] && listeners == []
      ensures paths == [ReadmePath] && contents == map[ReadmePath := ReadmeContent]
      ensures events == [] && deliveries == []
    {
      currentDir := Home;
      repos := map[];
      paths := [ReadmePath];
      contents := map[ReadmePath := ReadmeContent];
      listeners := [];
      events := [];
      deliveries := [];
    }

    method Subscribe(l: Listener)
      modifies this
      ensures listeners == old(listeners) + [l]
      ensures currentDir == old(currentDir) && repos == old(repos) && FilesKept()
      ensures events == old(events) && deliveries == old(deliveries)
    {
      listeners := listeners + [l];
    }

    method Unsubscribe(l: Listener)
      modifies this
      ensures listeners == Without(old(listeners), l)
      ensures currentDir == old(currentDir) && repos == old(repos) && FilesKept()
      ensures events == old(events) && deliveries == old(deliveries)
    {
      listeners := Without(listeners, l);
    }

    /** `notifyListeners`: calls every listener with the event, in subscription order. */
    method Notify(e: Event)
      modifies this
      ensures Notified([e])
      ensures currentDir == old(currentDir) && repos == old(repos) && FilesKept() && ListenersKept()
    {
      events := events + [e];
      for k := 0 to |listeners|
        invariant deliveries == old(deliveries) + FanOut(listeners[..k], e)
        invariant events == old(events) + [e]
        invariant currentDir == old(currentDir) && repos == old(repos)
        invariant paths == old(paths) && contents == old(contents) && listeners == old(listeners)
      {
        assert FanOut(listeners[..k + 1], e) == FanOut(listeners[..k], e) + [Delivery(listeners[k], e)];
        deliveries := deliveries + [Delivery(listeners[k], e)];
      }
      assert listeners[..|listeners|] == listeners;
      assert DropLast([e]) == [] && Last([e]) == e;
    }

    /** `files.forEach(file => this.notifyListeners('git-add', { file }))`. */
    method NotifyEach(files: seq<string>)
      modifies this
      ensures Notified(AddEvents(files))
      ensures currentDir == old(currentDir) && repos == old(repos) && FilesKept() && ListenersKept()
    {
      for i := 0 to |files|
        invariant events == old(events) + AddEvents(files[..i])
        invariant deliveries == old(deliveries) + Broadcast(listeners, AddEvents(files[..i]))
        invariant currentDir == old(currentDir) && repos == old(repos)
        invariant paths == old(paths) && contents == old(contents) && listeners == old(listeners)
      {
        var es := AddEvents(files[..i + 1]);
        assert es == AddEvents(files[..i]) + [GitAddEvent(files[i])];
        assert DropLast(es) == AddEvents(files[..i]) && Last(es) == GitAddEvent(files[i]);
        Notify(GitAddEvent(files[i]));
      }
      assert files[..|files|] == files;
    }

    // -- queries ----------------------------------------------------

    function CurrentDirectory(): string
      reads this
    {
      currentDir
    }

    /** `getRepository`: the record of the current directory, if `git init` ran there. */
    function CurrentRepository(): Option<Repository>
      reads this
    {
      if currentDir in repos then Some(repos[currentDir]) else None
    }

    function HasGitRepo(): (b: bool)
      reads this
      ensures b <==> CurrentRepository().Some?
    {
      currentDir in repos
    }

    function ListOutput(): string
      reads this
    {
      JoinWith(CurrentFiles(paths, currentDir), "\n")
    }

    function CatOutput(arg: Option<string>): string
      reads this
    {
      if Missing(arg) then "cat: missing file operand"
      else
        var path := currentDir + "/" + arg.value;
        if path in contents then contents[path] else "cat: " + arg.value + ": No such file or directory"
    }

    function StatusReport(): string
      reads this
    {
      match CurrentRepository()
      case None => NotARepository
      case Some(r) => StatusOutput(r)
    }

    function LogReport(args: seq<string>): string
      reads this
    {
      match CurrentRepository()
      case None => NotARepository
      case Some(r) => LogOutput(r, args)
    }

    function BranchReport(args: seq<string>): string
      reads this
    {
      match CurrentRepository()
      case None => NotARepository
      case Some(r) => BranchOutput(r, args)
    }

    // -- git --------------------------------------------------------

    twostate predicate InitSpec(out: string)
      reads this
    {
      var dir := old(currentDir);
      && currentDir == dir && FilesKept() && ListenersKept()
      && if dir in old(repos) then
           && out == "Reinitialized existing Git repository in " + dir + "/.git/"
           && repos == old(repos) && EventsKept()
         else
           && out == "Initialized empty Git repository in " + dir + "/.git/"
           && repos == old(repos)[dir := Initial(CurrentFiles(old(paths), dir))]
           && Notified([GitInitEvent(dir)])
    }

    /** `git init`: a new record whose untracked set is the files of the directory. */
    method GitInit() returns (out: string)
      requires Valid()
      modifies this
      ensures Valid()
      ensures InitSpec(out)
    {
      var dir := currentDir;
      if dir in repos {
        return "Reinitialized existing Git repository in " + dir + "/.git/";
      }
      repos := repos[dir := Initial(CurrentFiles(paths, dir))];
      Notify(GitInitEvent(dir));
      out := "Initialized empty Git repository in " + dir + "/.git/";
    }

    /** `git status`: the status text of the current repository. */
    method GitStatus() returns (out: string)
      ensures out == StatusReport()
    {
      if currentDir !in repos {
        return NotARepository;
      }
      out := StatusText(repos[currentDir]);
    }

    twostate predicate AddSpec(args: seq<string>, out: string)
      reads this
    {
      var dir := old(currentDir);
      && currentDir == dir && FilesKept() && ListenersKept()
      && if dir !in old(repos) then out == NotARepository && repos == old(repos) && EventsKept()
         else if args == [] then out == NothingSpecified && repos == old(repos) && EventsKept()
         else
           var r := old(repos)[dir];
           var files := Selected(r, args);
           && out == ""
           && repos == old(repos)[dir := StageAll(r, files)]
           && Notified(AddEvents(files))
    }

    /** `git add`: stages the selected files, then notifies one event per selected file. */
    method GitAdd(args: seq<string>) returns (out: string)
      requires Valid()
      modifies this
      ensures Valid()
      ensures AddSpec(args, out)
    {
      var dir := currentDir;
      if dir !in repos {
        return NotARepository;
      }
      if args == [] {
        return NothingSpecified;
      }
      var r := repos[dir];
      var files := if args[0] == "." then r.untracked else args;
      var repo := StageFiles(r, files);
      repos := repos[dir := repo];
      NotifyEach(files);
      out := "";
    }

    twostate predicate CommitSpec(args: seq<string>, hash: string, date: string, out: string)
      reads this
    {
      var dir := old(currentDir);
      && currentDir == dir && FilesKept() && ListenersKept() && EventsKept()
      && if dir !in old(repos) then out == NotARepository && repos == old(repos)
         else
           var r := old(repos)[dir];
           var message := CommitMessage(args);
           if r.staged == [] then out == NothingToCommit && repos == old(repos)
           else if message == "" then out == EmptyMessage && repos == old(repos)
           else
             && out == CommitSummary(r.branch, hash, message, |r.staged|)
             && repos == old(repos)[dir := Committed(r, hash, message, date)]
    }

    /** `git commit -m <message>`; `hash` and `date` stand for the random hash and the clock. */
    method GitCommit(args: seq<string>, hash: string, date: string) returns (out: string)
      requires Valid()
      modifies this
      ensures Valid()
      ensures CommitSpec(args, hash, date, out)
    {
      var dir := currentDir;
      if dir !in repos {
        return NotARepository;
      }
      var r := repos[dir];
      if r.staged == [] {
        return NothingToCommit;
      }
      var message := CommitMessage(args);
      if message == "" {
        return EmptyMessage;
      }
      repos := repos[dir := Committed(r, hash, message, date)];
      out := CommitSummary(r.branch, hash, message, |r.staged|);
    }

    /** `git log [--oneline]`: the commits, newest first. */
    method GitLog(args: seq<string>) returns (out: string)
      ensures out == LogReport(args)
    {
      if currentDir !in repos {
        return NotARepository;
      }
      var commits := repos[currentDir].commits;
      if commits == [] {
        return NoCommitsYet;
      }
      var oneline := "--oneline" in args;
      var lines := [];
      for k := 0 to |commits|
        invariant lines == LogPrefix(commits, oneline, k)
      {
        var c := commits[|commits| - 1 - k];
        if oneline {
          lines := lines + [OnelineEntry(c)];
        } else {
          lines := lines + EntryLines(c);
          if k < |commits| - 1 {
            lines := lines + [""];
          }
        }
      }
      out := JoinWith(lines, "\n");
    }

    method GitBranch(args: seq<string>) returns (out: string)
      ensures out == BranchReport(args)
    {
      if currentDir !in repos {
        return NotARepository;
      }
      out := BranchOutput(repos[currentDir], args);
    }

    /** What `handleGitCommand` does for `git <args>`. */
    twostate predicate GitSpec(args: seq<string>, hash: string, date: string, out: string)
      reads this
    {
      if args == [] then Kept() && out == GitHelpText
      else
        var rest := args[1..];
        match ParseSubcommand(args[0])
        case InitSub => InitSpec(out)
        case StatusSub => Kept() && out == old(StatusReport())
        case AddSub => AddSpec(rest, out)
        case CommitSub => CommitSpec(rest, hash, date, out)
        case LogSub => Kept() && out == old(LogReport(rest))
        case BranchSub => Kept() && out == old(BranchReport(rest))
        case CloneSub => Kept() && out == CloneOutput(rest)
        case OtherSub(name) => Kept() && out == UnknownGitCommand(name)
    }

    method HandleGitCommand(args: seq<string>, hash: string, date: string) returns (out: string)
      requires Valid()
      modifies this
      ensures Valid()
      ensures GitSpec(args, hash, date, out)
    {
      if args == [] {
        return GitHelpText;
      }
      var rest := args[1..];
      match ParseSubcommand(args[0])
      case InitSub =>
        out := GitInit();
      case StatusSub =>
        out := GitStatus();
      case AddSub =>
        out := GitAdd(rest);
      case CommitSub =>
        out := GitCommit(rest, hash, date);
      case LogSub =>
        out := GitLog(rest);
      case BranchSub =>
        out := GitBranch(rest);
      case CloneSub =>
        out := CloneOutput(rest);
      case OtherSub(name) =>
        out := UnknownGitCommand(name);
    }

    // -- shell ------------------------------------------------------

    /** `cd`: only the working directory changes; nothing checks that it exists. */
    method ChangeDirectory(arg: Option<string>) returns (out: string)
      modifies this
      ensures out == "" && currentDir == CdTarget(old(currentDir), arg)
      ensures repos == old(repos) && FilesKept() && ListenersKept() && EventsKept()
    {
      currentDir := CdTarget(currentDir, arg);
      out := "";
    }

    twostate predicate TouchSpec(arg: Option<string>, out: string)
      reads this
    {
      if Missing(arg) then Kept() && out == "touch: missing file operand"
      else
        var dir, name := old(currentDir), arg.value;
        var path := dir + "/" + name;
        && out == ""
        && currentDir == dir && ListenersKept()
        && paths == Insert(old(paths), path) && contents == old(contents)[path := ""]
        && repos == (if dir in old(repos) then old(repos)[dir := Touched(old(repos)[dir], name)] else old(repos))
        && Notified([FileTouchEvent(name)])
    }

    /**
     * `touch`: creates or empties the file, marks it untracked, and notifies;
     * afterwards `cat` prints the empty file and `ls` lists it.
     */
    method TouchFile(arg: Option<string>) returns (out: string)
      requires Valid()
      modifies this
      ensures Valid()
      ensures TouchSpec(arg, out)
      ensures !Missing(arg) ==> CatOutput(arg) == "" && arg.value in CurrentFiles(paths, currentDir)
    {
      if Missing(arg) {
        return "touch: missing file operand";
      }
      var name := arg.value;
      var path := currentDir + "/" + name;
      paths := Insert(paths, path);
      contents := contents[path := ""];
      if currentDir in repos {
        repos := repos[currentDir := Touched(repos[currentDir], name)];
      }
      Notify(FileTouchEvent(name));
      CurrentFilesMembers(paths, currentDir, name);
      out := "";
    }

    /** What `executeCommand` does for a parsed command line. */
    twostate predicate CommandSpec(cmd: Command, hash: string, date: string, out: string)
      reads this
    {
      match cmd
      case GitCommand(args) => GitSpec(args, hash, date, out)
      case Ls => Kept() && out == old(ListOutput())
      case Pwd => Kept() && out == old(currentDir)
      case Cd(arg) =>
        && out == "" && currentDir == CdTarget(old(currentDir), arg)
        && repos == old(repos) && FilesKept() && ListenersKept() && EventsKept()
      case Mkdir(arg) => Kept() && out == MkdirOutput(arg)
      case Touch(arg) => TouchSpec(arg, out)
      case Cat(arg) => Kept() && out == old(CatOutput(arg))
      case Echo(args) => Kept() && out == JoinWith(args, " ")
      case Clear => Kept() && out == ClearScreen
      case Help => Kept() && out == HelpText
      case Blank => Kept() && out == ""
      case NotFound(name) => Kept() && out == "bash: " + name + ": command not found"
    }

    /** `executeCommand`: split the line into words and run the command the first word names. */
    method ExecuteCommand(line: string, hash: string, date: string) returns (out: string)
      requires Valid()
      modifies this
      ensures Valid()
      ensures CommandSpec(Parse(Tokens(line)), hash, date, out)
    {
      out := Run(Parse(Tokens(line)), hash, date);
    }

    /** The dispatch of `executeCommand` on an already parsed command. */
    method Run(cmd: Command, hash: string, date: string) returns (out: string)
      requires Valid()
      modifies this
      ensures Valid()
      ensures CommandSpec(cmd, hash, date, out)
    {
      match cmd
      case GitCommand(args) =>
        out := HandleGitCommand(args, hash, date);
      case Ls =>
        out := ListOutput();
      case Pwd =>
        out := currentDir;
      case Cd(arg) =>
        out := ChangeDirectory(arg);
      case Mkdir(arg) =>
        out := MkdirOutput(arg);
      case Touch(arg) =>
        out := TouchFile(arg);
      case Cat(arg) =>
        out := CatOutput(arg);
      case Echo(args) =>
        out := JoinWith(args, " ");
      case Clear =>
        out := ClearScreen;
      case Help =>
        out := HelpText;
      case Blank =>
        out := "";
      case NotFound(name) =>
        out := "bash: " + name + ": command not found";
    }
  }
}
