# Terminal service and file-tree utilities of a browser IDE, in Dafny

This project models two parts of a web-based IDE.

- **The simulated terminal.** It is the `TerminalService` class of
  `src/services/terminalService.ts`. It splits a command line into words and
  dispatches on the first word (`git`, `ls`, `pwd`, `cd`, `mkdir`, `touch`,
  `cat`, `echo`, `clear`, `help`). It keeps:
  - a current directory;
  - an in-memory file map;
  - one Git repository record per directory where `git init` ran (staged,
    modified and untracked sets, plus a commit list);
  - a list of listeners that it notifies of `git-init`, `git-add` and
    `file-touch` events.
- **The pure tree utilities.** They are in `src/utils/fileUtils.ts` and work
  over the recursive `FileNode` forest: lookup by id or path, case-insensitive
  search, removal, update, insertion under a parent, the
  extension-to-language table and breadcrumbs.

The project has five modules:

- `Wrappers` (`wrappers.dfy`): `Option`.
- `Text` (`text.dfy`): the JavaScript string operations the sources use,
  with their properties:
  - `trim().split(/\s+/)`;
  - `split`, `join`, `includes`, `indexOf`, `filter`;
  - `replace` of the first occurrence;
  - `toLowerCase`.
- `FileTree` (`file_tree.dfy`): `fileUtils.ts`, as datatypes, functions and
  lemmas. `findNodeById`, `findNodeByPath` and `searchInFiles` loop, so they
  are methods with loop invariants, proved equal to pre-order specifications.
- `Git` (`git.dfy`): the repository record and the value-level semantics of
  every `git` subcommand. This covers staging, committing, and the exact text
  of `status`, `log`, `branch` and `clone`.
- `Terminal` (`terminal_service.dfy`): the `TerminalService` class itself.
  - Its fields are updated in place by methods with `modifies this`.
  - Each method's postcondition names the new state. Most go through a
    two-state predicate (`InitSpec`, `AddSpec`, `CommitSpec`, `GitSpec`,
    `TouchSpec`, `CommandSpec`) that says, case by case, what the output is,
    which fields change and which events are delivered.
  - JavaScript `Set`s are insertion-ordered sequences without duplicates.
  - The file map is its key sequence `paths` (insertion order) plus a
    `contents` map.
  - Listener calls are recorded in the ghost logs `events` and `deliveries`.

## Model

| member | source | states |
|---|---|---|
| Text.Tokens | src/services/terminalService.ts:78-79 | at least one token; `[""]` exactly when the line holds no word; otherwise every token is non-empty and free of white space, and the tokens are the line's words, which `WordsAfterWord` and `WordsAcrossSpace` determine for every line |
| Text.TokensOfJoin | src/services/terminalService.ts:78-79 | splitting words joined by single spaces gives the words back |
| Text.WordsAfterWord | src/services/terminalService.ts:78-79 | a run of non-white-space characters followed by white space or the end is one word, followed by the words of the rest |
| Text.WordsAcrossSpace | src/services/terminalService.ts:78-79 | a white-space character splits the line into the words before it and the words after it, so leading, trailing and repeated white space (spaces, tabs, newlines) produce no token; with `WordsAfterWord` this fixes the tokens of every line |
| Text.Without | src/services/terminalService.ts:42 | `filter(l => l !== listener)`: the result holds every other element as often as the input does (multiset), no copy of the removed one, and is the input itself when the element is absent |
| Text.WithoutAppend | src/services/terminalService.ts:42 | filtering a concatenation is the concatenation of the filtered parts, so the remaining elements keep their order |
| Text.SplitOn | src/services/terminalService.ts:324 | `split(sep)` gives at least one piece, the pieces joined by `sep` are the input, and no piece contains `sep` |
| Text.LastPieceAfterSeparator | src/services/terminalService.ts:308 | the last piece of a split on a character is the text after its last occurrence |
| Text.ReplacePrefix | src/services/terminalService.ts:74 | replacing a prefix by the empty string removes exactly that prefix |
| FileTree.FirstInPreorder | src/utils/fileUtils.ts:58-78 | the lookup answer is none exactly when no node of the forest matches, else a matching node of the forest |
| FileTree.FindNode | src/utils/fileUtils.ts:58-78 | the recursive loop returns the first matching node in pre-order (parent before children, earlier siblings first) |
| FileTree.FoundAt | src/utils/fileUtils.ts:60 | a top-level hit after no earlier match is the pre-order answer |
| FileTree.FoundBelow | src/utils/fileUtils.ts:61-64 | a hit inside a node's children, after no earlier match, is the pre-order answer |
| FileTree.NotFoundThrough | src/utils/fileUtils.ts:59-65 | a node with no match in itself or below extends the no-match prefix |
| FileTree.FindNodeById | src/utils/fileUtils.ts:58-67 | returns the first node in pre-order with the id; none exactly when no node anywhere has it |
| FileTree.FindNodeByPath | src/utils/fileUtils.ts:69-78 | returns the first node in pre-order with the path; none exactly when no node anywhere has it |
| FileTree.Matches | src/utils/fileUtils.ts:40-46 | a predicate without ensures; `MatchingMembers` and `MatchingEmptyQuery` state what it selects |
| FileTree.MatchingMembers | src/utils/fileUtils.ts:40-46 | a node is in the search result exactly when it is a file whose content or name contains the query, ignoring case |
| FileTree.MatchingEmptyQuery | src/utils/fileUtils.ts:41-42 | the empty query returns every file and no folder, in pre-order |
| FileTree.MatchingAppend | src/utils/fileUtils.ts:54 | the matches of two lists are the matches of the first followed by those of the second |
| FileTree.MatchingStep | src/utils/fileUtils.ts:54 | adding one top-level tree appends that tree's matches |
| FileTree.MatchingNode | src/utils/fileUtils.ts:39-52 | a subtree's matches are its root, if it matches, then its children's matches |
| FileTree.SearchNode | src/utils/fileUtils.ts:39-52 | the closure `search` pushes exactly the matches of the subtree, in pre-order |
| FileTree.SearchKids | src/utils/fileUtils.ts:49-51 | `children.forEach(search)` pushes the matches of all children in order |
| FileTree.SearchInFiles | src/utils/fileUtils.ts:36-56 | the result is the matching files of the whole forest in pre-order |
| FileTree.RemoveNodeById | src/utils/fileUtils.ts:80-87 | no ensures of its own; stated by `RemoveMapsSurvivors`, `RemoveLeavesNoId`, `RemoveKeepsSiblingOrder`, `RemoveAbsentId` and `RemoveIdempotent` |
| FileTree.RemoveLeavesNoId | src/utils/fileUtils.ts:80-87 | no node with the removed id is left at any depth |
| FileTree.RemoveKeepsSiblingOrder | src/utils/fileUtils.ts:81-82 | the ids of the result's top-level nodes are the input's ids with the removed one filtered out, in order |
| FileTree.Pruned | src/utils/fileUtils.ts:83-86 | the `map` step keeps every field but `children`, and an absent `children` stays absent |
| FileTree.RemoveMapsSurvivors | src/utils/fileUtils.ts:80-87 | `filter` then `map`: the `k`-th result node is the pruned copy of a surviving input node, those input positions increase with `k` and are exactly the positions without the id; applied to each pruned node's children it gives the same at every depth |
| FileTree.RemoveMapsSurvivorsFrom | src/utils/fileUtils.ts:80-87 | from a given position on, the `k`-th node kept is the pruned copy of the input node at the `k`-th surviving position |
| FileTree.SurvivorsFromPositions | src/utils/fileUtils.ts:82 | the surviving positions are in range, strictly increasing, and exactly the positions whose node lacks the id |
| FileTree.RemoveAbsentId | src/utils/fileUtils.ts:80-87 | removing an id nobody carries returns the forest unchanged |
| FileTree.RemoveIdempotent | src/utils/fileUtils.ts:80-87 | removing twice equals removing once |
| FileTree.UpdateNodeById | src/utils/fileUtils.ts:89-106 | the top-level list keeps its length |
| FileTree.UpdateNode | src/utils/fileUtils.ts:94-105 | a node without the id changes only its `children`, and keeps them absent when they were absent; the matched case is stated by `UpdateAt` and `MatchedNodeNotDescended` |
| FileTree.UpdateKeepsShape | src/utils/fileUtils.ts:89-106 | an update that leaves `children` alone keeps the shape of the forest at every level |
| FileTree.UpdateAbsentId | src/utils/fileUtils.ts:89-106 | updating an id nobody carries returns the forest unchanged |
| FileTree.UpdateAt | src/utils/fileUtils.ts:94-105 | the `k`-th result node is the update of the `k`-th input node |
| FileTree.MatchedNodeNotDescended | src/utils/fileUtils.ts:95-97 | a matched node gets the update merged in and is not searched below |
| FileTree.UpdateIdempotent | src/utils/fileUtils.ts:89-106 | applying an update that keeps the id twice equals applying it once |
| FileTree.AddNodeToParent | src/utils/fileUtils.ts:108-132 | with no parent the node is appended after the existing top-level nodes; with a parent the top-level list keeps its length |
| FileTree.AddUnder | src/utils/fileUtils.ts:117-131 | the top-level list keeps its length |
| FileTree.AddUnknownParent | src/utils/fileUtils.ts:117-131 | an unknown parent id leaves the forest unchanged |
| FileTree.AddUnderAbsent | src/utils/fileUtils.ts:117-131 | the recursive step for an unknown parent id returns its list unchanged |
| FileTree.AddUnderNode | src/utils/fileUtils.ts:117-131 | the `map` step changes no field but `children` |
| FileTree.AddUnderAt | src/utils/fileUtils.ts:117-131 | the `k`-th result node is the step applied to the `k`-th input node: every field but `children` is kept, and a node without the id and without a children array is unchanged |
| FileTree.AddedUnderParent | src/utils/fileUtils.ts:117-131 | the first node in pre-order carrying the parent id appears in the result with its own children followed by the new node and every other field kept |
| FileTree.Extension | src/utils/fileUtils.ts:4 | the extension contains no dot; a name without a dot is its own (lower-cased) extension |
| FileTree.ExtensionAfterLastDot | src/utils/fileUtils.ts:4 | the extension of `stem.ext` is `ext` lower-cased |
| FileTree.GetLanguageFromExtension | src/utils/fileUtils.ts:3-34 | a known extension maps to its table entry, any other to `plaintext` |
| FileTree.LanguageAsWritten | src/utils/fileUtils.ts:33 | no ensures of its own; `InheritedKeyYieldsNonString` and `LanguageAgreesOffPrototype` state where it differs from the corrected lookup and where it agrees |
| FileTree.InheritedKeyYieldsNonString | src/utils/fileUtils.ts:33 | the extensions `constructor` and `__proto__` make the written lookup return an inherited object member |
| FileTree.LanguageAgreesOffPrototype | src/utils/fileUtils.ts:33 | apart from those keys, the written lookup and the corrected one agree |
| FileTree.GetPathBreadcrumbs | src/utils/fileUtils.ts:138-140 | at least one crumb, the crumbs joined by ` > ` are the path, and no crumb contains ` > ` |
| Git.Insert | src/services/terminalService.ts:219 | `Set.add`: membership gains the element, existing order is kept, no duplicates appear |
| Git.Delete | src/services/terminalService.ts:218 | `Set.delete`: the filter that drops the element (`Text.Without`), so the other elements keep their order and multiplicity; membership loses exactly the element and no duplicates appear |
| Git.WithoutDistinct | src/services/terminalService.ts:218 | dropping an element from a sequence without duplicates leaves none |
| Git.Dedup | src/services/terminalService.ts:152 | `new Set(xs)` has the same members as `xs` and no duplicates |
| Git.DedupDistinct | src/services/terminalService.ts:152 | a list without duplicates comes out of `new Set` unchanged |
| Git.Initial | src/services/terminalService.ts:147-154 | a new repository is on `main` with no commits, nothing staged or modified, and exactly the directory's files untracked |
| Git.Stage | src/services/terminalService.ts:216-224 | one file moves from untracked, else from modified, to staged; well-formedness and disjointness are kept |
| Git.StageAll | src/services/terminalService.ts:214-224 | listed files leave the untracked set, no file is lost from the three sets, invariants are kept |
| Git.StagedAfterAdd | src/services/terminalService.ts:214-224 | after `git add`, a file is staged exactly when it was staged, or was listed and untracked or modified |
| Git.ModifiedAfterAdd | src/services/terminalService.ts:220-223 | on a disjoint repository a listed file leaves the modified set, the others stay |
| Git.AddAllStagesUntracked | src/services/terminalService.ts:214-224 | `git add .` appends every untracked file, in order, to the staged set and empties the untracked set |
| Git.StageUntrackedPrefix | src/services/terminalService.ts:216-224 | staging the first `i` untracked files moves exactly those, in order |
| Git.IndexIn | src/services/terminalService.ts:239 | `indexOf` gives the first position of the element, or none when it is absent |
| Git.StripQuotes | src/services/terminalService.ts:241 | no ensures of its own; stated by `StripQuotesQuoted` and `StripQuotesUnquoted` |
| Git.StripQuotesQuoted | src/services/terminalService.ts:241 | a message wrapped in quote characters loses exactly the wrapping |
| Git.StripQuotesUnquoted | src/services/terminalService.ts:241 | a message with no quote at either end is kept |
| Git.CommitMessage | src/services/terminalService.ts:238-242 | no ensures of its own; stated by `CommitMessageAfterFlag` and `NoMessageWithoutText` |
| Git.CommitMessageAfterFlag | src/services/terminalService.ts:238-242 | the message is every argument after the first `-m`, joined by spaces, quotes stripped |
| Git.NoMessageWithoutText | src/services/terminalService.ts:238-242 | without `-m`, or with nothing after it, the message is empty |
| Git.Committed | src/services/terminalService.ts:248-257 | a commit appends a record of the staged files and clears the staged set; invariants are kept |
| Git.CommitSummary | src/services/terminalService.ts:261 | the text `GitCommit` prints after a commit (its `CommitSpec`): branch, hash, message and the file count, with `file` pluralised for every count but one |
| Git.AddAllThenCommit | src/services/terminalService.ts:207-257 | `git add .` then a commit records exactly the untracked files, leaving nothing staged or untracked |
| Git.LogOutput | src/services/terminalService.ts:264-290 | no ensures of its own; stated by `OnelineLog`, `FullLog` and `NewestCommitFirst`, and it is what `GitLog`'s loop computes |
| Git.OnelineLog | src/services/terminalService.ts:274-276 | `--oneline` prints one line per commit, newest first, with hash and message |
| Git.FullLog | src/services/terminalService.ts:274-289 | the full log prints five lines per commit, newest first, with a blank line between commits but none after the last |
| Git.NewestCommitFirst | src/services/terminalService.ts:256 | after a commit, the log starts with that commit |
| Git.StatusOutput | src/services/terminalService.ts:161-204 | no ensures of its own; stated by `StatusNamesBranch`, `StatusSections`, `StatusCleanLine`, `StatusListsFiles`, `StatusOrder`, `FreshStatus` and `OnlyTitlesMatch`, and it is what `StatusText` builds |
| Git.StatusNamesBranch | src/services/terminalService.ts:165 | the status text starts with the branch line |
| Git.StatusSections | src/services/terminalService.ts:173-198 | each section title is printed exactly when its set is non-empty |
| Git.StatusCleanLine | src/services/terminalService.ts:200-202 | the clean-tree line is printed exactly when all three sets are empty |
| Git.StatusListsFiles | src/services/terminalService.ts:176-196 | every file of every set is printed on its own line |
| Git.StatusOrder | src/services/terminalService.ts:173-198 | the sections come staged, modified, untracked, each right after the previous one |
| Git.FreshStatus | src/services/terminalService.ts:161-204 | a fresh repository with no files prints the branch, the no-commits note and the clean-tree line |
| Git.OnlyTitlesMatch | src/services/terminalService.ts:173-198 | no hint, file line or blank line of a section can be taken for a title or the clean-tree line |
| Git.BranchOutput | src/services/terminalService.ts:292-300 | what `GitBranch` prints for an existing repository: the one branch marked current in green, or the not-implemented message for any argument |
| Git.CloneNameAsWritten | src/services/terminalService.ts:308 | no ensures of its own; `CloneNameKeepsSuffix` and `AsWrittenOfSegment` show that it removes the first `.git` of the segment |
| Git.CloneOutput | src/services/terminalService.ts:302-313 | the missing-URL error without arguments, else the clone message with the directory `CloneName` gives |
| Git.CloneName | src/services/terminalService.ts:302-313 | the clone directory is the last URL segment without a trailing `.git`, or `repository` when that is empty |
| Git.AsWrittenOfSegment | src/services/terminalService.ts:308 | the written name of a segment starting with `.git` drops that leading `.git` |
| Git.CorrectedOfSegment | src/services/terminalService.ts:308 | the corrected name of a segment ending in `.git` drops that trailing `.git` |
| Git.CloneNameKeepsSuffix | src/services/terminalService.ts:308 | for `dir/.git<m>.git` the written name is `<m>.git` and the corrected one is `.git<m>` |
| Git.Touched | src/services/terminalService.ts:348-351 | `touch` adds the file to the untracked set and changes nothing else |
| Git.TouchKeepsDisjoint | src/services/terminalService.ts:348-351 | touching a file that is neither staged nor modified keeps the sets disjoint |
| Git.TouchStagedFile | src/services/terminalService.ts:350 | touching a staged file puts it in two sets at once |
| Git.ModifiedStaysEmpty | src/services/terminalService.ts:207-262 | no `add`, `commit` or `touch` ever puts a file in the modified set |
| Terminal.BroadcastCalls | src/services/terminalService.ts:46-49 | each notification calls every subscribed listener once, in subscription order |
| Terminal.UnsubscribedNotCalled | src/services/terminalService.ts:41-49 | a listener that unsubscribed is not called |
| Terminal.CurrentFiles | src/services/terminalService.ts:70-75 | no ensures of its own; stated by `CurrentFilesMembers` |
| Terminal.CurrentFilesMembers | src/services/terminalService.ts:70-75 | a name is listed exactly when the file map holds `dir/name` |
| Terminal.CdTarget | src/services/terminalService.ts:320-331 | no ensures of its own; stated by `ParentOfChild`, `CdIntoThenUp` and `CdUpAtTop` |
| Terminal.ParentOfChild | src/services/terminalService.ts:324-326 | dropping the last segment of `a/b` gives `a` |
| Terminal.CdIntoThenUp | src/services/terminalService.ts:320-331 | `cd name` then `cd ..` returns to the starting directory |
| Terminal.CdUpAtTop | src/services/terminalService.ts:323-326 | `cd ..` from a directory without `/` lands on `~` |
| Terminal.Parse | src/services/terminalService.ts:80-109 | no ensures of its own; stated by `ParseTyped`, `ParseBlank` and `ParseNotFound` |
| Terminal.ParseSubcommand | src/services/terminalService.ts:120-139 | the dispatch of `handleGitCommand` on its first argument; `GitSpec` states what each subcommand then does |
| Terminal.ParseTyped | src/services/terminalService.ts:77-109 | a line typed as words separated by single spaces is dispatched on those words |
| Terminal.ParseBlank | src/services/terminalService.ts:105-106 | a line is blank exactly when it holds no word |
| Terminal.ParseNotFound | src/services/terminalService.ts:107-108 | an unknown command is reported by its first word |
| Terminal.MkdirOutput | src/services/terminalService.ts:333-339 | the missing-operand message for an absent or empty name, else the empty output; `CommandSpec` shows nothing else changes |
| Terminal.AppendSection | src/services/terminalService.ts:173-198 | pushing a section's lines appends exactly that section's status lines |
| Terminal.StatusText | src/services/terminalService.ts:163-204 | the lines pushed by `gitStatus` join into the status text of the repository |
| Terminal.StageFiles | src/services/terminalService.ts:216-224 | the staging loop gives the repository that `StageAll` describes |
| Terminal.TerminalService.constructor | src/services/terminalService.ts:25-34 | the service starts in `~/project`, holding only the README, with no repository and no listener |
| Terminal.TerminalService.Subscribe | src/services/terminalService.ts:36-39 | the listener is appended; nothing else changes |
| Terminal.TerminalService.Unsubscribe | src/services/terminalService.ts:41-44 | every subscription of the listener is removed; nothing else changes |
| Terminal.TerminalService.Notify | src/services/terminalService.ts:46-49 | the event is delivered to every listener in order; nothing else changes |
| Terminal.TerminalService.NotifyEach | src/services/terminalService.ts:227 | one `git-add` event per selected file, in order |
| Terminal.TerminalService.CurrentDirectory | src/services/terminalService.ts:412-414 | the current directory, which only `ChangeDirectory` changes |
| Terminal.TerminalService.CurrentRepository | src/services/terminalService.ts:416-418 | the record of the current directory when there is one; `HasGitRepo` is true exactly then |
| Terminal.TerminalService.ListOutput | src/services/terminalService.ts:315-318 | the names under the current directory joined by newlines; `CurrentFilesMembers` and `TouchFile` state which names appear |
| Terminal.TerminalService.CatOutput | src/services/terminalService.ts:358-368 | the missing-operand message, the file's content, or the no-such-file message; `TouchFile` shows a touched file then prints empty |
| Terminal.TerminalService.HasGitRepo | src/services/terminalService.ts:420-422 | true exactly when the current directory has a repository |
| Terminal.TerminalService.GitInit | src/services/terminalService.ts:142-159 | a second init only reports; a first one creates the record from the directory's files and notifies `git-init` |
| Terminal.TerminalService.GitStatus | src/services/terminalService.ts:161-205 | the status text of the current repository, or the not-a-repository error |
| Terminal.TerminalService.GitAdd | src/services/terminalService.ts:207-229 | the errors for no repository and no argument; otherwise stages the selected files and notifies one event each |
| Terminal.TerminalService.GitCommit | src/services/terminalService.ts:231-262 | the errors for no repository, nothing staged and no message; otherwise appends the commit, clears staged and prints the summary |
| Terminal.TerminalService.GitLog | src/services/terminalService.ts:264-290 | the log text of the current repository, the no-commits error, or the not-a-repository error |
| Terminal.TerminalService.GitBranch | src/services/terminalService.ts:292-300 | the current branch marked with `*`, or the not-implemented message when arguments are given |
| Terminal.TerminalService.HandleGitCommand | src/services/terminalService.ts:115-140 | git help for no subcommand, each subcommand's behaviour, the unknown-subcommand message otherwise |
| Terminal.TerminalService.ChangeDirectory | src/services/terminalService.ts:320-331 | only the current directory changes, to the `cd` target |
| Terminal.TerminalService.TouchFile | src/services/terminalService.ts:341-356 | creates or empties the file, marks it untracked in the directory's repository and notifies `file-touch`; afterwards `cat` prints it empty and `ls` lists it |
| Terminal.TerminalService.Run | src/services/terminalService.ts:84-112 | each command's output and state change; read-only commands change nothing |
| Terminal.TerminalService.ExecuteCommand | src/services/terminalService.ts:77-113 | the line is split into words and handled as the command its first word names |

## Left out

- The React components, `Terminal.tsx` and `gitService.ts` are not part of this model. Neither are `generateId` (`fileUtils.ts`), which reads the clock and a random source, nor the console logging.
- `generateHash` and `new Date()`: the commit hash and the rendered date (`toDateString()`) are parameters of `GitCommit`, `HandleGitCommand` and `ExecuteCommand`.
- `executeCommand` and `handleGitCommand` are `async`. The model runs them to completion in one step.
- Listeners are closures. They are modelled as numeric handles that compare by identity. A call is recorded as a `Delivery` in a ghost log rather than run.
- `getRepository` returns the live record, which a caller could mutate. The model returns a copy of the record's value, so aliasing through the getter is not captured.
- The `catch` in `executeCommand` turns the `ensureRepo` exception into its message. The model returns that message (`NotARepository`) directly from each handler.
- Tokens: `trim` and `\s` count Unicode white space. The model treats only space, tab, newline, carriage return, vertical tab and form feed as white space.
- `toLowerCase` lower-cases ASCII letters only.
- `Repository.modified`: no operation of `terminalService.ts` adds a file to it, so its section of `git status` and its branch of `git add` are never reached. Lemma `ModifiedStaysEmpty` records this.
- `git-rm` is a declared event type that is never emitted. The model keeps the constructor and emits nothing for it.
- `git add` notifies one event per selected file, including files it did not stage (`NotifyEach`, `AddSpec`).
- `touch` adds the file to the untracked set even when it is staged or modified, so the sets can overlap (`TouchStagedFile`), although `add` and `commit` keep them disjoint (`Stage`, `Committed`).
- `mkdir` only checks its operand and creates nothing. The model does the same.
- `Git.CloneName`: drops only a trailing `.git`, the corrected rule (see Findings). `CloneNameAsWritten` keeps the written behaviour.
- `Git.CloneOutput`: prints the corrected directory name, so `.github.git` gives `.github` where the source prints `hub.git`.
- `Terminal.TerminalService.HandleGitCommand`: `git clone` prints the corrected directory name, through `CloneOutput`.
- `Terminal.TerminalService.Run`: the `git clone` case prints the corrected directory name, through `HandleGitCommand`.
- `Terminal.TerminalService.ExecuteCommand`: a `git clone` line prints the corrected directory name, through `Run`.
- `FileTree.GetLanguageFromExtension`: the corrected lookup reads the table's own entries only. `LanguageAsWritten` keeps the inherited `Object.prototype` members (see Findings).

## Findings

| source | as written | input that shows it | evidently intended | confidence | as-written member | corrected member |
|---|---|---|---|---|---|---|
| src/services/terminalService.ts:308 | `url.split('/').pop()?.replace('.git', '')` removes the first `.git` anywhere in the last segment | `git clone https://github.com/org/.github.git` clones into `hub.git` (lemma `CloneNameKeepsSuffix`) | drop a trailing `.git` only, giving `.github` | not executed | Git.CloneNameAsWritten | Git.CloneName |
| src/utils/fileUtils.ts:33 | `languageMap[ext] \|\| 'plaintext'` indexes a plain object literal, so inherited keys answer too | `getLanguageFromExtension('a.constructor')` returns the `Object` function, and `'a.__proto__'` returns `Object.prototype`, instead of a language name (lemma `InheritedKeyYieldsNonString`) | `plaintext` for every extension not in the table | not executed | FileTree.LanguageAsWritten | FileTree.GetLanguageFromExtension |
