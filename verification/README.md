# pggit / pghash / LogDS in Dafny

A model of the pure logic inside a small git-backed log store:

- **DiffContent** (`diff_content.dfy`): the cursor walk of `git_diff_content`. It turns the unified diff of one file into removed lines keyed by old line number and added lines keyed by new line number. The module also holds the `--name-status` reader of `git_diff_filenames`. Both are in `pgsoft/pggit/git_utils.py`.
- **GitDiff** (`git_diff.dfy`): the per-file grouper of `git_diff` in `src/pggit/git_utils.py`. It includes an exact model of the header pattern `.*a/(.*) .*b/(.*)"?`: the greedy backtracking matcher settles on the lexicographically greatest split. It also holds a corrected header reader, explained under Findings.
- **Remotes** (`remotes.dfy`): the `git remote -v` scans of `git_remote_exist` and `git_remote_get` in the same file.
- **Canon** (`canon.dfy`): `sort_dict` and `md5` of `pgsoft/pghash/md5.py`. Values are JSON-like with string keys. `str()` rendering plus the MD5 digest is one function parameter.
- **LogBuffer** and **LogSync** (`logds.dfy`): the `LogDS` class of `src/pggit/logds.py`, covering:
  - the keyed append of `addlog` into day shards;
  - the reload of pulled increments;
  - the decisions of `__synchronize` and `__backup`.

  Every call into git, the hub, the file system, the clock, the date parser, JSON decoding and the digest is an input. For the log buffer these inputs are an `Env`; for one synchronisation they are a `World` plus write, push and thread-liveness parameters. What the code attempts is returned as a trace of actions.
- **Text** and **Wrappers** (`text.dfy`, `wrappers.dfy`): the Python string operations the code relies on. These are `startswith`, `split()`, `split(sep)`, `strip`, `int()`, `str(n)`, and code-point order on strings. An uncaught Python exception is `Raise(kind)` of a `Result`.

Two points where the model follows the code closely:

- Exceptions inside `__load_increasement` propagate out of `__synchronize` and `__backup`; nothing catches them, so a cycle can end with an exception instead of `false`.
- The test at `src/pggit/test_git_utils.py:106-115` names `added` and `removed` the other way round from `pgsoft/pggit/git_utils.py:173-180`. The model follows the code, where a `-` line goes to `removed` keyed by the old cursor.

## Model

| member | source | states |
|---|---|---|
| DiffContent.DiffContentLoop | pgsoft/pggit/git_utils.py:159-183 | The loop as written returns exactly what the line-by-line walk from cursors (1, 1) returns, exceptions included |
| DiffContent.RaisesOnlyAtHunkHeaders | pgsoft/pggit/git_utils.py:163-168 | The walk fails exactly when some line is an `@@` header whose two starts cannot be read; every other line is accepted whatever it holds |
| DiffContent.BeforeAnyHunk | pgsoft/pggit/git_utils.py:159-182 | Before any hunk header both cursors count from 1: the i-th removal/addition is recorded at 1 plus the old/new lines covered before it, and no key outside that range is written |
| DiffContent.HeaderResets | pgsoft/pggit/git_utils.py:164-168 | A readable `@@` line sets both cursors to its declared starts, whatever they were, records nothing, and the walk continues from there |
| DiffContent.HunkHeaderRoundTrip | pgsoft/pggit/git_utils.py:164-167 | Reading a hunk header `@@ -o[,ol] +n[,nl] @@...` as git writes it gives back (o, n), with or without lengths and heading |
| DiffContent.HeaderWithoutRanges | pgsoft/pggit/git_utils.py:165-166 | An `@@` line without a second token raises `IndexError` |
| DiffContent.FileHeaderLinesSkipped | pgsoft/pggit/git_utils.py:169-172 | Any line starting `---` or `+++` leaves the walk unchanged, even inside a hunk |
| DiffContent.DoubleDashRemovalDropped | pgsoft/pggit/git_utils.py:169-176 | A removed line whose own text starts with `--` is neither recorded nor counted |
| DiffContent.RemovalStep | pgsoft/pggit/git_utils.py:173-176 | `-x` records `x` at the old cursor and moves only the old cursor |
| DiffContent.AdditionStep | pgsoft/pggit/git_utils.py:177-180 | `+y` records `y` at the new cursor and moves only the new cursor |
| DiffContent.BodyLayout | pgsoft/pggit/git_utils.py:163-182 | In a hunk body each removal/addition lands at the hunk start plus the lines covered before it; cursors end past the covered lines; earlier keys below the cursors are kept |
| DiffContent.PositionsIncrease | pgsoft/pggit/git_utils.py:163-182 | Within one hunk the keys written to each map strictly increase in walk order |
| DiffContent.OneReplacement | pgsoft/pggit/git_utils.py:163-182 | Header, context, `-x`, `+y` gives exactly removed {o+1: x} and added {n+1: y} |
| DiffContent.ContextRemovalAddition | pgsoft/pggit/git_utils.py:163-182 | The same for the header text git writes, e.g. `@@ -5,3 +5,4 @@` |
| DiffContent.NameStatusRaises | pgsoft/pggit/git_utils.py:117-123 | `git_diff_filenames` raises `IndexError` exactly when some line has no tab, and nothing else |
| DiffContent.NameStatusKeys | pgsoft/pggit/git_utils.py:117-123 | The keys are exactly the stripped second tab fields of the lines |
| DiffContent.NameStatusLastWins | pgsoft/pggit/git_utils.py:118-122 | The last line naming a file decides its status |
| DiffContent.NameStatusUntouched | pgsoft/pggit/git_utils.py:118-122 | A name no line mentions keeps its value |
| Text.ParseDecimal | pgsoft/pggit/git_utils.py:166-167 | `int(str(n)) == n` for the starts of a hunk header |
| GitDiff.MatchAt | src/pggit/git_utils.py:191 | The positions the matcher settles on are in pattern order: `a/`, then the separator space, then `b/`, without overlap |
| GitDiff.MatchAtGreatest | src/pggit/git_utils.py:191 | The matcher's positions are a valid split, no valid split comes after them in backtracking order, and there are none exactly when no split exists |
| GitDiff.HeaderOfKeptName | src/pggit/git_utils.py:191-193 | For a name holding neither `a/` nor `b/`, the pattern reads the name twice from `diff --git a/x b/x` |
| GitDiff.HeaderAfterLastA | src/pggit/git_utils.py:191 | For a kept name holding `a/`, the old name read is what follows its last `a/` |
| GitDiff.HeaderOfNestedName | src/pggit/git_utils.py:191-198 | For `d + "a/" + f`, the two names read differ: `f` and the full name |
| GitDiff.StepRaises | src/pggit/git_utils.py:190-212 | One iteration raises exactly on a `diff` line the pattern misses or a `---`/`+++` line with one token |
| GitDiff.RunRaises | src/pggit/git_utils.py:188-212 | The grouping fails exactly when some line is bad, whatever state it starts from |
| GitDiff.HeaderStep | src/pggit/git_utils.py:190-198 | A header with differing names replaces the old name's entry by exactly `{rename: new}`; with equal names the entry is kept or created |
| GitDiff.RenameOnly | src/pggit/git_utils.py:194-198 | A lone rename header yields just `{old: {rename: new}}` |
| GitDiff.NullMarkers | src/pggit/git_utils.py:199-212 | `--- /dev/null` replaces the entry of the current new name by `{newfile: b}`; `+++ /dev/null` replaces that of the old name by `{delfile: a}` |
| GitDiff.BodyStep | src/pggit/git_utils.py:213-222 | Any other line gives the current old name an entry and appends its text without the first character to `delline` or `addline` |
| GitDiff.BodyAppends | src/pggit/git_utils.py:213-222 | A run of such lines appends their `-` and `+` texts in order to the current entry and touches nothing else |
| GitDiff.RunConcat | src/pggit/git_utils.py:188-189 | The loop over two runs of lines is the loop over the first, then the second |
| GitDiff.Section | src/pggit/git_utils.py:190-222 | A header plus body lines gives the old name's entry (the rename marker or the earlier entry) with the body appended |
| GitDiff.NewSideBody | src/pggit/git_utils.py:206-222 | A `+++` line not naming `/dev/null` is itself appended to `addline` |
| GitDiff.NewFileRun | src/pggit/git_utils.py:199-222 | After `--- /dev/null` the section is not skipped: the later lines land next to the `newfile` marker |
| GitDiff.NewFileSection | src/pggit/git_utils.py:199-222 | The lines git prints for a new file give `{newfile: x, addline: ["++ b/x", y]}` |
| GitDiff.NestedNameRenamed | src/pggit/git_utils.py:191-198 | As written: the header of an unchanged `data/x` reports the rename `x -> data/x` |
| GitDiff.FixedKeptName | src/pggit/git_utils.py:191-193 | The corrected reader returns any unquoted kept name twice, `a/` and `b/` inside it included |
| GitDiff.FixedRename | src/pggit/git_utils.py:191-198 | The corrected reader returns both names of a rename when neither holds ` b/` |
| GitDiff.FixedKeptSection | src/pggit/git_utils.py:190-222 | With the corrected reader a kept file's section is one entry under its own name, without rename |
| GitDiff.NestedNameKept | src/pggit/git_utils.py:190-198 | The corrected reader on the `data/x` header gives `{data/x: {}}` |
| GitDiff.ParseWith | src/pggit/git_utils.py:182-223 | With `nameonly` the result is the lines themselves; otherwise, for any header reader, it fails exactly when some line is bad and is a per-file map otherwise |
| GitDiff.ParseGitDiff | src/pggit/git_utils.py:182-223 | As written, with the header pattern: the lines themselves with `nameonly`; otherwise a failure exactly when some line is bad for the pattern, else a per-file map |
| GitDiff.FixedParseGitDiff | src/pggit/git_utils.py:182-223 | The same with the corrected header reader |
| GitDiff.RunError | src/pggit/git_utils.py:190-212 | The exception raised is the first bad line's: `AttributeError` for a `diff` line, `IndexError` for a `---`/`+++` line |
| GitDiff.ParseError | src/pggit/git_utils.py:182-212 | The same for `git_diff` as written |
| GitDiff.KeptRun | src/pggit/git_utils.py:188-222 | Sections of distinct kept files, each read as its own name twice, add exactly one entry per file, holding its removed and added lines in order, and leave earlier entries alone |
| GitDiff.KeptDiff | src/pggit/git_utils.py:182-223 | As written: a diff of distinct kept files whose names hold neither `a/` nor `b/` groups into exactly one entry per file, keyed by its name, with its `-` and `+` lines |
| GitDiff.FixedKeptDiff | src/pggit/git_utils.py:182-223 | With the corrected reader the same holds for any unquoted names |
| Remotes.RemoteExist | src/pggit/git_utils.py:436-439 | True exactly when some line starts with the alias |
| Remotes.FirstMention | src/pggit/git_utils.py:470-471 | The first line that starts with the alias; none exactly when no line does |
| Remotes.RemoteGet | src/pggit/git_utils.py:470-474 | `None` exactly when no line starts with the alias; otherwise the second token of the first such line, or `IndexError` when it has one token |
| Remotes.RemoteGetLoop | src/pggit/git_utils.py:470-474 | The loop as written agrees with the first-mention search |
| Remotes.GetImpliesExist | src/pggit/git_utils.py:436-439 | Whatever `git_remote_get` finds, `git_remote_exist` reports |
| Remotes.PrefixAliasFound | src/pggit/git_utils.py:437 | As written: alias `o` is found beside `origin`, and `git_remote_get` returns the url of `origin` |
| Remotes.FixedRemoteExact | src/pggit/git_utils.py:436-439 | Comparing the first token, a remote line names exactly its own alias |
| Remotes.PrefixAliasRejected | src/pggit/git_utils.py:436-439 | The corrected test rejects `o` and accepts `origin` on the same line |
| Canon.InsertPerm | pgsoft/pghash/md5.py:35-37 | Inserting one item adds exactly that item to the multiset |
| Canon.SortPerm | pgsoft/pghash/md5.py:35-37 | Sorting the items is a permutation |
| Canon.SortAscending | pgsoft/pghash/md5.py:35-37 | Items with distinct keys come out in strictly ascending key order |
| Canon.AscendingUnique | pgsoft/pghash/md5.py:35-40 | Two ascending item lists with the same items are equal: the order is fixed by the keys alone |
| Canon.SortDict | pgsoft/pghash/md5.py:26-40 | Same key set and size, keys ascending, every non-dict value (lists included) unchanged, every value replaced by its canonical form, a permutation of the input items |
| Canon.SortDictNested | pgsoft/pghash/md5.py:32-34 | Every dict-valued item is replaced by its own `sort_dict` result |
| Canon.CanonInvariant | pgsoft/pghash/md5.py:26-40 | Values equal up to key order at every depth have the same canonical form |
| Canon.CanonEquiv | pgsoft/pghash/md5.py:26-40 | The canonical form is equal to the value up to key order and has distinct keys again |
| Canon.SortDictIdempotent | pgsoft/pghash/md5.py:26-40 | `sort_dict(sort_dict(d)) == sort_dict(d)` |
| Canon.Md5Invariant | pgsoft/pghash/md5.py:9-23 | Dicts equal up to key order at every depth hash alike |
| Canon.Md5Plain | pgsoft/pghash/md5.py:19-23 | A value that is not a dict is hashed as it is |
| Canon.Md5OfCanon | pgsoft/pghash/md5.py:19-23 | Hashing the canonical form of a dict gives the dict's own hash |
| Canon.SwappedKeysHashAlike | pgsoft/pghash/md5.py:43-88 | A two-level version of the demonstration: the dict with keys swapped at both levels hashes alike |
| LogBuffer.ProcessLog | src/pggit/logds.py:113-117 | Keys and their order kept, every value replaced by the string `str()` gives for it |
| LogBuffer.ProcessLogIdempotent | src/pggit/logds.py:113-117 | Since `str` of a string is itself, processing twice equals processing once |
| LogBuffer.Lookup | src/pggit/logds.py:122-123 | `None` exactly when the key is absent; otherwise the value stored under its last occurrence |
| LogBuffer.LogDate | src/pggit/logds.py:122-127 | The date is the clock unless the log has a string `timestamp` the parser reads, and then it is exactly the parsed date |
| LogBuffer.ShardPath | src/pggit/logds.py:128-132 | The path is `dir/year/month/day/<first two digest chars>.json` |
| LogBuffer.AddLog | src/pggit/logds.py:119-138 | The processed log becomes the last row of exactly its shard, which starts from the buffer, else the file, else empty; the keys grow by that shard only and every other shard is unchanged |
| LogBuffer.AddLogKept | src/pggit/logds.py:133-138 | `addlog` only appends: every earlier shard keeps its rows as a prefix |
| LogBuffer.AddLogSharedShard | src/pggit/logds.py:131-138 | Two logs naming the same shard end up in that one shard, in order, and no other shard appears |
| LogBuffer.AddLines | src/pggit/logds.py:108-109 | Feeding lines to `addlog` only appends, also when a line fails part-way; it raises nothing exactly when every line decodes to a JSON object, and otherwise raises `ValueError` or `AttributeError` |
| LogBuffer.AddLinesStops | src/pggit/logds.py:108-109 | At the first line that is not an object the load stops with that line's exception, keeping what the lines before it added |
| LogBuffer.AddLinesKeys | src/pggit/logds.py:108-109 | When every line is an object the shards are the earlier ones plus exactly the shards of the records |
| LogBuffer.AddLinesRows | src/pggit/logds.py:108-109 | Each shard is then its starting rows followed by the records that belong to it, in line order |
| LogBuffer.AddLinesConcat | src/pggit/logds.py:108-109 | Loading `a + b` is loading `a`, then `b` unless `a` raised |
| LogBuffer.Load | src/pggit/logds.py:100-110 | Loading an increment only appends to the buffer; it raises only `ValueError` or `AttributeError`, and only when some line of some file is not an object |
| LogBuffer.LoadAllBuffered | src/pggit/logds.py:103-109 | When every file is buffered, the load feeds all their lines to `addlog`, the file `popitem` takes first first |
| LogBuffer.LoadSplit | src/pggit/logds.py:103-109 | Loading `a + b` loads the files of `b` first, then those of `a` unless `b` raised |
| LogBuffer.LoadUnbuffered | src/pggit/logds.py:104-109 | An increment none of whose files is a buffer key loads nothing and raises nothing |
| LogBuffer.LoadIgnoresUnbuffered | src/pggit/logds.py:105-109 | The lines of a file whose path is not buffered when `popitem` reaches it are never read: replacing them changes nothing |
| LogSync.Attempt | src/pggit/logds.py:91-97 | A failed pull or push turns off LFS lock checking exactly when its error text starts with the LFS refusal |
| LogSync.Synchronize | src/pggit/logds.py:35-63 | Returns false exactly on clone failure, pull failure, or a moved head with no readable increment. A false result leaves the buffer as it was. A failed clone leaves the repository absent and attempts no pull. A failed pull attempts a hard reset. It never writes or pushes |
| LogSync.SynchronizeUnchangedHead | src/pggit/logds.py:52-54 | An unchanged head returns true with the buffer untouched and nothing loaded |
| LogSync.SynchronizeLoads | src/pggit/logds.py:55-63 | A moved head with a readable increment loads it, and returns true exactly when loading raises nothing |
| LogSync.SynchronizeRaises | src/pggit/logds.py:55-62 | A synchronisation raises only what loading a line raises: `ValueError` or `AttributeError` |
| LogSync.SynchronizeAsWritten | src/pggit/logds.py:52-58 | As written, a pull that moves the head raises `AttributeError` at the `git_diff_content` lookup, before anything is loaded; every other path is that of `Synchronize` |
| LogSync.MovedHeadRaises | src/pggit/logds.py:52-62 | For any readable increment whose lines decode, the code as written raises where the intended call loads it and returns true |
| LogSync.PullFailureIgnoresMessage | src/pggit/logds.py:41-51 | A failed pull fails the call and attempts a reset whatever its message |
| LogSync.Backup | src/pggit/logds.py:140-164 | An empty buffer or a live sync thread returns true and changes nothing. A failed sync returns false with the buffer unchanged and no push. The result is true exactly in those two cases or after a successful sync, write and push. A successful cycle empties the buffer. An exception from the synchronisation escapes as it is, with its state and trace. The unguarded `to_json` write raises `OSError` exactly when a sync succeeded and the write failed |
| LogSync.WriteFailureKeeps | src/pggit/logds.py:145-149 | A failed write raises, keeps every buffered record, and attempts no push and no reset |
| LogSync.PushFailureKeeps | src/pggit/logds.py:150-161 | A failed push attempts a hard reset, returns false and keeps every buffered record |
| LogSync.RetryAfterPushFailure | src/pggit/logds.py:140-164 | After a failed push the buffer is not empty, and the next backup that syncs and pushes clears it |
| LogSync.NoRecordLost | src/pggit/logds.py:140-164 | After a backup every buffered record is still buffered, or the backup succeeded after writing all of them and pushing; a backup that raises keeps them all |
| LogSync.PushOnlyAfterWrite | src/pggit/logds.py:145-150 | A push happens only after a successful synchronisation followed by a successful write of the whole buffer |

## Left out

- Running git, `subprocess`, `os.chdir`, `os.path.exists`, `is_repo_root` and the git wrappers (`git_reset`, `git_config`, `git_pull` and the like): their output lines or outcomes are inputs.
- The early returns of `git_diff_content`, `git_diff`, `git_remote_exist` and `git_remote_get` when the directory is missing, is not a repository or git fails: they sit before the parsing loops and depend only on I/O.
- The `res.replace("/", os.sep)` step: on POSIX it changes nothing.
- The C-style escapes git uses inside quoted file names. The grouper's `strip('"')` of the names is modelled; unescaping is not.
- `hashlib.md5` and Python's `str()` rendering are one uninterpreted function.
- The `sort_dict` fallback at `pgsoft/pghash/md5.py:38-39`: with distinct string keys, tuple comparison never reaches the values, so the first `sort()` cannot fail. With keys of mixed types that lambda itself raises. Keys are strings here.
- The in-place update of nested dicts at `pgsoft/pghash/md5.py:34`: the model returns a new value and leaves the input as it was.
- `src/pggit/md5.py`, the digest `LogDS` imports, does not canonicalise. It is the `digest` parameter, so a log's shard depends on its key order.
- `date_utils.py`: parsing is a function `string -> Option<Date>`, and the clock is one `Date` per operation.
- LogBuffer.AddLines: the clock is read once for the whole load, not once per line as `beijing()` would be.
- `datasets.Dataset` JSON files: the shard files on disk are a map from path to rows, and `to_json` is a `Write` action carrying the rows written.
- `__clonerepo` and `__pullrepo` (`src/pggit/logds.py:65-98`): only their outcomes. The `db_token` variable and the Hugging Face repository object are not modelled.
- The reset outcome after a failed pull or push only chooses a printed message, so it is not an input. All `print` output is left out.
- `start_synchronize`, threads and `BackgroundScheduler` (`src/pggit/logds.py:179-189`): thread liveness is a boolean input to `Backup`, and concurrency is not modelled.
- `LogDS.__init__`: a `Node` starts with no clone and an empty buffer.
- Text.ParseInt: only the ASCII digits `0`-`9` are read. Python's `int()` also accepts other Unicode decimal digits, such as Arabic-Indic or fullwidth ones, which the model rejects with `ValueError`. Whitespace follows `str.isspace`.
- Canon.Value: JSON numbers with a fraction or exponent (Python `float`) are not a case of `Value`. Floating point is left out, so `str()` of a float and float keys or values are not modelled.
- LogSync.Backup: a failing write is one outcome for the whole buffer. Which shard files `to_json` already wrote before it failed is not tracked.
- LogSync.Synchronize: the increment is an input in the shape `__load_increasement` consumes, file names to their lines. The function that should produce it does not exist as called (see Findings), so that shape is assumed.
- LogBuffer.Load: `popitem` also empties the caller's increment dict. The model takes the increment by value; the dict is a local of `__synchronize` and is not read again.
- `pgfile.py`, `pghost.py`, `setup.py` and the tests are not part of this model.

## Findings

| source | as written | input that shows it | evidently intended | confidence | as-written member | corrected member |
|---|---|---|---|---|---|---|
| src/pggit/git_utils.py:191 | `.*a/(.*) .*b/(.*)"?` lets the greedy `.*` run to the last `a/` before the separator space, so a name holding `a/` is cut | `diff --git a/data/x b/data/x` (file `data/x`, unchanged name) reads as old `x`, new `data/x`, and the file is reported as renamed | split at the ` b/` git wrote: the old name is everything between `a/` and it | high, not executed | GitDiff.NestedNameRenamed | GitDiff.FixedKeptName |
| src/pggit/logds.py:55-57 | `git_utils.git_diff_content(rootdir=..., beforeId=..., afterId=...)`: the `git_utils` beside `logds.py` has no `git_diff_content`. The one in `pgsoft/pggit/git_utils.py:126` also needs `filepath` and returns a tuple, not a dict | any pull that moves the head: the lookup raises `AttributeError`, which escapes `__synchronize` and `__backup` | ask for the changed files' lines since `HEAD_before` as a dict of file name to lines, `None` on failure | high, not executed | LogSync.MovedHeadRaises | LogSync.SynchronizeLoads |
| src/pggit/git_utils.py:437 | `line.startswith(reponame)` tests a prefix of the whole line | alias `o` with only `origin\tu (fetch)` configured: `git_remote_exist` is true and `git_remote_get` returns `u` | compare the alias to the line's first token | high, not executed | Remotes.PrefixAliasFound | Remotes.FixedRemoteExact |

`GitDiff.ParseGitDiff` models `git_diff` as written, with the pattern. `GitDiff.FixedParseGitDiff` uses the corrected header reader `GitDiff.FixedHeaderNames`, and `GitDiff.FixedKeptDiff` is the whole-diff property it restores. `GitDiff.FixedRename` and `GitDiff.NestedNameKept` prove more about that reader. The same prefix test appears in `git_remote_get` at `src/pggit/git_utils.py:471`, and `Remotes.PrefixAliasRejected` shows the corrected test on the input above.
