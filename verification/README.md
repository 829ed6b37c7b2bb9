# Auto-Analyst core in Dafny

A model of the two core pieces of Auto-Analyst, with proofs about them.

- **`DataAnalyst`** (data_analyst_system.py):
  - Registration builds a name-to-agent map and a list of agent descriptions.
  - `forward` asks a planner model for a plan such as `"PreProcess -> Stats"` and splits it on `->`, stripping each name.
  - It then looks up and runs each named agent in order, on the same dataset text and goal, and stops with `KeyError` at the first unknown name.
  - It stores each result under its name (a later run of the same name overwrites the earlier one) and appends each result's code.
  - Finally it hands the concatenated code to a combiner model once.
- **The web service** (app.py):
  - the in-memory user store behind `/register` and `/login`;
  - the object keys and local paths that `/upload`, `/query` and `/results` derive from the user name and the file name;
  - the number of chunks a dataset is cut into (`len // 50 + 1`).

The three language-model calls (planner, agent, combiner) are uninterpreted functions passed in as the `Oracles` datatype. A model need not answer the same prompt twice in the same way, so the agent oracle also receives the position of the call in the plan: two runs of one agent may return different results, and the last-write-wins behaviour of `agent_outputs` is observable. `forward` also records every model call in a log (`Call`). This turns "each agent once, in plan order" and "the combiner exactly once, last" into equalities on that log.

Modules:

| file | module | what it holds |
|---|---|---|
| wrappers.dfy | `Wrappers` | `Option`: Python's `None` for a missing request field |
| text.dfy | `Text` | Python `str` operations: `isspace`, `strip`, `split`, `join`, `replace` |
| last_wins.dfy | `LastWins` | `Latest`: the dict produced by a sequence of `d[k] = v` assignments |
| plan.dfy | `Plan` | `Tokens`: parsing the plan string into agent names |
| analyst_system.dfy | `AnalystSystem` | registration, `forward`, and the reference run it is proved against |
| users.dfy | `Users` | `/register`, `/login` and request sequences |
| storage_keys.dfy | `StorageKeys` | file keys, the download path, result keys, the results prefix, chunking |

The operations are related to independent reference definitions:

- **`Latest`** states last-write-wins directly, with no loop.
- **`Snapshot`** is the state `forward` has reached after running the first `k` names. It uses:
  - `Results`: one agent call per name;
  - `AgentCalls`: the calls the log should hold;
  - `Codes`: the concatenation of code in order;
  - `FirstUnregistered`: the position of the first name that is not registered.
- **`IsLastSegment`** characterises `key.split('/')[-1]` without mentioning `split`.

On these points the model follows what the code does:

- Empty plan names are **kept**, not dropped. `"".split('->')` is `['']`, and a trailing arrow or `A->->B` also yields the name `""`. The lookup of `""` raises `KeyError`, so an empty plan fails before any agent runs. It does not reach the combiner with empty input.
- Registering a name twice is **not an error**. The map entry is overwritten and the description list grows.
- The agent outputs are a dict keyed by **name**, not a trace keyed by step. A name repeated in the plan keeps only its last result, although its code is concatenated once per run.

## Model

| member | source | states |
|---|---|---|
| AnalystSystem.Register | data_analyst_system.py:61-64 | one registration binds the name to the signature, keeps every other binding and appends the description; `Init` and `InitRegistry` state what the whole loop builds |
| AnalystSystem.Init | data_analyst_system.py:58-64 | one description per signature, in registration order; each name bound to the last signature registered under it |
| AnalystSystem.InitRegistry | data_analyst_system.py:59-64 | the registered names are exactly the distinct input names, and a name given twice maps to the later signature |
| AnalystSystem.DuplicateRegistration | data_analyst_system.py:59-64 | registering a name twice leaves fewer map entries than descriptions |
| AnalystSystem.Execute | data_analyst_system.py:86-91 | the loop completes exactly when every remaining name is registered, stops only at an unregistered name from the remaining ones, and only appends to the call log; `ExecuteFrom` relates it to the reference state |
| AnalystSystem.RunPlan | data_analyst_system.py:83-94 | the run finishes exactly when every name is registered, a `KeyError` names an unregistered planned name, and the planner call comes first in the log; `RunPlanOutcome` gives the full outcome |
| AnalystSystem.Forward | data_analyst_system.py:68-94 | the planner call comes first in the log, and a `KeyError` names an unregistered agent; `EmptyPlanFails`, `TrailingArrowFails` and `TwoStepPlan` state whole runs |
| AnalystSystem.FirstUnregistered | data_analyst_system.py:86-88 | every name before the returned position is registered, and the name at it (if any) is not |
| AnalystSystem.SnapshotStep | data_analyst_system.py:88-91 | one loop iteration overwrites the output under the name, appends the result's code and logs exactly one agent call |
| AnalystSystem.ExecuteFrom | data_analyst_system.py:86-91 | the loop, from any point up to the first unregistered name, ends there (or completes) in the reference state |
| AnalystSystem.RunPlanOutcome | data_analyst_system.py:83-94 | a plan completes and calls the combiner on the accumulated code, or raises `KeyError` at its first unregistered name with the state reached |
| AnalystSystem.PlanCompletes | data_analyst_system.py:81-94 | with every name registered: the planner is called first, then each agent once in plan order on the same dataset and goal, then the combiner once on the in-order concatenation of their code, whose answer is returned |
| AnalystSystem.PlanStops | data_analyst_system.py:86-88 | with an unregistered name: `KeyError` for the first one; only the agents before it have run, the code is theirs, and the combiner is never called |
| AnalystSystem.CombinerOnce | data_analyst_system.py:93-94 | the log holds at most one combiner call; it is present only on success, is the last call, and receives the full accumulated code |
| AnalystSystem.OutputsLastWins | data_analyst_system.py:84-90 | the outputs map has exactly the names that ran as keys, each bound to the result of its last run |
| AnalystSystem.RepeatOverwrites | data_analyst_system.py:86-91 | a plan naming one agent twice keeps only the second run's result, while the code of both runs is concatenated |
| AnalystSystem.EmptyPlanFails | data_analyst_system.py:82-88 | an empty plan raises `KeyError("")` with nothing run, unless `""` is registered |
| AnalystSystem.TrailingArrowFails | data_analyst_system.py:82-88 | a plan ending with `->` raises `KeyError` unless `""` is registered |
| AnalystSystem.TwoStepPlan | data_analyst_system.py:81-94 | a two-name plan yields the first run's code followed by the second's, the combiner's answer on it, and outputs where the second run overwrites the first when the names agree |
| Plan.Tokens | data_analyst_system.py:82-87 | there is one name more than there are arrows, and no name starts or ends with whitespace |
| Plan.ArrowCount | data_analyst_system.py:82 | splitting on `->` yields one piece per arrow plus one |
| Plan.SplitJoinArrow | data_analyst_system.py:82 | splitting arrow-free pieces joined by arrows gives the pieces back |
| Plan.TokensOfJoin | data_analyst_system.py:82-87 | a plan written as arrow-free pieces parses to those pieces, stripped, in order |
| Plan.WhitespaceInsensitive | data_analyst_system.py:82-87 | plans whose pieces agree after stripping parse to the same names |
| Plan.PlanFormat | data_analyst_system.py:82-87 | `A -> B  ->C` and `A->B->C` both parse to `[A, B, C]`, for names with no dash and no whitespace at their ends |
| Plan.EmptyNamesKept | data_analyst_system.py:82-87 | `A->->B` is `[A, "", B]` for names with no dash and no whitespace at their ends: the empty name between the arrows is kept |
| Plan.EmptyPlan | data_analyst_system.py:82-87 | the empty plan parses to the single empty name |
| Plan.TrailingArrow | data_analyst_system.py:82-87 | a plan ending with `->` ends with the empty name |
| Text.IsSpace | data_analyst_system.py:87 | the characters `str.isspace` accepts in CPython, and so the ones `strip()` removes: tab to carriage return, the four separators U+001C–U+001F, space, U+0085, U+00A0, U+1680, U+2000–U+200A, U+2028, U+2029, U+202F, U+205F and U+3000 |
| Text.Strip | data_analyst_system.py:87 | the result has no whitespace at either end, and it is empty exactly when the input is all whitespace; `StripMiddle` states that it is a part of the input with only whitespace around it |
| Text.StripMiddle | data_analyst_system.py:87 | the strip of a string is a contiguous part of it, and everything before and after that part is whitespace |
| Text.TrimLeft | data_analyst_system.py:87 | the result is the longest suffix not starting with whitespace, and everything removed is whitespace |
| Text.TrimRight | data_analyst_system.py:87 | the result is the longest prefix not ending with whitespace, and everything removed is whitespace |
| Text.StripPadded | data_analyst_system.py:87 | whitespace added around a string does not change its strip |
| Text.StripFixed | data_analyst_system.py:87 | strip leaves a string unchanged exactly when neither end is whitespace |
| Text.StripIdempotent | data_analyst_system.py:87 | stripping twice is stripping once |
| Text.Split | data_analyst_system.py:82 | at least one piece; `SplitFirst` (each piece ends at the leftmost remaining occurrence) and `SplitJoin` (joining gives the input back) state what the pieces are, for any separator, including one that overlaps itself; `SplitPiecesFree`, `SplitNoSeparator` and `SplitLast` add further facts |
| Text.Join | data_analyst_system.py:82 | the joined string starts with the first piece; `SplitJoin` and `SplitJoinArrow` state that join and split are inverse |
| Text.Replace | app.py:101 | a replacement as long as the pattern keeps the length; `ReplaceIsJoinOfSplit`, `ReplaceAbsent` and `ReplaceCharAbsent` state what it replaces |
| Text.SplitFirst | data_analyst_system.py:82 | the first piece runs from the start up to the leftmost occurrence of the separator, or is the whole input when there is none; the other pieces are the split of what follows that occurrence |
| Text.SplitJoin | data_analyst_system.py:82 | joining the pieces of a split with the separator gives back the input |
| Text.SplitPiecesFree | data_analyst_system.py:82 | no piece of a split contains the separator, and the first piece is a prefix of the input |
| Text.SplitNoSeparator | data_analyst_system.py:82 | a string without the separator splits into itself alone |
| Text.SplitLast | app.py:92 | the last piece of a split is a suffix of the input, preceded by the separator unless it is the whole input |
| Text.ReplaceIsJoinOfSplit | app.py:101 | `s.replace(p, r)` equals `r.join(s.split(p))` |
| Text.ReplaceAbsent | app.py:101 | replacing a pattern that does not occur leaves the string unchanged |
| Text.ReplaceCharAbsent | app.py:101 | a character in neither the string nor the replacement is absent from the result |
| LastWins.LatestSnoc | data_analyst_system.py:90 | one more dict assignment updates the last-write-wins map at that key only |
| LastWins.LatestAt | data_analyst_system.py:90 | the keys are the distinct assigned keys, and each is bound to the value of its last assignment |
| LastWins.DistinctKeysBound | data_analyst_system.py:61-63 | a dict never has more keys than assignments, and has fewer when a key repeats |
| Users.Register | app.py:45-55 | 201 exactly for a new username, else 400 with the store unchanged; the keys grow by the username; no stored password changes; a new username stores its password |
| Users.Login | app.py:57-67 | 200 exactly when the username is stored with an equal password, else 401; the store is unchanged |
| Users.Handle | app.py:45-67 | each request is answered with 200, 201, 400 or 401, adds at most its own username to the store, and changes no stored password |
| Users.Serve | app.py:45-67 | one status per request, each one of the four codes; `PasswordsStable`, `AccountsCounted` and `LoginMeansRegistered` state what a sequence of requests does to the store |
| Users.PasswordsStable | app.py:51-54 | across any request sequence, every stored username keeps its password |
| Users.AdminAlwaysLogsIn | app.py:43 | after any request sequence, `admin` / `password123` still logs in |
| Users.RegisterThenLogin | app.py:45-67 | a fresh username logs in with its registered password and no other, and a second registration of it is refused |
| Users.AccountsCounted | app.py:51-55 | the number of accounts grows by exactly the number of 201 answers |
| Users.LoginMeansRegistered | app.py:45-67 | for a username absent at start, login with `p` succeeds exactly when some request registered it with `p` and was answered 201 |
| StorageKeys.Basename | app.py:92 | the result is the last `/`-separated segment: a slash-free suffix, either the whole key or preceded by `/` |
| StorageKeys.FileKey | app.py:75 | the upload key lies in the user's folder and ends with the file name; `BasenameOfFileKey` states that the file name is its last segment |
| StorageKeys.BasenameOfFileKey | app.py:75 | the last segment of an upload key is the uploaded file name, when that name has no slash |
| StorageKeys.DatasetPath | app.py:92 | the download path is under `/tmp/`, and the rest is the key's last segment |
| StorageKeys.SharedDatasetPath | app.py:92 | two users' files with the same name download to the same local path |
| StorageKeys.ResultsPrefix | app.py:116 | the listing prefix is a folder inside the user's folder, ending with `/` |
| StorageKeys.ResultKey | app.py:101 | the result key starts with the user's results prefix and has no slash after it |
| StorageKeys.KeysForQuery | app.py:88-101 | with `file_key` missing, no path or key exists (the request fails); otherwise the path is under `/tmp/` and the result-key expression lies under the user's prefix |
| StorageKeys.ReplaceEnding | app.py:101 | replacing a pattern whose first character does not recur in it, in a string that ends with it and has no other occurrence, replaces just that ending |
| StorageKeys.ResultKeyOfCsv | app.py:101 | the result for `name.csv`, where `name` holds no `.csv` of its own (dots allowed, as in `sales.2024.csv`), is stored as `name_result.json` under the querying user's prefix |
| StorageKeys.ResultKeyOfOther | app.py:101 | a file name without `.csv` is kept unchanged in the result key |
| StorageKeys.ResultsIsolated | app.py:116 | for slash-free user names, a result key matches a user's results prefix exactly when that user wrote it |
| StorageKeys.ResultsLeak | app.py:101-116 | for a user named after another user's results prefix, the result-key expression lies under that prefix. As written no such key is stored: app.py:99 raises `TypeError`, and once that is fixed `json.dumps` at app.py:105 raises on the agents' result objects. Both must be fixed before the key reaches the other user's listing |
| StorageKeys.UploadLeak | app.py:75-77 | a user named after another user's results prefix uploads a file whose key lies under that prefix, so the other user's listing (app.py:116-125) reads it |
| StorageKeys.UploadIsolated | app.py:75 | for slash-free user names, an upload lies under a user's results prefix only when that user made it |
| StorageKeys.ChunkCount | app.py:96-97 | at least one chunk, and `50 * (n - 1) <= rows < 50 * n` |

## Left out

- What the models do is not modelled. Prompt wording, `dspy.ChainOfThought` and reasoning traces are out of scope; planner, agent and combiner are arbitrary functions of their inputs.
- Planner, agent and combiner calls are assumed to return. In the source, any of them can raise: a transport error, or a reply without a `code` field, which makes `result.code` (data_analyst_system.py:91) or `final_code.code` (data_analyst_system.py:94) raise `AttributeError`. Such an exception propagates out of `forward` and is not modelled, so `Outcome` has only `Finished` and `KeyError`. `PlanCompletes` and `RunPlanOutcome` hold only for calls that return.
- `json.dumps` of the query result at app.py:105 is left out. As written it raises `TypeError` on the agents' result objects, so `/query` could not store a result even with app.py:99 fixed.
- Each agent's name and description are taken as given. Deriving them from the pydantic schema and rendering them with `str(...)` is left out.
- The planner receives the description list itself, not its `str(...)` rendering.
- `dataset.to_string()` is left out: the dataset is given as the text the agents receive.
- The `httpx.Client.__init__` patch is left out because it only affects networking.
- Flask routing, request parsing and JSON responses are left out. So are JWT issuance and checking, S3 and SQS calls, file upload bytes, and environment checks. The store and the key builders are modelled; their I/O is not.
- Keys assume the JWT identity is a string. If a user registers with no username, the identity is Python's `None`, and its rendering in a key as `None` is not modelled.
- Only `file_key.split('/')[-1]` and the key layout of `/query` are modelled. Downloading, `pd.read_csv` and the 500 answers for I/O failures are not.
- The `DataAnalyst.forward(chunks[0], query)` call at app.py:99 is left out. It is made on the class rather than an instance: `chunks[0]` fills `self`, `query` fills `dataset`, and the `query` parameter is left unfilled. As written it raises `TypeError` on every request, so `/query` always answers 500 and the result key of app.py:101 is never built. `ResultKey` and `KeysForQuery` model that expression on its own, as it would run once the call is fixed.
- `/results` is modelled only as its prefix (`ResultsPrefix`) and the isolation and leak lemmas. Listing and reading the objects is I/O.
- How `np.array_split` distributes rows over the chunks is left out, because numpy is not part of the source. Only the chunk count is modelled; since it is at least 1, `chunks[0]` always exists.
- User-interface/script.js is context only and is not modelled.
- Text.Split: Python raises `ValueError` for an empty separator. The model requires a non-empty one, which every call site passes.
- Text.Replace: requires a non-empty pattern, because Python's empty-pattern replacement is never used here.
- Users.Serve: its own contract states only one status per request, each one of the four codes. Its effect on the store is stated by the lemmas about it.
- Users.Serve: requests are handled one at a time. Under a threaded server, the membership test at app.py:51 and the assignment at app.py:54 of two registrations can interleave. Both can then be answered 201 and the later password wins, which `PasswordsStable` and `AccountsCounted` do not allow.
- Users.Serve: a request field that is present is modelled as a string. A JSON number or boolean is a different dict key (and `True` and `1` are the same key). A list or object raises `TypeError` when used as a key, which answers 500. A body that is not a JSON object is not modelled either.
- StorageKeys.ResultsIsolated: holds only for user names without `/`, but `/register` accepts any name; `ResultsLeak` and "## Findings" show the leak this allows.
- StorageKeys.UploadIsolated: holds only for user names without `/`, for the same reason; `UploadLeak` and "## Findings" show the leak.

## Findings

| source | as written | input that shows it | evidently intended | confidence | as-written member | corrected member |
|---|---|---|---|---|---|---|
| app.py:75-125 | `/results` lists and reads every key that starts with `{user}/processed-results/`, `/upload` stores at `{user}/{filename}`, and `/register` accepts any user name | user `a/processed-results/x` uploads `f.csv`; the key `a/processed-results/x/f.csv` starts with `a/processed-results/`, so user `a`'s `/results` reads it | a user's listing holds only that user's results; with user names free of `/` (the check `/register` lacks) no other user's upload lies under the prefix | high; not executed | StorageKeys.UploadLeak | StorageKeys.UploadIsolated |
| app.py:101-116 | the result key of `/query` is `{user}/processed-results/{name}` for the same unchecked user names | user `a/processed-results/x` queries a file; its result key starts with `a/processed-results/`, so user `a`'s listing returns it. As written nothing is stored by this route. The call at app.py:99 raises `TypeError` before the key is built. Once that is fixed, `json.dumps` at app.py:105 raises `TypeError` on the agents' result objects, because `agent_outputs` is never empty on success. The leak needs both lines fixed | a user's listing holds only that user's results; with user names free of `/` this holds | low; not executed | StorageKeys.ResultsLeak | StorageKeys.ResultsIsolated |
