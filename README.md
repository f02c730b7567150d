# Crypto project assistant: the store and the prompt, in Dafny

This project models the data layer and the prompt assembly of a small chat assistant for
crypto airdrop projects. It covers four things.

- **The loader.** It imports parsed JSON project records into two tables: `projects`, with
  twelve text columns, and `requirements`, whose rows reference a project by id.
- **The read-only queries.** They list names, look up a project by name, join
  requirements by project name, search a column, filter by status and group by status.
- **The context text.** It is built from those queries: a header, then one fixed-format
  block per listed project.
- **The model call.** The system and user messages go to a remote language model, which
  is a parameter here: an oracle from the message list to a completion.

Files:

- `wrappers.dfy`: `Option`.
- `seqs.dfy`: `Filter`, `Map` and `LeadingCount` with their lemmas. The queries are list
  comprehensions over rows, and these are their building blocks.
- `strings.dfy`: the host-language string operations the core relies on:
  `sep.join(parts)`, substring containment and `str.strip()`. It also has concatenation
  lemmas.
- `store.dfy` (`ProjectStore`):
  - the schema as datatypes;
  - the parsed JSON records, where a key that may be missing is an `Option`;
  - the effect of one `insert_project` call (`InsertAttempt`) and of the loader
    (`LoadFrom`), as functions;
  - the class `ProjectDatabase`, whose methods update the tables and are proved against
    those functions.

  The class keeps two views of the tables. `live` is what the loader's own connection
  sees, uncommitted rows included. `committed` is what the database file holds.
- `queries.dfy` (`ProjectQueries`):
  - the queries over the committed tables;
  - `GroupByStatus` as a loop proved against a map comprehension;
  - lemmas on what the queries return after one completed insert.
- `assistant.dfy` (`Assistant`):
  - the block format, and `BuildContext` (the `+=` loop) proved against `ContextText`;
  - lemmas on the shape of the context and on how it changes after an insert;
  - the two prompt messages, `_query_gpt` and `process_query`.

Two behaviours of the code shape the model:

- **Errors while loading.**
  - A missing key in a record is not propagated to the caller. `load_projects_from_json`
    catches it, logs it, and stops the import.
  - When the missing key belongs to a requirement, the project row and the requirement
    rows written before it stay uncommitted. `close()` does not commit, so they are
    discarded. The import is therefore atomic per record even then.
- **A listed name always finds its row.** A lookup that finds no row returns an empty
  dictionary, not an error, and every field then prints as `None`. `Assistant.Printed`
  models this.

## Model

| member | source | states |
|---|---|---|
| ProjectStore.ColumnValue | src/data_process.py:233 | The text of the column a search names, the `{key}` spliced into the SQL: one of the twelve text columns of a project row. |
| ProjectStore.WellFormed | src/data_process.py:32-54 | The store's integrity: ids between 1 and the AUTOINCREMENT counter and strictly increasing in row order in both tables, and every requirement's `project_id` naming an existing project row, as the FOREIGN KEY declares. |
| ProjectStore.ExtractInfo | src/data_process.py:75-88 | The insert's parameter tuple exists exactly when every nested key is present, and each column equals its nested input field (`links_twitter` is `links.social.twitter`, `rewards_amount` is `rewards.amount`, ...). |
| ProjectStore.RequirementDocs | src/data_process.py:91 | The record's `requirements` list, or the empty list when the key is absent. |
| ProjectStore.ExtractRequirement | src/data_process.py:95 | A requirement's parameters exist exactly when `task`, `difficulty` and `deadline` are all present, and they are those three values. |
| ProjectStore.ParsedRequirements | src/data_process.py:91-95 | The requirements inserted before a missing key stops the loop: as many as the leading complete entries, each equal to its entry's fields. |
| ProjectStore.AddProjectRow | src/data_process.py:68-89 | The project INSERT: the row is appended under the next AUTOINCREMENT id, which becomes `lastrowid`. |
| ProjectStore.AddRequirementRow | src/data_process.py:92-95 | The requirement INSERT: the row is appended under the next requirement id, owned by the given project id. |
| ProjectStore.AddProjectRowWellFormed | src/data_process.py:68-89 | Inserting a project row under the next AUTOINCREMENT id keeps ids increasing and every foreign key valid, and the new id names an existing row. |
| ProjectStore.AddRequirementRowWellFormed | src/data_process.py:92-95 | A requirement row that references an existing project keeps the store well formed. |
| ProjectStore.AppendRequirements | src/data_process.py:91-95 | The requirement loop as a function of the tables: one `AddRequirementRow` per entry, stopping at the first entry with a missing key, with a flag saying whether it ran to its end. Its properties are those of `AppendRequirementsRows`. |
| ProjectStore.AppendRequirementsRows | src/data_process.py:91-95 | The requirement loop leaves the projects alone. It appends exactly the leading complete requirements, in order, with consecutive fresh ids, all carrying the given project id. It finishes exactly when every entry is complete. |
| ProjectStore.AppendRequirementsWellFormed | src/data_process.py:91-95 | The requirement loop keeps every `project_id` pointing at an existing project. |
| ProjectStore.InsertAttempt | src/data_process.py:62-97 | One call of `insert_project` as a function of the tables its connection sees: nothing when a project key is missing, otherwise the project row and then the requirement loop. It returns the tables and whether the commit was reached. Its properties are those of the `InsertAttempt*` lemmas. |
| ProjectStore.InsertAttemptWellFormed | src/data_process.py:62-97 | insert_project preserves the foreign-key invariant and only appends, whether or not it reaches its commit. |
| ProjectStore.InsertAttemptOutcome | src/data_process.py:75-97 | insert_project reaches its commit exactly when the record is complete. A record missing a project key writes nothing. |
| ProjectStore.InsertAttemptRows | src/data_process.py:68-95 | A completed insert appends exactly one project row with the record's fields, under an id greater than every existing id. It appends exactly one requirement row per nested requirement, or none when the key is absent. Each carries that id, in document order, and nothing else changes. |
| ProjectStore.LoadFrom | src/data_process.py:99-113 | The loader's loop as a function: each record goes through `InsertAttempt` in order. A completed insert commits the live tables. The first failed insert ends the loop with the committed tables left as they were. Its properties are those of the `Load*` lemmas. |
| ProjectStore.LoadKeepsIntegrity | src/data_process.py:99-113 | Loading keeps both views well formed and the committed rows a prefix of the live ones. With every record complete, nothing is left uncommitted. |
| ProjectStore.LoadCommitsLeadingRecords | src/data_process.py:103-113 | Loading commits exactly the records before the first incomplete one, one project row each, in document order, after the rows already stored. |
| ProjectStore.LoadCommitsTheirRequirements | src/data_process.py:103-113 | The committed requirement table grows by as many rows as those records have requirements. |
| ProjectStore.LoadedProjects | src/data_process.py:68-89 | The project rows a run of completed inserts writes: one per record, in order, under the ids after the last one handed out. |
| ProjectStore.LoadedRequirements | src/data_process.py:89-95 | The requirement rows a run of completed inserts writes, as owner id and columns: each record's requirements in document order, owned by that record's id. |
| ProjectStore.LoadCommitsProjectRows | src/data_process.py:103-113 | The committed project table is the old one followed by exactly `LoadedProjects` of the records before the first incomplete one: their fields, in document order, under consecutive ids after the last one handed out. |
| ProjectStore.AddedRowsTagged | src/data_process.py:89-95 | The requirement rows a completed insert appends are the record's requirements in document order, each owned by the new project id. |
| ProjectStore.LoadCommitsRequirementRows | src/data_process.py:103-113 | The old requirement rows stay a prefix of the committed ones. What follows them is exactly `LoadedRequirements` of the records before the first incomplete one: record after record, each record's requirements in document order, owned by its own project id. |
| ProjectStore.ProjectDatabase.constructor | src/data_process.py:12-23 | Opening a database over existing well-formed tables: both views hold them. |
| ProjectStore.ProjectDatabase.InsertProject | src/data_process.py:62-97 | The method's new tables and outcome are those of `InsertAttempt`. The commit happens exactly when the call completes, and integrity is preserved. |
| ProjectStore.ProjectDatabase.LoadProjects | src/data_process.py:99-113 | A missing or undecodable file changes nothing. Otherwise the records go through insert_project in order until one fails, with the result given by `LoadFrom`. |
| ProjectStore.ProjectDatabase.Close | src/data_process.py:115-119 | Closing discards whatever the connection had not committed. |
| ProjectQueries.GetAllProjects | src/data_process.py:143-144 | One name per project row, in row order, duplicates kept. |
| ProjectQueries.FirstNamed | src/data_process.py:157-158 | The position of the first row whose name is exactly the given one. No earlier row has that name. |
| ProjectQueries.GetProjectInfo | src/data_process.py:149-177 | Empty exactly when no row has the name. Otherwise it holds the fields, without the id, of a row with that name that no other row of that name precedes. |
| ProjectQueries.GetRequirementsByProject | src/data_process.py:179-196 | A requirement is returned exactly when some row of the requirements table holds it and its project, any project of that name and not only the first, is named `n`. |
| ProjectQueries.RequirementsByProjectCounts | src/data_process.py:187-193 | The join keeps each requirement row owned by a project of that name as many times as the table holds it, and no other row. |
| ProjectQueries.SearchProjects | src/data_process.py:224-256 | Exactly the rows whose chosen column contains the value. |
| ProjectQueries.SearchProjectsCounts | src/data_process.py:233-236 | Each matching row is returned as many times as the table holds it, and no other row is returned. |
| ProjectQueries.SearchEmptyValue | src/data_process.py:233-234 | Searching for the empty string returns every row in row order. |
| ProjectQueries.FilterByStatus | src/data_process.py:258-289 | Exactly the rows whose status equals the argument. |
| ProjectQueries.FilterByStatusCounts | src/data_process.py:266-286 | Each row of that status is returned as many times as the table holds it, and no row of another status is returned. |
| Seqs.FilterCounts | src/data_process.py:266-286 | Filtering keeps each kept element with its multiplicity and drops every other one. |
| ProjectQueries.DistinctStatuses | src/data_process.py:299-300 | GROUP BY status: every status in the table, each once, and no other. |
| ProjectQueries.StatusGroups | src/data_process.py:299-305 | The map from each distinct status to `FilterByStatus` of it. Its properties are those of `StatusGroupsPartition`. |
| ProjectQueries.GroupByStatus | src/data_process.py:292-305 | The loop builds the map from each distinct status to `filter_by_status` of it. |
| ProjectQueries.StatusGroupsPartition | src/data_process.py:299-305 | Every row sits in the group of its own status, a group holds only table rows with its status, and no group is empty: the groups partition the rows. |
| ProjectQueries.InsertThenProjectInfo | src/data_process.py:157-174 | After a completed insert, the name list gains the record's name at its end. A lookup still finds the first row with the name: the earlier row if there was one, else the new row. |
| ProjectQueries.InsertThenRequirements | src/data_process.py:187-193 | After a completed insert, a name's requirements are the old ones, followed by the record's own in document order when the record has that name. |
| Strings.Join | src/assistant_interface.py:46 | `sep.join(parts)`: the parts with the separator between each pair. Its properties are those of `JoinSnoc`. |
| Strings.JoinSnoc | src/assistant_interface.py:46 | Joining with a separator: nothing gives the empty string, and one more part adds the separator and that part. |
| Strings.Contains | src/data_process.py:233-234 | The `LIKE '%value%'` test: the needle occurs somewhere in the text. |
| Strings.ContainsAt | src/data_process.py:233-234 | Substring containment holds exactly when the needle occurs at some offset. |
| Strings.Strip | src/assistant_interface.py:99 | The result is the input with its surrounding whitespace removed, and it neither starts nor ends with whitespace. |
| Strings.StrippedUnique | src/assistant_interface.py:99 | A string has exactly one stripped form. |
| Strings.StripIdempotent | src/assistant_interface.py:99 | Stripping twice is stripping once. |
| Assistant.Printed | src/assistant_interface.py:36-45 | What each `project_info.get(key)` placeholder prints: the row's value, or `None` for every key when the lookup found no row. |
| Assistant.RequirementText | src/assistant_interface.py:34 | One requirement as its task, difficulty and deadline, with a vertical bar between spaces separating each pair. |
| Assistant.BlockFields | src/assistant_interface.py:36-45 | The seven field lines, in their fixed order: short description, full description, status, last update, reward amount with the approximate amount, distribution date, then the website and the three social links. Each line is its label, the printed value and a line break. |
| Assistant.RequirementsLine | src/assistant_interface.py:34-46 | The requirements label, the renderings joined with `; `, and a blank line. Its shape is stated by `RequirementsLineFrame`. |
| Assistant.RenderBlock | src/assistant_interface.py:35-46 | A block: the header line, the field lines, then the requirements line. |
| Assistant.ContextText | src/assistant_interface.py:28-47 | The context starts with the fixed header, and with no project it is the header alone. |
| Assistant.ProjectBlock | src/assistant_interface.py:31-46 | The block one loop iteration appends for a name: rendered from that name's lookup and that name's join. |
| Assistant.ProjectBlocks | src/assistant_interface.py:30-46 | One block per name in the given order. Each is rendered from `get_project_info` and `get_requirements_by_project` of that same name. |
| Assistant.BuildContext | src/assistant_interface.py:27-46 | The text the loop accumulates is the header followed by the blocks of all listed names. |
| Assistant.ContextBlockAt | src/assistant_interface.py:28-46 | The context is the header and then exactly one block per listed name. The i-th name's block stands between the blocks before and after it. |
| Assistant.ListedNameFound | src/assistant_interface.py:30-31 | A listed name's lookup always finds a row of that name, so no field of its block prints as `None`. |
| Assistant.HeaderQuotesName | src/assistant_interface.py:35 | The block header is `Project name: '`, the name, then `':` and a line break. |
| Assistant.RequirementsLineFrame | src/assistant_interface.py:34-46 | The last line is its label, the requirement renderings joined with `; `, then a blank line. An empty requirement list gives an empty join. |
| Assistant.BlockStartsWithHeader | src/assistant_interface.py:35 | Every block starts with its header line. |
| Assistant.BlockEndsWithRequirements | src/assistant_interface.py:35-46 | Every block ends with its requirements line, and so with a blank line. |
| Assistant.AbsentNameHasNoRequirements | src/data_process.py:187-193 | A name no project row carries joins no requirements. |
| Assistant.OtherBlockAfterInsert | src/assistant_interface.py:31-46 | After an insert, a name other than the record's keeps its block. |
| Assistant.OldBlocksAfterInsert | src/assistant_interface.py:30-46 | After an insert, every name that was listed keeps its block, when the record's name is not yet listed. |
| Assistant.DuplicateNameAfterInsert | src/assistant_interface.py:28-46 | Inserting a complete record under a name already listed: the block of that name keeps the earlier project's fields and gains the record's requirements after its own, and the context appends one more block for the new row, repeating that same block. |
| Assistant.ContextAfterInsert | src/assistant_interface.py:28-46 | Inserting a complete record under a new name appends exactly one block to the context: its name, its fields and its requirements in document order. |
| Assistant.SystemMessage | src/assistant_interface.py:58-68 | Role `system`. The content is the fixed instruction paragraph followed immediately by the context. |
| Assistant.SystemPrompt | src/assistant_interface.py:52-70 | The system message around the context built from the current store. |
| Assistant.UserPrompt | src/assistant_interface.py:80-83 | Role `user`. The content is exactly the fixed request line followed by the user's text. |
| Assistant.ReplyText | src/assistant_interface.py:99 | `response.choices[0].message.content`: present only when the call returned, has a first choice, and that choice holds text. |
| Assistant.QueryGpt | src/assistant_interface.py:86-102 | A failure gives `Unable to answer.`: the call raising, no choice, or no text. Otherwise the answer is the reply's text with its surrounding whitespace removed. |
| Assistant.ProcessQuery | src/assistant_interface.py:111-116 | Exactly two messages go to the model, the system message first and the user message second. The answer is what `_query_gpt` makes of the reply. |

## Left out

- SQLite itself is not modelled: connections, cursors, `CREATE TABLE IF NOT EXISTS` and the
  file format. The tables are sequences in insertion order. A query without `ORDER BY`
  is taken to return rows in that order, including the join in
  `_get_requirements_by_project`, which is taken in requirement-table order.
- Reading and decoding the JSON file is a parameter (`JsonSource`): the file is missing,
  its text is undecodable, or it holds the parsed records.
- Non-string JSON values are not modelled, nor is `null`. A record field is either a
  string or missing. The same holds for a `requirements` key that is present but not a
  list.
- ProjectQueries.SearchProjects: `LIKE` is modelled as case-sensitive substring
  containment. SQLite's ASCII case folding and the `%`/`_` wildcards inside the
  value are not modelled.
- ProjectQueries.SearchProjects: the column is one of the twelve text columns. A search
  on `id`, or on a name that is not a column, is not modelled. The column name is spliced
  into the SQL text without any check.
- ProjectQueries.StatusGroups: the map has no key order, so the order of the dictionary's
  keys, which is that of the `GROUP BY` result, is not modelled. A `NULL` status is not
  modelled either.
- ProjectStore.ProjectDatabase.constructor: it requires the tables it opens to be well
  formed. The file is assumed to have been written by this loader.
- Assistant.BuildContext: the `except` branch returning `Unable to fetch project data.`
  is not modelled. No step of the loop raises in the model: a failed lookup yields an
  empty dictionary, and the queries swallow store errors.
- The query interface's `except sqlite3.Error` branches are not modelled. They return
  empty results on store failures, and the model has no store failures.
- The `except` handler of `group_by_status` is not modelled. When the GROUP BY query
  itself fails, `status` is still unbound, so the handler raises `UnboundLocalError`
  instead of logging and returning `{}`.
- Logging is not modelled anywhere.
- The OpenAI client is not modelled: its construction, the model name, the sampling
  temperature and the network. The call is an oracle from the message list to an
  exception or a list of choices.
- `main.py` is not part of this model: the interactive loop, the check that the database
  file exists, and console output.
- The query interface's own `close()` only ends a read-only connection and is not
  modelled.
