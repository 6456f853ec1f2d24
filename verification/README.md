# Multi-Domain Intelligence Platform — verified model of the core

The platform is a small Streamlit portal. Users register and log in
against a SQLite users table with bcrypt-hashed passwords. A per-browser
session records who is logged in. Three protected pages sit behind that
session gate:

- a Cybersecurity dashboard that filters and counts incident rows;
- an IT Operations dashboard that filters and counts service-desk tickets
  and names the slowest staff member;
- an AI Assistant that answers prompts with canned keyword-based replies
  and keeps a chat history.

This project models that core in Dafny and proves what each part promises.

| file | module | models |
|---|---|---|
| wrappers.dfy | `Wrappers` | `Option` |
| text.dfy | `Text` | the Python string operations the core relies on: `lower()`, `in` on strings, `strip()`, `split(',')`, string `<` |
| tables.dfy | `Tables` | the data-frame operations of the dashboards: `isin` filtering, the chain of filters, `len(df[df[c] == v])`, `value_counts()` |
| credentials.dfy | `Credentials` | db_manager.py: the users table as a class `UserStore` over a map from username to row, with `register_user`, `verify_user`, `get_user_role` and `migrate_users` |
| session.dfy | `SessionGate` | `st.session_state` as a class `Session` over a map from key to value, the login guard, and app.py's default flag and Logout |
| login.dfy | `LoginPage` | Pages/1.Login.py: the already-logged-in stop, the Login form and the Register form |
| chat.dfy | `Chat` | the keyword responder of Pages/4.AI_Assitant.py and the shape of its chat history |
| assistant.dfy | `AssistantPage` | the chat-history updates of Pages/4.AI_Assitant.py on the session |
| cyber.dfy | `CyberDashboard` | Pages/2.Cybersecurity_Dashboard.py |
| itops.dfy | `ItDashboard` | Pages/3.IT_Operarions_Dashboard.py |

Modelling choices:

- **Mutable state.** The users table and the session are mutable in the
  source. They are classes whose methods carry `modifies` clauses. Each
  method's `ensures` gives the new state as a function of the old one.
- **Filter chains.** Each dashboard narrows a copy of its rows step by
  step. That is an imperative `ApplyFilters` method. It is proved equal to
  `Tables.Narrow`, a reference definition that keeps the rows passing
  every non-empty selection, in order.
- **Pure parts.** Metrics, value counts, the phishing subset, the staff
  table and the responder are functions. Lemmas relate them to
  independent descriptions: multiplicities of the column, set membership,
  order and uniqueness.
- **Parameters.** Randomness and file contents are parameters: the bcrypt
  salt, the lines of users.txt, and the rows already loaded from the CSV
  files.
- **The bcrypt stand-in.** `HashWith` keeps bcrypt's layout. A hash is a
  seven-character prefix (`$2a$`, `$2b$` or `$2y$`, a two-digit cost from
  04 to 31, then `$`), a 22-character salt, and then a digest. `HashPw`
  uses the `$2b$12$` prefix of `bcrypt.gensalt()`. The digest is idealised
  as the password itself. `CheckPw` re-hashes with the prefix and the salt
  read from the stored value. What the model then relies on:
  - `CheckPw` fails exactly when the stored value lacks that layout;
  - a hash is accepted for its own password and refused for every other
    one (`CheckAnySetting`);
  - the salt sits at a fixed place in the hash, so two salts give two
    hashes (`SaltsSeparateHashes`).
- **Malformed stored hashes.** `bcrypt.checkpw` raises ValueError when the
  stored value is not a bcrypt hash. That can happen to rows imported
  verbatim from users.txt. The model returns `None` in that case, and the
  Login page reports it as `StoredHashRejected`.
- **Error handling as the code has it.**
  - Registration: the bare `except` of `register_user`
    (db_manager.py:106) cannot tell a duplicate username from a storage
    failure, so the model has only the duplicate case.
  - The slowest-staff line (Pages/3.IT_Operarions_Dashboard.py:109) has
    no guard for an empty staff table; see Findings.

## Model

| member | source | states |
|---|---|---|
| Credentials.CheckPw | db_manager.py:118-119 | `checkpw` fails (None) exactly when the stored value lacks bcrypt's layout: a `$2a$`/`$2b$`/`$2y$` prefix with a cost from 04 to 31, then a salt |
| Credentials.CheckAnySetting | db_manager.py:118-119 | a hash made under any accepted version and cost is accepted for its own password and refused for every other password |
| Credentials.SettingExamples | db_manager.py:96-97 | the `gensalt()` default prefix is accepted; hashes of versions 2a and 2y are checked like 2b; a cost of 03 or a `$2x$` prefix is refused as not a bcrypt hash |
| Credentials.CheckAcceptsOwnHash | db_manager.py:96-97 | a hash made by `hashpw` from a password and salt is accepted for that password |
| Credentials.CheckRejectsOtherPassword | db_manager.py:118-119 | a hash made from one password is refused for every different password |
| Credentials.SaltsSeparateHashes | db_manager.py:96-97 | two different salts give two different hashes of the same password |
| Credentials.Insert | db_manager.py:14-21 | an insert under the UNIQUE username constraint adds the row for a new name, leaves the table unchanged for a taken one, and never alters another row |
| Credentials.Verify | db_manager.py:109-120 | an unknown username is refused (False); True is only possible for a username that has a row |
| Credentials.RoleOf | db_manager.py:122-129 | the role is returned exactly when the username has a row, and it is the stored role; otherwise None |
| Credentials.RegisterThenVerify | db_manager.py:94-120 | after registering a new name, logging in with the same password succeeds, the role read back is the registered one, and every other user's role is unchanged |
| Credentials.RegisterTwiceKeepsFirst | db_manager.py:94-107 | a second registration of a name changes nothing: the first password still works, the second works only if equal to the first, and the first role remains |
| Credentials.ParseLineFields | db_manager.py:59-62 | a line is skipped exactly when it is blank or has fewer than three comma-separated fields; otherwise the first three comma-free fields spell out the stripped line up to its end or its third comma |
| Credentials.ImportEntryKeys | db_manager.py:63-69 | after one imported line a username has a row exactly when it had one before or the line names it |
| Credentials.MigratedKeepsExisting | db_manager.py:58-69 | the import never changes or removes an existing row |
| Credentials.MigratedKeys | db_manager.py:58-69 | after the import a username has a row exactly when it had one before or some parsed line names it |
| Credentials.FirstLineWins | db_manager.py:58-69 | for a new username, the first line naming it decides its hash and role; later lines with that name are ignored |
| Credentials.UserStore.constructor | db_manager.py:6-21 | opening the database keeps the rows already stored (CREATE TABLE IF NOT EXISTS) |
| Credentials.UserStore.RegisterUser | db_manager.py:94-107 | returns True exactly when the name was new; the table becomes the old table with the salted hash and role inserted under the UNIQUE constraint |
| Credentials.UserStore.VerifyUser | db_manager.py:109-120 | the verdict is `Verify` of the current table, and the table is not changed |
| Credentials.UserStore.GetUserRole | db_manager.py:122-129 | the result is `RoleOf` of the current table, and the table is not changed |
| Credentials.UserStore.MigrateUsers | db_manager.py:52-74 | a missing file imports nothing; otherwise the table becomes the old table with every parsed line inserted in file order |
| Text.LowerPreservesOccurrence | Pages/4.AI_Assitant.py:40 | an occurrence of a word in the prompt is an occurrence of its lower-case form in the lower-cased prompt |
| Text.MissingCharExcludes | Pages/4.AI_Assitant.py:40-49 | a string lacking some letter of a keyword cannot contain that keyword |
| Text.StripIsSlice | db_manager.py:59-60 | `strip()` returns a slice of the line with only whitespace cut off either side, and the slice neither starts nor ends with whitespace |
| Text.StripBlank | db_manager.py:59 | a stripped line is empty exactly when the line is all whitespace |
| Text.JoinSplit | db_manager.py:60 | joining the parts of `split(',')` with commas gives back the line |
| Text.SplitJoin | db_manager.py:60 | splitting the comma-join of comma-free fields gives back the fields |
| Text.LexLessIrreflexive | Pages/2.Cybersecurity_Dashboard.py:103 | no string sorts before itself |
| Text.LexLessTransitive | Pages/3.IT_Operarions_Dashboard.py:102 | string order is transitive |
| Text.LexLessTotal | Pages/3.IT_Operarions_Dashboard.py:102 | of two different strings one sorts before the other |
| Text.LexLessExtension | Pages/2.Cybersecurity_Dashboard.py:103 | a string sorts before each of its proper extensions |
| Text.LexLessCommonPrefix | Pages/2.Cybersecurity_Dashboard.py:103 | a shared prefix does not change how two strings compare |
| Tables.Keep | Pages/2.Cybersecurity_Dashboard.py:56 | `isin` keeps at most all rows, keeps only rows whose value is selected, and keeps every such row |
| Tables.KeepAppend | Pages/2.Cybersecurity_Dashboard.py:56 | `isin` keeps rows in their original order: it distributes over concatenation |
| Tables.KeepNoneOrAll | Pages/2.Cybersecurity_Dashboard.py:56 | a selection matching no value keeps no row; one covering every value keeps all rows |
| Tables.CountPositive | Pages/2.Cybersecurity_Dashboard.py:67 | a value's count is positive exactly when the value occurs in the column |
| Tables.DisjointCounts | Pages/3.IT_Operarions_Dashboard.py:74-77 | the counts of two different values in one column add up to at most the row count |
| Tables.CountIsMultiplicity | Pages/2.Cybersecurity_Dashboard.py:67-70 | an equality count is the multiplicity of the value in the column |
| Tables.ValueCounts | Pages/2.Cybersecurity_Dashboard.py:79 | `value_counts()` has one entry per value that occurs, holding its positive count |
| Tables.ValueCountsTotal | Pages/2.Cybersecurity_Dashboard.py:79 | the frequencies add up to the number of rows |
| Tables.ValueCountsMultiplicity | Pages/2.Cybersecurity_Dashboard.py:87 | each frequency is the multiplicity of its value in the column, and the frequencies account for every row |
| Tables.Narrow | Pages/2.Cybersecurity_Dashboard.py:54-60 | the filter chain's reference: at most all rows, only rows passing every non-empty selection, and every such row |
| Tables.NarrowUnrestricted | Pages/2.Cybersecurity_Dashboard.py:54-60 | with every selection empty, the rows come back unchanged |
| Tables.NarrowExcludes | Pages/3.IT_Operarions_Dashboard.py:61-67 | a non-empty selection that matches no value in its column leaves no row |
| Tables.NarrowAppend | Pages/2.Cybersecurity_Dashboard.py:54-60 | the chain keeps rows in their original order: it distributes over concatenation |
| Tables.NarrowStep | Pages/2.Cybersecurity_Dashboard.py:55-60 | an `if sel: df = df[df[col].isin(sel)]` step extends the chain by that selection, whether or not the selection is empty |
| Chat.Respond | Pages/4.AI_Assitant.py:40-59 | the reply is the security text, the IT text, or a reply that quotes the prompt verbatim after the fixed opening |
| Chat.RespondByTopic | Pages/4.AI_Assitant.py:40-59 | the security text exactly for a security topic, the IT text exactly for an IT topic, otherwise the fixed opening, the prompt verbatim and the fixed closing |
| Chat.KeywordInAnyCase | Pages/4.AI_Assitant.py:40-49 | a security keyword in any case gets the security text; an IT keyword gets one of the two advice texts, never the echo |
| Chat.SecurityExample | Pages/4.AI_Assitant.py:40-48 | a prompt mentioning "security" gets the security text |
| Chat.PriorityExample | Pages/4.AI_Assitant.py:40-49 | a prompt naming both "CYBER" and "ticket" gets the security text |
| Chat.TicketExample | Pages/4.AI_Assitant.py:49-57 | a prompt about a ticket gets the IT text |
| Chat.SubstringExample | Pages/4.AI_Assitant.py:49 | "it" matches inside another word, so "Help with my printer" gets the IT text |
| Chat.FallbackExample | Pages/4.AI_Assitant.py:58-59 | a prompt without any keyword gets the echo reply |
| Chat.ExchangeKeepsConversation | Pages/4.AI_Assitant.py:28-64 | the greeting alone is a conversation, and appending a prompt and its reply keeps it one |
| Chat.ConversationShape | Pages/4.AI_Assitant.py:17-64 | a history opens with the assistant, has odd length, and every user message sits at an odd index with its reply right after it |
| Chat.ConversationFrame | Pages/4.AI_Assitant.py:17-20 | a history has odd length and opens with the assistant |
| Chat.UserMessageAnswered | Pages/4.AI_Assitant.py:30-64 | each user message in a history is followed at once by the reply to it |
| SessionGate.WithLoginFlag | app.py:37-38 | the default adds `logged_in = False` only when the key is absent and keeps every existing key and value |
| SessionGate.LoginFlagKeepsGate | app.py:37-40 | setting the default never changes whether the session is logged in, is idempotent, and makes a fresh session not logged in |
| SessionGate.LoggedInAs | Pages/1.Login.py:31-33 | after login the session passes the guard and holds the username and role; no other key is added and the chat history is kept |
| SessionGate.Session.constructor | app.py:37 | a new browser session holds no keys |
| SessionGate.Session.InitLoginFlag | app.py:37-38 | the session becomes `WithLoginFlag` of the old session |
| SessionGate.Session.Logout | app.py:47-48 | deleting every key one by one leaves the session empty |
| SessionGate.Home | app.py:37-49 | the login prompt exactly when not logged in; the welcome exactly when logged in and Logout not clicked, with the session unchanged; Logout empties the session |
| SessionGate.LogoutThenRerun | app.py:46-49 | Logout and the rerun leave only `logged_in = False`, and the rerun shows the login prompt |
| LoginPage.RoleName | Pages/1.Login.py:45 | every role the Register form submits is one of the five offered |
| LoginPage.EveryRoleOffered | Pages/1.Login.py:45 | each of the five offered roles can be submitted |
| LoginPage.Run | Pages/1.Login.py:8-55 | a logged-in session stops the page with nothing changed. Login: only a True verdict logs in, with the role the table holds; False or a bcrypt error leaves the session unchanged; the table is unchanged either way. Register: mismatched passwords change nothing; otherwise the table gains the hashed row exactly when the name is new, reported as created or "Username already exists" |
| LoginPage.LoginStoresRole | Pages/1.Login.py:30-33 | a successful login stores the table's role for the user (never None) and keeps a well-formed chat history well-formed |
| AssistantPage.InitHistory | Pages/4.AI_Assitant.py:17-20 | the greeting is installed only when there is no history, and a valid session stays valid |
| AssistantPage.Submit | Pages/4.AI_Assitant.py:28-64 | the reply is `Respond(prompt)`; the history gains exactly the user message and then the reply, and stays a conversation |
| AssistantPage.ClearChat | Pages/4.AI_Assitant.py:67-71 | the history becomes the single "Chat cleared" greeting and stays a conversation |
| AssistantPage.Run | Pages/4.AI_Assitant.py:6-71 | not logged in: the page stops with the session unchanged. Otherwise a non-empty prompt is answered with `Respond`; the session gains at most the `messages` key and no other key changes; the history becomes `HistoryAfter` of the stored history (or the greeting when there is none) and stays a conversation |
| AssistantPage.StartingHistory | Pages/4.AI_Assitant.py:17-20 | a run starts from the stored history, or from the greeting alone when there is none; either is a conversation |
| AssistantPage.Converse | Pages/4.AI_Assitant.py:28-71 | with a history present: the reply is `Respond` of a non-empty prompt and absent otherwise; only the `messages` key changes, to `HistoryAfter` of the old history; the history stays a conversation |
| AssistantPage.HistoryAfter | Pages/4.AI_Assitant.py:28-70 | Clear Chat leaves only the cleared greeting; otherwise the history only grows, by exactly the user's prompt and the reply to it when a non-empty prompt was submitted and by nothing otherwise |
| AssistantPage.HistoryAfterKeepsConversation | Pages/4.AI_Assitant.py:28-70 | whatever a run does, a conversation stays a conversation |
| CyberDashboard.ApplyFilters | Pages/2.Cybersecurity_Dashboard.py:54-60 | the severity/status/category chain yields exactly `Narrow` of the loaded rows by the three selections |
| CyberDashboard.ShownIncidents | Pages/2.Cybersecurity_Dashboard.py:54-60 | an incident is shown exactly when it is loaded and each of its severity, status and category is allowed by its selection (empty = any) |
| CyberDashboard.Metrics | Pages/2.Cybersecurity_Dashboard.py:63-71 | Total is the filtered row count; Open and Critical are the multiplicities of those values in their columns, each at most Total |
| CyberDashboard.Recent | Pages/2.Cybersecurity_Dashboard.py:103 | there are at most as many recent rows as rows, and a row is among them exactly when it is among the rows and its timestamp string compares greater than "2025-01-01" |
| CyberDashboard.RecentOne | Pages/2.Cybersecurity_Dashboard.py:103 | a single row is kept exactly when its timestamp is later than the cutoff |
| CyberDashboard.RecentAppend | Pages/2.Cybersecurity_Dashboard.py:103 | the filter works row by row and keeps order: the recent rows of a concatenation are those of each part, in order |
| CyberDashboard.NewYearsMorningIsRecent | Pages/2.Cybersecurity_Dashboard.py:103 | a time later on 2025-01-01 counts as 2025 |
| CyberDashboard.CutoffItselfIsNotRecent | Pages/2.Cybersecurity_Dashboard.py:103 | the bare date "2025-01-01" and any 2024-12-31 timestamp do not count |
| CyberDashboard.PhishingAnalysis | Pages/2.Cybersecurity_Dashboard.py:93-104 | the phishing cards appear exactly when some filtered incident is Phishing; then Total Phishing is the multiplicity of Phishing, Open Phishing is the number of Open rows among the Phishing rows, and 2025 Phishing is the number of recent Phishing rows, with Open ≤ Total Phishing ≤ Total Incidents and 2025 Phishing ≤ Total Phishing |
| CyberDashboard.PhishingWithinTotals | Pages/2.Cybersecurity_Dashboard.py:67-100 | Open Phishing never exceeds Open Incidents |
| CyberDashboard.PhishingOpenBound | Pages/2.Cybersecurity_Dashboard.py:94-100 | open incidents among the phishing ones are at most the open incidents overall |
| CyberDashboard.Run | Pages/2.Cybersecurity_Dashboard.py:8-108 | login required exactly when not logged in; no data exactly when logged in with no rows; otherwise the filtered rows, metrics, charts and phishing stats of the selections |
| ItDashboard.ApplyFilters | Pages/3.IT_Operarions_Dashboard.py:61-67 | the priority/status/assigned_to chain yields exactly `Narrow` of the loaded rows by the three selections |
| ItDashboard.Metrics | Pages/3.IT_Operarions_Dashboard.py:70-78 | Total is the filtered count; Open and Waiting for User are multiplicities in the status column, and Open + Waiting ≤ Total |
| ItDashboard.StaffPerformance | Pages/3.IT_Operarions_Dashboard.py:101-106 | one entry per staff member who has a filtered ticket, holding that member's positive ticket count and total resolution hours |
| ItDashboard.TalliesStep | Pages/3.IT_Operarions_Dashboard.py:102-105 | adding one ticket to the table of the remaining tickets gives the table of all tickets |
| ItDashboard.RecordEntry | Pages/3.IT_Operarions_Dashboard.py:102-105 | after adding one ticket, each member's entry holds that member's count and hours |
| ItDashboard.NoTicketsNoHours | Pages/3.IT_Operarions_Dashboard.py:104 | a member with no tickets has no resolution hours |
| ItDashboard.MeanAtLeastTransitive | Pages/3.IT_Operarions_Dashboard.py:109 | comparing mean resolution times exactly, by cross-multiplication, is transitive |
| ItDashboard.SlowestUnique | Pages/3.IT_Operarions_Dashboard.py:109 | at most one member is the highest-mean member with the smallest name, so the pick does not depend on scan order |
| ItDashboard.SlowestStep | Pages/3.IT_Operarions_Dashboard.py:109 | comparing one more member with the current pick gives the pick of the larger group |
| ItDashboard.SlowestIn | Pages/3.IT_Operarions_Dashboard.py:109 | no pick exactly when there are no tickets; otherwise a member with the highest mean, and among equal means the first in the name-sorted table |
| ItDashboard.StaffSection | Pages/3.IT_Operarions_Dashboard.py:99-112 | corrected staff section: the performance table; no slowest line exactly when no ticket remains, otherwise the member `idxmax` picks |
| ItDashboard.SlowestAsWritten | Pages/3.IT_Operarions_Dashboard.py:109 | as written: `idxmax` raises exactly when the filtered table is empty, and otherwise picks the slowest member |
| ItDashboard.NoSampleTicketSelected | Pages/3.IT_Operarions_Dashboard.py:56-67 | Priority = {High} and Status = {Closed}, both among the offered values, together leave none of the two sample tickets |
| ItDashboard.EmptySelectionRaises | Pages/3.IT_Operarions_Dashboard.py:56-109 | two loaded tickets and two selections taken from the offered values leave no ticket, so the page as written raises |
| ItDashboard.Run | Pages/3.IT_Operarions_Dashboard.py:8-116 | login required exactly when not logged in; no data exactly when logged in with no rows; otherwise the filtered rows, metrics, charts and the guarded staff section, which omits the slowest member exactly where line 109 as written raises and otherwise names the member it names |

## Left out

- Page chrome is left out: page configuration, titles, the debug lines, the navigation buttons and `st.switch_page`, plotly charts, and `st.dataframe`. Each value_counts table is modelled as a map, not as a chart.
- CSV loading (`load_data` on both dashboard pages, `load_csv_data`, `get_cyber_incidents`, `get_it_tickets`) is left out because it is file and pandas I/O. The loaded rows are a parameter. An unreadable or missing file appears only as an empty row list.
- The column-presence checks (`'category' in filtered_df.columns` and the like) are left out. Every row carries all columns here, so these checks always pass.
- Missing values (NaN) in CSV cells are not modelled. Every cell is a string, and resolution times are whole hours.
- Python's `lower()` and `strip()` are modelled for ASCII letters and ASCII/C0 whitespace only. Unicode case mapping and Unicode spaces are out of scope.
- Credentials.HashPw: the idealised digest has no 72-byte truncation and is not a cryptographic hash. Only acceptance of a hash's own password and refusal of every other one are carried over.
- Credentials.CheckPw: bcrypt's checks on the salt alphabet and on the 31-character digest length are not modelled. A stored value with the right prefix but a malformed salt or digest is compared, where bcrypt would raise. Prefixes other than `$2a$`, `$2b$` and `$2y$` count as not a bcrypt hash.
- Credentials.UserStore.RegisterUser: the bare `except` around the insert also swallows storage errors. The model has only the duplicate-username failure.
- Credentials.UserStore.MigrateUsers: the `print` messages and `commit` are left out. A file that cannot be opened is `None`.
- Chat.Respond: the Markdown rendering and the spinner are left out. The reply text is kept character for character.
- ItDashboard.StaffPerformance: the mean is kept as the hours sum and ticket count. Means are compared exactly by cross-multiplication rather than as floats, and the one-decimal formatting of the slowest mean is left out.
- Tables.ValueCounts: the order of the `value_counts()` result (by descending count) is not modelled. Only the values and their frequencies are.
- SessionGate.Home: the welcome text with `username` and the `st.rerun()` call are left out. The rerun appears as a second call to `Home` in `LogoutThenRerun`.
- AssistantPage.Run: re-displaying the history is left out. A chat input and a Clear Chat click may arrive in the same run, and they are applied in source order.
- ItDashboard.Run: models the page with the Findings correction applied. Where line 109 as written raises ValueError and lines 110-116 are never drawn, this `Run` shows the dashboard without a slowest member; its contract names those cases through `SlowestAsWritten`.
- auth.py and Pages/5.Data_science_Dashboard.py are not part of this model. The first is outside this core. The second only plots a constant mock dataset with float statistics.

## Findings

| source | as written | input that shows it | evidently intended | confidence | as-written member | corrected member |
|---|---|---|---|---|---|---|
| Pages/3.IT_Operarions_Dashboard.py:109 | `staff_perf['Avg Resolution (hrs)'].idxmax()` runs without a check that any ticket survived the filters | tickets T1 (High, Open, alice) and T2 (Low, Closed, bob) with Priority = {High} and Status = {Closed}: no ticket remains, the staff table is empty, and `idxmax` raises ValueError, so the rest of the page is never drawn | leave out the Slowest Staff line when no ticket remains and draw the rest of the page | medium, not executed | ItDashboard.SlowestAsWritten, ItDashboard.EmptySelectionRaises | ItDashboard.StaffSection |
