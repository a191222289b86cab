# Dura paper pipeline, modelled in Dafny

Dura is a site that collects research papers and explains them to non-specialists.
This project models the core of its TypeScript implementation:

- **The curation and synthesis pipeline.**
  - The curator agent scores a paper and admits it, rejects it or marks it `needs-review`.
  - The synthesizer agent summarises an admitted paper and proposes relations to papers already in the library.
  - The `process-paper` endpoint curates, synthesizes, upserts the paper row and writes the relation edges whose target exists.
  - The `process-pdf` endpoint runs the same agents on an uploaded PDF, but stores no paper or relation row; only the curator's learned memories and the agent log rows are written.
  - The stand-alone `synthesize` endpoint runs the synthesizer only.
- **Around the agents:**
  - the pending-memory store: `createPendingMemory`, `recallMemories` and the prefix-overlap duplicate check `memoryExists`;
  - the three rules by which a curation leaves pending memories behind;
  - the named model-session cache;
  - the budgeted section selection that turns an extracted PDF into curator input.
- **The small store-backed web handlers:**
  - star toggle;
  - reading progress;
  - invitations;
  - sign-up and log-in validation;
  - admin role change and user delete;
  - the memory list and create endpoints;
  - the two bibliography importers (concept detection, slugs, decision tables, a small BibTeX scanner);
  - the paper feed's search and category filter.

How the model is built:

- **The database** is one `Database` object (`Store`).
  - Each table is a `seq` of rows in insertion (rowid) order, so an unordered `SELECT` has a definite order.
  - `Valid()` is the primary-key and unique constraints of eight tables: papers, relations, memories, users (id and username), sessions, progress, stars and invitations (id and token). Agent-log ids are not constrained.
  - Handlers name in `modifies` exactly the tables they write.
- **Things outside the program are parameters:**
  - the language model's answers;
  - `JSON.parse` of those answers;
  - `nanoid`, `Date.now()`;
  - the password hash check;
  - store failures (a fault index saying which write throws).
- **Pure and imperative parts.** The pure parts of the source (prompt builders, filters, validators, decision tables) are functions with lemmas. The step-by-step parts are methods with loops, proved against a specification function:
  - the recall loop;
  - the relation-edge loop;
  - the memory rules;
  - the BibTeX scanner's two `while` loops;
  - the section selection;
  - the upload and write loops.
- **The model cache** is a class whose map of handles the methods update.

## Model

| member | source | states |
|---|---|---|
| PendingMemory.StoredConfidence | src/agents/utils/memory.ts:36 | `confidence \|\| 0.5`: a missing or zero confidence is stored as 0.5, any other value as given |
| PendingMemory.CreatePendingMemory | src/agents/utils/memory.ts:28-48 | a successful call appends exactly one row (status `pending`, the fresh id, the stored confidence, evidence or null, use count 0) and returns its id; a failing insert is reported and leaves the table unchanged |
| PendingMemory.NothingExistsInEmptyStore | src/agents/utils/memory.ts:99-107 | `memoryExists` is false on an empty store |
| PendingMemory.BlankQueryMatchesAnyStore | src/agents/utils/memory.ts:100-107 | an empty or all-white-space query matches as soon as one memory is stored (its normalised prefix is empty) |
| PendingMemory.EmptyStoredMatchesEverything | src/agents/utils/memory.ts:104-107 | once a memory with empty content is stored, every query matches |
| PendingMemory.MemoryExistsMonotone | src/agents/utils/memory.ts:104-107 | adding memories never turns a match into a miss |
| PendingMemory.SimilarWhenContained | src/agents/utils/memory.ts:100-106 | a stored content that contains the query, in any letter case, is similar to it |
| PendingMemory.StoredContentDetected | src/agents/utils/memory.ts:99-107 | storing a content makes that content, and any text inside it, count as existing |
| PendingMemory.SharedPrefixDetected | src/agents/utils/memory.ts:104-106 | a query whose first 50 normalised characters equal those of a stored content is detected |
| PendingMemory.RecalledOrigin | src/agents/utils/memory.ts:62-83 | every recalled entry is the projection of a validated row of the requested type |
| PendingMemory.RecalledComplete | src/agents/utils/memory.ts:62-83 | every validated row of the requested type is recalled |
| PendingMemory.RecalledIdsDistinct | src/agents/utils/memory.ts:62-83 | with unique row ids, the recalled ids are distinct |
| PendingMemory.RecallDoesNotIncrement | src/agents/utils/memory.ts:86-91 | after recall a recalled row has `lastUsedAt` = now; its use count is 1 if it was 0 and is otherwise unchanged (`x \|\| 0 + 1` parses as `x \|\| 1`); every other column is unchanged |
| PendingMemory.RecallStep | src/agents/utils/memory.ts:86-91 | one loop round reads back the count of the next recalled id's row and touches exactly that row |
| PendingMemory.RecallMemories | src/agents/utils/memory.ts:54-94 | returns exactly the validated rows (of the type, if given) in table order; the table afterwards is every recalled row touched and every other row unchanged |
| PendingMemory.TouchRecalled | src/agents/utils/memory.ts:62-93 | the select and the usage-tracking loop, given unique memory ids: the result is the recall of the table as read before the loop, and afterwards each recalled row is touched and every other row is as before |
| PendingMemory.AfterRecallKeepsIds | src/agents/utils/memory.ts:86-91 | recall keeps memory ids unique |
| ModelCache.ApiKey | src/agents/utils/cache.ts:19-28 | the key is the first non-empty source, else empty; the warning is raised exactly when it is empty; no error |
| ModelCache.ZeroFilled | src/agents/utils/cache.ts:104-108 | each usage counter is the reported value, or 0 when missing |
| ModelCache.ModelCache.constructor | src/agents/utils/cache.ts:31-44 | the cache starts with no handles and no client |
| ModelCache.ModelCache.GetOrCreate | src/agents/utils/cache.ts:52-72 | a name already present returns its stored handle, whatever instruction is passed, and changes nothing; otherwise exactly one handle is added for the name; no entry is ever removed or replaced; the client is created once and then kept |
| ModelCache.ModelCache.Clear | src/agents/utils/cache.ts:151-154 | removes the name and keeps every other entry; an absent name is a no-op |
| ModelCache.ModelCache.ClearAll | src/agents/utils/cache.ts:159-162 | afterwards there are no names and no handles |
| ModelCache.ModelCache.List | src/agents/utils/cache.ts:167-169 | lists exactly the names that have a handle, each once, in creation order |
| ModelCache.ModelCache.GenerateJson | src/agents/utils/cache.ts:82-114 | goes through `GetOrCreate`; the answer is the provider's answer to the given user prompt; a provider failure or text that does not decode is an error; otherwise it returns the decoded result with zero-filled usage |
| ModelCache.ModelCache.GenerateText | src/agents/utils/cache.ts:119-146 | as `GenerateJson` (the provider's answer to the given prompt), with the text returned undecoded |
| Curator.CuratorPromptMentions | src/agents/curator/index.ts:57-61 | the prompt contains the title, and the abstract or `Not provided` when there is none |
| Curator.CuratorPromptExcerpt | src/agents/curator/index.ts:57-63 | the prompt is the fixed part followed by the excerpt line; the line holds the first 2000 characters of the full text, and is present exactly when the full text is non-empty |
| Curator.LearnPlanShape | src/agents/curator/index.ts:109-160 | a curation asks for at most two memories, because rules 1 and 3 exclude each other; rule 3's memory comes last when it fires; rule 1's comes first when it fires; a rejection without notes asks only for semantic memories |
| Curator.RejectionRuleIdempotent | src/agents/curator/index.ts:112-127 | once the rejection memory is stored, the same notes under any title add no second one |
| Curator.ProbeFacts | src/agents/curator/index.ts:133 | the fixed probe `high relevance low accessibility` needs no normalising and contains none of the observation's separators |
| Curator.RelevanceObservationMissesProbe | src/agents/curator/index.ts:130-144 | the observation rule 2 stores does not contain the probe it checks, unless the domain tags spell it out |
| Curator.RelevanceRuleRepeats | src/agents/curator/index.ts:130-144 | so a store that did not match the probe still does not after rule 2 has written: the rule does not dedupe its own output |
| Curator.LearnFromCuration | src/agents/curator/index.ts:109-166 | the table gains exactly the planned memories (rule 1, then 2, then 3) before the failing insert, under fresh ids; a failure ends learning without error |
| Curator.CuratePaper | src/agents/curator/index.ts:54-104 | uses the `curator` cache name and sends `CuratorPrompt` of the input; a failed or undecodable answer to that prompt writes nothing; otherwise one curator log row (unless the logger swallows a failure), then the learned memories, and the model result returned unchanged |
| Synthesizer.PeerLines | src/agents/synthesizer/index.ts:74 | one `- ID: …, Title: …, Tags: …` line per peer, in input order |
| Synthesizer.ListingAppends | src/agents/synthesizer/index.ts:73-76 | adding a peer at the end of the library adds its line at the end of the listing |
| Synthesizer.SynthPromptListsLibrary | src/agents/synthesizer/index.ts:64-78 | the prompt holds `No existing papers yet.` for an empty library, otherwise every peer's line |
| Synthesizer.ListingWithPeers | src/agents/synthesizer/index.ts:73-76 | with peers, the listing is not the empty-library sentence |
| Synthesizer.SynthesizePaper | src/agents/synthesizer/index.ts:61-115 | uses the `synthesizer` cache name and sends `SynthPrompt` of the input; writes one log row carrying the paper id when the call succeeds; returns the decoded result unchanged, with relations unchecked |
| Peers.DecodeTags | src/pages/api/agents/process-paper.ts:76 | `JSON.parse(tags \|\| '[]')`: a null or empty column is the empty list, an array its strings, anything else an error |
| Peers.PeerRowsExact | src/pages/api/agents/process-paper.ts:53-64 | a row is a peer exactly when it is approved and has a different id |
| Peers.ApprovedPeersMatchRows | src/pages/api/agents/process-paper.ts:53-77 | when every peer row's tags decode, the peers are those rows in table order, with id, title and decoded tags; otherwise the request fails |
| Peers.PeersExcludeSelf | src/pages/api/agents/process-paper.ts:59-64 | the paper itself is never its own peer, and every peer is approved |
| ProcessPaper.UpsertPaperEffect | src/pages/api/agents/process-paper.ts:81-112 | after the upsert exactly one row has the id and it carries the new columns; an existing row keeps its creation time and place; every other row is unchanged |
| ProcessPaper.UpsertPaperIdempotent | src/pages/api/agents/process-paper.ts:105-112 | upserting the same paper twice leaves one row for it, holding the second run's columns and the first creation time |
| ProcessPaper.KeptExact | src/pages/api/agents/process-paper.ts:115-122 | a proposal is kept exactly when a paper row with its target id exists, in any status |
| ProcessPaper.KeptPrefix | src/pages/api/agents/process-paper.ts:115-133 | the kept proposals of a prefix are a prefix of all kept proposals |
| ProcessPaper.SelfEdgePasses | src/pages/api/agents/process-paper.ts:105-122 | because the upsert runs first, a relation to the paper itself passes the existence check |
| ProcessPaper.EdgesUnique | src/pages/api/agents/process-paper.ts:123-131 | fresh edge ids keep relation ids unique |
| ProcessPaper.SaveRelations | src/pages/api/agents/process-paper.ts:114-133 | the relations table gains one edge per kept proposal, in order, up to the failing insert; existing edges are untouched |
| ProcessPaper.PersistNoDanglingEdges | src/pages/api/agents/process-paper.ts:80-133 | old relations stay in front; every new edge starts at the paper and ends at a paper in the table; the paper row is present whenever an edge was written or the request succeeded |
| ProcessPaper.PersistKeepsCreation | src/pages/api/agents/process-paper.ts:105-112 | a paper already in the library keeps its creation time and place when processed again |
| ProcessPaper.WritePaper | src/pages/api/agents/process-paper.ts:105-133 | the paper row is upserted, then edges are written for the proposals kept against the updated table |
| ProcessPaper.CompletePaper | src/pages/api/agents/process-paper.ts:52-143 | an accepted paper is synthesized: the synthesizer is sent the prompt listing the approved papers other than this id (`ApprovedPeers`), and a failed peer load is a 500; then the tables are persisted; failures give 500 without rollback; the only log row is the synthesizer's, written exactly when the peers load and the synthesis answers (and the logger's insert succeeds) |
| ProcessPaper.ProcessPaper | src/pages/api/agents/process-paper.ts:15-154 | no user: 401, nothing done; unreadable body: 500; no title: 400, no agent run; the curator is sent the prompt of the request's title, abstract and full text; failed curation: 500, no paper, edge or memory; a rejection: 200 `rejected`, no paper or edge written; any other status (`needs-review` too) is synthesized against the approved peers other than this id, as in `CompletePaper`, and persisted; learned memories in every curated case; the log gains the curator's row, then the synthesizer's when a synthesis answered, each unless its own insert fails |
| SynthesizeApi.RequestInput | src/pages/api/agents/synthesize.ts:43-54 | the synthesizer gets the described paper, its tags defaulting to none, and the given peers |
| SynthesizeApi.Synthesize | src/pages/api/agents/synthesize.ts:7-70 | no user: 401; unreadable body: 500; missing paper id, title or abstract: 400; none of these touches anything; otherwise it answers 200 with the result or 500, and writes at most the synthesizer's log row |
| SynthesizeApi.SynthesizePeersAreLibrary | src/pages/api/agents/synthesize.ts:30-53 | the peers are exactly the approved rows' briefs in table order, and never the paper itself |
| ProcessPdf.PdfTitle | src/pages/api/agents/process-pdf.ts:44 | the override if non-empty, else the extracted title if non-empty, else the file name, one `.pdf` shorter when it contains one |
| Text.ReplaceFirstEffect | src/pages/api/agents/process-pdf.ts:44 | `replace` with a string pattern and an empty replacement removes exactly one occurrence, and leaves a string without it unchanged |
| ProcessPdf.Summary | src/pages/api/agents/process-pdf.ts:61-67 | the `extracted` block reports which of abstract, introduction and conclusion were found; `hasMethods` is present only on success, and then says whether a methodology was found |
| ProcessPdf.PdfPaperId | src/pages/api/agents/process-pdf.ts:79 | the synthesizer's id starts with `pdf-` and continues with the time's digits, so it is never just the prefix |
| ProcessPdf.PdfSynthInput | src/pages/api/agents/process-pdf.ts:77-85 | the synthesizer sees the prepared text as abstract, the curator's tags and an empty library |
| ProcessPdf.PdfSynthPromptHasNoPeers | src/pages/api/agents/process-pdf.ts:84 | the synthesizer's prompt for an upload says `No existing papers yet.` |
| ProcessPdf.ProcessPdf | src/pages/api/agents/process-pdf.ts:8-114 | no user: 401; a body that is not a form: 500; no PDF: 400; nothing touched by any of these; the curator is sent the prompt whose abstract is the extracted sections joined by newlines, with no full text; the synthesizer is sent the prompt of `PdfSynthInput` (`pdf-<now>`, the same text, the curator's tags, an empty library); the log gains the curator's row and, for an accepted upload whose synthesis answered, the synthesizer's row under `pdf-<now>`, each unless its own insert fails; a rejection answers 200 `rejected` without `hasMethods` and without synthesis; success reports `hasMethods`; no paper or relation row is ever written |
| ProcessPdf.RunAgents | src/pages/api/agents/process-pdf.ts:50-103 | the curator is sent the prompt with the prepared text as abstract and no full text; the memories learned from its answer are written; on rejection only the curator's writes happen; otherwise the synthesizer runs on the `PdfSynthInput` prompt; the log rows are the curator's and, after a synthesis that answered, the synthesizer's, with separate logger failures |
| ProcessPdf.FinishUpload | src/pages/api/agents/process-pdf.ts:57-103 | a rejection answers at once without `hasMethods` and writes nothing; an accepted upload is synthesized on the `PdfSynthInput` prompt and writes only the synthesizer's log row for `pdf-<now>`, and only when it answered; it answers success with the result and `hasMethods`, or failure |
| PdfPrepare.PrepareForAnalysis | src/agents/utils/pdf-extract.ts:94-128 | the pushed sections joined with newlines equal the specification's selection |
| PdfPrepare.SectionsIncluded | src/agents/utils/pdf-extract.ts:99-125 | each block is in the result exactly when its rule takes it: title and abstract when non-empty, whatever the budget; introduction, conclusion and methodology when non-empty and the running length stays strictly under 60%, 80% and 100% of the budget |
| PdfPrepare.PreparedEmptyIffNothingSelected | src/agents/utils/pdf-extract.ts:95-127 | the result is empty exactly when no block is selected, in particular for an all-empty extraction |
| PdfPrepare.PreparedCanExceedBudget | src/agents/utils/pdf-extract.ts:99-102 | a title longer than the budget is still taken: the budget does not bound the output |
| PdfPrepare.LargerBudgetCanDropConclusion | src/agents/utils/pdf-extract.ts:110-120 | a larger budget can select less: an introduction it makes room for counts against the conclusion |
| MemoriesApi.RequestedStatus | src/pages/api/memories/index.ts:22 | a missing or empty status parameter means `pending` |
| MemoriesApi.SelectRowsExact | src/pages/api/memories/index.ts:24-31 | a row is selected exactly when the status is `all` or the row's status is that text |
| MemoriesApi.SelectAll | src/pages/api/memories/index.ts:25-26 | `all` selects the whole table |
| MemoriesApi.ByNewestSorts | src/pages/api/memories/index.ts:26-30 | the listing is ordered by creation time, newest first, and is a permutation of the selected rows |
| MemoriesApi.ListMemoriesContents | src/pages/api/memories/index.ts:13-37 | non-admins get 403; an admin gets, newest first, exactly the rows of the requested status, or every row for `all` |
| MemoriesApi.CreateMemory | src/pages/api/memories/index.ts:43-92 | only a signed-in user is needed, not an admin; a missing type or content is 400 and inserts nothing; otherwise one pending row (confidence `\|\| 0.5`, source agent `\|\| null`) is appended and 201 with its id returned |
| MemoriesApi.CreatedIsPending | src/pages/api/memories/index.ts:63-73 | a created memory is listed among the pending ones |
| Concepts.HitsExact | src/pages/api/import-to-github.ts:25-27 | an index is a hit exactly when that keyword's pattern matches |
| Concepts.TermsDistinct | src/pages/api/import-to-github.ts:16-24 | the seven concept terms are pairwise different |
| Concepts.ExtractConceptsExact | src/pages/api/import-to-github.ts:14-29 | a concept is reported exactly when one of its literal alternatives occurs in the ASCII-lower-cased text; no concept is reported twice |
| Concepts.ExtractConceptsOrdered | src/pages/api/import-to-github.ts:25-28 | concepts come out in keyword-table order |
| Concepts.AnyFlMeansFederated | src/pages/api/import-to-github.ts:18 | any text containing `fl`, in any case, is about Federated Learning |
| Concepts.SlugifyShape | src/pages/api/import-to-github.ts:34 | a slug holds only `[a-z0-9-]`, never `--`, is empty only for an empty key, and keeps the key's lower-cased letters and digits in order |
| Concepts.SlugOfAlnum | src/pages/api/import-to-github.ts:34 | a lower-case alphanumeric key is its own slug |
| Text.StripBraces | src/pages/api/import-to-github.ts:35-37 | no `{` or `}` remains, and nothing is added |
| GithubImport.ImportCategoryTable | src/pages/api/import-to-github.ts:39-41 | Wallet gives `identity`, else ZKP gives `cryptography`, else `infrastructure` |
| GithubImport.PageShape | src/pages/api/import-to-github.ts:32-37 | an empty key gives `untitled`, any other key its slug, so the slug is slug-shaped or `untitled`; title, abstract and author are never empty (the defaults), and the title carries no braces |
| GithubImport.UploadedSlugsExact | src/pages/api/import-to-github.ts:133-172 | `files` names exactly the pages whose upload went through, in entry order; when every upload succeeds it is every page's slug |
| GithubImport.ImportToGithub | src/pages/api/import-to-github.ts:98-188 | no token: 500 first; unreadable body: 500; missing, non-string or empty BibTeX, and a text without entries: 400; all of these before any upload (nothing attempted); then the upload loop over the entries' pages, whose attempted uploads are the pages up to and including the first that throws |
| GithubImport.UploadPages | src/pages/api/import-to-github.ts:130-180 | the pages are sent in order, up to and including the first upload that throws; a refused upload is skipped; a throwing one ends the request with 500; otherwise 200 with the uploaded slugs and commit links |
| GithubImport.AttemptedAll | src/pages/api/import-to-github.ts:130-172 | without a throwing upload every page is sent |
| GithubImport.AttemptedStopsAtThrow | src/pages/api/import-to-github.ts:130-180 | the first upload that throws is the last page sent |
| Bibtex.ParseFields | src/pages/api/import-to-github.ts:84-90 | the field loop builds the map from the field matches in order |
| Bibtex.ParseBibtex | src/pages/api/import-to-github.ts:74-96 | the entry loop returns one entry per match, in text order, with the trimmed key and its fields |
| Bibtex.MatchesInOrder | src/pages/api/import-to-github.ts:76-79 | matches are found in text order without overlapping; each starts where the entry pattern matches |
| Bibtex.MatchesComplete | src/pages/api/import-to-github.ts:79 | every position where the pattern matches and that no earlier match covers is found |
| Bibtex.NoAtNoEntries | src/pages/api/import-to-github.ts:76 | a text without `@` holds no entry |
| Bibtex.EntryMatchShape | src/pages/api/import-to-github.ts:76-82 | the groups of an entry match: a non-empty word type and a non-empty key without a comma |
| Bibtex.ToMapLastWins | src/pages/api/import-to-github.ts:88-90 | a name is a tag exactly when some field has it, and its value is the last such field's |
| ResearchImport.ResearchCategoryTable | src/pages/api/process-research.ts:40-43 | Wallet gives `Identity`; otherwise Federated Learning gives `Infrastructure` even with ZKP; ZKP alone gives `Cryptography`; the default is `Infrastructure` |
| ResearchImport.ImportersDisagree | src/pages/api/process-research.ts:34-43 | the two importers file an entry differently: `zkp fl` is Infrastructure here and cryptography in the GitHub importer; an empty key keeps an empty slug here but is `untitled` there |
| ResearchImport.BracesOnlyTitle | src/pages/api/process-research.ts:35 | a title of braces only becomes empty here and `Untitled` in the GitHub importer |
| ResearchImport.ResearchPageShape | src/pages/api/process-research.ts:34-52 | the slug is the key's slug, with no fallback, and is empty exactly for an empty key; the `section:` line is present exactly for a target that is neither empty nor `auto`; a present title loses its braces |
| ResearchImport.WritesExact | src/pages/api/process-research.ts:89-104 | a page is written for exactly the titled entries, in entry order |
| ResearchImport.ProcessResearch | src/pages/api/process-research.ts:81-119 | unreadable body or rejected BibTeX: 500; a write that throws ends with 500, keeping earlier files; otherwise `count` equals the number of written pages and `slugs` names them in order |
| Invite.InviteLink | src/pages/api/invite.ts:52-53 | the link is the origin, `/signup?invite=`, then the token |
| Invite.CreateInvite | src/pages/api/invite.ts:11-69 | no user: 401; non-admin: 403 (both before the form is read); a body that is not a form: 500; an e-mail without `@`: 400; a role other than researcher or contributor: 400 (the role defaults to researcher); a failing insert: 500; otherwise one unused invitation from the admin, expiring 604800000 ms after now, is appended and its link returned |
| Invite.InviteRoles | src/pages/api/invite.ts:23-34 | a role is accepted exactly when, after defaulting, it is `researcher` or `contributor`; `admin` and `public` are refused |
| Invite.FindInvite | src/pages/api/invite.ts:79 | finds an invitation with the token exactly when one exists |
| Invite.CheckInviteOrder | src/pages/api/invite.ts:72-101 | for a given token: unknown exactly when no row has it; used whenever the row is used, even when also expired; expired exactly when unused and past its expiry; valid exactly when unused and not past its expiry (expiry is strict), then with the stored e-mail and role |
| Invite.FindInviteUnique | src/pages/api/invite.ts:79 | with unique tokens the lookup returns the one row with that token |
| Invite.CreatedInviteValidates | src/pages/api/invite.ts:39-91 | a new invitation validates up to and including its expiry a week later, and is expired after it |
| Credentials.CheckCredentials | src/pages/api/signup.ts:17-31 | the username is checked first: 3 to 31 characters of `[a-z0-9_-]`; then the password: 6 to 255 characters; a file field is neither |
| Credentials.ValidUsernameIsNormal | src/pages/api/signup.ts:17-22 | a valid username is unchanged by lower-casing and trimming and holds no `@` |
| Signup.SignupUser | src/pages/api/signup.ts:11-73 | a body that is not a form is 500, writing nothing; invalid input is 400 before anything is written; a taken username is 400 `Username already taken`; any other failure is 500; otherwise one `public` user is appended and a session opened, answering 302 to `/`; a session id already in use or a failing session insert is 500 with the user row kept and no session written; sessions keep unique ids |
| Login.FindUser | src/pages/api/login.ts:29 | finds a user with the username exactly when one exists |
| Login.LoginUser | src/pages/api/login.ts:8-63 | a body that is not a form: 500; otherwise the answer is the login decision, and on success one session is added, or, when creating it throws (a failing insert or a session id already in use), 500 with no session written; every refusal writes nothing; sessions keep unique ids |
| Login.ValidationBeforeLookup | src/pages/api/login.ts:13-29 | invalid input is answered without the table or the hash check (the same validators as sign-up) |
| Login.UniformFailure | src/pages/api/login.ts:29-51 | an unknown username and a wrong password get the identical refusal; a success names a user with that username whose hash accepts the password |
| Login.FindUserUnique | src/pages/api/login.ts:29 | with unique usernames the lookup returns the one row with that name |
| Login.SignupThenLogin | src/pages/api/login.ts:29-62 | after signing up, logging in with the same credentials succeeds for the new user |
| Stars.FindStar | src/pages/api/star.ts:17-19 | finds a row of the user for the slug exactly when one exists |
| Stars.ToggleStar | src/pages/api/star.ts:8-32 | no user: 401; no slug: 400; an existing star is deleted (`starred: false`), otherwise one is inserted (`starred: true`); a delete or insert that throws is 500 with the table unchanged |
| Stars.ToggleKeepsIds | src/pages/api/star.ts:21-29 | a toggle keeps star ids unique |
| Stars.RemoveAtStars | src/pages/api/star.ts:22 | deleting one row removes exactly that row's star |
| Stars.ToggleFlips | src/pages/api/star.ts:17-31 | a toggle flips the user's star on that slug, leaves every other user's and slug's star as it was, and keeps one row per user and slug |
| Stars.ToggleTwiceRestores | src/pages/api/star.ts:17-31 | two toggles restore everyone's stars |
| Stars.UserSlugsExact | src/pages/api/star.ts:49-52 | the list holds exactly the slugs the user starred |
| Stars.QueryStarsExact | src/pages/api/star.ts:34-53 | with a slug, the GET answer is whether a row exists; without one, it lists exactly the starred slugs |
| Progress.FindProgress | src/pages/api/progress.ts:25-27 | the first row for the user and slug, or none when there is none |
| Progress.SaveProgress | src/pages/api/progress.ts:8-43 | no user: 401; a missing slug or status: 400; otherwise the user's row for the slug gets the status, unvalidated, and the time, or one row is inserted; an update or insert that throws is 500 with the table unchanged |
| Progress.RecordedKeepsIds | src/pages/api/progress.ts:29-40 | recording keeps progress ids unique |
| Progress.RecordedEffect | src/pages/api/progress.ts:29-40 | an existing row is updated in place, keeping its id, and every other row is unchanged; otherwise exactly one row is appended |
| Progress.RecordTwice | src/pages/api/progress.ts:25-40 | repeating the same request leaves what one request leaves, up to the time |
| Progress.ReadAfterRecord | src/pages/api/progress.ts:46-61 | reading after recording gives the recorded status; a user with no row reads `unread` |
| RoleChange.WithRoleEffect | src/pages/api/admin/users/role.ts:39-41 | only the target's role changes; every other row and column stays; user constraints hold; an unknown id leaves the table as it was |
| RoleChange.ChangeRole | src/pages/api/admin/users/role.ts:8-55 | non-admin: 401; a role outside the four: 400; self-demotion: 400; a failed update: 500; otherwise the role is set and echoed, even for an id no user has |
| RoleChange.NoSelfDemotion | src/pages/api/admin/users/role.ts:31-36 | an admin's request about themself is refused exactly when the role is not `admin` |
| UserDelete.DeleteUser | src/pages/api/admin/users/delete.ts:8-53 | non-admin: 401; self-delete: 400; nothing written in either case; then sessions, progress, stars and the user row are deleted in that order, up to the failing delete (500, no rollback); invitations are never touched |
| UserDelete.KeepMembers | src/pages/api/admin/users/delete.ts:30-39 | a `delete … where` keeps exactly the rows its condition spares |
| UserDelete.WithoutKeepsValid | src/pages/api/admin/users/delete.ts:30-39 | the deletes keep the keys of sessions, progress, stars and users unique |
| UserDelete.DeleteRemovesTarget | src/pages/api/admin/users/delete.ts:30-39 | after a complete delete no row in the four tables refers to the target, and every other user's rows remain |
| PaperFeed.PaperTags | src/components/papers/PaperFeed.tsx:33-42 | a stored array gives all its tags lower-cased; null, empty, non-array or unparsable data gives none |
| PaperFeed.FindCategory | src/components/papers/PaperFeed.tsx:55 | finds a category with the id exactly when one exists |
| PaperFeed.FilterExact | src/components/papers/PaperFeed.tsx:44-63 | the feed is a subsequence of the input, and holds exactly the papers the predicate keeps |
| PaperFeed.FilterAll | src/components/papers/PaperFeed.tsx:48-53 | no query and category `all` show every paper |
| PaperFeed.UnknownCategoryIsAll | src/components/papers/PaperFeed.tsx:55-56 | an unknown category id filters by the search only |
| PaperFeed.KeepsByCategory | src/components/papers/PaperFeed.tsx:20-26 | for a known category with tags, a search match is kept exactly when one of its lower-cased tags is listed for the category |
| PaperFeed.NullAbstractMatchesNull | src/components/papers/PaperFeed.tsx:47-48 | a paper without an abstract is found by searching for `null` |

## Left out

- The language model, its SDK and the network are left out. A model call is a parameter: a provider, a function from the user prompt sent to what comes back, which is an answer (text and usage metadata) or a failure. Each contract names the provider's answer to the exact prompt the agent builds.
- `JSON.parse` of model answers is a decoder parameter. `JSON.parse` of a stored tag column is a datatype of its four outcomes.
- `USE_CACHING` and `ENABLE_MEMORY_LEARNING` are modelled as on, their values in the source. The uncached `generateJSON` path (src/agents/utils/gemini.ts) is not part of this model.
- The percentages the curator renders with `toFixed(0)` are opaque text parameters. Float formatting and rounding are not modelled.
- Scores are compared as exact reals, not as IEEE doubles.
- The PDF budget tests compare `10 * len < 6 * max` and `10 * len < 8 * max`. Floating-point rounding of `maxChars * 0.6` is not modelled.
- `extractPdfText` and `extractSections` (the PDF library and its heuristics) are left out; the extracted sections are an input.
- The agent logger is one appended row, or none when its insert fails. Wall-clock latency is a parameter.
- Store reads are assumed not to fail. Every write the handlers make can fail, as a flag or a fault index per write: the 500 it causes, and what earlier writes leave behind, are stated. The exception is the usage-tracking update (`lastUsedAt`, `useCount`) in `PendingMemory.RecallMemories`, which is assumed to succeed.
- Concurrency is not modelled; every request runs alone. This covers the check-then-act race between `memoryExists` and `createPendingMemory` and simultaneous first use of the cache.
- Argon2id hashing, lucia sessions and cookies are left out. The hash check is a function parameter; session ids and expiry times are parameters.
- `nanoid`, `generateIdFromEntropySize` and `Date.now()` are fresh-value parameters.
- The session middleware is left out: the signed-in user is an input.
- A non-string JSON field is a missing field. A JSON body that cannot be parsed, and a form body that cannot be read, is `None`.
- The GitHub `fetch` uploads and `fs.writeFile` are outcome parameters. The MDX page text, its date line and base64 encoding are not modelled; the decisions (slug, category, project, section, stripped fields) are.
- The external BibTeX parser of process-research.ts is left out; its entries, or its failure, are an input.
- Lower-casing covers ASCII letters only. The source's `toLowerCase` also folds other alphabets.
- String lengths count characters, not UTF-16 code units.
- The order of rows with equal `createdAt` in the memory listing is kept as table order. SQLite does not promise this.
- Foreign-key enforcement is not modelled. Deleting a user who sent invitations fails in SQLite, but the model lets the user delete succeed and leaves invitations alone, as the handler's code does.
- The user row's `createdAt` default is a parameter.
- The database schema, site configuration, component rendering and the system-prompt files (src/agents/*/prompt.ts) are left out. The paper feed's filter and the user-prompt texts the agents build are modelled.
- ProcessPdf.ProcessPdf: one `now` gives the `pdf-<now>` id and the timestamps of the log and memory rows, while process-pdf.ts:79, logger.ts:27 and memory.ts:41 each read the clock, so these may differ by milliseconds in the source.
- Agent-log ids (`nanoid()` in src/agents/utils/logger.ts) are not checked for uniqueness: a log row is appended under the id given, and the logger's own failure flag covers a failing insert.
- PendingMemory.RecallMemories: one `now` stamps every row the recall touches, while memory.ts:88 reads the clock once per row, so rows updated in one recall may differ by milliseconds in the source.
- The memory reject endpoint (src/pages/api/memories/[id]/reject.ts) is not part of this model. No approve endpoint exists.
- Behaviour of the code worth noting:
  - rejected papers are not persisted;
  - `needs-review` papers are synthesized and stored;
  - an edge's target need only exist, in any status, so a self-edge is written;
  - recall does not increment the use count past 1;
  - only the curator learns memories; the synthesizer creates none.
- ProcessPdf.PdfTitle: for a file name containing `.pdf`, states the length of the fallback title, not which occurrence is removed.
- Text.ReplaceFirstEffect: states the length of the result, not that the occurrence removed is the first.
- Text.StripBraces: states that no brace remains, not that the other characters are kept in order.
- PdfPrepare.PreparedCanExceedBudget: exhibits one input (a title longer than the budget) rather than a bound on the overflow.
- Curator.LearnPlanShape: does not state the memory contents, which `LearnFromCuration` and `PendingRows` give.
