# Orion chat app: session state and thread-title table

Orion is a Streamlit chat front end over a LangGraph/Gemini back end. This project
models, in Dafny, the two parts of it that hold real logic:

- **The session state of `Streamlit_Frontend.py`** (`frontend.dfy`). This is the class
  `Frontend.Session`. Its fields are the eight `st.session_state` keys: `thread_id`,
  `message_history`, `chat_threads`, `chat_titles`, `titles_generated`,
  `renaming_thread`, `new_chat_active` and `active_menu`.
  - Every button press and every submitted message becomes one method that updates
    those fields in place: new chat, select a sidebar entry, toggle the "⋮" menu,
    start/save/cancel a rename, delete, and send a message.
  - The helpers are modelled as well: `add_thread`, `reset_chat`, the `while` loop of
    `get_new_chat_placeholder`, the trivial-message title gate, and the translation of
    checkpointed messages into the transcript.
- **The `chat_metadata` table of `langgraph_backend.py`** (`backend.dfy`). This is the
  class `Backend.MetadataStore`. It holds the rows `(thread_id, title)` in rowid order
  and the checkpointer's per-thread message log.
  - The queries `retrieve_all_threads`, `get_chat_title` and `get_all_chat_titles` are
    functions of the rows.
  - `save_chat_title`, `delete_chat_thread` and `delete_all_threads` are methods.
  - `generate_title_from_message` is the stripped reply of an opaque model function.
- **Python string behaviour** (`pystr.dfy`): `str.strip()` with Python's whitespace
  set, `str.lower()` as far as the trivial-word test can observe it, and the decimal
  digits of `f"New Chat {i}"`.
- **Shared definitions** (`common.dfy`): `Option` (Python's `None`) and list
  reversal.

The session invariant `Session.Valid` says five things:

- the store is consistent: the table keeps its primary key, and without a
  checkpoint table there is no checkpointed message;
- `chat_threads` and `chat_titles` mirror the table (`Mirrors`);
- the current thread, the open menu and every titled key are listed, when they are
  not `None`;
- while a new chat is pending there is no current thread.

Every event method preserves this invariant.

Some behaviour of the code is kept in the model on purpose:

- **Thread keys are `Option<ThreadId>`.** At start-up `thread_id` is `None` and no new
  chat is pending. A message sent before "New Chat" is pressed therefore registers no
  thread, but its title still goes to `chat_titles[None]`. It also goes to a row whose
  key is NULL: SQLite allows NULL in a non-INTEGER primary key and never treats two
  NULLs as a conflict. `retrieve_all_threads` can thus return `None` entries, which the
  sidebar skips.
- **`INSERT OR REPLACE` deletes the conflicting row and appends the new one.** A
  renamed thread therefore moves to the end of the persisted order (`UpsertMovesToEnd`),
  while the session's `chat_threads` keeps its order.
- **`get_all_chat_titles` reads the rows in the order of SQLite's full table scan,
  so a later row wins.** Its SELECT has no ORDER BY; the scan goes in rowid order.
  Only NULL keys can repeat (`AllTitlesLastRowWins`).
- **The "generated" flag is set only when a title is actually generated.** A trivial
  first message leaves it unset, so a later message can still produce a title, even
  after a manual rename.

## Model

| member | source | states |
|---|---|---|
| Common.Reverse | langgraph_backend.py:48 | `[::-1]`: same length, element k is element len-1-k of the input |
| Common.ReverseReverse | langgraph_backend.py:47-48 | reversing the DESC selection gives the original (rowid) order back |
| Common.ReverseMembers | Streamlit_Frontend.py:97 | `reversed(...)` shows exactly the same entries |
| PyStr.SpaceChars | langgraph_backend.py:73 | `isspace()` holds for blank, tab, newline and carriage return, and for no ASCII letter or digit |
| PyStr.StripLeft | langgraph_backend.py:73 | `lstrip()` keeps a suffix that does not start with whitespace |
| PyStr.StripRight | langgraph_backend.py:73 | `rstrip()` keeps a prefix that does not end with whitespace |
| PyStr.StripLeftDropsSpaces | langgraph_backend.py:73 | every character `lstrip()` removes is whitespace |
| PyStr.StripRightDropsSpaces | langgraph_backend.py:73 | every character `rstrip()` removes is whitespace |
| PyStr.Strip | langgraph_backend.py:73 | `strip()` is the infix after the leading whitespace; a non-empty result neither starts nor ends with whitespace |
| PyStr.StripDropsSpaces | langgraph_backend.py:73 | everything `strip()` cuts off on either side is whitespace |
| PyStr.StripIdempotent | langgraph_backend.py:73 | stripping twice equals stripping once |
| PyStr.StripFixesTrimmed | Streamlit_Frontend.py:220 | a string without surrounding whitespace is unchanged by `strip()` |
| PyStr.StripLeftPadding | Streamlit_Frontend.py:220 | `lstrip()` removes exactly a whitespace prefix in front of a non-space start |
| PyStr.StripRightPadding | Streamlit_Frontend.py:220 | `rstrip()` removes exactly a whitespace suffix behind a non-space end |
| PyStr.StripPadding | Streamlit_Frontend.py:220 | `strip()` recovers a trimmed non-empty word from any whitespace padding |
| PyStr.LowerChar | Streamlit_Frontend.py:220 | `lower()` maps A-Z to a-z and KELVIN SIGN to 'k', and leaves every other character alone |
| PyStr.Lower | Streamlit_Frontend.py:220 | `lower()` keeps the length |
| PyStr.LowerAt | Streamlit_Frontend.py:220 | `lower()` lowers each character in place |
| PyStr.LowerIdempotent | Streamlit_Frontend.py:220 | lowering twice equals lowering once |
| PyStr.NatToDecimal | Streamlit_Frontend.py:37-39 | `f"{i}"`: at least one digit, at least two from 10 on, digits only |
| PyStr.NatToDecimalValue | Streamlit_Frontend.py:37-39 | `f"{i}"` spells `i`: its digits, read most significant first, give back `i`, and only 0 starts with '0' |
| PyStr.NatToDecimalInjective | Streamlit_Frontend.py:37-39 | different numbers are written differently (both read back to their number) |
| PyStr.NewChatTitle | Streamlit_Frontend.py:37-39 | every placeholder starts with "New Chat " |
| PyStr.NewChatTitleInjective | Streamlit_Frontend.py:37-39 | "New Chat i" = "New Chat j" only when i = j |
| Backend.SelectIdsNewestFirst | langgraph_backend.py:47 | `ORDER BY rowid DESC`: one id per row, the newest row's first |
| Backend.RetrieveAllThreads | langgraph_backend.py:46-48 | the ids come out in ascending rowid order, one entry per row |
| Backend.RetrieveAllThreadsUnique | langgraph_backend.py:46-48 | every stored id is listed, and no non-NULL id is listed twice (PRIMARY KEY) |
| Backend.RetrieveCons | langgraph_backend.py:46-48 | one more row in front lists its id first |
| Backend.RetrieveSnoc | langgraph_backend.py:46-48 | one more row at the end lists its id last |
| Backend.RowIdsListed | langgraph_backend.py:46-48 | the listing is the `thread_id` column in rowid order |
| Backend.GetChatTitle | langgraph_backend.py:60-63 | a found title belongs to a row with that id; `None` means no row has the id |
| Backend.GetChatTitleListed | langgraph_backend.py:60-63 | an id has a title exactly when `retrieve_all_threads` lists it |
| Backend.GetChatTitleOfRow | langgraph_backend.py:60-63 | under the primary key, any row with the id gives its title |
| Backend.GetAllChatTitles | langgraph_backend.py:65-67 | `dict(rows)`: the last row's id maps to the last row's title |
| Backend.AllTitlesLastRowWins | langgraph_backend.py:65-67 | a later row wins: each key maps to the title of the last row with that key |
| Backend.AllTitlesFromRows | langgraph_backend.py:65-67 | every pair of `get_all_chat_titles` is a stored row |
| Backend.AllTitlesKeys | langgraph_backend.py:65-67 | the keys of `get_all_chat_titles` are exactly the ids `retrieve_all_threads` lists |
| Backend.AllTitlesAgree | langgraph_backend.py:65-67 | for a non-NULL id, `get_all_chat_titles` and `get_chat_title` agree |
| Backend.DeleteRows | langgraph_backend.py:87 | `DELETE ... WHERE thread_id = ?` keeps exactly the rows with another id |
| Backend.DeleteRowsAbsent | langgraph_backend.py:87 | deleting an id that has no row changes nothing |
| Backend.DeleteRowsKeepsOthers | langgraph_backend.py:87 | deleting one id leaves every other id's title as it was |
| Backend.DeleteRowsUnique | langgraph_backend.py:87 | deletion keeps the primary key |
| Backend.DeleteRowsListing | langgraph_backend.py:87 | after the delete, `retrieve_all_threads` lists the old ids without the deleted one, in order |
| Backend.Without | Streamlit_Frontend.py:161 | the ids of a list other than the key, in order |
| Backend.UniqueWithout | Streamlit_Frontend.py:161 | filtering keeps a list duplicate-free |
| Backend.Upsert | langgraph_backend.py:53-58 | `INSERT OR REPLACE`: the new row is last; the other rows are the old ones without the conflicting id (a NULL id conflicts with nothing) |
| Backend.UpsertUnique | langgraph_backend.py:53-58 | the upsert keeps the primary key |
| Backend.UpsertSetsTitle | langgraph_backend.py:53-63 | after `save_chat_title(id, t)`, `get_chat_title(id)` returns `t` |
| Backend.GetChatTitleAppendOther | langgraph_backend.py:60-63 | `get_chat_title` ignores rows of other ids |
| Backend.UpsertKeepsOthers | langgraph_backend.py:53-63 | `save_chat_title` changes no other id's title |
| Backend.UpsertMovesToEnd | langgraph_backend.py:53-58 | renaming moves the id to the end of `retrieve_all_threads` and keeps the others in order |
| Backend.TitlePromptQuotes | langgraph_backend.py:71 | the prompt is the fixed instruction, then the message, then a closing quote |
| Backend.TitlePromptInjective | langgraph_backend.py:71 | different messages give different prompts |
| Backend.GenerateTitle | langgraph_backend.py:69-73 | the stripped reply of the model to the title request of the message; it neither starts nor ends with whitespace |
| Backend.GenerateTitleFromText | langgraph_backend.py:69-73 | a model that reads the prompt text gets exactly `TitlePrompt(message)`, and the title is its stripped reply |
| Backend.GeneratedTitleIsTrimmed | langgraph_backend.py:73 | stripping a generated title again changes nothing |
| Backend.MetadataStore.Open | langgraph_backend.py:28-33 | `CREATE TABLE IF NOT EXISTS` keeps the persisted rows and log |
| Backend.MetadataStore.SaveChatTitle | langgraph_backend.py:53-58 | the rows become the upsert of the old rows; the checkpoints are untouched; the primary key holds |
| Backend.MetadataStore.DeleteChatThread | langgraph_backend.py:75-93 | the thread's rows and its checkpoints go; the thread then reloads an empty conversation and every other thread reloads as before; everything else stays |
| Backend.MetadataStore.DeleteAllThreads | langgraph_backend.py:95-113 | both tables are left empty |
| Frontend.ToChatMessage | Streamlit_Frontend.py:115-118 | content kept; role 'user' exactly for a human message |
| Frontend.ToHistory | Streamlit_Frontend.py:115-118 | same length and order, each message's content kept, 'user' exactly for human messages |
| Frontend.NextPlaceholderIsNew | Streamlit_Frontend.py:34-39 | the next placeholder is new, and the placeholders below i+1 are those below i plus "New Chat i" |
| Frontend.PlaceholderSearchProgress | Streamlit_Frontend.py:36-38 | each taken placeholder shrinks the measure of the search, so the loop ends |
| Frontend.FirstFreeFrom | Streamlit_Frontend.py:34-39 | the first free number from i on is free, and all numbers between are taken |
| Frontend.SmallestFreeIsUnique | Streamlit_Frontend.py:34-39 | only one number is free with every smaller positive number taken |
| Frontend.GetNewChatPlaceholder | Streamlit_Frontend.py:34-39 | returns "New Chat i" for the least i ≥ 1 whose title is not in use |
| Frontend.PlaceholderExamples | Streamlit_Frontend.py:34-39 | titles {1, 3} give 2; none give 1; {1, 2} give 3 |
| Frontend.ListedIsMember | Streamlit_Frontend.py:219-223 | the word-by-word search is membership in the trivial set |
| Frontend.TrivialMessageMeaning | Streamlit_Frontend.py:219-223 | a message is trivial exactly when its stripped, lower-cased text is in `TRIVIAL_MESSAGES` |
| Frontend.TrivialWordShape | Streamlit_Frontend.py:219 | each trivial word has 1 to 9 characters and starts and ends with a lower-case letter |
| Frontend.TrivialDespitePaddingAndCase | Streamlit_Frontend.py:219-223 | a trivial word stays trivial under any whitespace padding and any capitalisation |
| Frontend.LongMessageIsNotTrivial | Streamlit_Frontend.py:219-223 | a message longer than nine characters once stripped is never trivial |
| Frontend.QuestionIsNotTrivial | Streamlit_Frontend.py:219-223 | a real question passes the gate |
| Frontend.ThreadEntries | Streamlit_Frontend.py:97-101 | the sidebar lists a thread entry for exactly the non-`None` threads |
| Frontend.SidebarEntries | Streamlit_Frontend.py:92-104 | entries for exactly the known threads, plus the pending-chat entry (shown first) exactly when a new chat is pending |
| Frontend.WithThread | Streamlit_Frontend.py:30-32 | `add_thread`: the id is listed afterwards, nothing else is added, and the list stays duplicate-free |
| Frontend.WithThreadIdempotent | Streamlit_Frontend.py:30-32 | adding the same thread twice equals adding it once |
| Frontend.RemoveFirst | Streamlit_Frontend.py:161 | `list.remove(x)`: one fewer element, one occurrence of `x` gone |
| Frontend.RemoveFirstUnique | Streamlit_Frontend.py:161 | on a duplicate-free list, `remove` drops the id altogether and keeps the others in order |
| Frontend.WithoutAbsent | Streamlit_Frontend.py:161 | filtering out an absent id changes nothing |
| Frontend.MirrorsAgreeWithLookup | Streamlit_Frontend.py:60-64 | under the mirror, `get_chat_title` finds exactly the listed threads, each with its cached title |
| Frontend.MirrorsInitially | Streamlit_Frontend.py:60-64 | the session loaded from the table mirrors it |
| Frontend.MirrorsRetitle | Streamlit_Frontend.py:142-143 | writing a title to both the cache and the table keeps the mirror |
| Frontend.MirrorsNewThread | Streamlit_Frontend.py:201-207 | registering a fresh thread with its placeholder keeps the mirror |
| Frontend.MirrorsDelete | Streamlit_Frontend.py:160-162 | deleting a thread from the table, the list and the cache keeps the mirror and leaves the id nowhere |
| Frontend.Session.constructor | Streamlit_Frontend.py:54-76 | initial state: no thread, empty transcript, threads and titles from the table, nothing titled, renamed, pending or open |
| Frontend.Session.ResetChat | Streamlit_Frontend.py:41-45 | `reset_chat`: no thread, empty transcript, new chat pending, no other field touched |
| Frontend.Session.NewChat | Streamlit_Frontend.py:85-87 | the "New Chat" button resets the chat and keeps the invariant |
| Frontend.Session.AddThread | Streamlit_Frontend.py:30-32 | the thread list becomes `WithThread` of the old list |
| Frontend.Session.SelectThread | Streamlit_Frontend.py:111-123 | the pending entry resets the chat; a thread entry makes it current, clears the pending flag and loads its transcript |
| Frontend.Session.ToggleMenu | Streamlit_Frontend.py:127-131 | closes the thread's menu if it is open, otherwise opens it; at most one menu is open |
| Frontend.Session.StartRename | Streamlit_Frontend.py:154-157 | the thread enters renaming mode and the menu closes |
| Frontend.Session.SaveRename | Streamlit_Frontend.py:141-145 | the title is set in the cache and the table, renaming ends; the thread list, the transcript and the titled set stay |
| Frontend.Session.Retitle | Streamlit_Frontend.py:142-143 | the cache and the table get the same title for the key |
| Frontend.Session.CancelRename | Streamlit_Frontend.py:146-149 | only `renaming_thread` is cleared |
| Frontend.Session.DeleteThread | Streamlit_Frontend.py:159-167 | the thread leaves the table, the checkpoints, the list, the cache and the titled set, and reloads empty while every other thread reloads as before; the chat resets only if it was current; the menu closes |
| Frontend.Session.ForgetThread | Streamlit_Frontend.py:161-166 | the session side of the delete: list, cache and titled set lose the id, the chat resets only if it was current, the menu closes |
| Frontend.Session.RegisterNewThread | Streamlit_Frontend.py:201-208 | a fresh thread becomes current and listed; its smallest free placeholder, distinct from every cached title, is saved before any model call; the pending flag clears |
| Frontend.Session.TitleIfUntitled | Streamlit_Frontend.py:222-229 | given the trivial test's verdict, a title is generated exactly when the key is untitled and the message is not trivial; then it is cached, saved and flagged, so at most once per key |
| Frontend.Session.RecordTitle | Streamlit_Frontend.py:226-228 | the current key's title is cached and saved, and the key is flagged as titled |
| Frontend.Session.Converse | Streamlit_Frontend.py:210-243 | the transcript grows by the user's message and then the reply; the title gate runs in between, with the verdict it is given |
| Frontend.Session.Submit | Streamlit_Frontend.py:201-243 | a non-empty message: a pending chat first gets its fresh thread, then the exchange runs, with a title exactly when the key is untitled and the verdict is not trivial |
| Frontend.Session.SendMessage | Streamlit_Frontend.py:196-247 | an empty submission does nothing; otherwise the whole new state: key, thread list, transcript, cache, table and titled set, with a title generated exactly when the key is untitled and the stripped, lower-cased message is not trivial |

## Left out

- Streamlit rendering and control flow are left out: the page layout, columns,
  `st.markdown`, the spinner, `st.write_stream`, `st.rerun` and the placeholder
  title shown for the pending entry. Each button press is one method call, and
  "the entry is on screen" is a precondition (`SidebarEntries`, `activeMenu`,
  `renamingThread`).
- The language model is a parameter. For a title it is the function `llm` from
  the title request (`TitleRequest`, holding the message) to the reply; the exact
  prompt text of that request is `TitlePrompt`, and `GenerateTitleFromText` ties the
  two together. For the answer it is the final concatenated `reply` string. The
  streamed chunks are left out. A model call that fails is not modelled either: if
  `llm.invoke` or the reply stream raises, the handler stops after the user's message
  was appended and a pending chat's placeholder was saved, and the model does not
  cover that partial state.
- During a reply the conversation graph writes checkpoints for the thread. That
  append is not modelled: the checkpoint map changes only through the two deletes,
  and `LoadConversation` reads it. The checkpointer's internal tables (`writes`,
  blobs) are not modelled either.
- `uuid.uuid4()` is a `freshId` parameter of `SendMessage`, required to be unlisted.
- The `print` calls and the `sqlite3.Error` paths of `delete_chat_thread` and
  `delete_all_threads` are not modelled. The deletes are modelled as always
  succeeding.
- The shared connection (`check_same_thread=False`) is left out. The model assumes
  that no other session writes the table while this one runs.
- `load_dotenv`, the environment variables and the graph construction
  (`chat_node`, `add_messages`) are left out.
- `PyStr.LowerChar`/`PyStr.Lower` do not compute full Unicode lower-casing. They
  fold A-Z and KELVIN SIGN only. Every other character that Python lowers has a
  non-ASCII lower-case form, so the fold decides membership in the ASCII trivial set
  exactly as `str.lower()` does.
- `Backend.GetChatTitle` takes only non-NULL ids. `get_chat_title(None)` matches no
  row, because `thread_id = NULL` is never true in SQL, and the front end never
  calls it.
- Message contents are strings. A model reply whose `content` is not a string is not
  modelled.
- `titles_generated` is a dictionary of `True` flags in the source. It is modelled
  as the set of flagged keys.
