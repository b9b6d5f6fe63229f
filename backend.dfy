/** The persistence side of the chat app: the `chat_metadata` table
    (`thread_id TEXT PRIMARY KEY, title TEXT`) that names the threads, the
    checkpoint table in which the conversation graph keeps each thread's
    messages, and the title helper that cleans up the language model's reply.

    The metadata table is a sequence of rows in rowid order. SQLite lets a
    non-INTEGER primary key column hold NULL and never treats two NULLs as a
    conflict, so a row's key is an `Option`: several `None` rows may exist, but
    no two rows share a `Some` key. */
module Backend {
  import opened Common
  import opened PyStr

  type ThreadId = string

  /** One row of `chat_metadata`. */
  datatype Row = Row(id: Option<ThreadId>, title: string)

  /** The message classes the checkpointer stores; only `Human` matters to the
      front end, which shows every other class as the assistant's. */
  datatype MessageKind = Human | Ai | System | Tool

  /** A message as the checkpointer returns it. */
  datatype StoredMessage = StoredMessage(kind: MessageKind, content: string)

  /** No two entries share a non-NULL thread id. */
  predicate UniqueIds(ids: seq<Option<ThreadId>>) {
    forall i, j :: 0 <= i < j < |ids| && ids[i].Some? ==> ids[i] != ids[j]
  }

  /** The `thread_id` column, in rowid order. */
  function RowIds(rows: seq<Row>): seq<Option<ThreadId>> {
    seq(|rows|, k requires 0 <= k < |rows| => rows[k].id)
  }

  /** The PRIMARY KEY constraint on `thread_id`. */
  predicate TableValid(rows: seq<Row>) {
    UniqueIds(RowIds(rows))
  }

  /** `SELECT thread_id FROM chat_metadata ORDER BY rowid DESC`: one id per
      row, the newest row first. */
  function SelectIdsNewestFirst(rows: seq<Row>): (ids: seq<Option<ThreadId>>)
    ensures |ids| == |rows|
    ensures forall k :: 0 <= k < |rows| ==> ids[k] == rows[|rows| - 1 - k].id
  {
    Reverse(RowIds(rows))
  }

  /** `retrieve_all_threads`: the newest-first selection reversed, which lists
      every row's id once, oldest row first. */
  function RetrieveAllThreads(rows: seq<Row>): (ids: seq<Option<ThreadId>>)
    ensures |ids| == |rows|
    ensures forall k :: 0 <= k < |rows| ==> ids[k] == rows[k].id
  {
    ReverseReverse(RowIds(rows));
    Reverse(SelectIdsNewestFirst(rows))
  }

  /** Every stored id is listed, and no non-NULL id is listed twice. */
  lemma RetrieveAllThreadsUnique(rows: seq<Row>)
    requires TableValid(rows)
    ensures UniqueIds(RetrieveAllThreads(rows))
    ensures forall row :: row in rows ==> row.id in RetrieveAllThreads(rows)
  {
    assert RetrieveAllThreads(rows) == RowIds(rows);
    forall row | row in rows
      ensures row.id in RetrieveAllThreads(rows)
    {
      var k :| 0 <= k < |rows| && rows[k] == row;
      assert RetrieveAllThreads(rows)[k] == row.id;
    }
  }

  /** `get_chat_title`: `SELECT title ... WHERE thread_id = ?` and the first
      row's title, or `None` when no row has that id. */
  function GetChatTitle(rows: seq<Row>, id: ThreadId): (r: Option<string>)
    ensures r.Some? ==> Row(Some(id), r.value) in rows
    ensures r.None? ==> forall row :: row in rows ==> row.id != Some(id)
  {
    if rows == [] then None
    else if rows[0].id == Some(id) then Some(rows[0].title)
    else GetChatTitle(rows[1..], id)
  }

  /** An id has a title exactly when `retrieve_all_threads` lists it. */
  lemma GetChatTitleListed(rows: seq<Row>, id: ThreadId)
    ensures GetChatTitle(rows, id).Some? <==> Some(id) in RetrieveAllThreads(rows)
  {
    var ids := RetrieveAllThreads(rows);
    if Some(id) in ids {
      var k :| 0 <= k < |ids| && ids[k] == Some(id);
      assert rows[k] in rows;
    }
    if GetChatTitle(rows, id).Some? {
      var k :| 0 <= k < |rows| && rows[k] == Row(Some(id), GetChatTitle(rows, id).value);
      assert ids[k] == Some(id);
    }
  }

  /** With the primary key in force, any row with that id gives the title. */
  lemma {:induction false} GetChatTitleOfRow(rows: seq<Row>, id: ThreadId, title: string)
    requires TableValid(rows)
    requires Row(Some(id), title) in rows
    ensures GetChatTitle(rows, id) == Some(title)
  {
    if rows[0].id == Some(id) {
      var k :| 0 <= k < |rows| && rows[k] == Row(Some(id), title);
      assert RowIds(rows)[0] == Some(id) == RowIds(rows)[k];
    } else {
      assert Row(Some(id), title) in rows[1..];
      assert TableValid(rows[1..]) by {
        assert RowIds(rows[1..]) == RowIds(rows)[1..];
      }
      GetChatTitleOfRow(rows[1..], id, title);
    }
  }

  /** `get_all_chat_titles`: `dict(SELECT thread_id, title ...)`. The SELECT
      has no ORDER BY; the rows are taken in the order of SQLite's full table
      scan, which is rowid order, so a later row overrides an earlier one with
      the same key (only NULL keys can repeat). */
  function GetAllChatTitles(rows: seq<Row>): (titles: map<Option<ThreadId>, string>)
    ensures rows != [] ==> rows[|rows| - 1].id in titles && titles[rows[|rows| - 1].id] == rows[|rows| - 1].title
    decreases |rows|
  {
    if rows == [] then map[]
    else
      var last := rows[|rows| - 1];
      GetAllChatTitles(rows[..|rows| - 1])[last.id := last.title]
  }

  /** Every entry of `get_all_chat_titles` is a row of the table. */
  lemma {:induction false} AllTitlesFromRows(rows: seq<Row>)
    ensures forall k :: k in GetAllChatTitles(rows) ==> Row(k, GetAllChatTitles(rows)[k]) in rows
    decreases |rows|
  {
    if rows != [] {
      var init := rows[..|rows| - 1];
      AllTitlesFromRows(init);
      assert forall row :: row in init ==> row in rows;
    }
  }

  /** A later row wins: a row that no later row shares its key with supplies
      that key's title in `get_all_chat_titles`. */
  lemma {:induction false} AllTitlesLastRowWins(rows: seq<Row>, i: nat)
    requires i < |rows|
    requires forall j :: i < j < |rows| ==> rows[j].id != rows[i].id
    ensures rows[i].id in GetAllChatTitles(rows)
    ensures GetAllChatTitles(rows)[rows[i].id] == rows[i].title
    decreases |rows|
  {
    if i < |rows| - 1 {
      var init := rows[..|rows| - 1];
      assert forall j :: i < j < |init| ==> init[j] == rows[j];
      AllTitlesLastRowWins(init, i);
      assert rows[|rows| - 1].id != rows[i].id;
    }
  }

  /** The keys of `get_all_chat_titles` are the ids `retrieve_all_threads`
      lists. */
  lemma {:induction false} AllTitlesKeys(rows: seq<Row>)
    ensures forall k :: k in GetAllChatTitles(rows) <==> k in RetrieveAllThreads(rows)
    decreases |rows|
  {
    if rows != [] {
      var init := rows[..|rows| - 1];
      AllTitlesKeys(init);
      assert rows == init + [rows[|rows| - 1]];
      RetrieveSnoc(init, rows[|rows| - 1]);
    }
  }

  /** For a non-NULL id the two lookups agree. */
  lemma {:induction false} AllTitlesAgree(rows: seq<Row>, id: ThreadId)
    requires TableValid(rows)
    requires Some(id) in GetAllChatTitles(rows)
    ensures GetChatTitle(rows, id) == Some(GetAllChatTitles(rows)[Some(id)])
    decreases |rows|
  {
    var init, last := rows[..|rows| - 1], rows[|rows| - 1];
    if last.id == Some(id) {
      assert last in rows;
      GetChatTitleOfRow(rows, id, last.title);
    } else {
      assert RowIds(init) == RowIds(rows)[..|rows| - 1];
      AllTitlesAgree(init, id);
      var t := GetAllChatTitles(init)[Some(id)];
      assert Row(Some(id), t) in rows by {
        assert Row(Some(id), t) in init;
      }
      GetChatTitleOfRow(rows, id, t);
    }
  }

  /** `DELETE FROM chat_metadata WHERE thread_id = ?`: the rows without that id,
      in their order. */
  function DeleteRows(rows: seq<Row>, id: ThreadId): (r: seq<Row>)
    ensures forall row :: row in r <==> row in rows && row.id != Some(id)
    ensures |r| <= |rows|
  {
    if rows == [] then []
    else if rows[0].id == Some(id) then DeleteRows(rows[1..], id)
    else [rows[0]] + DeleteRows(rows[1..], id)
  }

  /** Deleting an id that has no row changes nothing. */
  lemma {:induction false} DeleteRowsAbsent(rows: seq<Row>, id: ThreadId)
    requires GetChatTitle(rows, id).None?
    ensures DeleteRows(rows, id) == rows
  {
    if rows != [] {
      DeleteRowsAbsent(rows[1..], id);
    }
  }

  /** Deleting one id leaves every other id's title as it was. */
  lemma {:induction false} DeleteRowsKeepsOthers(rows: seq<Row>, id: ThreadId, other: ThreadId)
    requires other != id
    ensures GetChatTitle(DeleteRows(rows, id), other) == GetChatTitle(rows, other)
  {
    if rows != [] {
      DeleteRowsKeepsOthers(rows[1..], id, other);
    }
  }

  /** `INSERT OR REPLACE INTO chat_metadata (thread_id, title) VALUES (?, ?)`:
      a row whose id conflicts is deleted and the new row is inserted with the
      next rowid, so it goes to the end. A NULL id never conflicts. */
  function Upsert(rows: seq<Row>, key: Option<ThreadId>, title: string): (r: seq<Row>)
    ensures r != [] && r[|r| - 1] == Row(key, title)
    ensures forall row :: row in r <==>
              row == Row(key, title) || (row in rows && (key.None? || row.id != key))
  {
    match key
    case None => rows + [Row(None, title)]
    case Some(id) => DeleteRows(rows, id) + [Row(key, title)]
  }

  /** The upsert keeps the primary key. */
  lemma UpsertUnique(rows: seq<Row>, key: Option<ThreadId>, title: string)
    requires TableValid(rows)
    ensures TableValid(Upsert(rows, key, title))
  {
    var kept := if key.Some? then DeleteRows(rows, key.value) else rows;
    if key.Some? {
      DeleteRowsUnique(rows, key.value);
    }
    var r := kept + [Row(key, title)];
    forall i, j | 0 <= i < j < |r| && RowIds(r)[i].Some?
      ensures RowIds(r)[i] != RowIds(r)[j]
    {
      if j == |r| - 1 {
        assert r[i] in kept;
      } else {
        assert RowIds(r)[i] == RowIds(kept)[i] && RowIds(r)[j] == RowIds(kept)[j];
      }
    }
  }

  /** After `save_chat_title(id, t)`, `get_chat_title(id)` returns `t`. */
  lemma UpsertSetsTitle(rows: seq<Row>, id: ThreadId, title: string)
    requires TableValid(rows)
    ensures GetChatTitle(Upsert(rows, Some(id), title), id) == Some(title)
  {
    UpsertUnique(rows, Some(id), title);
    GetChatTitleOfRow(Upsert(rows, Some(id), title), id, title);
  }

  /** `get_chat_title` is blind to rows of other keys, wherever they are appended. */
  lemma {:induction false} GetChatTitleAppendOther(rows: seq<Row>, row: Row, id: ThreadId)
    requires row.id != Some(id)
    ensures GetChatTitle(rows + [row], id) == GetChatTitle(rows, id)
  {
    if rows != [] {
      assert (rows + [row])[1..] == rows[1..] + [row];
      GetChatTitleAppendOther(rows[1..], row, id);
    }
  }

  /** `save_chat_title` changes no other id's title. */
  lemma UpsertKeepsOthers(rows: seq<Row>, key: Option<ThreadId>, title: string, other: ThreadId)
    requires key != Some(other)
    ensures GetChatTitle(Upsert(rows, key, title), other) == GetChatTitle(rows, other)
  {
    if key.Some? {
      DeleteRowsKeepsOthers(rows, key.value, other);
      GetChatTitleAppendOther(DeleteRows(rows, key.value), Row(key, title), other);
    } else {
      GetChatTitleAppendOther(rows, Row(key, title), other);
    }
  }

  /** The ids of `ids` other than `key`, in order. */
  function Without(ids: seq<Option<ThreadId>>, key: Option<ThreadId>): (r: seq<Option<ThreadId>>)
    ensures forall k :: k in r <==> k in ids && k != key
  {
    if ids == [] then []
    else if ids[0] == key then Without(ids[1..], key)
    else [ids[0]] + Without(ids[1..], key)
  }

  /** `retrieve_all_threads` after a delete is the earlier list without that id. */
  lemma {:induction false} DeleteRowsListing(rows: seq<Row>, id: ThreadId)
    ensures RetrieveAllThreads(DeleteRows(rows, id)) == Without(RetrieveAllThreads(rows), Some(id))
  {
    if rows != [] {
      RetrieveCons(rows[0], rows[1..]);
      assert [rows[0]] + rows[1..] == rows;
      DeleteRowsListing(rows[1..], id);
      if rows[0].id != Some(id) {
        RetrieveCons(rows[0], DeleteRows(rows[1..], id));
      }
    }
  }

  /** Listing a table with one more row in front lists that row's id first. */
  lemma RetrieveCons(row: Row, rest: seq<Row>)
    ensures RetrieveAllThreads([row] + rest) == [row.id] + RetrieveAllThreads(rest)
  {
    var a, b := RetrieveAllThreads([row] + rest), [row.id] + RetrieveAllThreads(rest);
    assert |a| == |b|;
    forall k | 0 <= k < |a|
      ensures a[k] == b[k]
    {
      if k > 0 {
        assert ([row] + rest)[k] == rest[k - 1];
      }
    }
  }

  /** Listing a table with one more row at the end lists that row's id last. */
  lemma RetrieveSnoc(rest: seq<Row>, row: Row)
    ensures RetrieveAllThreads(rest + [row]) == RetrieveAllThreads(rest) + [row.id]
  {
    var a, b := RetrieveAllThreads(rest + [row]), RetrieveAllThreads(rest) + [row.id];
    assert |a| == |b|;
    forall k | 0 <= k < |a|
      ensures a[k] == b[k]
    {
      if k < |rest| {
        assert (rest + [row])[k] == rest[k];
      }
    }
  }

  /** Deleting rows never breaks the primary key. */
  lemma DeleteRowsUnique(rows: seq<Row>, id: ThreadId)
    requires TableValid(rows)
    ensures TableValid(DeleteRows(rows, id))
  {
    var kept := DeleteRows(rows, id);
    DeleteRowsListing(rows, id);
    RowIdsListed(rows);
    RowIdsListed(kept);
    UniqueWithout(RowIds(rows), Some(id));
  }

  /** The `thread_id` column is what `retrieve_all_threads` lists. */
  lemma RowIdsListed(rows: seq<Row>)
    ensures RowIds(rows) == RetrieveAllThreads(rows)
  {
  }

  /** Filtering keeps a list duplicate-free. */
  lemma {:induction false} UniqueWithout(s: seq<Option<ThreadId>>, key: Option<ThreadId>)
    requires UniqueIds(s)
    ensures UniqueIds(Without(s, key))
  {
    if s != [] {
      assert UniqueIds(s[1..]);
      UniqueWithout(s[1..], key);
      var rest := Without(s[1..], key);
      if s[0] != key {
        var r := [s[0]] + rest;
        forall i, j | 0 <= i < j < |r| && r[i].Some?
          ensures r[i] != r[j]
        {
          if i == 0 {
            assert r[j] in s[1..];
            var m :| 0 <= m < |s| - 1 && s[1..][m] == r[j];
            assert s[0] != s[m + 1];
          } else {
            assert r[i] == rest[i - 1] && r[j] == rest[j - 1];
          }
        }
      }
    }
  }

  /** Renaming a thread (an upsert of an existing id) moves it to the end of
      `retrieve_all_threads` and keeps every other id in its place. */
  lemma UpsertMovesToEnd(rows: seq<Row>, id: ThreadId, title: string)
    ensures RetrieveAllThreads(Upsert(rows, Some(id), title))
            == Without(RetrieveAllThreads(rows), Some(id)) + [Some(id)]
  {
    var kept := DeleteRows(rows, id);
    DeleteRowsListing(rows, id);
    RetrieveSnoc(kept, Row(Some(id), title));
  }

  /** `generate_title_from_message`'s prompt: the message quoted inside a fixed
      instruction to summarise it in 3 to 5 words. */
  function TitlePrompt(message: string): string {
    TitleInstruction + message + "'"
  }

  /** The prompt is the instruction, then the whole message, then the closing
      quote. */
  lemma TitlePromptQuotes(message: string)
    ensures |TitlePrompt(message)| == |TitleInstruction| + |message| + 1
    ensures TitlePrompt(message)[..|TitleInstruction|] == TitleInstruction
    ensures TitlePrompt(message)[|TitleInstruction|..|TitlePrompt(message)| - 1] == message
    ensures TitlePrompt(message)[|TitlePrompt(message)| - 1] == '\''
  {
    var p := TitlePrompt(message);
    assert p == TitleInstruction + (message + "'");
  }

  /** Different messages give different prompts: the whole message reaches the
      model. */
  lemma {:induction false} TitlePromptInjective(m1: string, m2: string)
    requires TitlePrompt(m1) == TitlePrompt(m2)
    ensures m1 == m2
  {
    TitlePromptQuotes(m1);
    TitlePromptQuotes(m2);
    var p1, p2 := TitlePrompt(m1), TitlePrompt(m2);
    assert m1 == p1[|TitleInstruction|..|p1| - 1] == p2[|TitleInstruction|..|p2| - 1] == m2;
  }

  /** The instruction the prompt starts with, up to the opening quote. */
  const TitleInstruction: string := "Generate a short strictly 3-5 word chat title summarizing this message: '"

  /** The request `generate_title_from_message` sends the model: one human
      message whose text is `TitlePrompt(message)`. Since that text determines
      the message (`TitlePromptInjective`), a model answering the request is a
      model answering the text, and back (`GenerateTitleFromText`). */
  datatype TitleRequest = TitleRequest(message: string)

  /** `generate_title_from_message`: ask the model (`llm`, an opaque function of
      the request) and keep its reply with the surrounding whitespace stripped,
      so that the title neither starts nor ends with whitespace. */
  function GenerateTitle(message: string, llm: TitleRequest -> string): (title: string)
    ensures title != [] ==> !IsSpace(title[0]) && !IsSpace(title[|title| - 1])
  {
    Strip(llm(TitleRequest(message)))
  }

  /** A model of the prompt text answers the request with its reply to
      `TitlePrompt(message)`. */
  lemma GenerateTitleFromText(message: string, textModel: string -> string)
    ensures GenerateTitle(message, (r: TitleRequest) => textModel(TitlePrompt(r.message)))
            == Strip(textModel(TitlePrompt(message)))
  {
  }

  /** A generated title is already trimmed: stripping it again changes
      nothing. */
  lemma GeneratedTitleIsTrimmed(message: string, llm: TitleRequest -> string)
    ensures Strip(GenerateTitle(message, llm)) == GenerateTitle(message, llm)
  {
    StripIdempotent(llm(TitleRequest(message)));
  }

  /** The SQLite connection shared by the app: the metadata rows, the
      checkpointer's per-thread message log, and whether the checkpointer has
      created its `checkpoints` table yet. */
  class MetadataStore {
    var rows: seq<Row>
    var checkpoints: map<ThreadId, seq<StoredMessage>>
    var hasCheckpointsTable: bool

    ghost predicate Valid()
      reads this
    {
      && TableValid(rows)
      && (!hasCheckpointsTable ==> checkpoints == map[])
    }

    /** Opening the database: `CREATE TABLE IF NOT EXISTS chat_metadata` keeps
        whatever an earlier run left in it. */
    constructor Open(persisted: seq<Row>, log: map<ThreadId, seq<StoredMessage>>, tableExists: bool)
      requires TableValid(persisted)
      requires !tableExists ==> log == map[]
      ensures Valid()
      ensures rows == persisted && checkpoints == log && hasCheckpointsTable == tableExists
    {
      rows := persisted;
      checkpoints := log;
      hasCheckpointsTable := tableExists;
    }

    /** `save_chat_title`: upsert of the row for `key`. */
    method SaveChatTitle(key: Option<ThreadId>, title: string)
      requires Valid()
      modifies this
      ensures Valid()
      ensures rows == Upsert(old(rows), key, title)
      ensures checkpoints == old(checkpoints) && hasCheckpointsTable == old(hasCheckpointsTable)
    {
      UpsertUnique(rows, key, title);
      rows := Upsert(rows, key, title);
    }

    /** `delete_chat_thread`: drop the thread's checkpoints when the table
        exists, then its metadata row. */
    method DeleteChatThread(id: ThreadId)
      requires Valid()
      modifies this
      ensures Valid()
      ensures rows == DeleteRows(old(rows), id)
      ensures checkpoints == old(checkpoints) - {id}
      ensures hasCheckpointsTable == old(hasCheckpointsTable)
      ensures LoadConversation(id) == []
      ensures forall other :: other != id ==> LoadConversation(other) == old(LoadConversation(other))
    {
      if hasCheckpointsTable {
        checkpoints := checkpoints - {id};
      }
      DeleteRowsUnique(rows, id);
      rows := DeleteRows(rows, id);
    }

    /** `delete_all_threads`: empty both tables. */
    method DeleteAllThreads()
      requires Valid()
      modifies this
      ensures Valid()
      ensures rows == [] && checkpoints == map[]
      ensures hasCheckpointsTable == old(hasCheckpointsTable)
    {
      if hasCheckpointsTable {
        checkpoints := map[];
      }
      rows := [];
    }

    /** `load_conversation`: the thread's checkpointed messages, or none
        (`get_state(...).values.get('messages', [])`). */
    function LoadConversation(id: ThreadId): seq<StoredMessage>
      reads this
    {
      if id in checkpoints then checkpoints[id] else []
    }
  }
}
