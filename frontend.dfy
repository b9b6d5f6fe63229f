/** The Streamlit script's session state and the handlers of its UI events.

    Every button press of the sidebar and every submitted chat message runs one
    block of the script that updates `st.session_state` in place; here each
    block is a method of `Session`, whose fields are the eight session keys.
    Thread ids, dictionary keys and the current thread are `Option`s because
    the script really does use `None` as a key: a message sent before "New
    Chat" is pressed runs with `thread_id` still `None`. */
module Frontend {
  import opened Common
  import opened PyStr
  import opened Backend

  /** The two roles the transcript shows. */
  datatype Role = User | Assistant

  /** One `{'role': ..., 'content': ...}` entry of `message_history`. */
  datatype ChatMessage = ChatMessage(role: Role, content: string)

  // ---------------------------------------------------------------------------
  // Loading a stored conversation

  /** One stored message as the transcript shows it: a human message is the
      user's, any other message is the assistant's. */
  function ToChatMessage(m: StoredMessage): (c: ChatMessage)
    ensures c.content == m.content
    ensures c.role == User <==> m.kind == Human
  {
    ChatMessage(if m.kind == Human then User else Assistant, m.content)
  }

  /** The list comprehension that rebuilds `message_history` from the
      checkpointed messages: same length, same order, each message translated. */
  function ToHistory(msgs: seq<StoredMessage>): (h: seq<ChatMessage>)
    ensures |h| == |msgs|
    ensures forall k :: 0 <= k < |msgs| ==>
              h[k].content == msgs[k].content && (h[k].role == User <==> msgs[k].kind == Human)
  {
    if msgs == [] then [] else [ToChatMessage(msgs[0])] + ToHistory(msgs[1..])
  }

  // ---------------------------------------------------------------------------
  // The "New Chat i" placeholder

  /** The placeholders "New Chat 1" .. "New Chat i-1". */
  ghost function PlaceholdersBelow(i: nat): set<string> {
    set j | 1 <= j < i :: NewChatTitle(j)
  }

  /** The next placeholder is not among the ones before it. */
  lemma NextPlaceholderIsNew(i: nat)
    requires 1 <= i
    ensures NewChatTitle(i) !in PlaceholdersBelow(i)
    ensures PlaceholdersBelow(i + 1) == PlaceholdersBelow(i) + {NewChatTitle(i)}
  {
    if NewChatTitle(i) in PlaceholdersBelow(i) {
      var j :| 1 <= j < i && NewChatTitle(j) == NewChatTitle(i);
      NewChatTitleInjective(j, i);
    }
    forall t | t in PlaceholdersBelow(i + 1)
      ensures t in PlaceholdersBelow(i) + {NewChatTitle(i)}
    {
      var j :| 1 <= j < i + 1 && t == NewChatTitle(j);
      if j < i {
        assert t in PlaceholdersBelow(i);
      }
    }
    forall t | t in PlaceholdersBelow(i) + {NewChatTitle(i)}
      ensures t in PlaceholdersBelow(i + 1)
    {
      if t != NewChatTitle(i) {
        var j :| 1 <= j < i && t == NewChatTitle(j);
        assert 1 <= j < i + 1;
      } else {
        assert 1 <= i < i + 1;
      }
    }
  }

  /** Each taken placeholder the search steps over leaves fewer titles that the
      search has not yet stepped over: the search terminates. */
  lemma PlaceholderSearchProgress(existing: set<string>, i: nat)
    requires 1 <= i && NewChatTitle(i) in existing
    ensures |existing - PlaceholdersBelow(i + 1)| < |existing - PlaceholdersBelow(i)|
  {
    NextPlaceholderIsNew(i);
    assert existing - PlaceholdersBelow(i + 1) == (existing - PlaceholdersBelow(i)) - {NewChatTitle(i)};
  }

  /** The first free placeholder number from `i` on. */
  ghost function FirstFreeFrom(existing: set<string>, i: nat): (n: nat)
    requires i >= 1
    ensures i <= n && NewChatTitle(n) !in existing
    ensures forall j :: i <= j < n ==> NewChatTitle(j) in existing
    decreases |existing - PlaceholdersBelow(i)|
  {
    if NewChatTitle(i) !in existing then i
    else
      PlaceholderSearchProgress(existing, i);
      FirstFreeFrom(existing, i + 1)
  }

  /** The number `get_new_chat_placeholder` picks is the only one with its two
      properties: it is free and every smaller positive number is taken. */
  lemma {:induction false} SmallestFreeIsUnique(existing: set<string>, n: nat)
    requires 1 <= n && NewChatTitle(n) !in existing
    requires forall j :: 1 <= j < n ==> NewChatTitle(j) in existing
    ensures n == FirstFreeFrom(existing, 1)
  {
  }

  /** `get_new_chat_placeholder`: count up from 1 until "New Chat i" is not one
      of the existing titles. */
  method GetNewChatPlaceholder(existing: set<string>) returns (title: string)
    ensures title == NewChatTitle(FirstFreeFrom(existing, 1))
    ensures title !in existing
  {
    var i := 1;
    while NewChatTitle(i) in existing
      invariant 1 <= i
      invariant FirstFreeFrom(existing, i) == FirstFreeFrom(existing, 1)
      decreases |existing - PlaceholdersBelow(i)|
    {
      PlaceholderSearchProgress(existing, i);
      i := i + 1;
    }
    title := NewChatTitle(i);
  }

  /** The placeholder examples: {1, 3} gives 2, nothing gives 1, {1, 2} gives 3. */
  lemma PlaceholderExamples()
    ensures FirstFreeFrom({"New Chat 1", "New Chat 3"}, 1) == 2
    ensures FirstFreeFrom({}, 1) == 1
    ensures FirstFreeFrom({"New Chat 1", "New Chat 2"}, 1) == 3
  {
    assert NewChatTitle(1) == "New Chat 1";
    assert NewChatTitle(2) == "New Chat 2";
    assert NewChatTitle(3) == "New Chat 3";
    SmallestFreeIsUnique({"New Chat 1", "New Chat 3"}, 2);
    SmallestFreeIsUnique({}, 1);
    SmallestFreeIsUnique({"New Chat 1", "New Chat 2"}, 3);
  }

  // ---------------------------------------------------------------------------
  // The trivial-message gate

  /** Messages that do not deserve a generated title. */
  const TrivialMessages: seq<string> :=
    ["hi", "hii", "hello", "hey", "bye", "goodbye", "ok", "thanks", "thank you"]

  /** `w in words`, one word at a time. The gate is defined by this search
      rather than by `in` so that a proof about a message meets one word at a
      time instead of every word of the list at once; `ListedIsMember` shows
      the two agree. */
  predicate Listed(w: string, words: seq<string>)
    decreases |words|
  {
    words != [] && (words[0] == w || Listed(w, words[1..]))
  }

  /** The word-by-word search is membership. */
  lemma {:induction false} ListedIsMember(w: string, words: seq<string>)
    ensures Listed(w, words) <==> w in words
    decreases |words|
  {
    if words != [] {
      ListedIsMember(w, words[1..]);
      assert words == [words[0]] + words[1..];
    }
  }

  /** `user_input.strip().lower()` is one of the trivial messages. */
  predicate IsTrivialMessage(text: string) {
    Listed(Lower(Strip(text)), TrivialMessages)
  }

  /** The gate is membership of the stripped, lower-cased message in the
      trivial set. */
  lemma TrivialMessageMeaning(text: string)
    ensures IsTrivialMessage(text) <==> Lower(Strip(text)) in TrivialMessages
  {
    ListedIsMember(Lower(Strip(text)), TrivialMessages);
  }

  /** Every trivial message is a non-empty word of at most nine characters
      that starts and ends with a lower-case letter. */
  lemma TrivialWordShape(w: string)
    requires w in TrivialMessages
    ensures 1 <= |w| <= 9 && 'a' <= w[0] <= 'z' && 'a' <= w[|w| - 1] <= 'z'
  {
  }

  /** A trivial message stays trivial under any whitespace padding and any
      capitalisation. */
  lemma TrivialDespitePaddingAndCase(pre: string, word: string, post: string)
    requires forall k :: 0 <= k < |pre| ==> IsSpace(pre[k])
    requires forall k :: 0 <= k < |post| ==> IsSpace(post[k])
    requires Lower(word) in TrivialMessages
    ensures IsTrivialMessage(pre + word + post)
  {
    var w := Lower(word);
    TrivialWordShape(w);
    LowerAt(word);
    assert !IsSpace(word[0]) by {
      assert LowerChar(word[0]) == w[0];
    }
    assert !IsSpace(word[|word| - 1]) by {
      assert LowerChar(word[|word| - 1]) == w[|w| - 1];
    }
    StripPadding(pre, word, post);
    ListedIsMember(w, TrivialMessages);
  }

  /** A message that is still longer than nine characters once stripped is
      never trivial: it gets a generated title. */
  lemma LongMessageIsNotTrivial(text: string)
    requires |Strip(text)| > 9
    ensures !IsTrivialMessage(text)
  {
    ListedIsMember(Lower(Strip(text)), TrivialMessages);
    if IsTrivialMessage(text) {
      TrivialWordShape(Lower(Strip(text)));
    }
  }

  /** A real question is not trivial. */
  lemma QuestionIsNotTrivial()
    ensures !IsTrivialMessage("Please summarize quarterly revenue trends")
  {
    var q := "Please summarize quarterly revenue trends";
    StripFixesTrimmed(q);
    LongMessageIsNotTrivial(q);
  }

  // ---------------------------------------------------------------------------
  // The sidebar

  /** One clickable entry of the sidebar's conversation list. */
  datatype SidebarEntry = NewChatEntry | ThreadEntry(id: ThreadId)

  /** The known threads as sidebar entries, `None` entries skipped. */
  function ThreadEntries(threads: seq<Option<ThreadId>>): (es: seq<SidebarEntry>)
    ensures forall e :: e in es <==> e.ThreadEntry? && Some(e.id) in threads
  {
    if threads == [] then []
    else if threads[0].None? then ThreadEntries(threads[1..])
    else [ThreadEntry(threads[0].value)] + ThreadEntries(threads[1..])
  }

  /** `reversed(chat_threads_to_show)`: the known threads and, while a new chat
      is pending, its placeholder entry, newest first. */
  function SidebarEntries(threads: seq<Option<ThreadId>>, newChatActive: bool): (es: seq<SidebarEntry>)
    ensures forall id :: ThreadEntry(id) in es <==> Some(id) in threads
    ensures NewChatEntry in es <==> newChatActive
    ensures newChatActive ==> es[0] == NewChatEntry
  {
    var shown := ThreadEntries(threads) + if newChatActive then [NewChatEntry] else [];
    forall e ensures e in Reverse(shown) <==> e in shown {
      ReverseMembers(shown, e);
    }
    Reverse(shown)
  }

  // ---------------------------------------------------------------------------
  // Thread lists

  /** `add_thread` on a list value: append the id unless it is already there. */
  function WithThread(threads: seq<Option<ThreadId>>, key: Option<ThreadId>): (r: seq<Option<ThreadId>>)
    ensures key in r
    ensures forall k :: k in r <==> k in threads || k == key
    ensures UniqueIds(threads) ==> UniqueIds(r)
  {
    if key in threads then threads else threads + [key]
  }

  /** Adding the same thread twice is adding it once. */
  lemma WithThreadIdempotent(threads: seq<Option<ThreadId>>, key: Option<ThreadId>)
    ensures WithThread(WithThread(threads, key), key) == WithThread(threads, key)
  {
  }

  /** `list.remove(x)`: drop the first occurrence of `x`. */
  function RemoveFirst(s: seq<Option<ThreadId>>, x: Option<ThreadId>): (r: seq<Option<ThreadId>>)
    requires x in s
    ensures |r| == |s| - 1
    ensures multiset(r) == multiset(s) - multiset{x}
  {
    assert s == [s[0]] + s[1..];
    if s[0] == x then s[1..]
    else
      assert x in s[1..];
      [s[0]] + RemoveFirst(s[1..], x)
  }

  /** On a duplicate-free thread list, removing the first occurrence of an id
      removes the id altogether and keeps the others in order. */
  lemma {:induction false} RemoveFirstUnique(s: seq<Option<ThreadId>>, id: ThreadId)
    requires UniqueIds(s) && Some(id) in s
    ensures RemoveFirst(s, Some(id)) == Without(s, Some(id))
    ensures UniqueIds(RemoveFirst(s, Some(id)))
  {
    if s[0] == Some(id) {
      assert Some(id) !in s[1..] by {
        forall j | 1 <= j < |s| ensures s[j] != Some(id) {
          assert s[0] != s[j];
        }
      }
      WithoutAbsent(s[1..], Some(id));
    } else {
      assert UniqueIds(s[1..]);
      RemoveFirstUnique(s[1..], id);
    }
    UniqueWithout(s, Some(id));
  }

  /** Removing an id that is not there changes nothing. */
  lemma {:induction false} WithoutAbsent(s: seq<Option<ThreadId>>, key: Option<ThreadId>)
    requires key !in s
    ensures Without(s, key) == s
  {
    if s != [] {
      WithoutAbsent(s[1..], key);
    }
  }

  // ---------------------------------------------------------------------------
  // Keeping the session's thread list and title cache a mirror of the table

  /** The session's `chat_threads` and `chat_titles` agree with the table: the
      list holds no thread twice, it lists exactly the non-NULL ids of the cache,
      the cache's title of each is a row of the table, and every non-NULL row
      of the table is listed. The predicate says nothing about `None`: a `None`
      entry of the list or the cache, and a row with a NULL key, are left out
      of the agreement. */
  ghost predicate Mirrors(rows: seq<Row>, threads: seq<Option<ThreadId>>, titles: map<Option<ThreadId>, string>) {
    && UniqueIds(threads)
    && (forall k :: k in threads && k.Some? ==> k in titles)
    && (forall k :: k in titles && k.Some? ==> k in threads && Row(k, titles[k]) in rows)
    && (forall row :: row in rows && row.id.Some? ==> row.id in threads)
  }

  /** Under the mirror, `get_chat_title` finds exactly the listed threads, each
      with the title the cache holds for it. */
  lemma MirrorsAgreeWithLookup(rows: seq<Row>, threads: seq<Option<ThreadId>>,
                               titles: map<Option<ThreadId>, string>, id: ThreadId)
    requires TableValid(rows) && Mirrors(rows, threads, titles)
    ensures GetChatTitle(rows, id).Some? <==> Some(id) in threads
    ensures Some(id) in threads ==> GetChatTitle(rows, id) == Some(titles[Some(id)])
  {
    if Some(id) in threads {
      GetChatTitleOfRow(rows, id, titles[Some(id)]);
    }
  }

  /** Loading the session from the table mirrors it. */
  lemma MirrorsInitially(rows: seq<Row>)
    requires TableValid(rows)
    ensures Mirrors(rows, RetrieveAllThreads(rows), GetAllChatTitles(rows))
  {
    var threads, titles := RetrieveAllThreads(rows), GetAllChatTitles(rows);
    RetrieveAllThreadsUnique(rows);
    AllTitlesKeys(rows);
    forall k | k in titles && k.Some?
      ensures Row(k, titles[k]) in rows
    {
      AllTitlesAgree(rows, k.value);
    }
  }

  /** Retitling a listed thread (or the NULL key) in both the cache and the
      table keeps the mirror: the "Save" of a rename and the generated title. */
  lemma MirrorsRetitle(rows: seq<Row>, threads: seq<Option<ThreadId>>, titles: map<Option<ThreadId>, string>,
                       key: Option<ThreadId>, title: string)
    requires Mirrors(rows, threads, titles)
    requires key.Some? ==> key in threads
    ensures Mirrors(Upsert(rows, key, title), threads, titles[key := title])
  {
    var rows', titles' := Upsert(rows, key, title), titles[key := title];
    forall k | k in titles' && k.Some?
      ensures k in threads && Row(k, titles'[k]) in rows'
    {
      if k != key {
        assert Row(k, titles[k]) in rows;
      }
    }
  }

  /** Registering a fresh thread with its placeholder title in the list, the
      cache and the table keeps the mirror. */
  lemma MirrorsNewThread(rows: seq<Row>, threads: seq<Option<ThreadId>>, titles: map<Option<ThreadId>, string>,
                         id: ThreadId, title: string)
    requires Mirrors(rows, threads, titles)
    requires Some(id) !in threads
    ensures Mirrors(Upsert(rows, Some(id), title), WithThread(threads, Some(id)), titles[Some(id) := title])
  {
    var rows', threads', titles' := Upsert(rows, Some(id), title), WithThread(threads, Some(id)), titles[Some(id) := title];
    forall k | k in titles' && k.Some?
      ensures k in threads' && Row(k, titles'[k]) in rows'
    {
      if k != Some(id) {
        assert Row(k, titles[k]) in rows;
      }
    }
  }

  /** Deleting a listed thread from the table, the list and the cache keeps the
      mirror, and the id is gone from all three. */
  lemma MirrorsDelete(rows: seq<Row>, threads: seq<Option<ThreadId>>, titles: map<Option<ThreadId>, string>,
                      id: ThreadId)
    requires Mirrors(rows, threads, titles)
    requires Some(id) in threads
    ensures Mirrors(DeleteRows(rows, id), RemoveFirst(threads, Some(id)), titles - {Some(id)})
    ensures Some(id) !in RemoveFirst(threads, Some(id))
    ensures RemoveFirst(threads, Some(id)) == Without(threads, Some(id))
  {
    RemoveFirstUnique(threads, id);
    var rows', titles' := DeleteRows(rows, id), titles - {Some(id)};
    forall k | k in titles' && k.Some?
      ensures Row(k, titles'[k]) in rows'
    {
      assert Row(k, titles[k]) in rows;
    }
  }

  // ---------------------------------------------------------------------------
  // The session

  /** `st.session_state` together with the database connection it talks to. */
  class Session {
    const store: MetadataStore
    var threadId: Option<ThreadId>
    var messageHistory: seq<ChatMessage>
    var chatThreads: seq<Option<ThreadId>>
    var chatTitles: map<Option<ThreadId>, string>
    var titlesGenerated: set<Option<ThreadId>>
    var renamingThread: Option<ThreadId>
    var newChatActive: bool
    var activeMenu: Option<ThreadId>

    /** The session invariant: the thread list and the title cache mirror the
        table, and the current thread, the open menu and the titled keys are
        listed; a pending new chat has no current thread. */
    ghost predicate Valid()
      reads this, store
    {
      && store.Valid()
      && Mirrors(store.rows, chatThreads, chatTitles)
      && (threadId.Some? ==> threadId in chatThreads)
      && (newChatActive ==> threadId.None?)
      && (activeMenu.Some? ==> activeMenu in chatThreads)
      && (forall k :: k in titlesGenerated && k.Some? ==> k in chatThreads)
    }

    /** The session-state initialisation: no current thread, an empty
        transcript, the threads and titles read from the table, nothing titled,
        renamed, pending or open. */
    constructor (store: MetadataStore)
      requires store.Valid()
      ensures Valid() && this.store == store
      ensures threadId == None && messageHistory == []
      ensures chatThreads == RetrieveAllThreads(store.rows)
      ensures chatTitles == GetAllChatTitles(store.rows)
      ensures titlesGenerated == {} && renamingThread == None
      ensures !newChatActive && activeMenu == None
    {
      MirrorsInitially(store.rows);
      this.store := store;
      threadId := None;
      messageHistory := [];
      chatThreads := RetrieveAllThreads(store.rows);
      chatTitles := GetAllChatTitles(store.rows);
      titlesGenerated := {};
      renamingThread := None;
      newChatActive := false;
      activeMenu := None;
    }

    /** `reset_chat` (run by the "New Chat" button, the pending-chat entry and
        the deletion of the current thread): no current thread, an empty
        transcript and a pending new chat; nothing else changes. */
    method ResetChat()
      modifies this`threadId, this`messageHistory, this`newChatActive
      ensures threadId == None && messageHistory == [] && newChatActive
    {
      threadId := None;
      messageHistory := [];
      newChatActive := true;
    }

    /** The "New Chat" button: `reset_chat`, which keeps the invariant. */
    method NewChat()
      requires Valid()
      modifies this`threadId, this`messageHistory, this`newChatActive
      ensures Valid()
      ensures threadId == None && messageHistory == [] && newChatActive
    {
      ResetChat();
    }

    /** `add_thread`: append the id to the thread list unless it is there. */
    method AddThread(key: Option<ThreadId>)
      modifies this`chatThreads
      ensures chatThreads == WithThread(old(chatThreads), key)
    {
      if key !in chatThreads {
        chatThreads := chatThreads + [key];
      }
    }

    /** A click on a sidebar entry. The pending-chat entry resets the chat;
        a thread's entry makes it current and reloads its transcript from the
        checkpointer. */
    method SelectThread(entry: SidebarEntry)
      requires Valid()
      requires entry in SidebarEntries(chatThreads, newChatActive)
      modifies this`threadId, this`messageHistory, this`newChatActive
      ensures Valid()
      ensures entry == NewChatEntry ==>
                threadId == None && messageHistory == [] && newChatActive
      ensures entry.ThreadEntry? ==>
                && threadId == Some(entry.id) && !newChatActive
                && messageHistory == ToHistory(store.LoadConversation(entry.id))
    {
      match entry
      case NewChatEntry =>
        ResetChat();
      case ThreadEntry(id) =>
        threadId := Some(id);
        messageHistory := ToHistory(store.LoadConversation(id));
        newChatActive := false;
    }

    /** The "⋮" button of a thread: closes that thread's menu if it is the open
        one, otherwise opens it (closing any other). */
    method ToggleMenu(id: ThreadId)
      requires Valid()
      requires ThreadEntry(id) in SidebarEntries(chatThreads, newChatActive)
      modifies this`activeMenu
      ensures Valid()
      ensures activeMenu == if old(activeMenu) == Some(id) then None else Some(id)
    {
      activeMenu := if activeMenu == Some(id) then None else Some(id);
    }

    /** The "Rename" button of the open menu: the thread enters renaming mode
        and the menu closes. */
    method StartRename(id: ThreadId)
      requires Valid()
      requires activeMenu == Some(id)
      modifies this`renamingThread, this`activeMenu
      ensures Valid()
      ensures renamingThread == Some(id) && activeMenu == None
    {
      renamingThread := Some(id);
      activeMenu := None;
    }

    /** The "Save" button of the rename box: the new title goes into the cache
        and the table, and renaming mode ends. Nothing else in the session
        changes; in the table the row moves to the end (see `UpsertMovesToEnd`). */
    method SaveRename(id: ThreadId, newTitle: string)
      requires Valid()
      requires renamingThread == Some(id)
      requires ThreadEntry(id) in SidebarEntries(chatThreads, newChatActive)
      modifies this`chatTitles, this`renamingThread, store
      ensures Valid()
      ensures chatTitles == old(chatTitles)[Some(id) := newTitle]
      ensures renamingThread == None
      ensures store.rows == Upsert(old(store.rows), Some(id), newTitle)
      ensures store.checkpoints == old(store.checkpoints)
      ensures store.hasCheckpointsTable == old(store.hasCheckpointsTable)
    {
      Retitle(Some(id), newTitle);
      renamingThread := None;
    }

    /** A title written both to the cache (`chat_titles[key] = title`) and to
        the table (`save_chat_title(key, title)`), for a listed thread or the
        `None` key. */
    method Retitle(key: Option<ThreadId>, title: string)
      requires Valid()
      requires key.Some? ==> key in chatThreads
      modifies this`chatTitles, store
      ensures Valid()
      ensures chatTitles == old(chatTitles)[key := title]
      ensures store.rows == Upsert(old(store.rows), key, title)
      ensures store.checkpoints == old(store.checkpoints)
      ensures store.hasCheckpointsTable == old(store.hasCheckpointsTable)
    {
      MirrorsRetitle(store.rows, chatThreads, chatTitles, key, title);
      chatTitles := chatTitles[key := title];
      store.SaveChatTitle(key, title);
    }

    /** The "Cancel" button of the rename box: renaming mode ends. */
    method CancelRename(id: ThreadId)
      requires Valid()
      requires renamingThread == Some(id)
      requires ThreadEntry(id) in SidebarEntries(chatThreads, newChatActive)
      modifies this`renamingThread
      ensures Valid()
      ensures renamingThread == None
    {
      renamingThread := None;
    }

    /** The "Delete" button of the open menu: the thread leaves the table, the
        checkpointer, the thread list, the title cache and the titled set; the
        chat is reset if it was the current thread; the menu closes. A pending
        rename of it is left as it was. */
    method DeleteThread(id: ThreadId)
      requires Valid()
      requires activeMenu == Some(id)
      modifies this`chatThreads, this`chatTitles, this`titlesGenerated, this`activeMenu
      modifies this`threadId, this`messageHistory, this`newChatActive, store
      ensures Valid()
      ensures store.rows == DeleteRows(old(store.rows), id)
      ensures store.checkpoints == old(store.checkpoints) - {id}
      ensures store.hasCheckpointsTable == old(store.hasCheckpointsTable)
      ensures store.LoadConversation(id) == []
      ensures forall other :: other != id ==> store.LoadConversation(other) == old(store.LoadConversation(other))
      ensures chatThreads == Without(old(chatThreads), Some(id)) && Some(id) !in chatThreads
      ensures chatTitles == old(chatTitles) - {Some(id)}
      ensures titlesGenerated == old(titlesGenerated) - {Some(id)}
      ensures activeMenu == None
      ensures old(threadId) == Some(id) ==>
                threadId == None && messageHistory == [] && newChatActive
      ensures old(threadId) != Some(id) ==>
                && threadId == old(threadId) && messageHistory == old(messageHistory)
                && newChatActive == old(newChatActive)
    {
      MirrorsDelete(store.rows, chatThreads, chatTitles, id);
      store.DeleteChatThread(id);
      ForgetThread(id);
    }

    /** The session's side of the "Delete" button, once the table and the
        checkpointer have dropped the thread: it leaves the thread list
        (`list.remove`), the title cache and the titled set, the chat is reset
        if it was the current thread, and the menu closes. */
    method ForgetThread(id: ThreadId)
      requires store.Valid() && Some(id) in chatThreads
      requires threadId.Some? ==> threadId in chatThreads
      requires newChatActive ==> threadId.None?
      requires forall k :: k in titlesGenerated && k.Some? ==> k in chatThreads
      requires Mirrors(store.rows, RemoveFirst(chatThreads, Some(id)), chatTitles - {Some(id)})
      requires RemoveFirst(chatThreads, Some(id)) == Without(chatThreads, Some(id))
      requires Some(id) !in RemoveFirst(chatThreads, Some(id))
      modifies this`chatThreads, this`chatTitles, this`titlesGenerated, this`activeMenu
      modifies this`threadId, this`messageHistory, this`newChatActive
      ensures Valid()
      ensures chatThreads == Without(old(chatThreads), Some(id)) && Some(id) !in chatThreads
      ensures chatTitles == old(chatTitles) - {Some(id)}
      ensures titlesGenerated == old(titlesGenerated) - {Some(id)}
      ensures activeMenu == None
      ensures old(threadId) == Some(id) ==>
                threadId == None && messageHistory == [] && newChatActive
      ensures old(threadId) != Some(id) ==>
                && threadId == old(threadId) && messageHistory == old(messageHistory)
                && newChatActive == old(newChatActive)
    {
      chatThreads := RemoveFirst(chatThreads, Some(id));
      chatTitles := chatTitles - {Some(id)};
      titlesGenerated := titlesGenerated - {Some(id)};
      if threadId == Some(id) {
        ResetChat();
      }
      activeMenu := None;
    }

    /** The first step of a message sent while a new chat is pending: the
        fresh id becomes the current thread and is listed, it gets the
        smallest free placeholder title, which differs from every title in the
        cache and is saved before any model call, and the pending flag clears. */
    method RegisterNewThread(freshId: ThreadId)
      requires Valid()
      requires newChatActive && Some(freshId) !in chatThreads
      modifies this`threadId, this`chatThreads, this`chatTitles, this`newChatActive, store
      ensures Valid()
      ensures threadId == Some(freshId) && !newChatActive
      ensures chatThreads == old(chatThreads) + [Some(freshId)]
      ensures var placeholder := NewChatTitle(FirstFreeFrom(old(chatTitles).Values, 1));
              && placeholder !in old(chatTitles).Values
              && chatTitles == old(chatTitles)[Some(freshId) := placeholder]
              && store.rows == Upsert(old(store.rows), Some(freshId), placeholder)
      ensures store.checkpoints == old(store.checkpoints)
      ensures store.hasCheckpointsTable == old(store.hasCheckpointsTable)
    {
      threadId := Some(freshId);
      MirrorsNewThread(store.rows, chatThreads, chatTitles, freshId, NewChatTitle(FirstFreeFrom(chatTitles.Values, 1)));
      AddThread(Some(freshId));
      var placeholder := GetNewChatPlaceholder(chatTitles.Values);
      chatTitles := chatTitles[Some(freshId) := placeholder];
      store.SaveChatTitle(Some(freshId), placeholder);
      newChatActive := false;
    }

    /** The title gate of a sent message, given the verdict of the trivial
        test on the stripped, lower-cased message (`IsTrivialMessage`): only
        when the current key has not been titled in this session and the
        message is not trivial, a title is generated from the message,
        written to the cache and the table, and the key is marked as titled. */
    method TitleIfUntitled(text: string, trivial: bool, llm: TitleRequest -> string) returns (titled: bool)
      requires Valid()
      modifies this`chatTitles, this`titlesGenerated, store
      ensures Valid()
      ensures titled == (threadId !in old(titlesGenerated) && !trivial)
      ensures titlesGenerated == if titled then old(titlesGenerated) + {threadId} else old(titlesGenerated)
      ensures chatTitles == if titled then old(chatTitles)[threadId := GenerateTitle(text, llm)] else old(chatTitles)
      ensures store.rows == if titled then Upsert(old(store.rows), threadId, GenerateTitle(text, llm)) else old(store.rows)
      ensures store.checkpoints == old(store.checkpoints)
      ensures store.hasCheckpointsTable == old(store.hasCheckpointsTable)
    {
      titled := threadId !in titlesGenerated && !trivial;
      if titled {
        RecordTitle(GenerateTitle(text, llm));
      }
    }

    /** The titled branch of the gate: the current key gets `title` in the
        cache and the table and joins the titled set. */
    method RecordTitle(title: string)
      requires Valid()
      modifies this`chatTitles, this`titlesGenerated, store
      ensures Valid()
      ensures titlesGenerated == old(titlesGenerated) + {threadId}
      ensures chatTitles == old(chatTitles)[threadId := title]
      ensures store.rows == Upsert(old(store.rows), threadId, title)
      ensures store.checkpoints == old(store.checkpoints)
      ensures store.hasCheckpointsTable == old(store.hasCheckpointsTable)
    {
      Retitle(threadId, title);
      titlesGenerated := titlesGenerated + {threadId};
    }

    /** The rest of a submitted message once its thread is current: the
        user's message is appended, the title gate runs (`TitleIfUntitled`,
        given the verdict of the trivial test) and the model's reply is
        appended. */
    method Converse(text: string, trivial: bool, llm: TitleRequest -> string, reply: string) returns (titled: bool)
      requires Valid() && !newChatActive
      modifies this`messageHistory, this`chatTitles, this`titlesGenerated, store
      ensures Valid()
      ensures messageHistory == old(messageHistory) + [ChatMessage(User, text), ChatMessage(Assistant, reply)]
      ensures titled == (threadId !in old(titlesGenerated) && !trivial)
      ensures titlesGenerated == if titled then old(titlesGenerated) + {threadId} else old(titlesGenerated)
      ensures chatTitles == if titled then old(chatTitles)[threadId := GenerateTitle(text, llm)] else old(chatTitles)
      ensures store.rows == if titled then Upsert(old(store.rows), threadId, GenerateTitle(text, llm)) else old(store.rows)
      ensures store.checkpoints == old(store.checkpoints)
      ensures store.hasCheckpointsTable == old(store.hasCheckpointsTable)
    {
      messageHistory := messageHistory + [ChatMessage(User, text)];
      titled := TitleIfUntitled(text, trivial, llm);
      messageHistory := messageHistory + [ChatMessage(Assistant, reply)];
    }

    /** A non-empty submitted message, given the verdict of the trivial test
        on it: a pending new chat is registered first (`RegisterNewThread`)
        and the exchange follows (`Converse`). With no thread selected and no
        new chat pending, the key is `None`: no thread is registered, and a
        generated title goes to the `None` key of the cache and to a
        NULL-keyed row. */
    method Submit(text: string, trivial: bool, freshId: ThreadId, llm: TitleRequest -> string, reply: string)
      returns (titled: bool)
      requires Valid()
      requires Some(freshId) !in chatThreads
      modifies this`threadId, this`messageHistory, this`chatThreads, this`chatTitles
      modifies this`titlesGenerated, this`newChatActive, store
      ensures Valid()
      ensures store.checkpoints == old(store.checkpoints)
      ensures store.hasCheckpointsTable == old(store.hasCheckpointsTable)
      ensures var key := if old(newChatActive) then Some(freshId) else old(threadId);
              && threadId == key && !newChatActive
              && chatThreads == (if old(newChatActive) then old(chatThreads) + [key] else old(chatThreads))
              && messageHistory == old(messageHistory) + [ChatMessage(User, text), ChatMessage(Assistant, reply)]
              && titled == (key !in old(titlesGenerated) && !trivial)
              && titlesGenerated == (if titled then old(titlesGenerated) + {key} else old(titlesGenerated))
      ensures old(newChatActive) ==>
                var placeholder := NewChatTitle(FirstFreeFrom(old(chatTitles).Values, 1));
                var named := old(chatTitles)[Some(freshId) := placeholder];
                var saved := Upsert(old(store.rows), Some(freshId), placeholder);
                && chatTitles == (if titled then named[Some(freshId) := GenerateTitle(text, llm)] else named)
                && store.rows == (if titled then Upsert(saved, Some(freshId), GenerateTitle(text, llm)) else saved)
      ensures !old(newChatActive) ==>
                && chatTitles == (if titled then old(chatTitles)[old(threadId) := GenerateTitle(text, llm)] else old(chatTitles))
                && store.rows == (if titled then Upsert(old(store.rows), old(threadId), GenerateTitle(text, llm)) else old(store.rows))
    {
      if newChatActive {
        RegisterNewThread(freshId);
      }
      titled := Converse(text, trivial, llm, reply);
    }

    /** A submitted chat message. An empty submission does nothing. Otherwise
        the message is tested for triviality (`IsTrivialMessage`) and handled
        by `Submit`. */
    method SendMessage(text: string, freshId: ThreadId, llm: TitleRequest -> string, reply: string)
      returns (titled: bool)
      requires Valid()
      requires Some(freshId) !in chatThreads
      modifies this`threadId, this`messageHistory, this`chatThreads, this`chatTitles
      modifies this`titlesGenerated, this`newChatActive, store
      ensures Valid()
      ensures store.checkpoints == old(store.checkpoints)
      ensures store.hasCheckpointsTable == old(store.hasCheckpointsTable)
      ensures text == [] ==>
                && !titled && threadId == old(threadId) && messageHistory == old(messageHistory)
                && chatThreads == old(chatThreads) && chatTitles == old(chatTitles)
                && titlesGenerated == old(titlesGenerated) && newChatActive == old(newChatActive)
                && store.rows == old(store.rows)
      ensures text != [] ==>
                var key := if old(newChatActive) then Some(freshId) else old(threadId);
                && threadId == key && !newChatActive
                && chatThreads == (if old(newChatActive) then old(chatThreads) + [key] else old(chatThreads))
                && messageHistory == old(messageHistory) + [ChatMessage(User, text), ChatMessage(Assistant, reply)]
                && titled == (key !in old(titlesGenerated) && !IsTrivialMessage(text))
                && titlesGenerated == (if titled then old(titlesGenerated) + {key} else old(titlesGenerated))
      ensures text != [] && old(newChatActive) ==>
                var placeholder := NewChatTitle(FirstFreeFrom(old(chatTitles).Values, 1));
                var named := old(chatTitles)[Some(freshId) := placeholder];
                var saved := Upsert(old(store.rows), Some(freshId), placeholder);
                && chatTitles == (if titled then named[Some(freshId) := GenerateTitle(text, llm)] else named)
                && store.rows == (if titled then Upsert(saved, Some(freshId), GenerateTitle(text, llm)) else saved)
      ensures text != [] && !old(newChatActive) ==>
                && chatTitles == (if titled then old(chatTitles)[old(threadId) := GenerateTitle(text, llm)] else old(chatTitles))
                && store.rows == (if titled then Upsert(old(store.rows), old(threadId), GenerateTitle(text, llm)) else old(store.rows))
    {
      titled := false;
      if text == [] {
        return;
      }
      titled := Submit(text, IsTrivialMessage(text), freshId, llm, reply);
    }
  }
}
