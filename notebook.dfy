/** The application state of the notebook and the operations that change
    it: loading the vault, creating, selecting, deleting and saving notes,
    the edit keys, the search toggle and sidebar scrolling, and what the
    editor and the status bar read from it. */
module NoteStore {
  import opened Base
  import opened Utf8
  import opened TextBuffer
  import opened Storage
  import opened Layout
  import opened Status

  /** Height of one row of the sidebar's note list. */
  const ITEM_HEIGHT: int := 40

  /** How far the sidebar list can scroll with `count` notes. */
  function MaxScroll(count: int): int {
    Max(0, count * ITEM_HEIGHT - (WINDOW_HEIGHT - HEADER_HEIGHT - 100))
  }

  /** The sidebar's scroll offset after the wheel moved it by `step`
      pixels: it stays between 0 and the list's scroll range. */
  function ScrollClamp(offset: int, step: int, count: int): (r: int)
    ensures 0 <= r <= MaxScroll(count)
    ensures 0 <= offset - step <= MaxScroll(count) ==> r == offset - step
    ensures offset - step < 0 ==> r == 0
    ensures offset - step > MaxScroll(count) ==> r == MaxScroll(count)
  {
    var o := if offset - step < 0 then 0 else offset - step;
    if o > MaxScroll(count) then MaxScroll(count) else o
  }

  /** A list that fits the sidebar does not scroll at all. */
  lemma ShortListDoesNotScroll(offset: int, step: int, count: int)
    requires count * ITEM_HEIGHT <= WINDOW_HEIGHT - HEADER_HEIGHT - 100
    ensures ScrollClamp(offset, step, count) == 0
  {
  }

  /** The selection after `delete_note` left `count` notes. */
  function ClampSelection(sel: int, count: int): (r: int)
    ensures r >= 0
    ensures count > 0 && 0 <= sel ==> r < count
    ensures 0 <= sel < count ==> r == sel
    ensures count <= 0 ==> r == 0
  {
    var s := if sel >= count then count - 1 else sel;
    if s < 0 then 0 else s
  }

  /** What one frame of `handle_input` sees: the platform modifier key and
      the N, S and F shortcuts, the queued code points, the edit keys, and
      the wheel, with `wheelStep` the truncated `wheel * 30`. */
  datatype Frame = Frame(
    modifier: bool, keyN: bool, keyS: bool, keyF: bool,
    typed: seq<int>, backspace: bool, enter: bool, tab: bool,
    wheelMoved: bool, wheelStep: int, mouseInSidebar: bool)

  /** What one frame's edit keys make of the selected note: the typed code
      points, then Backspace, Enter and Tab, each if pressed. */
  function EditFrame(n: Note, frame: Frame): (r: Note)
    ensures r.title == n.title && r.filepath == n.filepath
    ensures ContentOk(n.content) ==> ContentOk(r.content)
    ensures n.modified ==> r.modified
    ensures !r.modified ==> r == n
  {
    var typed := TypeQueue(n, frame.typed);
    var erased := if frame.backspace then Backspace(typed) else typed;
    var entered := if frame.enter then Enter(erased) else erased;
    if frame.tab then Tab(entered) else entered
  }

  /** Every frame keeps the content whole encoded characters. */
  lemma EditFrameKeepsEncodedText(n: Note, frame: Frame)
    requires IsEncodedText(n.content)
    ensures IsEncodedText(EditFrame(n, frame).content)
  {
    var typed := TypeQueue(n, frame.typed);
    TypeQueueKeepsEncodedText(n, frame.typed);
    var erased := if frame.backspace then Backspace(typed) else typed;
    BackspaceKeepsEncodedText(typed);
    var entered := if frame.enter then Enter(erased) else erased;
    EnterKeepsEncodedText(erased);
    TabKeepsEncodedText(entered);
  }

  /** Cmd/Ctrl+N this frame, with room for another note. */
  predicate Creates(frame: Frame, count: nat) {
    frame.modifier && frame.keyN && count < MAX_NOTES
  }

  /** Cmd/Ctrl+S this frame. */
  predicate Saves(frame: Frame) {
    frame.modifier && frame.keyS
  }

  /** Cmd/Ctrl+F this frame. */
  predicate Toggles(frame: Frame) {
    frame.modifier && frame.keyF
  }

  /** The note the save shortcut acts on: the one just created, or else the
      selected one. */
  function ShortcutTarget(frame: Frame, count: nat, current: Note): Note {
    if Creates(frame, count) then UntitledNote(count + 1) else current
  }

  /** That note after the shortcuts. */
  function ShortcutNote(frame: Frame, count: nat, current: Note): Note {
    var target := ShortcutTarget(frame, count, current);
    if Saves(frame) then SavedNote(target) else target
  }

  /** The vault after the shortcuts. */
  function ShortcutFiles(frame: Frame, count: nat, current: Note, files: map<Bytes, Bytes>): map<Bytes, Bytes> {
    if Saves(frame) then WrittenFiles(files, ShortcutTarget(frame, count, current)) else files
  }

  class Notebook {
    /** The fixed array of MAX_NOTES note slots; the first `count` are listed. */
    var notes: array<Note>
    var count: int
    /** The selected note; 0 on an empty store, as the zeroed state and the
        selection clamp of `delete_note` leave it. */
    var selected: int
    var cursorPos: int
    var scrollOffset: int
    var searchQuery: Bytes
    var showSearch: bool

    ghost predicate Valid()
      reads this, notes
    {
      && notes.Length == MAX_NOTES
      && 0 <= count <= MAX_NOTES
      && 0 <= selected
      && (count == 0 ==> selected == 0)
      && (count > 0 ==> selected < count)
      && scrollOffset >= 0
      && forall i :: 0 <= i < notes.Length ==> ContentOk(notes[i].content)
    }

    /** The zero-initialised global state the program starts from. */
    ghost predicate Zeroed()
      reads this, notes
    {
      && count == 0 && selected == 0 && cursorPos == 0 && scrollOffset == 0
      && searchQuery == [] && !showSearch
      && forall i :: 0 <= i < notes.Length ==> notes[i] == EMPTY_NOTE
    }

    constructor ()
      ensures Valid() && Zeroed() && fresh(notes)
    {
      notes := new Note[MAX_NOTES](_ => EMPTY_NOTE);
      count := 0;
      selected := 0;
      cursorPos := 0;
      scrollOffset := 0;
      searchQuery := [];
      showSearch := false;
    }

    /** The notes the sidebar lists. */
    ghost function Listed(): seq<Note>
      reads this, notes
      requires Valid()
    {
      notes[..count]
    }

    /** `load_notes`: `dir` is the vault folder's listing, `None` when it
        cannot be opened. Each `.md` entry becomes a note, in listing order,
        up to MAX_NOTES; an empty vault gets the welcome note, modified and
        selected, with `welcome` the platform's welcome text. */
    method LoadNotes(dir: Option<seq<Bytes>>, vault: Vault, welcome: Bytes)
      requires Valid() && Zeroed() && ContentOk(welcome)
      modifies this, notes
      ensures Valid() && notes == old(notes)
      ensures dir.None? ==> count == 0
      ensures dir.Some? && Loaded(dir.value, 0, vault.files, 0) != [] ==>
        notes[..count] == Loaded(dir.value, 0, vault.files, 0)
      ensures dir.Some? && Loaded(dir.value, 0, vault.files, 0) == [] ==>
        count == 1 && notes[0] == WelcomeNote(welcome)
      ensures forall i :: count <= i < MAX_NOTES ==> notes[i] == EMPTY_NOTE
      ensures selected == 0 && cursorPos == 0 && scrollOffset == 0
      ensures searchQuery == [] && !showSearch
    {
      count := 0;
      if dir.None? {
        return;
      }
      count := LoadEntries(dir.value, vault.files);
      if count == 0 {
        notes[0] := WelcomeNote(welcome);
        count := 1;
        selected := 0;
      }
    }

    /** The loop of `load_notes` over the listing: fills the slots from 0 on
        and returns how many notes it loaded. */
    method LoadEntries(entries: seq<Bytes>, files: map<Bytes, Bytes>) returns (loaded: int)
      requires notes.Length == MAX_NOTES
      requires forall i :: 0 <= i < MAX_NOTES ==> notes[i] == EMPTY_NOTE
      modifies notes
      ensures 0 <= loaded <= MAX_NOTES
      ensures notes[..loaded] == Loaded(entries, 0, files, 0)
      ensures forall i :: loaded <= i < MAX_NOTES ==> notes[i] == EMPTY_NOTE
      ensures forall i :: 0 <= i < MAX_NOTES ==> ContentOk(notes[i].content)
    {
      ghost var all := Loaded(entries, 0, files, 0);
      ghost var done: seq<Note> := [];
      assert notes[..] == done + Blank(MAX_NOTES);
      loaded := 0;
      var k := 0;
      while k < |entries| && loaded < MAX_NOTES
        invariant 0 <= k <= |entries| && 0 <= loaded <= MAX_NOTES && |done| == loaded
        invariant notes[..] == done + Blank(MAX_NOTES - loaded)
        invariant done + Loaded(entries, k, files, loaded) == all
        decreases |entries| - k
      {
        loaded, done := LoadOneEntry(entries, k, files, loaded, done);
        k := k + 1;
      }
      assert done == all;
      BlankTail(notes[..], done, MAX_NOTES - loaded);
    }

    /** One directory entry of `load_notes`: an `.md` entry is loaded into
        the first free slot; any other entry is skipped. Either way the notes
        loaded so far and those the rest of the listing yields stay the same. */
    method LoadOneEntry(entries: seq<Bytes>, k: nat, files: map<Bytes, Bytes>, loaded: int, ghost done: seq<Note>)
      returns (next: int, ghost done': seq<Note>)
      requires k < |entries|
      requires notes.Length == MAX_NOTES && 0 <= loaded < MAX_NOTES && |done| == loaded
      requires notes[..] == done + Blank(MAX_NOTES - loaded)
      modifies notes
      ensures loaded <= next <= loaded + 1 && |done'| == next
      ensures notes[..] == done' + Blank(MAX_NOTES - next)
      ensures done' + Loaded(entries, k + 1, files, next) == done + Loaded(entries, k, files, loaded)
    {
      var name := entries[k];
      LoadedStep(done, entries, k, files);
      next, done' := loaded, done;
      if HasMdExtension(name) {
        var path := VaultPath(name);
        FillBlank(done, LoadEntry(name, files), MAX_NOTES - loaded);
        notes[loaded] := Note(TitleOf(name), ReadContent(files, path), path, false);
        next, done' := loaded + 1, done + [LoadEntry(name, files)];
      }
    }

    /** `create_new_note`: at capacity nothing happens; otherwise an empty,
        modified note numbered `count + 1` is appended and selected. */
    method CreateNewNote()
      requires Valid()
      modifies this, notes
      ensures Valid() && notes == old(notes)
      ensures old(count) >= MAX_NOTES ==>
        count == old(count) && selected == old(selected) && cursorPos == old(cursorPos)
        && notes[..] == old(notes[..])
      ensures old(count) < MAX_NOTES ==>
        && count == old(count) + 1 && selected == old(count) && cursorPos == 0
        && notes[old(count)] == UntitledNote(old(count) + 1)
        && notes[old(count)].title == UntitledTitle(old(count) + 1)
        && forall i :: 0 <= i < MAX_NOTES && i != old(count) ==> notes[i] == old(notes[i])
      ensures scrollOffset == old(scrollOffset) && searchQuery == old(searchQuery)
      ensures showSearch == old(showSearch)
    {
      if count >= MAX_NOTES {
        return;
      }
      var noteNum := count + 1;
      var title := Truncate(UntitledTitle(noteNum), MAX_TITLE_LENGTH);
      UntitledTitleFits(noteNum);
      notes[count] := Note(title, [], SavePath(title), true);
      selected := count;
      count := count + 1;
      cursorPos := 0;
    }

    /** Whether a listed note already has title `t`. */
    method TitleTaken(t: Bytes) returns (taken: bool)
      requires Valid()
      ensures taken <==> t in Titles(notes[..count])
    {
      taken := false;
      var i := 0;
      while i < count
        invariant 0 <= i <= count
        invariant taken <==> t in Titles(notes[..i])
      {
        assert Titles(notes[..i + 1]) == Titles(notes[..i]) + [notes[i].title];
        if notes[i].title == t {
          taken := true;
        }
        i := i + 1;
      }
      assert notes[..count] == notes[..i];
    }

    /** `create_new_note` as its comment intends it: the number starts at
        `count + 1` and moves up past every title some listed note already
        has, so that the new title is unique. */
    method CreateUniqueNote()
      requires Valid()
      modifies this, notes
      ensures Valid() && notes == old(notes)
      ensures old(count) >= MAX_NOTES ==>
        count == old(count) && selected == old(selected) && cursorPos == old(cursorPos)
        && notes[..] == old(notes[..])
      ensures old(count) < MAX_NOTES ==>
        && count == old(count) + 1 && selected == old(count) && cursorPos == 0
        && (exists n :: old(count) < n <= 2 * old(count) + 1 && notes[old(count)] == UntitledNote(n))
        && (forall i :: 0 <= i < old(count) ==> notes[i].title != notes[old(count)].title)
        && forall i :: 0 <= i < MAX_NOTES && i != old(count) ==> notes[i] == old(notes[i])
      ensures scrollOffset == old(scrollOffset) && searchQuery == old(searchQuery)
      ensures showSearch == old(showSearch)
    {
      if count >= MAX_NOTES {
        return;
      }
      var noteNum := FreeNoteNumber();
      var title := Truncate(UntitledTitle(noteNum), MAX_TITLE_LENGTH);
      UntitledTitleFits(noteNum);
      ghost var titles := Titles(notes[..count]);
      assert forall i :: 0 <= i < count ==> notes[i].title == titles[i];
      notes[count] := Note(title, [], SavePath(title), true);
      assert notes[count] == UntitledNote(noteNum);
      selected := count;
      count := count + 1;
      cursorPos := 0;
    }

    /** The first note number from `count + 1` on whose title no listed
        note has; one of the next `count + 1` numbers is always free. */
    method FreeNoteNumber() returns (noteNum: int)
      requires Valid()
      ensures count < noteNum <= 2 * count + 1
      ensures UntitledTitle(noteNum) !in Titles(notes[..count])
      ensures forall m :: count < m < noteNum ==> UntitledTitle(m) in Titles(notes[..count])
    {
      ghost var titles := Titles(notes[..count]);
      noteNum := count + 1;
      var taken := TitleTaken(UntitledTitle(noteNum));
      while taken && noteNum < 2 * count + 1
        invariant count + 1 <= noteNum <= 2 * count + 1
        invariant forall m :: count + 1 <= m < noteNum ==> UntitledTitle(m) in titles
        invariant taken <==> UntitledTitle(noteNum) in titles
        decreases 2 * count + 1 - noteNum
      {
        noteNum := noteNum + 1;
        taken := TitleTaken(UntitledTitle(noteNum));
      }
      FreeUntitledNumber(titles, count + 1);
      assert !taken;
    }

    /** A left click on row `i` of the sidebar's list. */
    method SelectNote(i: int)
      requires Valid() && 0 <= i < count
      modifies this
      ensures Valid() && notes == old(notes)
      ensures selected == i && cursorPos == |notes[i].content|
      ensures count == old(count) && scrollOffset == old(scrollOffset)
      ensures searchQuery == old(searchQuery) && showSearch == old(showSearch)
    {
      selected := i;
      cursorPos := |notes[i].content|;
    }

    /** `delete_note`: an index outside the list changes nothing. Otherwise
        the note's file is removed, the later notes move down one slot, and
        the selection is clamped into the shorter list. The slot that falls
        off the end keeps the note it held. */
    method DeleteNote(index: int, vault: Vault)
      requires Valid()
      modifies this, notes, vault
      ensures Valid() && notes == old(notes)
      ensures !(0 <= index < old(count)) ==>
        count == old(count) && selected == old(selected) && notes[..] == old(notes[..])
        && vault.files == old(vault.files)
      ensures 0 <= index < old(count) ==>
        && vault.files == old(vault.files) - {old(notes[index].filepath)}
        && count == old(count) - 1
        && notes[..count] == old(notes[..index]) + old(notes[index + 1..count])
        && (forall i :: count <= i < MAX_NOTES ==> notes[i] == old(notes[i]))
        && selected == ClampSelection(old(selected), count)
      ensures cursorPos == old(cursorPos) && scrollOffset == old(scrollOffset)
      ensures searchQuery == old(searchQuery) && showSearch == old(showSearch)
    {
      if index < 0 || index >= count {
        return;
      }
      ghost var before := notes[..];
      vault.files := vault.files - {notes[index].filepath};
      ShiftDown(index);
      ShiftedPrefix(before, notes[..], index, count);
      count := count - 1;
      if selected >= count {
        selected := count - 1;
      }
      if selected < 0 {
        selected := 0;
      }
    }

    /** The shift loop of `delete_note`: each note after `index` moves down
        one slot; the last listed slot keeps what it held. */
    method ShiftDown(index: int)
      requires Valid() && 0 <= index < count
      modifies notes
      ensures Valid()
      ensures forall j :: 0 <= j < index ==> notes[j] == old(notes[j])
      ensures forall j :: index <= j < count - 1 ==> notes[j] == old(notes[j + 1])
      ensures forall j :: count - 1 <= j < MAX_NOTES ==> notes[j] == old(notes[j])
    {
      var i := index;
      while i < count - 1
        invariant index <= i <= count - 1
        invariant forall j :: 0 <= j < MAX_NOTES ==> ContentOk(notes[j].content)
        invariant forall j :: 0 <= j < index ==> notes[j] == old(notes[j])
        invariant forall j :: index <= j < i ==> notes[j] == old(notes[j + 1])
        invariant forall j :: i <= j < MAX_NOTES ==> notes[j] == old(notes[j])
      {
        notes[i] := notes[i + 1];
        i := i + 1;
      }
    }

    /** Cmd/Ctrl+F: shows or hides the search box; hiding it clears the query. */
    method ToggleSearch()
      requires Valid()
      modifies this
      ensures Valid() && notes == old(notes)
      ensures showSearch == !old(showSearch)
      ensures searchQuery == if showSearch then old(searchQuery) else []
      ensures count == old(count) && selected == old(selected) && cursorPos == old(cursorPos)
      ensures scrollOffset == old(scrollOffset)
    {
      showSearch := !showSearch;
      if !showSearch {
        searchQuery := [];
      }
    }

    /** The wheel over the sidebar: the offset moves by `step` and is
        clamped, first at 0 and then at the list's scroll range. */
    method Scroll(step: int)
      requires Valid()
      modifies this
      ensures Valid() && notes == old(notes)
      ensures scrollOffset == ScrollClamp(old(scrollOffset), step, count)
      ensures count == old(count) && selected == old(selected) && cursorPos == old(cursorPos)
      ensures searchQuery == old(searchQuery) && showSearch == old(showSearch)
    {
      scrollOffset := scrollOffset - step;
      if scrollOffset < 0 {
        scrollOffset := 0;
      }
      var maxScroll := count * ITEM_HEIGHT - (WINDOW_HEIGHT - HEADER_HEIGHT - 100);
      if maxScroll < 0 {
        maxScroll := 0;
      }
      if scrollOffset > maxScroll {
        scrollOffset := maxScroll;
      }
    }

    /** The code point loop: each queued code point, up to the first value
        of 0 or less, is encoded and appended to the selected note when it
        passes the printable and capacity guards. */
    method TypeCodepoints(queue: seq<int>)
      requires Valid() && count > 0
      modifies notes
      ensures Valid()
      ensures notes[selected] == TypeQueue(old(notes[selected]), queue)
      ensures forall i :: 0 <= i < MAX_NOTES && i != selected ==> notes[i] == old(notes[i])
    {
      var k := 0;
      while k < |queue| && queue[k] > 0
        invariant 0 <= k <= |queue|
        invariant TypeQueue(notes[selected], queue[k..]) == TypeQueue(old(notes[selected]), queue)
        invariant forall i :: 0 <= i < MAX_NOTES ==> ContentOk(notes[i].content)
        invariant forall i :: 0 <= i < MAX_NOTES && i != selected ==> notes[i] == old(notes[i])
        decreases |queue| - k
      {
        var codepoint := queue[k];
        assert queue[k..][1..] == queue[k + 1..];
        ghost var before := notes[selected];
        if codepoint >= FIRST_PRINTABLE {
          var note := notes[selected];
          var len := |note.content|;
          var utf8 := Encode(codepoint);
          if len + |utf8| < MAX_CONTENT_LENGTH - 1 {
            notes[selected] := note.(content := note.content + utf8, modified := true);
          }
        }
        assert notes[selected] == TypeChar(before, codepoint);
        k := k + 1;
      }
    }

    /** Backspace: cuts the selected note's last character, as sized by
        `get_last_utf8_char_bytes`, off a non-empty buffer. */
    method DeleteBackward()
      requires Valid() && count > 0
      modifies notes
      ensures Valid()
      ensures notes[selected] == Backspace(old(notes[selected]))
      ensures forall i :: 0 <= i < MAX_NOTES && i != selected ==> notes[i] == old(notes[i])
    {
      var note := notes[selected];
      var len := |note.content|;
      if len > 0 {
        var charBytes := LastCharBytes(note.content, len);
        assert note.content[..len] == note.content;
        notes[selected] := note.(content := note.content[..len - charBytes], modified := true);
      }
    }

    /** Enter: appends a newline to the selected note below the capacity. */
    method PressEnter()
      requires Valid() && count > 0
      modifies notes
      ensures Valid()
      ensures notes[selected] == Enter(old(notes[selected]))
      ensures forall i :: 0 <= i < MAX_NOTES && i != selected ==> notes[i] == old(notes[i])
    {
      var note := notes[selected];
      var len := |note.content|;
      if len < MAX_CONTENT_LENGTH - 1 {
        notes[selected] := note.(content := note.content + [NEWLINE], modified := true);
      }
    }

    /** Tab: appends four spaces to the selected note below the capacity. */
    method PressTab()
      requires Valid() && count > 0
      modifies notes
      ensures Valid()
      ensures notes[selected] == Tab(old(notes[selected]))
      ensures forall i :: 0 <= i < MAX_NOTES && i != selected ==> notes[i] == old(notes[i])
    {
      var note := notes[selected];
      var len := |note.content|;
      if len < MAX_CONTENT_LENGTH - 4 {
        notes[selected] := note.(content := note.content + TAB_TEXT, modified := true);
      }
    }

    /** `save_note` on slot `i`: a modified note is written under the path
        derived from its title, takes that path, and is no longer modified. */
    method SaveNote(i: int, vault: Vault)
      requires Valid() && 0 <= i < MAX_NOTES
      modifies notes, vault
      ensures Valid()
      ensures notes[i] == SavedNote(old(notes[i]))
      ensures vault.files == WrittenFiles(old(vault.files), old(notes[i]))
      ensures forall j :: 0 <= j < MAX_NOTES && j != i ==> notes[j] == old(notes[j])
    {
      var note := notes[i];
      if !note.modified {
        return;
      }
      var path := SavePath(note.title);
      vault.files := vault.files[path := CString(note.content)];
      notes[i] := note.(filepath := path, modified := false);
    }

    /** `save_all_notes`: saves the listed notes in order. */
    method SaveAllNotes(vault: Vault)
      requires Valid()
      modifies notes, vault
      ensures Valid()
      ensures forall j :: 0 <= j < count ==> notes[j] == SavedNote(old(notes[j])) && !notes[j].modified
      ensures forall j :: count <= j < MAX_NOTES ==> notes[j] == old(notes[j])
      ensures vault.files == WrittenAll(old(vault.files), old(notes[..count]))
    {
      var i := 0;
      while i < count
        invariant 0 <= i <= count && Valid()
        invariant forall j :: 0 <= j < i ==> notes[j] == SavedNote(old(notes[j]))
        invariant forall j :: i <= j < MAX_NOTES ==> notes[j] == old(notes[j])
        invariant vault.files == WrittenAll(old(vault.files), old(notes[..i]))
      {
        SaveNote(i, vault);
        assert old(notes[..i + 1])[..i] == old(notes[..i]);
        i := i + 1;
      }
    }

    /** Cmd/Ctrl+S as written: guarded by `selected >= 0` only, so on an
        empty list it saves slot 0, which a deletion may have left holding
        the deleted note. */
    method SaveSelectedAsWritten(vault: Vault)
      requires Valid()
      modifies notes, vault
      ensures Valid()
      ensures notes[selected] == SavedNote(old(notes[selected]))
      ensures vault.files == WrittenFiles(old(vault.files), old(notes[selected]))
      ensures forall j :: 0 <= j < MAX_NOTES && j != selected ==> notes[j] == old(notes[j])
    {
      if selected >= 0 {
        SaveNote(selected, vault);
      }
    }

    /** Cmd/Ctrl+S with the guard every other per-note action uses: only a
        listed note is saved. */
    method SaveSelected(vault: Vault)
      requires Valid()
      modifies notes, vault
      ensures Valid()
      ensures count == 0 ==> vault.files == old(vault.files) && notes[..] == old(notes[..])
      ensures count > 0 ==>
        notes[selected] == SavedNote(old(notes[selected]))
        && vault.files == WrittenFiles(old(vault.files), old(notes[selected]))
      ensures forall j :: 0 <= j < MAX_NOTES && j != selected ==> notes[j] == old(notes[j])
    {
      if count > 0 && selected >= 0 {
        SaveNote(selected, vault);
      }
    }

    /** One frame of `handle_input`, in its order: the shortcuts, then the
        edit keys on the selected note, then the wheel. */
    method HandleInput(frame: Frame, vault: Vault)
      requires Valid()
      modifies this, notes, vault
      ensures Valid() && notes == old(notes)
      ensures count == if Creates(frame, old(count)) then old(count) + 1 else old(count)
      ensures selected == if Creates(frame, old(count)) then old(count) else old(selected)
      ensures cursorPos == if Creates(frame, old(count)) then 0 else old(cursorPos)
      ensures showSearch == if Toggles(frame) then !old(showSearch) else old(showSearch)
      ensures searchQuery == if Toggles(frame) && old(showSearch) then [] else old(searchQuery)
      ensures scrollOffset ==
        if frame.wheelMoved && frame.mouseInSidebar then ScrollClamp(old(scrollOffset), frame.wheelStep, count)
        else old(scrollOffset)
      ensures vault.files == ShortcutFiles(frame, old(count), old(notes[selected]), old(vault.files))
      ensures notes[selected] ==
        var shortcut := ShortcutNote(frame, old(count), old(notes[selected]));
        if count > 0 then EditFrame(shortcut, frame) else shortcut
      ensures forall i :: 0 <= i < MAX_NOTES && i != selected ==> notes[i] == old(notes[i])
    {
      HandleShortcuts(frame, vault);
      if count > 0 && selected >= 0 {
        EditSelected(frame);
      }
      if frame.wheelMoved && frame.mouseInSidebar {
        Scroll(frame.wheelStep);
      }
    }

    /** The modifier shortcuts as written: N creates a note, S saves slot
        `selected`, F toggles the search box. */
    method HandleShortcuts(frame: Frame, vault: Vault)
      requires Valid()
      modifies this, notes, vault
      ensures Valid() && notes == old(notes)
      ensures count == if Creates(frame, old(count)) then old(count) + 1 else old(count)
      ensures selected == if Creates(frame, old(count)) then old(count) else old(selected)
      ensures cursorPos == if Creates(frame, old(count)) then 0 else old(cursorPos)
      ensures showSearch == if Toggles(frame) then !old(showSearch) else old(showSearch)
      ensures searchQuery == if Toggles(frame) && old(showSearch) then [] else old(searchQuery)
      ensures scrollOffset == old(scrollOffset)
      ensures vault.files == ShortcutFiles(frame, old(count), old(notes[selected]), old(vault.files))
      ensures notes[selected] == ShortcutNote(frame, old(count), old(notes[selected]))
      ensures forall i :: 0 <= i < MAX_NOTES && i != selected ==> notes[i] == old(notes[i])
    {
      CreateAndSave(frame, vault);
      if frame.modifier && frame.keyF {
        ToggleSearch();
      }
    }

    /** The N and S shortcuts, in their order. */
    method CreateAndSave(frame: Frame, vault: Vault)
      requires Valid()
      modifies this, notes, vault
      ensures Valid() && notes == old(notes)
      ensures count == if Creates(frame, old(count)) then old(count) + 1 else old(count)
      ensures selected == if Creates(frame, old(count)) then old(count) else old(selected)
      ensures cursorPos == if Creates(frame, old(count)) then 0 else old(cursorPos)
      ensures showSearch == old(showSearch) && searchQuery == old(searchQuery)
      ensures scrollOffset == old(scrollOffset)
      ensures vault.files == ShortcutFiles(frame, old(count), old(notes[selected]), old(vault.files))
      ensures notes[selected] == ShortcutNote(frame, old(count), old(notes[selected]))
      ensures forall i :: 0 <= i < MAX_NOTES && i != selected ==> notes[i] == old(notes[i])
    {
      if frame.modifier && frame.keyN {
        CreateNewNote();
      }
      if frame.modifier && frame.keyS {
        SaveSelectedAsWritten(vault);
      }
    }

    /** The edit branches on the selected note, in their order. */
    method EditSelected(frame: Frame)
      requires Valid() && count > 0
      modifies notes
      ensures Valid()
      ensures notes[selected] == EditFrame(old(notes[selected]), frame)
      ensures forall i :: 0 <= i < MAX_NOTES && i != selected ==> notes[i] == old(notes[i])
    {
      TypeCodepoints(frame.typed);
      if frame.backspace {
        DeleteBackward();
      }
      if frame.enter {
        PressEnter();
      }
      if frame.tab {
        PressTab();
      }
    }

    /** `draw_status_bar`'s statistics: the selected note's words and bytes,
        or only the number of notes when the list is empty. */
    method StatusBar() returns (st: StatusLine)
      requires Valid()
      ensures count > 0 ==>
        st == NoteStats(count, WordCount(notes[selected].content), |notes[selected].content|)
      ensures count == 0 ==> st == NotesOnly(0)
    {
      if count > 0 && selected >= 0 {
        var content := notes[selected].content;
        var words := CountWords(content);
        st := NoteStats(count, words, |content|);
      } else {
        st := NotesOnly(count);
      }
    }

    /** The lines `draw_editor` lays out, or `None` for the empty state. */
    method EditorLines(width: Width) returns (r: Option<seq<StyledLine>>)
      requires Valid()
      ensures count == 0 ==> r == None
      ensures count > 0 ==> r == Some(Styled(WrapContent(notes[selected].content, width)))
    {
      if count == 0 || selected < 0 {
        return None;
      }
      var lines := LayoutLines(notes[selected].content, width);
      return Some(lines);
    }
  }

  /** `n` empty slots. */
  function Blank(n: nat): (r: seq<Note>)
    ensures |r| == n && forall i :: 0 <= i < n ==> r[i] == EMPTY_NOTE
  {
    seq(n, _ => EMPTY_NOTE)
  }

  /** Filling the first of the empty slots after `done`. */
  lemma FillBlank(done: seq<Note>, x: Note, m: nat)
    requires m > 0
    ensures (done + Blank(m))[|done| := x] == (done + [x]) + Blank(m - 1)
  {
    var a, b := (done + Blank(m))[|done| := x], (done + [x]) + Blank(m - 1);
    assert |a| == |b|;
    forall i | 0 <= i < |a|
      ensures a[i] == b[i]
    {
      if i > |done| {
        assert a[i] == Blank(m)[i - |done|];
        assert b[i] == Blank(m - 1)[i - |done| - 1];
      }
    }
  }

  /** The listed part and the empty slots of `done + Blank(m)`. */
  lemma BlankTail(a: seq<Note>, done: seq<Note>, m: nat)
    requires a == done + Blank(m)
    requires forall i :: 0 <= i < |done| ==> ContentOk(done[i].content)
    ensures a[..|done|] == done
    ensures forall i :: |done| <= i < |a| ==> a[i] == EMPTY_NOTE
    ensures forall i :: 0 <= i < |a| ==> ContentOk(a[i].content)
  {
    assert forall i :: |done| <= i < |a| ==> a[i] == Blank(m)[i - |done|];
  }

  /** The listed part after the shift of `delete_note`. */
  lemma ShiftedPrefix(a: seq<Note>, b: seq<Note>, index: int, c: int)
    requires 0 <= index < c <= |a| == |b|
    requires forall j :: 0 <= j < index ==> b[j] == a[j]
    requires forall j :: index <= j < c - 1 ==> b[j] == a[j + 1]
    ensures b[..c - 1] == a[..index] + a[index + 1..c]
  {
  }

  /** One step of the load loop over the listing. */
  lemma LoadedStep(done: seq<Note>, entries: seq<Bytes>, k: nat, files: map<Bytes, Bytes>)
    requires k < |entries| && |done| < MAX_NOTES
    ensures HasMdExtension(entries[k]) ==>
      (done + [LoadEntry(entries[k], files)]) + Loaded(entries, k + 1, files, |done| + 1)
      == done + Loaded(entries, k, files, |done|)
    ensures !HasMdExtension(entries[k]) ==>
      Loaded(entries, k + 1, files, |done|) == Loaded(entries, k, files, |done|)
  {
  }

  /** Deleting the only note and pressing Cmd/Ctrl+S brings its file back:
      the welcome note of an empty vault, still unsaved, is deleted, and the
      as-written save writes it from slot 0 under the deleted note's path. */
  method DeletedNoteResurrects(welcome: Bytes) returns (deletedPath: Bytes, files: map<Bytes, Bytes>)
    requires ContentOk(welcome)
    ensures deletedPath in files && files[deletedPath] == welcome
  {
    var vault := new Vault(map[]);
    var nb := new Notebook();
    nb.LoadNotes(Some([]), vault, welcome);
    deletedPath := nb.notes[0].filepath;
    nb.DeleteNote(0, vault);
    assert nb.count == 0 && vault.files == map[];
    WelcomeSavePath(welcome);
    nb.SaveSelectedAsWritten(vault);
    files := vault.files;
  }

  /** The same steps with the corrected save leave the vault empty. */
  method DeletedNoteStaysDeleted(welcome: Bytes) returns (deletedPath: Bytes, files: map<Bytes, Bytes>)
    requires ContentOk(welcome)
    ensures deletedPath !in files && files == map[]
  {
    var vault := new Vault(map[]);
    var nb := new Notebook();
    nb.LoadNotes(Some([]), vault, welcome);
    deletedPath := nb.notes[0].filepath;
    nb.DeleteNote(0, vault);
    nb.SaveSelected(vault);
    files := vault.files;
  }

  /** Starting from an empty vault, which gets the welcome note: creating
      two notes, deleting the welcome note and creating another gives two
      listed notes with the same title, so both save to the same file. */
  method DuplicateUntitled(welcome: Bytes) returns (first: Bytes, second: Bytes)
    requires ContentOk(welcome)
    ensures first == second == UntitledTitle(3)
    ensures SavePath(first) == SavePath(second)
  {
    var vault := new Vault(map[]);
    var nb := new Notebook();
    nb.LoadNotes(Some([]), vault, welcome);
    nb.CreateNewNote();
    nb.CreateNewNote();
    nb.DeleteNote(0, vault);
    nb.CreateNewNote();
    assert nb.count == 3;
    first := nb.notes[1].title;
    second := nb.notes[2].title;
  }

  /** The same steps with the corrected creation give distinct titles. */
  method UniqueUntitled(welcome: Bytes) returns (first: Bytes, second: Bytes)
    requires ContentOk(welcome)
    ensures first != second
  {
    var vault := new Vault(map[]);
    var nb := new Notebook();
    nb.LoadNotes(Some([]), vault, welcome);
    nb.CreateUniqueNote();
    nb.CreateUniqueNote();
    nb.DeleteNote(0, vault);
    nb.CreateUniqueNote();
    assert nb.count == 3;
    first := nb.notes[1].title;
    second := nb.notes[2].title;
  }
}
