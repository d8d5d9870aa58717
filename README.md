# A verified model of the Obsidian-style notebook

This project models the note store of `obsidian_notebook.c`, a single-window
Markdown notebook. The program keeps up to 100 notes in memory. It loads them from the
`.md` files of a vault folder, edits the selected note from keyboard input, and
saves notes back to disk. It also lays out the selected note as wrapped, styled
lines and reports word and character counts in a status bar.

The model is split by concern:

- `Base` holds bytes, C strings, `snprintf` truncation and the program's constants.
- `Utf8` holds `encode_utf8`, a decoder, the round trips between the two, and
  `get_last_utf8_char_bytes` as a method with its backward scan. The decoder
  follows the byte patterns of section 3 of RFC 3629 and refuses overlong forms
  and values above U+10FFFF. Unlike that section, it accepts the surrogates
  U+D800 to U+DFFF, because `encode_utf8` writes them. "Valid UTF-8" below means
  text this decoder reads as whole characters.
- `TextBuffer` holds the note record and the edit branches of `handle_input`:
  typing, backspace, enter and tab, each with its length guard. It proves that
  every edit keeps a note's content valid UTF-8 and that backspace undoes typing.
- `Storage` holds the vault as a map from paths to file contents. It covers the
  `.md` title and path derivation of `load_notes` and `save_note`, loading and
  saving, the welcome note, and the "Untitled N" titles.
- `Layout` holds the word-wrap loop of `draw_editor` as a reference function and
  as a method with its loop. It also holds heading and bullet classification.
  It proves that the wrapped lines rejoin to the text up to where the loop
  stops, that a line with a space to break at fits the width, and that at most
  26 lines are laid out. A word with no space in it still overflows the width,
  as in the code.
- `Status` holds the word-count loop of `draw_status_bar` and the status text.
- `NoteStore` holds the `Notebook` class. Its fields are the global `notebook`
  struct, with the notes as a 100-slot array. Its methods model `load_notes`,
  `create_new_note`, `delete_note`, click-select, the shortcuts, the edit keys
  and the scroll clamp of `handle_input`, `save_note` and `save_all_notes`.

Where the comments and the code differ, the model follows the code. The
struct comment at line 116 says `selected` is -1 when nothing is selected. The
code never leaves it at -1. The start state is zeroed. Deleting the last note
sets it to `count - 1`, which is -1, and the next test sets it back to 0. So
the model keeps `selected >= 0` always.

The frame handler `HandleInput` follows the code as written, including the two
faults listed under "## Findings". The corrected operations
`CreateUniqueNote` and `SaveSelected` stand beside it.

## Model

| member | source | states |
|---|---|---|
| Base.CString | obsidian_notebook.c:244-250 | the C-string view of a buffer is its longest NUL-free prefix |
| Base.Truncate | obsidian_notebook.c:630-633 | `snprintf` into a buffer of `size` keeps at most `size - 1` bytes, and the whole text when it fits |
| Utf8.Encode | obsidian_notebook.c:146-171 | one to four bytes by code-point range and none above U+10FFFF; lead byte and continuation bytes well formed; no NUL for a positive code point |
| Utf8.DecodeEncode | obsidian_notebook.c:146-171 | decoding what `encode_utf8` writes gives back the code point, for every code point up to U+10FFFF |
| Utf8.DecodeEncode2 | obsidian_notebook.c:151-155 | the two-byte case of the round trip |
| Utf8.DecodeEncode3 | obsidian_notebook.c:156-161 | the three-byte case of the round trip |
| Utf8.DecodeEncode4 | obsidian_notebook.c:162-168 | the four-byte case of the round trip |
| Utf8.EncodeDecode | obsidian_notebook.c:146-171 | every well-formed sequence is what `encode_utf8` writes for the code point it decodes to |
| Utf8.EncodeDecode2 | obsidian_notebook.c:151-155 | the two-byte case of the reverse round trip |
| Utf8.EncodeDecode3 | obsidian_notebook.c:156-161 | the three-byte case of the reverse round trip |
| Utf8.EncodeDecode4 | obsidian_notebook.c:162-168 | the four-byte case of the reverse round trip |
| Utf8.EncodeFour | obsidian_notebook.c:162-168 | the four bytes written for a code point, from its 3-bit and three 6-bit fields |
| Utf8.CharStart | obsidian_notebook.c:191-201 | the start of the character holding byte `i`: only continuation bytes lie after it |
| Utf8.TrailingCharSize | obsidian_notebook.c:191-201 | the size of the trailing character, zero exactly for empty text |
| Utf8.LastCharSizeUnique | obsidian_notebook.c:191-201 | only one size satisfies the definition of the last character's size |
| Utf8.LastCharBytes | obsidian_notebook.c:191-201 | the backward scan over continuation bytes returns the size of the last character of the first `len` bytes |
| Utf8.TrailingCharOfEncoded | obsidian_notebook.c:191-201 | after any text, the last character of an appended encoding is exactly that encoding |
| TextBuffer.TypeAccepted | obsidian_notebook.c:684-689 | the two guards on a typed code point: printable, and room for its encoding below the buffer's last byte |
| TextBuffer.TypeChar | obsidian_notebook.c:684-692 | a printable code point is appended in UTF-8 and marks the note modified when the length guard allows; otherwise the note is untouched |
| TextBuffer.TypeQueue | obsidian_notebook.c:682-695 | the queue of pressed characters keeps the title, path and content bound, and changes the note only by modifying it |
| TextBuffer.Backspace | obsidian_notebook.c:698-705 | a non-empty content loses exactly its last UTF-8 character and the note is modified; empty content is untouched |
| TextBuffer.Enter | obsidian_notebook.c:708-715 | a newline is appended when the content is under 32767 bytes |
| TextBuffer.Tab | obsidian_notebook.c:718-724 | four spaces are appended when the content is under 32764 bytes |
| TextBuffer.TypeThenBackspace | obsidian_notebook.c:684-705 | backspace removes exactly the character just typed |
| TextBuffer.DecodableIsEncodedText | obsidian_notebook.c:146-171 | one well-formed sequence is valid text |
| TextBuffer.EncodeIsEncodedText | obsidian_notebook.c:146-171 | what `encode_utf8` writes is valid text for every code point; above U+10FFFF it writes nothing |
| TextBuffer.EncodedTextConcat | obsidian_notebook.c:690 | valid text appended to valid text is valid |
| TextBuffer.LastCharSplit | obsidian_notebook.c:191-201 | valid text ends in the encoding of a code point, after valid text |
| TextBuffer.EncodedTextBackspace | obsidian_notebook.c:698-705 | cutting the last character off valid text leaves valid text |
| TextBuffer.BackspaceCutsOneChar | obsidian_notebook.c:698-705 | the bytes backspace cuts off valid text are the encoding of one code point |
| TextBuffer.TypeCharKeepsEncodedText | obsidian_notebook.c:684-692 | typing keeps the content valid UTF-8 |
| TextBuffer.TypeQueueKeepsEncodedText | obsidian_notebook.c:682-695 | a frame's typed characters keep the content valid UTF-8 |
| TextBuffer.BackspaceKeepsEncodedText | obsidian_notebook.c:698-705 | backspace keeps the content valid UTF-8 |
| TextBuffer.EnterKeepsEncodedText | obsidian_notebook.c:708-715 | enter keeps the content valid UTF-8 |
| TextBuffer.TabTextIsEncodedText | obsidian_notebook.c:721 | the four spaces are valid UTF-8 |
| TextBuffer.TabKeepsEncodedText | obsidian_notebook.c:718-724 | tab keeps the content valid UTF-8 |
| Storage.LastIndexOf | obsidian_notebook.c:230 | `strrchr`: the position of the last occurrence of a byte, or none when it does not occur |
| Storage.Vault.constructor | obsidian_notebook.c:64 | the files of the vault folder, as a map from path to contents |
| Storage.HasMdExtension | obsidian_notebook.c:230-231 | the entry test: a last dot, and exactly `.md` from it on; a name that passes ends in `.md` |
| Storage.MdExtensionIsSuffix | obsidian_notebook.c:230-231 | the name's last dot starts exactly `.md` if and only if the name ends in `.md` |
| Storage.TitleOf | obsidian_notebook.c:235-237 | the title of a `.md` file: its name without the last three bytes |
| Storage.FileNameOf | obsidian_notebook.c:235-237 | the file name of a title: the title followed by `.md` |
| Storage.VaultPath | obsidian_notebook.c:240-241 | `vault/` and the entry name, as `snprintf` into the 256-byte path leaves it |
| Storage.SavePath | obsidian_notebook.c:312-313 | `vault/`, the title and `.md`, as `snprintf` into the 256-byte path leaves it |
| Storage.TitleFileNameRoundTrip | obsidian_notebook.c:235-241 | title and file name determine each other, and the loaded path is the path `save_note` writes to |
| Storage.ReadContent | obsidian_notebook.c:244-250 | content read from a file fits the buffer and has no NUL |
| Storage.LoadEntry | obsidian_notebook.c:232-253 | a loaded note is unmodified, its content fits the buffer and has no NUL, and its title gives back its file name |
| Storage.Loaded | obsidian_notebook.c:228-256 | the loop loads at most MAX_NOTES notes, each unmodified, with content that fits the buffer and has no NUL, and with the vault path of its file as its path |
| Storage.MdNames | obsidian_notebook.c:229-231 | the entries the loop accepts, in listing order, each with the `.md` extension |
| Storage.MdNamesMembers | obsidian_notebook.c:229-231 | a name is among them if and only if it is an entry of the listing with the `.md` extension |
| Storage.LoadedMdEntries | obsidian_notebook.c:228-256 | the i-th loaded note is the note built from the i-th `.md` entry, and every `.md` entry is loaded unless MAX_NOTES is reached first |
| Storage.WelcomeNote | obsidian_notebook.c:260-299 | the note an empty vault gets: titled `Welcome`, at `vault/Welcome.md`, with the platform's text, modified |
| Storage.WelcomeSavePath | obsidian_notebook.c:262-264 | the welcome note's path is the one `save_note` writes it to |
| Storage.SavedNote | obsidian_notebook.c:307-321 | saving keeps title and content, clears `modified`, and rewrites the path of a modified note; an unmodified note is untouched |
| Storage.WrittenFiles | obsidian_notebook.c:307-321 | saving a modified note writes its content to its path and no other file; an unmodified note writes nothing |
| Storage.CStringOfNoNul | obsidian_notebook.c:317 | `fprintf` with `%s` writes a NUL-free content in full |
| Storage.SaveThenLoad | obsidian_notebook.c:307-321 | loading the file a save wrote gives back the saved note |
| Storage.Decimal | obsidian_notebook.c:343 | the `%d` digits of a number: decimal digits, no leading zero |
| Storage.DigitsValueOfDecimal | obsidian_notebook.c:343 | the digits printed denote the number |
| Storage.DecimalLength | obsidian_notebook.c:630-633 | a number below 10^k prints in at most k digits |
| Storage.UntitledTitle | obsidian_notebook.c:342-343 | `Untitled ` followed by the decimal digits of the number |
| Storage.UntitledTitleFits | obsidian_notebook.c:342-343 | "Untitled N" fits the 128-byte title for every N a notebook can reach |
| Storage.UntitledTitleInjective | obsidian_notebook.c:342-343 | different numbers give different titles |
| Storage.UntitledNote | obsidian_notebook.c:343-350 | a new note is empty, modified, and its path is the one it will be saved to |
| Storage.Titles | obsidian_notebook.c:341 | the titles of the listed notes, in order: what the corrected create checks a new title against |
| Storage.FreeUntitledNumber | obsidian_notebook.c:341-343 | among `|titles| + 1` consecutive numbers one gives a title not yet taken |
| Storage.WrittenAll | obsidian_notebook.c:326-330 | the vault after saving a list of notes one after the other, in order |
| Storage.WrittenAllHolds | obsidian_notebook.c:326-330 | saving notes with distinct paths writes each modified note's content to its path and no other file |
| Layout.BreakFrom | obsidian_notebook.c:538-554 | the length the inner scan stops at never passes the text, and is zero only at a newline or the end |
| Layout.BreakFromFacts | obsidian_notebook.c:538-554 | the scanned line has no newline, and it fits the width or breaks at its last space |
| Layout.LineLength | obsidian_notebook.c:538-554 | a line never runs past the content, and is empty only at a newline or the end |
| Layout.SepAt | obsidian_notebook.c:589-593 | what a line ended on: a newline, a space, or the end of the content |
| Layout.NextStart | obsidian_notebook.c:589-593 | the scan always advances, so the wrap loop ends |
| Layout.WrapJoined | obsidian_notebook.c:533-596 | the wrapped lines, with the separators they ended on, rejoin to the content up to where the loop stopped |
| Layout.WrapReachesEnd | obsidian_notebook.c:533-596 | the loop stops only at the end of the content or at the bottom of the editor |
| Layout.WrapLineCount | obsidian_notebook.c:533-596 | no more lines are laid out than fit between the starting row and the bottom |
| Layout.ContentLineCount | obsidian_notebook.c:512-533 | at most 26 lines are ever drawn |
| Layout.ClassifyFacts | obsidian_notebook.c:564-586 | `# ` is a heading, `## ` a subheading, `- ` a bullet, with the marker removed; anything else is a paragraph kept whole |
| Layout.Wrap | obsidian_notebook.c:533-596 | the reference wrap: the lines from `start` at row `y`, each with the separator it ended on, until the end of the content or the bottom of the editor |
| Layout.WrapContent | obsidian_notebook.c:525-533 | the wrap of a whole note from the first text row |
| Layout.Classify | obsidian_notebook.c:564-586 | `# `, then `## `, then `- ` at the start gives a heading, a subheading or a bullet with the marker removed; otherwise a paragraph |
| Layout.ClassifyMarked | obsidian_notebook.c:564-586 | a line written with a style's marker is classified back to that style and text |
| Layout.Styled | obsidian_notebook.c:564-586 | one styled line per wrapped line |
| Layout.StyledLines | obsidian_notebook.c:564-586 | each styled line is the classification of its wrapped line's text |
| Layout.ScanLine | obsidian_notebook.c:538-554 | the inner scan loop measures exactly the line length of the reference wrap |
| Layout.PastSeparator | obsidian_notebook.c:589-593 | the advance skips the newline or space the line ended on |
| Layout.LayoutLine | obsidian_notebook.c:535-595 | one iteration lays out the next reference line and advances the scan |
| Layout.LayoutLines | obsidian_notebook.c:533-596 | the draw loop produces exactly the styled reference wrap of the content |
| Status.WordCount | obsidian_notebook.c:618-629 | the number of word starts: bytes other than space and newline that are first or follow one |
| Status.CountWords | obsidian_notebook.c:618-629 | the counting loop returns the number of maximal runs of non-separator bytes |
| Status.WordCountJoin | obsidian_notebook.c:618-629 | joining two texts with a space or newline adds their word counts |
| Status.SeparatorsOnly | obsidian_notebook.c:618-629 | text of spaces and newlines has no words |
| Status.SingleWord | obsidian_notebook.c:618-629 | a run without separators is one word |
| Status.WordCountBound | obsidian_notebook.c:618-629 | a text of n bytes has at most (n + 1) / 2 words |
| Status.StatusText | obsidian_notebook.c:630-633 | the two status formats, as `snprintf` into the 128-byte buffer leaves them |
| Status.StatusTextFits | obsidian_notebook.c:615-634 | with at most 100 notes and word and byte counts below 100000, the 128-byte status buffer holds the whole text |
| Status.NoteStatsFit | obsidian_notebook.c:615-634 | for any note the store can hold, the status text of its counts is printed in full |
| NoteStore.MaxScroll | obsidian_notebook.c:736-739 | the scroll range: the list's height past the visible sidebar, and 0 when it fits |
| NoteStore.ScrollClamp | obsidian_notebook.c:728-744 | the new offset is the wheel-moved offset clamped into `[0, max_scroll]` |
| NoteStore.ShortListDoesNotScroll | obsidian_notebook.c:738-742 | a list that fits the sidebar never scrolls |
| NoteStore.ClampSelection | obsidian_notebook.c:373-378 | after a delete the selection is kept when still valid and otherwise moved into the list, or to 0 when the list is empty |
| NoteStore.EditFrame | obsidian_notebook.c:678-724 | a frame's edits keep title and path and the content bound, and change the note only by modifying it |
| NoteStore.EditFrameKeepsEncodedText | obsidian_notebook.c:678-724 | a frame's edits keep the content valid UTF-8 |
| NoteStore.Notebook.constructor | obsidian_notebook.c:129 | the zeroed global: no notes, every slot empty |
| NoteStore.Notebook.LoadNotes | obsidian_notebook.c:221-301 | an unreadable folder loads nothing; otherwise the `.md` notes are loaded in order, and an empty vault gets the welcome note, selected |
| NoteStore.Notebook.LoadEntries | obsidian_notebook.c:228-256 | the loop fills slots from 0 with the reference list of loaded notes and leaves the rest empty |
| NoteStore.Notebook.LoadOneEntry | obsidian_notebook.c:229-255 | one iteration loads the entry when it is a `.md` file and there is room |
| NoteStore.Notebook.CreateNewNote | obsidian_notebook.c:335-353 | at capacity nothing changes; otherwise "Untitled count+1" is appended, selected and modified, with the cursor at 0 |
| NoteStore.Notebook.TitleTaken | obsidian_notebook.c:341-343 | whether a listed note has the title |
| NoteStore.Notebook.FreeNoteNumber | obsidian_notebook.c:341-343 | the least number above `count` whose title is not taken |
| NoteStore.Notebook.CreateUniqueNote | obsidian_notebook.c:335-353 | as `create_new_note`, with a title no listed note has |
| NoteStore.Notebook.SelectNote | obsidian_notebook.c:474-477 | a click selects the note and puts the cursor at the end of its content |
| NoteStore.Notebook.DeleteNote | obsidian_notebook.c:359-379 | an index out of range changes nothing; otherwise the file is removed, the note leaves the list with the order kept, and the selection is clamped |
| NoteStore.Notebook.ShiftDown | obsidian_notebook.c:367-369 | the notes after `index` move down one slot; the last slot keeps its old note |
| NoteStore.Notebook.ToggleSearch | obsidian_notebook.c:669-674 | Ctrl+F flips the search box and clears the query when it closes |
| NoteStore.Notebook.Scroll | obsidian_notebook.c:728-744 | the wheel sets the clamped offset and changes nothing else |
| NoteStore.Notebook.TypeCodepoints | obsidian_notebook.c:682-695 | the selected note becomes the typed-queue result and no other note changes |
| NoteStore.Notebook.DeleteBackward | obsidian_notebook.c:698-705 | the selected note becomes its backspace result and no other note changes |
| NoteStore.Notebook.PressEnter | obsidian_notebook.c:708-715 | the selected note becomes its enter result and no other note changes |
| NoteStore.Notebook.PressTab | obsidian_notebook.c:718-724 | the selected note becomes its tab result and no other note changes |
| NoteStore.Notebook.SaveNote | obsidian_notebook.c:307-321 | one slot is saved to the vault and no other slot changes |
| NoteStore.Notebook.SaveAllNotes | obsidian_notebook.c:326-330 | every listed note is saved and left unmodified, and the vault is the result of saving them in order |
| NoteStore.Notebook.SaveSelectedAsWritten | obsidian_notebook.c:664-668 | Ctrl+S saves slot `selected` even when the list is empty |
| NoteStore.Notebook.SaveSelected | obsidian_notebook.c:664-668 | Ctrl+S saves the selected note, and nothing when the list is empty |
| NoteStore.Creates | obsidian_notebook.c:661-663 | Ctrl+N this frame, with room for another note |
| NoteStore.Saves | obsidian_notebook.c:664-668 | Ctrl+S this frame |
| NoteStore.Toggles | obsidian_notebook.c:669-674 | Ctrl+F this frame |
| NoteStore.ShortcutTarget | obsidian_notebook.c:660-668 | the note Ctrl+S acts on: the one Ctrl+N just created, or else the selected one |
| NoteStore.ShortcutNote | obsidian_notebook.c:660-668 | that note after the shortcuts: saved when Ctrl+S is pressed |
| NoteStore.ShortcutFiles | obsidian_notebook.c:660-668 | the vault after the shortcuts: that note written when Ctrl+S is pressed, and unchanged otherwise |
| NoteStore.Notebook.HandleInput | obsidian_notebook.c:658-745 | the whole new state of one frame: the shortcuts' effects, then the frame's edits on the selected note when a note is listed, then the clamped scroll when the wheel moves over the sidebar; no other note changes |
| NoteStore.Notebook.HandleShortcuts | obsidian_notebook.c:660-675 | Ctrl+N appends and selects "Untitled count+1" with the cursor at 0 when there is room; Ctrl+S then saves slot `selected`, the new note if one was made; Ctrl+F flips the search box and clears the query when it closes; without the modifier nothing changes |
| NoteStore.Notebook.CreateAndSave | obsidian_notebook.c:661-668 | the N and S shortcuts in their order, with the search state and the scroll offset unchanged |
| NoteStore.Notebook.EditSelected | obsidian_notebook.c:678-725 | the edit branches, in order, give the selected note its frame result and touch no other note |
| NoteStore.Notebook.StatusBar | obsidian_notebook.c:607-634 | the selected note's word count and byte count, or only the note count when the list is empty |
| NoteStore.Notebook.EditorLines | obsidian_notebook.c:489-602 | the empty state when there are no notes, else the styled wrap of the selected note |
| NoteStore.DeletedNoteResurrects | obsidian_notebook.c:664-668 | in an empty vault, deleting the welcome note and pressing Ctrl+S writes `Welcome.md`, with the welcome text, after its note was deleted |
| NoteStore.DeletedNoteStaysDeleted | obsidian_notebook.c:664-668 | with the corrected save, the deleted note's file stays deleted |
| NoteStore.DuplicateUntitled | obsidian_notebook.c:341-343 | two creates, a delete and a create give two listed notes with the same title and save path |
| NoteStore.UniqueUntitled | obsidian_notebook.c:341-343 | with the corrected create, the same steps give distinct titles |

## Left out

- Drawing, fonts, colours and window handling (raylib) are not modelled. Text width is a parameter `width` standing in for `MeasureTextEx`.
- Keyboard and mouse state is a `Frame` value: the typed code points, the keys pressed, the modifier, and whether the wheel moved over the sidebar. The float wheel value enters as `wheelStep`, already `(int)(wheel * 30)`.
- File I/O is the vault as a map from paths to contents. `fopen` failures are not modelled: a save always succeeds, and a file missing from the map reads as empty.
- The directory listing is a parameter holding the entry names, or `None` when `opendir` fails. Every entry counts as a regular file (`d_type` is not modelled).
- `ensure_vault_exists` (`mkdir`) is not modelled.
- The welcome note's body is a parameter `welcome`. Its title, path and `modified` flag follow the code.
- The 256-byte `line` buffer in `draw_editor` is not modelled. A line is as long as the width lets it be.
- Only the lines are modelled in `draw_editor`. The cursor blink and the drawing positions beyond the row count are left out.
- `strncpy` of a title into the 128-byte `title` buffer (lines 235-237) is not modelled. A file name may be up to 255 bytes, so a title of up to 252 bytes can overflow that buffer, which is undefined behaviour. The model keeps loaded titles whole.
- The search box's text entry, the title-editing flag, the header, and the sidebar's hit-testing and visible range (lines 444-452) are left out: they are drawing and mouse geometry. Click-select and right-click delete are `SelectNote` and `DeleteNote` on an index.
- The order of the main loop is left out: it runs `handle_input`, then drawing, with sidebar clicks inside drawing. So is the `save_all_notes` at exit, which is `SaveAllNotes`.
- NoteStore.Notebook.LoadNotes: the contract states the loaded list through `Loaded`. It does not restate that `d_type` filters out directories.

## Findings

| source | as written | input that shows it | evidently intended | confidence | as-written member | corrected member |
|---|---|---|---|---|---|---|
| obsidian_notebook.c:664-668 | Ctrl+S saves `notes[selected]` whenever `selected >= 0`; after the last note is deleted the list is empty, `selected` is 0 and slot 0 still holds the deleted note | empty vault (welcome note, modified), right-click delete note 0, Ctrl+S: `Welcome.md` is written after its note was deleted | Ctrl+S saves only when a note is listed | high, not executed | NoteStore.Notebook.SaveSelectedAsWritten | NoteStore.Notebook.SaveSelected |
| obsidian_notebook.c:341-343 | a new note is titled "Untitled count+1", so after a delete the number can repeat a listed title | empty vault (welcome note), Ctrl+N, Ctrl+N, delete note 0, Ctrl+N: two notes titled "Untitled 3" that save to the same file | a title no listed note has | high, not executed | NoteStore.Notebook.CreateNewNote | NoteStore.Notebook.CreateUniqueNote |

The counterexamples are proved in `NoteStore.DeletedNoteResurrects` and
`NoteStore.DuplicateUntitled`. The corrected behaviour is proved in
`NoteStore.DeletedNoteStaysDeleted` and `NoteStore.UniqueUntitled`.
