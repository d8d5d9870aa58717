/** The vault: a flat folder of `<title>.md` files. File name to title
    derivation, the path a note is read from and written to, what `load_notes`
    makes of one directory entry, and what `save_note` writes. */
module Storage {
  import opened Base
  import opened TextBuffer

  const VAULT_FOLDER: Bytes := Lit("vault")
  const SLASH: Bytes := Lit("/")
  const MD_EXTENSION: Bytes := Lit(".md")
  const WELCOME_TITLE: Bytes := Lit("Welcome")
  const UNTITLED_PREFIX: Bytes := Lit("Untitled ")

  /** The files of the vault folder, keyed by the path the program opens. */
  class Vault {
    var files: map<Bytes, Bytes>

    constructor (files: map<Bytes, Bytes>)
      ensures this.files == files
    {
      this.files := files;
    }
  }

  /** `strrchr`: the index of the last occurrence of `b` in `s`. */
  function LastIndexOf(s: Bytes, b: byte): (r: Option<nat>)
    ensures r.Some? ==> r.value < |s| && s[r.value] == b
    ensures r.Some? ==> forall k :: r.value < k < |s| ==> s[k] != b
    ensures r.None? ==> forall k :: 0 <= k < |s| ==> s[k] != b
  {
    if s == [] then None
    else if s[|s| - 1] == b then Some(|s| - 1)
    else LastIndexOf(s[..|s| - 1], b)
  }

  /** The test `load_notes` applies to a directory entry: the text from the
      last dot on is exactly `.md`. */
  predicate HasMdExtension(name: Bytes)
    ensures HasMdExtension(name) ==> |name| >= 3 && name[|name| - 3..] == MD_EXTENSION
  {
    var dot := LastIndexOf(name, DOT);
    dot.Some? && name[dot.value..] == MD_EXTENSION
  }

  /** The last-dot test is the same as ending in `.md`. */
  lemma MdExtensionIsSuffix(name: Bytes)
    ensures HasMdExtension(name) <==> |name| >= 3 && name[|name| - 3..] == MD_EXTENSION
  {
    if |name| >= 3 && name[|name| - 3..] == MD_EXTENSION {
      var dot := LastIndexOf(name, DOT);
      assert name[|name| - 3] == DOT;
      assert name[|name| - 2] != DOT && name[|name| - 1] != DOT;
      assert dot.Some? && dot.value == |name| - 3;
    }
  }

  /** The title of a `.md` file: its name without the last three bytes. */
  function TitleOf(name: Bytes): Bytes
    requires |name| >= 3
  {
    name[..|name| - 3]
  }

  /** The file name a title is saved under. */
  function FileNameOf(title: Bytes): Bytes {
    title + MD_EXTENSION
  }

  /** `snprintf(filepath, 256, "%s/%s", VAULT_FOLDER, name)`. */
  function VaultPath(name: Bytes): Bytes {
    Truncate(VAULT_FOLDER + SLASH + name, FILEPATH_SIZE)
  }

  /** `snprintf(filepath, 256, "%s/%s.md", VAULT_FOLDER, title)`. */
  function SavePath(title: Bytes): Bytes {
    Truncate(VAULT_FOLDER + SLASH + title + MD_EXTENSION, FILEPATH_SIZE)
  }

  /** File name and title determine each other, and a loaded note's path is
      the path it is saved to. */
  lemma TitleFileNameRoundTrip(title: Bytes, name: Bytes)
    ensures HasMdExtension(FileNameOf(title)) && TitleOf(FileNameOf(title)) == title
    ensures SavePath(title) == VaultPath(FileNameOf(title))
    ensures HasMdExtension(name) ==> FileNameOf(TitleOf(name)) == name
    ensures HasMdExtension(name) ==> SavePath(TitleOf(name)) == VaultPath(name)
  {
    MdExtensionIsSuffix(FileNameOf(title));
    assert FileNameOf(title)[|FileNameOf(title)| - 3..] == MD_EXTENSION;
    assert VAULT_FOLDER + SLASH + title + MD_EXTENSION == VAULT_FOLDER + SLASH + (title + MD_EXTENSION);
    if HasMdExtension(name) {
      assert name == name[..|name| - 3] + name[|name| - 3..];
      assert VAULT_FOLDER + SLASH + TitleOf(name) + MD_EXTENSION == VAULT_FOLDER + SLASH + (TitleOf(name) + MD_EXTENSION);
    }
  }

  /** What `fread` of at most MAX_CONTENT_LENGTH - 1 bytes leaves in the
      content buffer, read as a C string; a file that cannot be opened leaves
      the zero-initialised buffer empty. */
  function ReadContent(files: map<Bytes, Bytes>, path: Bytes): (c: Bytes)
    ensures ContentOk(c)
  {
    if path in files then
      var data := files[path];
      CString(data[..Min(|data|, MAX_CONTENT_LENGTH - 1)])
    else
      []
  }

  /** The note `load_notes` builds for one `.md` directory entry. */
  function LoadEntry(name: Bytes, files: map<Bytes, Bytes>): (n: Note)
    requires HasMdExtension(name)
    ensures ContentOk(n.content) && !n.modified
    ensures FileNameOf(n.title) == name
  {
    TitleFileNameRoundTrip([], name);
    Note(TitleOf(name), ReadContent(files, VaultPath(name)), VaultPath(name), false)
  }

  /** The notes `load_notes` appends, reading the directory entries from
      index `k` on, in order, while fewer than MAX_NOTES notes are loaded;
      `count` is how many are loaded already. */
  function Loaded(entries: seq<Bytes>, k: nat, files: map<Bytes, Bytes>, count: nat): (r: seq<Note>)
    requires count <= MAX_NOTES
    ensures count + |r| <= MAX_NOTES
    ensures forall i :: 0 <= i < |r| ==> ContentOk(r[i].content) && !r[i].modified
    ensures forall i :: 0 <= i < |r| ==> r[i].filepath == VaultPath(FileNameOf(r[i].title))
    decreases |entries| - k
  {
    if k >= |entries| || count >= MAX_NOTES then []
    else if HasMdExtension(entries[k]) then
      [LoadEntry(entries[k], files)] + Loaded(entries, k + 1, files, count + 1)
    else
      Loaded(entries, k + 1, files, count)
  }

  /** The `.md` entries of the listing from index `k` on, in listing order. */
  function MdNames(entries: seq<Bytes>, k: nat): (r: seq<Bytes>)
    requires k <= |entries|
    ensures forall i :: 0 <= i < |r| ==> HasMdExtension(r[i])
    decreases |entries| - k
  {
    if k == |entries| then []
    else if HasMdExtension(entries[k]) then [entries[k]] + MdNames(entries, k + 1)
    else MdNames(entries, k + 1)
  }

  /** They are exactly the entries the load loop accepts. */
  lemma {:induction false} MdNamesMembers(entries: seq<Bytes>, k: nat)
    requires k <= |entries|
    ensures forall x :: x in MdNames(entries, k) <==> x in entries[k..] && HasMdExtension(x)
    decreases |entries| - k
  {
    if k < |entries| {
      MdNamesMembers(entries, k + 1);
      assert entries[k..] == [entries[k]] + entries[k + 1..];
    }
  }

  /** The loop loads the `.md` entries in listing order, one note each, and
      all of them unless capacity runs out first. */
  lemma {:induction false} LoadedMdEntries(entries: seq<Bytes>, k: nat, files: map<Bytes, Bytes>, count: nat)
    requires k <= |entries| && count <= MAX_NOTES
    ensures |Loaded(entries, k, files, count)| == Min(|MdNames(entries, k)|, MAX_NOTES - count)
    ensures forall i :: 0 <= i < |Loaded(entries, k, files, count)| ==>
      Loaded(entries, k, files, count)[i] == LoadEntry(MdNames(entries, k)[i], files)
    decreases |entries| - k
  {
    if k < |entries| && count < MAX_NOTES {
      if HasMdExtension(entries[k]) {
        LoadedMdEntries(entries, k + 1, files, count + 1);
        LoadedTakes(entries, k, files, count);
      } else {
        LoadedMdEntries(entries, k + 1, files, count);
        LoadedSkips(entries, k, files, count);
      }
    }
  }

  /** An accepted entry heads both the loaded notes and the `.md` names. */
  lemma LoadedTakes(entries: seq<Bytes>, k: nat, files: map<Bytes, Bytes>, count: nat)
    requires k < |entries| && count < MAX_NOTES && HasMdExtension(entries[k])
    requires var tail, rest := Loaded(entries, k + 1, files, count + 1), MdNames(entries, k + 1);
      |tail| == Min(|rest|, MAX_NOTES - count - 1) &&
      forall i :: 0 <= i < |tail| ==> tail[i] == LoadEntry(rest[i], files)
    ensures |Loaded(entries, k, files, count)| == Min(|MdNames(entries, k)|, MAX_NOTES - count)
    ensures forall i :: 0 <= i < |Loaded(entries, k, files, count)| ==>
      Loaded(entries, k, files, count)[i] == LoadEntry(MdNames(entries, k)[i], files)
  {
    var tail, rest := Loaded(entries, k + 1, files, count + 1), MdNames(entries, k + 1);
    var loaded, names := Loaded(entries, k, files, count), MdNames(entries, k);
    assert loaded == [LoadEntry(entries[k], files)] + tail;
    assert names == [entries[k]] + rest;
    forall i | 0 <= i < |loaded|
      ensures loaded[i] == LoadEntry(names[i], files)
    {
      if i > 0 {
        assert loaded[i] == tail[i - 1] && names[i] == rest[i - 1];
      }
    }
  }

  /** A refused entry appears in neither. */
  lemma LoadedSkips(entries: seq<Bytes>, k: nat, files: map<Bytes, Bytes>, count: nat)
    requires k < |entries| && count < MAX_NOTES && !HasMdExtension(entries[k])
    ensures Loaded(entries, k, files, count) == Loaded(entries, k + 1, files, count)
    ensures MdNames(entries, k) == MdNames(entries, k + 1)
  {
  }

  /** The note seeded into an empty vault; `body` is its platform-specific text. */
  function WelcomeNote(body: Bytes): Note {
    Note(WELCOME_TITLE, body, VaultPath(Lit("Welcome.md")), true)
  }

  /** The welcome note's path is the one its title saves to. */
  lemma WelcomeSavePath(body: Bytes)
    ensures WelcomeNote(body).filepath == SavePath(WelcomeNote(body).title)
  {
    assert Lit("Welcome.md") == WELCOME_TITLE + MD_EXTENSION;
  }

  /** The note after `save_note`: an unmodified note is left alone; a
      modified one gets the path derived from its current title and is clean. */
  function SavedNote(n: Note): (r: Note)
    ensures r.title == n.title && r.content == n.content && !r.modified
    ensures n.modified ==> r.filepath == SavePath(n.title)
    ensures !n.modified ==> r == n
  {
    if !n.modified then n else n.(filepath := SavePath(n.title), modified := false)
  }

  /** The vault after `save_note`: a modified note's content is written, as
      `fprintf("%s")` does, under its save path; no other file changes. */
  function WrittenFiles(files: map<Bytes, Bytes>, n: Note): (r: map<Bytes, Bytes>)
    ensures n.modified ==> r.Keys == files.Keys + {SavePath(n.title)}
    ensures n.modified && NoNul(n.content) ==> r[SavePath(n.title)] == n.content
    ensures forall p :: p in files && p != SavePath(n.title) ==> p in r && r[p] == files[p]
    ensures !n.modified ==> r == files
  {
    if !n.modified then files else files[SavePath(n.title) := CString(n.content)]
  }

  /** A C string is its own C string. */
  lemma CStringOfNoNul(s: Bytes)
    requires NoNul(s)
    ensures CString(s) == s
  {
  }

  /** Saving a modified note and loading its file back gives the saved note:
      same title, same bytes, same path, not modified. */
  lemma SaveThenLoad(n: Note, files: map<Bytes, Bytes>)
    requires n.modified && ContentOk(n.content)
    ensures HasMdExtension(FileNameOf(n.title))
    ensures LoadEntry(FileNameOf(n.title), WrittenFiles(files, n)) == SavedNote(n)
  {
    var name := FileNameOf(n.title);
    TitleFileNameRoundTrip(n.title, name);
    var f := WrittenFiles(files, n);
    assert f[VaultPath(name)] == n.content;
    assert n.content[..Min(|n.content|, MAX_CONTENT_LENGTH - 1)] == n.content;
    CStringOfNoNul(n.content);
  }

  /** The decimal digits `%d` prints for a non-negative number. */
  function Decimal(n: nat): (r: Bytes)
    ensures |r| >= 1
    ensures forall i :: 0 <= i < |r| ==> 48 <= r[i] <= 57
    ensures n > 0 ==> r[0] != 48
    decreases n
  {
    if n < 10 then [(48 + n) as byte] else Decimal(n / 10) + [(48 + n % 10) as byte]
  }

  /** The number a string of decimal digits denotes. */
  function DigitsValue(ds: Bytes): nat
    requires forall i :: 0 <= i < |ds| ==> 48 <= ds[i] <= 57
  {
    if ds == [] then 0 else DigitsValue(ds[..|ds| - 1]) * 10 + (ds[|ds| - 1] - 48) as nat
  }

  lemma {:induction false} DigitsValueOfDecimal(n: nat)
    ensures DigitsValue(Decimal(n)) == n
    decreases n
  {
    if n >= 10 {
      DigitsValueOfDecimal(n / 10);
      var d := Decimal(n);
      assert d[..|d| - 1] == Decimal(n / 10);
    }
  }

  /** `10^k`. */
  function Pow10(k: nat): nat {
    if k == 0 then 1 else 10 * Pow10(k - 1)
  }

  /** A number below `10^k` prints in at most `k` digits. */
  lemma {:induction false} DecimalLength(n: nat, k: nat)
    requires 1 <= k && n < Pow10(k)
    ensures |Decimal(n)| <= k
    decreases k
  {
    if n >= 10 {
      DecimalLength(n / 10, k - 1);
    }
  }

  /** The title `create_new_note` gives note number `n`. */
  function UntitledTitle(n: nat): Bytes {
    UNTITLED_PREFIX + Decimal(n)
  }

  /** `snprintf` into the 128-byte title buffer keeps every title that
      `create_new_note` can make, since note numbers stay below 1000. */
  lemma UntitledTitleFits(n: nat)
    requires n < 1000
    ensures Truncate(UntitledTitle(n), MAX_TITLE_LENGTH) == UntitledTitle(n)
  {
    DecimalLength(n, 3);
  }

  /** Different note numbers give different titles. */
  lemma UntitledTitleInjective(a: nat, b: nat)
    ensures UntitledTitle(a) == UntitledTitle(b) ==> a == b
  {
    if UntitledTitle(a) == UntitledTitle(b) {
      assert Decimal(a) == UntitledTitle(a)[|UNTITLED_PREFIX|..];
      assert Decimal(b) == UntitledTitle(b)[|UNTITLED_PREFIX|..];
      DigitsValueOfDecimal(a);
      DigitsValueOfDecimal(b);
    }
  }

  /** The note `create_new_note` makes for note number `n`: an empty,
      modified note whose path is derived from its title. */
  function UntitledNote(n: nat): (r: Note)
    ensures r.content == [] && r.modified
    ensures r.filepath == SavePath(r.title)
  {
    var title := Truncate(UntitledTitle(n), MAX_TITLE_LENGTH);
    Note(title, [], SavePath(title), true)
  }

  /** The titles of a sequence of notes. */
  function Titles(ns: seq<Note>): (r: seq<Bytes>)
    ensures |r| == |ns|
    ensures forall i :: 0 <= i < |ns| ==> r[i] == ns[i].title
  {
    seq(|ns|, i requires 0 <= i < |ns| => ns[i].title)
  }

  /** Among any `|titles| + 1` consecutive note numbers one has a title that
      is not taken: each taken title is taken by one note only. */
  lemma {:induction false} FreeUntitledNumber(titles: seq<Bytes>, lo: nat)
    ensures exists n :: lo <= n <= lo + |titles| && UntitledTitle(n) !in titles
    decreases |titles|
  {
    var hi := lo + |titles|;
    if UntitledTitle(hi) in titles {
      var j :| 0 <= j < |titles| && titles[j] == UntitledTitle(hi);
      var others := titles[..j] + titles[j + 1..];
      FreeUntitledNumber(others, lo);
      var n :| lo <= n <= lo + |others| && UntitledTitle(n) !in others;
      UntitledTitleInjective(n, hi);
      assert forall i :: 0 <= i < |titles| && i != j ==> titles[i] in others by {
        forall i | 0 <= i < |titles| && i != j
          ensures titles[i] in others
        {
          if i < j {
            assert others[i] == titles[i];
          } else {
            assert others[i - 1] == titles[i];
          }
        }
      }
      assert UntitledTitle(n) !in titles;
    }
  }

  /** The vault after `save_all_notes` has saved `ns` in order. */
  function WrittenAll(files: map<Bytes, Bytes>, ns: seq<Note>): map<Bytes, Bytes>
    decreases |ns|
  {
    if ns == [] then files else WrittenFiles(WrittenAll(files, ns[..|ns| - 1]), ns[|ns| - 1])
  }

  /** When the notes have distinct save paths, saving them all leaves each
      modified note's bytes at its save path, and every other file as it was. */
  lemma {:induction false} WrittenAllHolds(files: map<Bytes, Bytes>, ns: seq<Note>)
    requires forall i :: 0 <= i < |ns| ==> NoNul(ns[i].content)
    requires forall a, b :: 0 <= a < b < |ns| ==> SavePath(ns[a].title) != SavePath(ns[b].title)
    ensures var r := WrittenAll(files, ns);
      forall i :: 0 <= i < |ns| && ns[i].modified ==>
        SavePath(ns[i].title) in r && r[SavePath(ns[i].title)] == ns[i].content
    ensures var r := WrittenAll(files, ns);
      forall p :: p in files && (forall i :: 0 <= i < |ns| && ns[i].modified ==> p != SavePath(ns[i].title)) ==>
        p in r && r[p] == files[p]
    decreases |ns|
  {
    if ns != [] {
      var init := ns[..|ns| - 1];
      WrittenAllHolds(files, init);
      assert forall i :: 0 <= i < |init| ==> init[i] == ns[i];
    }
  }
}
