/** The statistics of `draw_status_bar`: the word count and character count
    of the selected note, and the status text they are printed into. */
module Status {
  import opened Base
  import opened Storage

  /** A space or a newline ends a word; every other byte belongs to one. */
  predicate IsSeparator(b: byte) {
    b == SPACE || b == NEWLINE
  }

  /** A word starts at `i`: a word byte that is first or follows a separator. */
  predicate StartsWord(s: Bytes, i: nat)
    requires i < |s|
  {
    !IsSeparator(s[i]) && (i == 0 || IsSeparator(s[i - 1]))
  }

  /** The number of words that start among the first `n` bytes. */
  function WordsIn(s: Bytes, n: nat): nat
    requires n <= |s|
  {
    if n == 0 then 0 else WordsIn(s, n - 1) + (if StartsWord(s, n - 1) then 1 else 0)
  }

  /** The number of maximal runs of word bytes in `s`. */
  function WordCount(s: Bytes): nat {
    WordsIn(s, |s|)
  }

  /** The word-count loop of `draw_status_bar`: a flag remembers whether the
      scan is inside a word, and each word is counted where it starts. */
  method CountWords(s: Bytes) returns (count: nat)
    ensures count == WordCount(s)
  {
    count := 0;
    var inWord := false;
    var i := 0;
    while i < |s|
      invariant 0 <= i <= |s|
      invariant count == WordsIn(s, i)
      invariant inWord == (i > 0 && !IsSeparator(s[i - 1]))
    {
      if s[i] == SPACE || s[i] == NEWLINE {
        inWord := false;
      } else if !inWord {
        inWord := true;
        count := count + 1;
      }
      i := i + 1;
    }
  }

  /** Words that start in a prefix depend on that prefix only. */
  lemma {:induction false} WordsInPrefix(s: Bytes, t: Bytes, n: nat)
    requires n <= |s| && n <= |t| && s[..n] == t[..n]
    ensures WordsIn(s, n) == WordsIn(t, n)
  {
    if n > 0 {
      assert s[..n - 1] == t[..n - 1] by {
        assert s[..n - 1] == s[..n][..n - 1];
        assert t[..n - 1] == t[..n][..n - 1];
      }
      assert s[n - 1] == s[..n][n - 1] && t[n - 1] == t[..n][n - 1];
      if n >= 2 {
        assert s[n - 2] == s[..n][n - 2] && t[n - 2] == t[..n][n - 2];
      }
      WordsInPrefix(s, t, n - 1);
    }
  }

  /** Counting across a separator: the words of `a` and then those of `b`. */
  lemma {:induction false} WordsAfterSeparator(a: Bytes, sep: byte, b: Bytes, k: nat)
    requires IsSeparator(sep) && k <= |b|
    ensures WordsIn(a + [sep] + b, |a| + 1 + k) == WordCount(a) + WordsIn(b, k)
  {
    var s := a + [sep] + b;
    if k == 0 {
      assert s[..|a|] == a[..|a|];
      WordsInPrefix(s, a, |a|);
      assert s[|a|] == sep;
    } else {
      WordsAfterSeparator(a, sep, b, k - 1);
      assert s[|a| + k] == b[k - 1];
      assert s[|a| + k - 1] == if k == 1 then sep else b[k - 2];
    }
  }

  /** Joining two texts with a space or newline adds up their word counts. */
  lemma WordCountJoin(a: Bytes, sep: byte, b: Bytes)
    requires IsSeparator(sep)
    ensures WordCount(a + [sep] + b) == WordCount(a) + WordCount(b)
  {
    WordsAfterSeparator(a, sep, b, |b|);
  }

  /** Text made only of separators has no words. */
  lemma {:induction false} SeparatorsOnly(s: Bytes, n: nat)
    requires n <= |s|
    requires forall i :: 0 <= i < |s| ==> IsSeparator(s[i])
    ensures WordsIn(s, n) == 0
  {
    if n > 0 {
      SeparatorsOnly(s, n - 1);
    }
  }

  /** A non-empty run of word bytes is one word. */
  lemma {:induction false} SingleWord(s: Bytes, n: nat)
    requires 0 < n <= |s|
    requires forall i :: 0 <= i < |s| ==> !IsSeparator(s[i])
    ensures WordsIn(s, n) == 1
  {
    if n > 1 {
      SingleWord(s, n - 1);
      assert !StartsWord(s, n - 1);
    }
  }

  /** Two words are at least one separator apart, so at most half the bytes,
      rounded up, start a word. */
  lemma {:induction false} WordsInBound(s: Bytes, n: nat)
    requires n <= |s|
    ensures 2 * WordsIn(s, n) <= n + (if n > 0 && !IsSeparator(s[n - 1]) then 1 else 0)
  {
    if n > 0 {
      WordsInBound(s, n - 1);
    }
  }

  lemma WordCountBound(s: Bytes)
    ensures WordCount(s) <= (|s| + 1) / 2
  {
    WordsInBound(s, |s|);
  }

  /** What the status bar reports: statistics of the selected note, or only
      how many notes there are when none is selected. */
  datatype StatusLine =
    | NoteStats(notes: nat, words: nat, chars: nat)
    | NotesOnly(notes: nat)

  /** The status text, as `snprintf` into the 128-byte buffer leaves it. */
  function StatusText(st: StatusLine): Bytes {
    match st
    case NoteStats(notes, words, chars) =>
      Truncate(Decimal(notes) + Lit(" notes | ") + Decimal(words) + Lit(" words | ")
               + Decimal(chars) + Lit(" characters"), 128)
    case NotesOnly(notes) =>
      Truncate(Decimal(notes) + Lit(" notes"), 128)
  }

  /** For every count a note store can reach the buffer is never too small:
      the text is printed in full. */
  lemma StatusTextFits(st: StatusLine)
    requires st.notes <= MAX_NOTES
    requires st.NoteStats? ==> st.words < 100000 && st.chars < 100000
    ensures st.NoteStats? ==>
      StatusText(st) == Decimal(st.notes) + Lit(" notes | ") + Decimal(st.words) + Lit(" words | ")
                        + Decimal(st.chars) + Lit(" characters")
    ensures st.NotesOnly? ==> StatusText(st) == Decimal(st.notes) + Lit(" notes")
  {
    DecimalLength(st.notes, 3);
    if st.NoteStats? {
      DecimalLength(st.words, 5);
      DecimalLength(st.chars, 5);
    }
  }

  /** The statistics of any note the store can hold meet those bounds: its
      content fits the 32768-byte buffer, so its counts stay below 100000. */
  lemma NoteStatsFit(notes: nat, content: Bytes)
    requires notes <= MAX_NOTES && ContentOk(content)
    ensures StatusText(NoteStats(notes, WordCount(content), |content|))
      == Decimal(notes) + Lit(" notes | ") + Decimal(WordCount(content)) + Lit(" words | ")
         + Decimal(|content|) + Lit(" characters")
  {
    WordCountBound(content);
    StatusTextFits(NoteStats(notes, WordCount(content), |content|));
  }
}
