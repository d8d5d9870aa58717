/** A note record and the edit rules that `handle_input` applies to the
    selected note's content buffer: typed code points, Backspace, Enter and
    Tab, each behind its own capacity guard. */
module TextBuffer {
  import opened Base
  import opened Utf8

  /** One note. `content` is the C string in the note's content buffer. */
  datatype Note = Note(title: Bytes, content: Bytes, filepath: Bytes, modified: bool)

  /** A slot of the zero-initialised global notes array. */
  const EMPTY_NOTE: Note := Note([], [], [], false)

  /** Code points below this one are not inserted. */
  const FIRST_PRINTABLE: int := 32

  /** What Tab appends: four spaces. */
  const TAB_TEXT: Bytes := [SPACE, SPACE, SPACE, SPACE]

  /** The guard of the typed-character branch: printable, and the encoded
      bytes leave the length strictly below MAX_CONTENT_LENGTH - 1. */
  predicate TypeAccepted(c: Bytes, cp: int) {
    cp >= FIRST_PRINTABLE && |c| + |Encode(cp)| < MAX_CONTENT_LENGTH - 1
  }

  /** One code point delivered by the input queue. A code point above
      U+10FFFF passes the guard with zero bytes: nothing is appended, yet the
      note is marked modified, as in the C code. */
  function TypeChar(n: Note, cp: int): (r: Note)
    ensures r.title == n.title && r.filepath == n.filepath
    ensures TypeAccepted(n.content, cp) ==> r.content == n.content + Encode(cp) && r.modified
    ensures !TypeAccepted(n.content, cp) ==> r == n
    ensures ContentOk(n.content) ==> ContentOk(r.content)
  {
    if TypeAccepted(n.content, cp) then
      n.(content := n.content + Encode(cp), modified := true)
    else
      n
  }

  /** The codepoint loop: `GetCharPressed` yields the queue in order and a
      value of 0 or less ends it. */
  function TypeQueue(n: Note, queue: seq<int>): (r: Note)
    ensures r.title == n.title && r.filepath == n.filepath
    ensures ContentOk(n.content) ==> ContentOk(r.content)
    ensures n.modified ==> r.modified
    ensures !r.modified ==> r == n
    decreases |queue|
  {
    if queue == [] || queue[0] <= 0 then n
    else TypeQueue(TypeChar(n, queue[0]), queue[1..])
  }

  /** Backspace: on a non-empty buffer, cuts off the last character as the
      backward scan sizes it and marks the note modified. */
  function Backspace(n: Note): (r: Note)
    ensures r.title == n.title && r.filepath == n.filepath
    ensures |n.content| == 0 ==> r == n
    ensures |n.content| > 0 ==> r.modified && |r.content| < |n.content|
    ensures |n.content| > 0 ==>
      r.content == n.content[..|r.content|] && IsLastCharSize(n.content, |n.content| - |r.content|)
    ensures ContentOk(n.content) ==> ContentOk(r.content)
  {
    if |n.content| > 0 then
      n.(content := n.content[..|n.content| - TrailingCharSize(n.content)], modified := true)
    else
      n
  }

  /** Enter: appends a newline while the length is below MAX_CONTENT_LENGTH - 1. */
  function Enter(n: Note): (r: Note)
    ensures r.title == n.title && r.filepath == n.filepath
    ensures |n.content| < MAX_CONTENT_LENGTH - 1 ==> r.content == n.content + [NEWLINE] && r.modified
    ensures |n.content| >= MAX_CONTENT_LENGTH - 1 ==> r == n
    ensures ContentOk(n.content) ==> ContentOk(r.content)
  {
    if |n.content| < MAX_CONTENT_LENGTH - 1 then
      n.(content := n.content + [NEWLINE], modified := true)
    else
      n
  }

  /** Tab: appends four spaces while the length is below MAX_CONTENT_LENGTH - 4. */
  function Tab(n: Note): (r: Note)
    ensures r.title == n.title && r.filepath == n.filepath
    ensures |n.content| < MAX_CONTENT_LENGTH - 4 ==> r.content == n.content + TAB_TEXT && r.modified
    ensures |n.content| >= MAX_CONTENT_LENGTH - 4 ==> r == n
    ensures ContentOk(n.content) ==> ContentOk(r.content)
  {
    if |n.content| < MAX_CONTENT_LENGTH - 4 then
      n.(content := n.content + TAB_TEXT, modified := true)
    else
      n
  }

  /** Typing an accepted code point and then pressing Backspace gives back
      the content byte for byte. */
  lemma TypeThenBackspace(n: Note, cp: int)
    requires FIRST_PRINTABLE <= cp <= 0x10FFFF
    requires TypeAccepted(n.content, cp)
    ensures Backspace(TypeChar(n, cp)).content == n.content
  {
    var t := TypeChar(n, cp);
    TrailingCharOfEncoded(n.content, cp);
    assert t.content[..|t.content| - |Encode(cp)|] == n.content;
  }

  /** Content made of whole encoded characters, read from the front: each
      lead byte announces its length and that many bytes decode. */
  predicate IsEncodedText(s: Bytes)
    decreases |s|
  {
    s == [] ||
      var k := SequenceLength(s[0]);
      1 <= k <= |s| && Decode(s[..k]).Some? && IsEncodedText(s[k..])
  }

  /** One decodable character is encoded text. */
  lemma DecodableIsEncodedText(h: Bytes)
    requires Decode(h).Some?
    ensures IsEncodedText(h)
  {
    assert h[..SequenceLength(h[0])] == h;
    assert h[SequenceLength(h[0])..] == [];
  }

  /** What the encoder writes is encoded text; above U+10FFFF it writes
      nothing, which is encoded text too. */
  lemma EncodeIsEncodedText(cp: nat)
    ensures IsEncodedText(Encode(cp))
  {
    if cp <= 0x10FFFF {
      DecodeEncode(cp);
      DecodableIsEncodedText(Encode(cp));
    }
  }

  /** One decodable character in front of encoded text is encoded text. */
  lemma EncodedTextPrepend(h: Bytes, t: Bytes, s: Bytes)
    requires Decode(h).Some? && IsEncodedText(t) && s == h + t
    ensures IsEncodedText(s)
  {
    assert s[0] == h[0];
    assert s[..|h|] == h;
    assert s[|h|..] == t;
  }

  /** Non-empty encoded text is one decodable character and encoded text. */
  lemma EncodedTextUncons(s: Bytes) returns (k: nat)
    requires IsEncodedText(s) && s != []
    ensures 1 <= k <= |s| && Decode(s[..k]).Some? && IsEncodedText(s[k..])
  {
    k := SequenceLength(s[0]);
  }

  lemma SplitAppend(a: Bytes, b: Bytes, k: nat)
    requires k <= |a|
    ensures a + b == a[..k] + (a[k..] + b)
  {
  }

  lemma {:induction false} EncodedTextConcat(a: Bytes, b: Bytes)
    requires IsEncodedText(a) && IsEncodedText(b)
    ensures IsEncodedText(a + b)
    decreases |a|
  {
    if a == [] {
      assert a + b == b;
    } else {
      var k := EncodedTextUncons(a);
      EncodedTextConcat(a[k..], b);
      SplitAppend(a, b, k);
      EncodedTextPrepend(a[..k], a[k..] + b, a + b);
    }
  }

  lemma AppendAssoc(a: Bytes, b: Bytes, c: Bytes)
    ensures a + (b + c) == (a + b) + c
  {
  }

  /** Non-empty encoded text is encoded text followed by one encoded code point. */
  lemma {:induction false} LastCharSplit(s: Bytes) returns (p: Bytes, cp: nat)
    requires IsEncodedText(s) && s != []
    ensures cp <= 0x10FFFF && IsEncodedText(p) && s == p + Encode(cp)
    decreases |s|
  {
    var k := EncodedTextUncons(s);
    var h, t := s[..k], s[k..];
    assert s == h + t;
    if t == [] {
      p, cp := [], Decode(h).value;
      SingleCharSplit(s, h);
    } else {
      var p', cp' := LastCharSplit(t);
      p, cp := h + p', cp';
      LeadCharSplit(s, h, t, p', cp');
    }
  }

  /** A single character is the encoding of what it decodes to. */
  lemma SingleCharSplit(s: Bytes, h: Bytes)
    requires Decode(h).Some? && s == h
    ensures Decode(h).value <= 0x10FFFF && IsEncodedText([]) && s == [] + Encode(Decode(h).value)
  {
    EncodeDecode(h);
    DecodeEncode(Decode(h).value);
    assert [] + h == h;
  }

  /** A character in front of a split text extends its first part. */
  lemma LeadCharSplit(s: Bytes, h: Bytes, t: Bytes, p: Bytes, cp: nat)
    requires Decode(h).Some? && s == h + t && IsEncodedText(p) && t == p + Encode(cp)
    ensures IsEncodedText(h + p) && s == (h + p) + Encode(cp)
  {
    EncodedTextPrepend(h, p, h + p);
    AppendAssoc(h, p, Encode(cp));
  }


  /** Removing the last character of encoded text leaves encoded text. */
  lemma EncodedTextBackspace(s: Bytes)
    requires IsEncodedText(s) && s != []
    ensures IsEncodedText(s[..|s| - TrailingCharSize(s)])
  {
    var p, cp := LastCharSplit(s);
    TrailingCharOfEncoded(p, cp);
    assert s[..|p|] == p;
  }

  /** What backspace cuts off valid text is the encoding of one code point. */
  lemma BackspaceCutsOneChar(s: Bytes)
    requires IsEncodedText(s) && s != []
    ensures exists cp :: cp <= 0x10FFFF && s[|s| - TrailingCharSize(s)..] == Encode(cp)
  {
    var p, cp := LastCharSplit(s);
    TrailingCharOfEncoded(p, cp);
    assert s[|p|..] == Encode(cp);
  }

  /** Typing a character keeps content that is whole encoded characters whole. */
  lemma TypeCharKeepsEncodedText(n: Note, cp: int)
    requires IsEncodedText(n.content)
    ensures IsEncodedText(TypeChar(n, cp).content)
  {
    if TypeAccepted(n.content, cp) {
      EncodeIsEncodedText(cp);
      EncodedTextConcat(n.content, Encode(cp));
    }
  }

  /** So does a whole queue of pressed characters. */
  lemma {:induction false} TypeQueueKeepsEncodedText(n: Note, queue: seq<int>)
    requires IsEncodedText(n.content)
    ensures IsEncodedText(TypeQueue(n, queue).content)
    decreases |queue|
  {
    if queue != [] && queue[0] > 0 {
      TypeCharKeepsEncodedText(n, queue[0]);
      TypeQueueKeepsEncodedText(TypeChar(n, queue[0]), queue[1..]);
    }
  }

  /** So does Backspace, whatever the last character's length. */
  lemma BackspaceKeepsEncodedText(n: Note)
    requires IsEncodedText(n.content)
    ensures IsEncodedText(Backspace(n).content)
  {
    if n.content != [] {
      EncodedTextBackspace(n.content);
    }
  }

  /** So does Enter. */
  lemma EnterKeepsEncodedText(n: Note)
    requires IsEncodedText(n.content)
    ensures IsEncodedText(Enter(n).content)
  {
    DecodableIsEncodedText([NEWLINE]);
    EncodedTextConcat(n.content, [NEWLINE]);
  }

  /** Four spaces are four encoded characters. */
  lemma TabTextIsEncodedText()
    ensures IsEncodedText(TAB_TEXT)
  {
    assert Decode([SPACE]).Some?;
    EncodedTextPrepend([SPACE], [], [SPACE]);
    EncodedTextPrepend([SPACE], [SPACE], [SPACE, SPACE]);
    EncodedTextPrepend([SPACE], [SPACE, SPACE], [SPACE, SPACE, SPACE]);
    EncodedTextPrepend([SPACE], [SPACE, SPACE, SPACE], TAB_TEXT);
  }

  /** So does Tab. */
  lemma TabKeepsEncodedText(n: Note)
    requires IsEncodedText(n.content)
    ensures IsEncodedText(Tab(n).content)
  {
    TabTextIsEncodedText();
    EncodedTextConcat(n.content, TAB_TEXT);
  }
}
