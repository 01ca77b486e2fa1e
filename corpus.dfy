/**
 * The message corpus: the raw text blob that holds every reward message,
 * its parse into the ordered list of messages, and the text an upload
 * leaves behind. A message's index is its position in the parse; the
 * append below keeps every existing index pointing at the same text.
 */
module Corpus {
  import opened Text

  /** The configured separator token; the upload prompt tells admins it is `---`. */
  const SEPARATOR: string := "---"

  /**
   * What the append needs of a separator: it is non-empty, holds no newline
   * and starts and ends with a non-whitespace character.
   */
  predicate SeparatorShape(sep: string) {
    sep != [] && '\n' !in sep && !IsSpace(sep[0]) && !IsSpace(sep[|sep| - 1])
  }

  lemma SeparatorIsShaped()
    ensures SeparatorShape(SEPARATOR)
  {
  }

  /** A parsed message: non-empty and without whitespace at either end. */
  predicate IsMessage(m: string) {
    m != [] && !IsSpace(m[0]) && !IsSpace(m[|m| - 1])
  }

  /** `[x.strip() for x in blocks]`. */
  function StripAll(blocks: seq<string>): (r: seq<string>)
    ensures |r| == |blocks|
  {
    if blocks == [] then [] else [Strip(blocks[0])] + StripAll(blocks[1..])
  }

  /** `[x for x in blocks if x.strip() != ""]`: the blocks that are not blank, in their order. */
  function NonBlank(blocks: seq<string>): seq<string> {
    if blocks == [] then []
    else (if Strip(blocks[0]) != "" then [blocks[0]] else []) + NonBlank(blocks[1..])
  }

  /** Each piece is stripped in place. */
  lemma {:induction false} StripAllAt(blocks: seq<string>, i: int)
    requires 0 <= i < |blocks|
    ensures StripAll(blocks)[i] == Strip(blocks[i])
  {
    if i > 0 {
      StripAllAt(blocks[1..], i - 1);
    }
  }

  /** A block is kept exactly when it is not blank. */
  lemma {:induction false} NonBlankMembers(blocks: seq<string>)
    ensures forall b :: b in NonBlank(blocks) <==> b in blocks && Strip(b) != []
  {
    if blocks != [] {
      NonBlankMembers(blocks[1..]);
      assert forall b :: b in blocks <==> b == blocks[0] || b in blocks[1..];
    }
  }

  /** The messages of a list of raw pieces. */
  function Messages(pieces: seq<string>): seq<string> {
    NonBlank(StripAll(pieces))
  }

  /**
   * `split_messages(raw_text)`: the pieces of `raw` between separators,
   * stripped, blank ones dropped. Every message is non-empty and has no
   * whitespace at either end.
   */
  function SplitMessages(raw: string): (r: seq<string>)
    ensures forall i :: 0 <= i < |r| ==> IsMessage(r[i])
  {
    MessagesAreMessages(Split(raw, SEPARATOR));
    Messages(Split(raw, SEPARATOR))
  }

  /** The messages of some pieces are exactly their non-empty stripped forms. */
  lemma MessagesMembers(pieces: seq<string>)
    ensures forall m :: m in Messages(pieces) <==> m != [] && m in StripAll(pieces)
  {
    var stripped := StripAll(pieces);
    NonBlankMembers(stripped);
    forall m | m in stripped
      ensures Strip(m) == m
    {
      var i :| 0 <= i < |stripped| && stripped[i] == m;
      StripAllAt(pieces, i);
      StripIdempotent(pieces[i]);
    }
  }

  /** Every message of some pieces is non-empty and has no whitespace at either end. */
  lemma MessagesAreMessages(pieces: seq<string>)
    ensures forall i :: 0 <= i < |Messages(pieces)| ==> IsMessage(Messages(pieces)[i])
  {
    var r := Messages(pieces);
    MessagesMembers(pieces);
    forall i | 0 <= i < |r| ensures IsMessage(r[i]) {
      assert r[i] in r;
      var j :| 0 <= j < |pieces| && StripAll(pieces)[j] == r[i];
      StripAllAt(pieces, j);
    }
  }

  /**
   * The messages are exactly the non-empty stripped pieces of `raw`: each
   * message is one, and each non-empty stripped piece is a message.
   */
  lemma SplitMessagesMembers(raw: string)
    ensures forall m :: m in SplitMessages(raw) <==> m != [] && m in StripAll(Split(raw, SEPARATOR))
  {
    MessagesMembers(Split(raw, SEPARATOR));
  }

  /** `strip()` leaves a stripped string alone. */
  lemma StripIdempotent(s: string)
    ensures Strip(Strip(s)) == Strip(s)
  {
    StripSpec(s);
    var t := Strip(s);
    if t != [] {
      assert TrimLeft(t) == t;
      assert TrimRight(t) == t;
    }
  }

  lemma {:induction false} NonBlankAppend(a: seq<string>, b: seq<string>)
    ensures NonBlank(a + b) == NonBlank(a) + NonBlank(b)
  {
    if a != [] {
      assert (a + b)[1..] == a[1..] + b;
      NonBlankAppend(a[1..], b);
    } else {
      assert a + b == b;
    }
  }

  /** The messages of two lists of pieces, one after the other. */
  lemma MessagesAppend(a: seq<string>, b: seq<string>)
    ensures Messages(a + b) == Messages(a) + Messages(b)
  {
    StripAllAppend(a, b);
    NonBlankAppend(StripAll(a), StripAll(b));
  }

  lemma {:induction false} StripAllAppend(a: seq<string>, b: seq<string>)
    ensures StripAll(a + b) == StripAll(a) + StripAll(b)
  {
    if a != [] {
      assert (a + b)[1..] == a[1..] + b;
      StripAllAppend(a[1..], b);
    } else {
      assert a + b == b;
    }
  }

  /** Whitespace in front of the raw text changes no message. */
  lemma ParsePrependSpace(c: char, t: string)
    requires IsSpace(c)
    ensures SplitMessages([c] + t) == SplitMessages(t)
  {
    SeparatorIsShaped();
    var pieces := Split(t, SEPARATOR);
    SplitPrepend(c, t, SEPARATOR);
    StripPrependSpace(c, pieces[0]);
    var e := ExtendFirst([c], pieces);
    assert e[1..] == pieces[1..];
    assert StripAll(e) == StripAll(pieces);
  }

  /** Whitespace after the raw text changes no message. */
  lemma ParseAppendSpace(t: string, c: char)
    requires IsSpace(c)
    ensures SplitMessages(t + [c]) == SplitMessages(t)
  {
    SeparatorIsShaped();
    var pieces := Split(t, SEPARATOR);
    SplitAppend(t, c, SEPARATOR);
    var n := |pieces|;
    StripAppendSpace(pieces[n - 1], c);
    StripAllAppend(pieces[..n - 1], [pieces[n - 1] + [c]]);
    StripAllAppend(pieces[..n - 1], [pieces[n - 1]]);
    assert pieces == pieces[..n - 1] + [pieces[n - 1]];
  }

  lemma {:induction false} ParseTrimLeft(s: string)
    ensures SplitMessages(TrimLeft(s)) == SplitMessages(s)
    decreases |s|
  {
    if |s| > 0 && IsSpace(s[0]) {
      ParseTrimLeft(s[1..]);
      ParsePrependSpace(s[0], s[1..]);
      assert s == [s[0]] + s[1..];
    }
  }

  lemma {:induction false} ParseTrimRight(s: string)
    ensures SplitMessages(TrimRight(s)) == SplitMessages(s)
    decreases |s|
  {
    if |s| > 0 && IsSpace(s[|s| - 1]) {
      var init := s[..|s| - 1];
      ParseTrimRight(init);
      ParseAppendSpace(init, s[|s| - 1]);
      assert s == init + [s[|s| - 1]];
    }
  }

  /** Stripping the raw text changes no message. */
  lemma ParseStrip(s: string)
    ensures SplitMessages(Strip(s)) == SplitMessages(s)
  {
    ParseTrimLeft(s);
    ParseTrimRight(TrimLeft(s));
  }

  /** A blank raw text holds no message. */
  lemma ParseBlank(s: string)
    requires AllSpace(s)
    ensures SplitMessages(s) == []
  {
    ParseStrip(s);
    StripSpec(s);
    assert Split([], SEPARATOR) == [""];
    assert Strip("") == "";
    assert StripAll([""]) == [""];
    assert NonBlank([""]) == [];
  }

  /**
   * Two raw texts joined by a separator on a line of its own parse to the
   * messages of the first followed by the messages of the second.
   */
  lemma ParseJoined(x: string, y: string)
    ensures SplitMessages(x + "\n" + SEPARATOR + "\n" + y) == SplitMessages(x) + SplitMessages(y)
  {
    SeparatorIsShaped();
    assert x + "\n" + SEPARATOR + "\n" + y == x + ['\n'] + SEPARATOR + (['\n'] + y);
    SplitAround(x, '\n', SEPARATOR, ['\n'] + y);
    MessagesAppend(Split(x + ['\n'], SEPARATOR), Split(['\n'] + y, SEPARATOR));
    ParseAppendSpace(x, '\n');
    ParsePrependSpace('\n', y);
  }

  /**
   * The corpus text after an upload of `upload` onto `current`: a blank
   * corpus is replaced by the upload as it is; otherwise both are stripped
   * and joined by the separator on a line of its own. Either way the
   * messages are the old ones followed by the uploaded ones, so every
   * existing index keeps its text.
   */
  function Appended(current: string, upload: string): (r: string)
    ensures SplitMessages(r) == SplitMessages(current) + SplitMessages(upload)
  {
    if Strip(current) == "" then
      StripSpec(current);
      ParseBlank(current);
      upload
    else
      ParseJoined(Strip(current), Strip(upload));
      ParseStrip(current);
      ParseStrip(upload);
      Strip(current) + "\n" + SEPARATOR + "\n" + Strip(upload)
  }
}
