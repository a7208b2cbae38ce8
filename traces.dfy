/** Traces of `Scan` on short inputs, proved state by state. They pin down
    the behaviours that differ from what a reader of the markup might expect:
    a closing tag yields a second element under the first tag's name, a space
    after `<` does not stop the closing tag from being recognised, and text
    after the last tag is dropped. */
module Traces {
  import opened Html
  import opened Scanner
  import opened Format
  import opened ScannerFacts

  /** `<os></os>`: the opening tag emits nothing (its text span is empty);
      the closing tag emits the text `>` and an element named `os`. */
  lemma OpenCloseTrace()
    ensures var input := Ascii("<os></os>");
      BodyOf(Parse(input)) == [Text(Slice(3, 4)), Tag(Slice(1, 3), [], [])]
      && Resolve(input, Slice(3, 4)) == Ascii(">")
      && Resolve(input, Slice(1, 3)) == Ascii("os")
  {
    var input := Ascii("<os></os>");
    assert input == [LT, 0x6F, 0x73, GT, LT, SLASH, 0x6F, 0x73, GT];
    assert Scan(input, 1) == ScanState(0, 0, 0, 0, Lit([]), 1, []);
    assert Scan(input, 2) == ScanState(0, 0, 1, 1, Lit([]), 3, []);
    assert Scan(input, 3) == ScanState(0, 0, 1, 1, Lit([]), 3, []);
    assert Scan(input, 4) == ScanState(3, 3, 1, 3, Slice(1, 3), 0, []);
    assert Scan(input, 5) == ScanState(3, 4, 1, 3, Slice(1, 3), 1, []);
    assert Scan(input, 6) == ScanState(3, 4, 1, 3, Slice(1, 3), 1, []);
    assert Scan(input, 7) == ScanState(3, 4, 6, 6, Slice(1, 3), 3, []);
    assert Scan(input, 8) == ScanState(3, 4, 6, 6, Slice(1, 3), 3, []);
    var body := [Text(Slice(3, 4)), Tag(Slice(1, 3), [], [])];
    assert Scan(input, 9) == ScanState(8, 8, 6, 6, Slice(1, 3), 0, body);
    assert Parse(input) == Shell(body);
  }

  /** `< os></os>`: the space after the first `<` abandons that tag, but the
      text span already ends there only until the next `<` moves its end; the
      closing tag then emits the whole prefix `< os>` as text and an element
      named `os`. */
  lemma SpaceAfterOpenTrace()
    ensures var input := Ascii("< os></os>");
      BodyOf(Parse(input)) == [Text(Slice(0, 5)), Tag(Slice(7, 9), [], [])]
      && Resolve(input, Slice(0, 5)) == Ascii("< os>")
      && Resolve(input, Slice(7, 9)) == Ascii("os")
  {
    var input := Ascii("< os></os>");
    assert input == [LT, SPACE, 0x6F, 0x73, GT, LT, SLASH, 0x6F, 0x73, GT];
    assert Scan(input, 1) == ScanState(0, 0, 0, 0, Lit([]), 1, []);
    assert Scan(input, 2) == ScanState(0, 0, 0, 0, Lit([]), 0, []);
    assert Scan(input, 3) == ScanState(0, 0, 0, 0, Lit([]), 0, []);
    assert Scan(input, 4) == ScanState(0, 0, 0, 0, Lit([]), 0, []);
    assert Scan(input, 5) == ScanState(0, 0, 0, 0, Lit([]), 0, []);
    assert Scan(input, 6) == ScanState(0, 5, 0, 0, Lit([]), 1, []);
    assert Scan(input, 7) == ScanState(0, 5, 0, 0, Lit([]), 1, []);
    assert Scan(input, 8) == ScanState(0, 5, 7, 7, Lit([]), 3, []);
    assert Scan(input, 9) == ScanState(0, 5, 7, 7, Lit([]), 3, []);
    var body := [Text(Slice(0, 5)), Tag(Slice(7, 9), [], [])];
    assert Scan(input, 10) == ScanState(9, 9, 7, 9, Slice(7, 9), 0, body);
    assert Parse(input) == Shell(body);
  }

  /** `<os ></os>`: the space after the name closes the name span early; the
      document is the same, byte for byte, as for `<os></os>`. */
  lemma SpaceAfterNameTrace()
    ensures var input := Ascii("<os ></os>");
      BodyOf(Parse(input)) == [Text(Slice(4, 5)), Tag(Slice(1, 3), [], [])]
      && Resolve(input, Slice(4, 5)) == Ascii(">")
      && Resolve(input, Slice(1, 3)) == Ascii("os")
  {
    var input := Ascii("<os ></os>");
    assert input == [LT, 0x6F, 0x73, SPACE, GT, LT, SLASH, 0x6F, 0x73, GT];
    assert Scan(input, 1) == ScanState(0, 0, 0, 0, Lit([]), 1, []);
    assert Scan(input, 2) == ScanState(0, 0, 1, 1, Lit([]), 3, []);
    assert Scan(input, 3) == ScanState(0, 0, 1, 1, Lit([]), 3, []);
    assert Scan(input, 4) == ScanState(0, 0, 1, 3, Slice(1, 3), 3, []);
    assert Scan(input, 5) == ScanState(4, 4, 1, 3, Slice(1, 3), 0, []);
    assert Scan(input, 6) == ScanState(4, 5, 1, 3, Slice(1, 3), 1, []);
    assert Scan(input, 7) == ScanState(4, 5, 1, 3, Slice(1, 3), 1, []);
    assert Scan(input, 8) == ScanState(4, 5, 7, 7, Slice(1, 3), 3, []);
    assert Scan(input, 9) == ScanState(4, 5, 7, 7, Slice(1, 3), 3, []);
    var body := [Text(Slice(4, 5)), Tag(Slice(1, 3), [], [])];
    assert Scan(input, 10) == ScanState(9, 9, 7, 7, Slice(1, 3), 0, body);
    assert Parse(input) == Shell(body);
  }

  /** `<a>xyz`: text after the last tag is not flushed, because the pending
      span ends at the last `<`, not at the end of the input. */
  lemma TrailingTextDropped()
    ensures BodyOf(Parse(Ascii("<a>xyz"))) == []
  {
    var input := Ascii("<a>xyz");
    assert input == [LT, 0x61, GT, 0x78, 0x79, 0x7A];
    assert Scan(input, 1) == ScanState(0, 0, 0, 0, Lit([]), 1, []);
    assert Scan(input, 2) == ScanState(0, 0, 1, 1, Lit([]), 3, []);
    assert Scan(input, 3) == ScanState(2, 2, 1, 2, Slice(1, 2), 0, []);
    assert Scan(input, 4) == ScanState(2, 2, 1, 2, Slice(1, 2), 0, []);
    assert Scan(input, 5) == ScanState(2, 2, 1, 2, Slice(1, 2), 0, []);
    assert Scan(input, 6) == ScanState(2, 2, 1, 2, Slice(1, 2), 0, []);
    assert Parse(input) == Shell([]);
  }

  /** `a<b`: a tag never closed emits no element, but the text before its `<`
      is flushed at the end of the input. */
  lemma UnclosedTagFlushesText()
    ensures BodyOf(Parse(Ascii("a<b"))) == [Text(Slice(0, 1))]
  {
    var input := Ascii("a<b");
    assert input == [0x61, LT, 0x62];
    assert Scan(input, 1) == ScanState(0, 0, 0, 0, Lit([]), 0, []);
    assert Scan(input, 2) == ScanState(0, 1, 0, 0, Lit([]), 1, []);
    assert Scan(input, 3) == ScanState(0, 1, 2, 2, Lit([]), 3, []);
    PushShell([], Text(Slice(0, 1)));
  }

  /** `<a>x<b>`: the tag name is sticky, so the element closed by the second
      `>` is named `a`, not `b`. */
  lemma StickyNameTrace()
    ensures var input := Ascii("<a>x<b>");
      BodyOf(Parse(input)) == [Text(Slice(2, 4)), Tag(Slice(1, 2), [], [])]
      && Resolve(input, Slice(1, 2)) == Ascii("a")
  {
    var input := Ascii("<a>x<b>");
    assert input == [LT, 0x61, GT, 0x78, LT, 0x62, GT];
    assert Scan(input, 1) == ScanState(0, 0, 0, 0, Lit([]), 1, []);
    assert Scan(input, 2) == ScanState(0, 0, 1, 1, Lit([]), 3, []);
    assert Scan(input, 3) == ScanState(2, 2, 1, 2, Slice(1, 2), 0, []);
    assert Scan(input, 4) == ScanState(2, 2, 1, 2, Slice(1, 2), 0, []);
    assert Scan(input, 5) == ScanState(2, 4, 1, 2, Slice(1, 2), 1, []);
    assert Scan(input, 6) == ScanState(2, 4, 5, 5, Slice(1, 2), 3, []);
    var body := [Text(Slice(2, 4)), Tag(Slice(1, 2), [], [])];
    assert Scan(input, 7) == ScanState(6, 6, 5, 5, Slice(1, 2), 0, body);
    assert Parse(input) == Shell(body);
  }

  /** `<>a<b>`: an immediate `<>` still captures a name, the `<` itself (the
      name span starts at offset 0), and the next element reuses it. */
  lemma EmptyTagNameTrace()
    ensures var input := Ascii("<>a<b>");
      BodyOf(Parse(input)) == [Text(Slice(1, 3)), Tag(Slice(0, 1), [], [])]
      && Resolve(input, Slice(0, 1)) == Ascii("<")
  {
    var input := Ascii("<>a<b>");
    assert input == [LT, GT, 0x61, LT, 0x62, GT];
    assert Scan(input, 1) == ScanState(0, 0, 0, 0, Lit([]), 1, []);
    assert Scan(input, 2) == ScanState(1, 1, 0, 1, Slice(0, 1), 0, []);
    assert Scan(input, 3) == ScanState(1, 1, 0, 1, Slice(0, 1), 0, []);
    assert Scan(input, 4) == ScanState(1, 3, 0, 1, Slice(0, 1), 1, []);
    assert Scan(input, 5) == ScanState(1, 3, 4, 4, Slice(0, 1), 3, []);
    var body := [Text(Slice(1, 3)), Tag(Slice(0, 1), [], [])];
    assert Scan(input, 6) == ScanState(5, 5, 4, 4, Slice(0, 1), 0, body);
    assert Parse(input) == Shell(body);
  }

  /** `a<b>c>d<e>`: the `>` at 5 is read with no tag open, so it closes nothing;
      the second text starts at the `>` at 3 that closed `<b`, and keeps the
      stray `>` inside it. */
  lemma StrayCloseInTextTrace()
    ensures var input := Ascii("a<b>c>d<e>");
      BodyOf(Parse(input)) == [Text(Slice(0, 1)), Tag(Slice(2, 3), [], []), Text(Slice(3, 7)), Tag(Slice(2, 3), [], [])]
      && Resolve(input, Slice(3, 7)) == Ascii(">c>d")
  {
    var input := Ascii("a<b>c>d<e>");
    assert input == [0x61, LT, 0x62, GT, 0x63, GT, 0x64, LT, 0x65, GT];
    assert Scan(input, 1) == ScanState(0, 0, 0, 0, Lit([]), 0, []);
    assert Scan(input, 2) == ScanState(0, 1, 0, 0, Lit([]), 1, []);
    assert Scan(input, 3) == ScanState(0, 1, 2, 2, Lit([]), 3, []);
    var pair := [Text(Slice(0, 1)), Tag(Slice(2, 3), [], [])];
    assert Scan(input, 4) == ScanState(3, 3, 2, 3, Slice(2, 3), 0, pair);
    assert Scan(input, 5) == ScanState(3, 3, 2, 3, Slice(2, 3), 0, pair);
    assert Scan(input, 6) == ScanState(3, 3, 2, 3, Slice(2, 3), 0, pair);
    assert Scan(input, 7) == ScanState(3, 3, 2, 3, Slice(2, 3), 0, pair);
    assert Scan(input, 8) == ScanState(3, 7, 2, 3, Slice(2, 3), 1, pair);
    assert Scan(input, 9) == ScanState(3, 7, 8, 8, Slice(2, 3), 3, pair);
    var body := pair + [Text(Slice(3, 7)), Tag(Slice(2, 3), [], [])];
    assert Scan(input, 10) == ScanState(9, 9, 8, 8, Slice(2, 3), 0, body);
    assert Parse(input) == Shell(body);
  }

  /** Rendering the document scanned from `<os></os>` gives
      `<html><head></head><body>><os></os></body></html>`. */
  lemma OpenCloseRendering()
    ensures var input := Ascii("<os></os>");
      DocInRange(Parse(input), |input|)
      && FixedFormat(input, Parse(input)) == SHELL_OPEN + Ascii("><os></os>") + SHELL_CLOSE
  {
    OpenCloseTrace();
    ParseRendering(Ascii("<os></os>"));
    OpenCloseBodyRendering();
  }

  lemma OpenCloseBodyRendering()
    ensures var input := Ascii("<os></os>");
      var body := [Text(Slice(3, 4)), Tag(Slice(1, 3), [], [])];
      (forall c :: c in body ==> TreeInRange(c, |input|))
      && RenderChildren(input, body) == Ascii("><os></os>")
  {
    var input := Ascii("<os></os>");
    var body := [Text(Slice(3, 4)), Tag(Slice(1, 3), [], [])];
    PairRendering(input, [], Slice(3, 4), Slice(1, 3));
    assert [] + body == body;
    var os: seq<byte> := [0x6F, 0x73];
    assert Resolve(input, Slice(1, 3)) == os;
    assert Resolve(input, Slice(3, 4)) == [GT];
    OsElementBytes();
  }

  lemma OsElementBytes()
    ensures [GT] + EmptyElement([0x6F, 0x73]) == Ascii("><os></os>")
  {
    assert Ascii("><os></os>") == [GT, LT, 0x6F, 0x73, GT, LT, SLASH, 0x6F, 0x73, GT];
  }
}
