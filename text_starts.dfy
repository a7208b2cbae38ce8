/** Where each text starts: at the input's start, or at the `>` that closed
    the tag before it. A `>` closes a tag when it is read while a tag is open
    (and outside a quote); it then moves the start of the pending span to
    itself. */
module TextStarts {
  import opened Html
  import opened Flags
  import opened Scanner
  import opened ScannerFacts

  /** The byte at q is a `>` that closes an open tag. */
  ghost predicate Closes(input: seq<byte>, q: nat) {
    q < |input| && input[q] == GT
    && !Bit(Scan(input, q).flags, INSIDE_QUOTE) && Bit(Scan(input, q).flags, OPEN_TAG)
  }

  /** No closing `>` lies strictly between positions a and b. */
  ghost predicate NoCloseBetween(input: seq<byte>, a: nat, b: nat) {
    forall q :: a < q < b && q < |input| ==> !Closes(input, q)
  }

  /** Each text starts at the input's start or at a closing `>`. */
  ghost predicate TextsStartAtCloses(input: seq<byte>, body: seq<HtmlTree>) {
    forall i :: 0 <= i < |body| && body[i].Text? && body[i].text.Slice? ==>
      body[i].text.lo == 0 || Closes(input, body[i].text.lo)
  }

  /** Between the start of one text and the start of the next text there is no
      closing `>`: the next text starts at the first `>` that closes a tag. */
  ghost predicate NextTextAtNextClose(input: seq<byte>, body: seq<HtmlTree>) {
    forall i, j ::
      0 <= i < j < |body| && j == i + 2
      && body[i].Text? && body[i].text.Slice? && body[j].Text? && body[j].text.Slice?
      ==> NoCloseBetween(input, body[i].text.lo, body[j].text.lo)
  }

  /** `from` is 0 or a closing `>`, and no closing `>` was read after it. */
  ghost predicate FromIsLastClose(input: seq<byte>, from: nat, n: nat) {
    (from == 0 || Closes(input, from)) && NoCloseBetween(input, from, n)
  }

  /** Every text starts at 0 or a closing `>`, the last pushed text starts at
      the last closing `>` before `from`, and consecutive texts start at
      consecutive closing `>`s. */
  ghost predicate TextsAtCloses(input: seq<byte>, body: seq<HtmlTree>, from: nat) {
    && TextsStartAtCloses(input, body)
    && (|body| >= 2 ==>
          var last := body[|body| - 2];
          last.Text? && last.text.Slice? && NoCloseBetween(input, last.text.lo, from))
    && NextTextAtNextClose(input, body)
  }

  /** The closing `>` facts of a reachable state; while a tag is open, a `<`
      has also moved `to` past `from`, unless nothing has been pushed yet. */
  ghost predicate CloseFacts(input: seq<byte>, s: ScanState, n: nat) {
    && FromIsLastClose(input, s.from, n)
    && (Bit(s.flags, OPEN_TAG) ==> s.from < s.to || s.body == [])
    && TextsAtCloses(input, s.body, s.from)
  }

  /** A `>` that pushes a text and an element keeps the closing `>` facts. */
  lemma PushCloses(input: seq<byte>, n: nat)
    requires n < |input|
    requires var s := Scan(input, n);
      ScanValid(input, s, n) && CloseFacts(input, s, n) && Closes(input, n) && s.from != s.to
    ensures CloseFacts(input, Step(input, Scan(input, n), n), n + 1)
  {
    var s := Scan(input, n);
    var r := Step(input, s, n);
    assert r == s.(toN := r.toN, tagName := r.tagName, from := n, to := n, flags := 0,
                   body := s.body + [Text(Slice(s.from, s.to)), Tag(r.tagName, [], [])]);
    PushKeepsTextsAtCloses(input, s.body, s.from, s.to, n, r.tagName);
  }

  /** Pushing the pending span and an element at the closing `>` at p keeps the
      facts about where texts start, with p as the new `from`. */
  lemma PushKeepsTextsAtCloses(input: seq<byte>, body: seq<HtmlTree>, from: nat, to: nat, p: nat, name: Str)
    requires TextsAtCloses(input, body, from) && FromIsLastClose(input, from, p)
    ensures TextsAtCloses(input, body + [Text(Slice(from, to)), Tag(name, [], [])], p)
  {
    var t := Text(Slice(from, to));
    var body' := body + [t, Tag(name, [], [])];
    assert body'[|body'| - 2] == t;
    forall i | 0 <= i < |body'| && body'[i].Text? && body'[i].text.Slice?
      ensures body'[i].text.lo == 0 || Closes(input, body'[i].text.lo)
    {
      if i < |body| {
        assert body'[i] == body[i];
      }
    }
    forall i, j | 0 <= i < j < |body'| && j == i + 2
      && body'[i].Text? && body'[i].text.Slice? && body'[j].Text? && body'[j].text.Slice?
      ensures NoCloseBetween(input, body'[i].text.lo, body'[j].text.lo)
    {
      if j < |body| {
        assert body'[i] == body[i] && body'[j] == body[j];
      } else {
        assert j == |body| && body'[j] == t && body'[i] == body[i];
      }
    }
  }

  /** A closing `>` after an empty span pushes nothing; that happens only
      before anything was pushed, so the facts about texts hold trivially. */
  lemma EmptySpanCloses(input: seq<byte>, n: nat)
    requires n < |input|
    requires var s := Scan(input, n);
      ScanValid(input, s, n) && CloseFacts(input, s, n) && Closes(input, n) && s.from == s.to
    ensures CloseFacts(input, Step(input, Scan(input, n), n), n + 1)
  {
    var s := Scan(input, n);
    var r := Step(input, s, n);
    assert s.body == [];
    assert r == s.(toN := r.toN, tagName := r.tagName, from := n, to := n, flags := 0);
  }

  /** A byte that does not close a tag keeps the closing `>` facts. */
  lemma NonCloseKeepsCloses(input: seq<byte>, n: nat)
    requires n < |input|
    requires var s := Scan(input, n);
      ScanValid(input, s, n) && CloseFacts(input, s, n) && !Closes(input, n)
    ensures CloseFacts(input, Step(input, Scan(input, n), n), n + 1)
  {
    var s := Scan(input, n);
    var r := Step(input, s, n);
    CursorsChangeOnlyAt(input, s, n);
    assert r.from == s.from && r.body == s.body;
    assert TextsAtCloses(input, r.body, r.from);
    FromStaysLastClose(input, s.from, n);
    OpenKeepsSpan(input, s, n);
  }

  lemma FromStaysLastClose(input: seq<byte>, from: nat, n: nat)
    requires n < |input| && FromIsLastClose(input, from, n) && !Closes(input, n)
    ensures FromIsLastClose(input, from, n + 1)
  {
    forall q | from < q < n + 1 && q < |input|
      ensures !Closes(input, q)
    {
      if q < n {
        assert NoCloseBetween(input, from, n);
      }
    }
  }

  /** While a tag is open, a `<` has moved `to` past `from`, unless nothing has
      been pushed yet. */
  lemma OpenKeepsSpan(input: seq<byte>, s: ScanState, n: nat)
    requires n < |input| && ScanValid(input, s, n)
    requires Bit(s.flags, OPEN_TAG) ==> s.from < s.to || s.body == []
    requires n == 0 ==> s.body == []
    requires !(input[n] == GT && !Bit(s.flags, INSIDE_QUOTE) && Bit(s.flags, OPEN_TAG))
    ensures var r := Step(input, s, n);
      Bit(r.flags, OPEN_TAG) ==> r.from < r.to || r.body == []
  {
    var r := Step(input, s, n);
    CursorsChangeOnlyAt(input, s, n);
    if Bit(s.flags, INSIDE_QUOTE) || input[n] != LT {
      if Bit(r.flags, OPEN_TAG) {
        assert Bit(s.flags, OPEN_TAG);
      }
    }
  }

  /** The closing `>` facts hold in every state the loop reaches. */
  lemma {:induction false} ScanCloses(input: seq<byte>, n: nat)
    requires n <= |input|
    ensures CloseFacts(input, Scan(input, n), n)
  {
    if n > 0 {
      ScanCloses(input, n - 1);
      ScanIsValid(input, n - 1);
      NextCloses(input, n - 1);
    }
  }

  lemma NextCloses(input: seq<byte>, n: nat)
    requires n < |input|
    requires ScanValid(input, Scan(input, n), n) && CloseFacts(input, Scan(input, n), n)
    ensures CloseFacts(input, Scan(input, n + 1), n + 1)
  {
    if !Closes(input, n) {
      NonCloseKeepsCloses(input, n);
    } else if Scan(input, n).from != Scan(input, n).to {
      PushCloses(input, n);
    } else {
      EmptySpanCloses(input, n);
    }
  }

  /** In a reachable state no closing `>` lies inside any pushed text: each text
      runs within the stretch between two consecutive closing `>`s. */
  lemma TextsCloseFree(input: seq<byte>, body: seq<HtmlTree>, from: nat)
    requires TextsAtCloses(input, body, from) && |body| % 2 == 0 && BodyShape(input, body)
    requires forall i :: 0 <= i < |body| && body[i].Text? && body[i].text.Slice? ==> body[i].text.hi < from
    ensures forall i :: 0 <= i < |body| && body[i].Text? && body[i].text.Slice? ==>
      NoCloseBetween(input, body[i].text.lo, body[i].text.hi)
  {
    forall i | 0 <= i < |body| && body[i].Text? && body[i].text.Slice?
      ensures NoCloseBetween(input, body[i].text.lo, body[i].text.hi)
    {
      assert i % 2 == 0;
      if i + 2 < |body| {
        var j := i + 2;
        assert IsTextNode(input, body[j]);
        assert body[i].text.hi < body[j].text.lo;
        assert NoCloseBetween(input, body[i].text.lo, body[j].text.lo);
      } else {
        assert i == |body| - 2;
      }
    }
  }

  /** Where the texts of the returned document start: each at the input's start
      or at a `>` that closed a tag; each next text at the first closing `>`
      after the start of the text before it; no closing `>` inside any text; and
      no closing `>` at all after the start of a trailing text. */
  lemma ParseTextStarts(input: seq<byte>)
    ensures TextsStartAtCloses(input, BodyOf(Parse(input)))
    ensures NextTextAtNextClose(input, BodyOf(Parse(input)))
    ensures var body := BodyOf(Parse(input));
      forall i :: 0 <= i < |body| && body[i].Text? && body[i].text.Slice? ==>
        NoCloseBetween(input, body[i].text.lo, body[i].text.hi)
    ensures var body := BodyOf(Parse(input));
      |body| % 2 == 1 ==>
        && body[|body| - 1].Text? && body[|body| - 1].text.Slice?
        && NoCloseBetween(input, body[|body| - 1].text.lo, |input|)
  {
    var n := |input|;
    var s := Scan(input, n);
    ScanIsValid(input, n);
    ScanCloses(input, n);
    ParseIsShell(input);
    TextsCloseFree(input, s.body, s.from);
    var body := BodyOf(Parse(input));
    if s.from != s.to {
      var t := Text(Slice(s.from, s.to));
      PushShell(s.body, t);
      assert body == s.body + [t];
      forall i | 0 <= i < |body| && body[i].Text? && body[i].text.Slice?
        ensures body[i].text.lo == 0 || Closes(input, body[i].text.lo)
        ensures NoCloseBetween(input, body[i].text.lo, body[i].text.hi)
      {
        if i < |s.body| {
          assert body[i] == s.body[i];
        }
      }
      forall i, j | 0 <= i < j < |body| && j == i + 2
        && body[i].Text? && body[i].text.Slice? && body[j].Text? && body[j].text.Slice?
        ensures NoCloseBetween(input, body[i].text.lo, body[j].text.lo)
      {
        assert body[i] == s.body[i];
        if j < |s.body| {
          assert body[j] == s.body[j];
        }
      }
    } else {
      assert body == s.body;
    }
  }
}
