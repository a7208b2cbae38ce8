/** The single-pass byte scanner that turns markup into the flat document:
    every recognised tag and the text before it become siblings inside `body`.

    `Step` is one iteration of the scan loop, `Scan` the state after a prefix of
    the input, and `Parse` the document after the end-of-input flush. The method
    `ParseHtml` is the loop itself, over the same state held in local variables
    and an `HtmlFlags` register, and is proved to compute `Parse`. */
module Scanner {
  import opened Html
  import opened Flags

  /** What the scan loop carries from one byte to the next: the pending text
      span, the tag-name span, the sticky tag name, the flag register and the
      children appended to `body` so far. */
  datatype ScanState = ScanState(
    from: nat, to: nat,
    fromN: nat, toN: nat,
    tagName: Str,
    flags: bv8,
    body: seq<HtmlTree>)

  const Init: ScanState := ScanState(0, 0, 0, 0, Lit([]), 0, [])

  /** The loop body for the byte at position p. */
  function Step(input: seq<byte>, s: ScanState, p: nat): ScanState
    requires p < |input|
  {
    var b := input[p];
    if Bit(s.flags, INSIDE_QUOTE) then s
    else if IsSpace(b) then
      if !Bit(s.flags, OPEN_TAG) then s
      else if Bit(s.flags, NAME_ISSUED) then s.(toN := p, tagName := Slice(s.fromN, p))
      else s.(flags := 0)
    else if b == LT then
      s.(flags := WithBit(s.flags, OPEN_TAG, true), to := p)
    else if b == GT then
      if !Bit(s.flags, OPEN_TAG) then s
      else
        var named := if IsEmpty(s.tagName) then s.(toN := p, tagName := Slice(s.fromN, p)) else s;
        var body :=
          if named.from != named.to
          then named.body + [Text(Slice(named.from, named.to)), Tag(named.tagName, [], [])]
          else named.body;
        named.(body := body, from := p, to := p, flags := 0)
    else if b == SLASH then s
    else if Bit(s.flags, OPEN_TAG) && !Bit(s.flags, NAME_ISSUED) then
      s.(flags := WithBit(s.flags, NAME_ISSUED, true), fromN := p, toN := p)
    else s
  }

  /** The state after the first n bytes. */
  function Scan(input: seq<byte>, n: nat): ScanState
    requires n <= |input|
    decreases n
  {
    if n == 0 then Init else Step(input, Scan(input, n - 1), n - 1)
  }

  /** The document the scanner returns: the final state's body, plus the
      pending text span if it is not empty. */
  function Parse(input: seq<byte>): HtmlDoc {
    var s := Scan(input, |input|);
    if s.from != s.to then PushBody(Shell(s.body), Text(Slice(s.from, s.to))) else Shell(s.body)
  }

  // ---------------------------------------------------------------------------
  // The shape of what the scanner emits

  /** A text node the scanner emits: a non-empty slice that starts at the input's
      start or at a `>` and stops just before a `<`. */
  predicate IsTextNode(input: seq<byte>, t: HtmlTree) {
    t.Text? && t.text.Slice? && t.text.lo < t.text.hi < |input|
    && input[t.text.hi] == LT
    && (t.text.lo == 0 || input[t.text.lo] == GT)
  }

  /** A tag name the scanner captures: a non-empty slice that stops just before
      a whitespace byte or a `>`. */
  predicate IsNameSlice(input: seq<byte>, s: Str) {
    s.Slice? && s.lo < s.hi < |input| && (IsSpace(input[s.hi]) || input[s.hi] == GT)
  }

  /** An element the scanner emits: a captured name, no attributes, no children. */
  predicate IsElementNode(input: seq<byte>, t: HtmlTree) {
    t.Tag? && IsNameSlice(input, t.name) && t.attrs == [] && t.children == []
  }

  /** Text nodes at even positions, elements at odd ones: pairs of a text and
      the element that follows it, and possibly one text left over at the end. */
  predicate Alternating(input: seq<byte>, body: seq<HtmlTree>) {
    forall i :: 0 <= i < |body| ==>
      if i % 2 == 0 then IsTextNode(input, body[i]) else IsElementNode(input, body[i])
  }

  /** The text spans appear in input order and do not overlap. */
  predicate TextsOrdered(body: seq<HtmlTree>) {
    forall i, j ::
      0 <= i < j < |body| && body[i].Text? && body[j].Text? && body[i].text.Slice? && body[j].text.Slice?
      ==> body[i].text.hi < body[j].text.lo
  }

  predicate BodyShape(input: seq<byte>, body: seq<HtmlTree>) {
    Alternating(input, body) && TextsOrdered(body)
  }

  /** What holds of the state after the first n bytes. */
  predicate ScanValid(input: seq<byte>, s: ScanState, n: nat) {
    && n <= |input|
    && s.from <= s.to <= n
    && (s.from != s.to ==> s.to < n && input[s.to] == LT)
    && (s.from == 0 || (s.from < n && input[s.from] == GT))
    && s.fromN <= s.toN <= n
    && (s.fromN < n || n == 0)
    // only the open-tag and name-issued bits are ever set, the second only with the first
    && (s.flags == 0 || s.flags == 1 || s.flags == 3)
    && (s.flags != 0 ==> n > 0)
    && (s.tagName == Lit([]) || (IsNameSlice(input, s.tagName) && s.tagName.hi < n))
    && BodyShape(input, s.body)
    && |s.body| % 2 == 0
    && (forall i :: 0 <= i < |s.body| && s.body[i].Text? && s.body[i].text.Slice? ==> s.body[i].text.hi < s.from)
  }

  lemma InitValid(input: seq<byte>)
    ensures ScanValid(input, Init, 0)
  {
  }

  lemma {:induction false} StepValid(input: seq<byte>, s: ScanState, n: nat)
    requires n < |input|
    requires ScanValid(input, s, n)
    ensures ScanValid(input, Step(input, s, n), n + 1)
  {
    var b := input[n];
    var r := Step(input, s, n);
    assert !Bit(s.flags, INSIDE_QUOTE);
    if IsSpace(b) || b == SLASH {
    } else if b == LT {
      assert r.flags == 1 || r.flags == 3;
    } else if b == GT {
      if Bit(s.flags, OPEN_TAG) {
        GreaterValid(input, s, n);
      }
    } else if Bit(s.flags, OPEN_TAG) && !Bit(s.flags, NAME_ISSUED) {
      assert r.flags == 3;
    }
  }

  /** The `>` that closes an open tag keeps the state valid. */
  lemma {:induction false} GreaterValid(input: seq<byte>, s: ScanState, n: nat)
    requires n < |input| && input[n] == GT
    requires ScanValid(input, s, n)
    requires Bit(s.flags, OPEN_TAG)
    ensures ScanValid(input, Step(input, s, n), n + 1)
  {
    var named := if IsEmpty(s.tagName) then s.(toN := n, tagName := Slice(s.fromN, n)) else s;
    assert IsNameSlice(input, named.tagName);
    var r := Step(input, s, n);
    if s.from != s.to {
      var text := Text(Slice(s.from, s.to));
      var elem := Tag(named.tagName, [], []);
      assert r.body == s.body + [text, elem];
      assert IsTextNode(input, text);
      assert IsElementNode(input, elem);
      forall i | 0 <= i < |r.body|
        ensures if i % 2 == 0 then IsTextNode(input, r.body[i]) else IsElementNode(input, r.body[i])
      {
        if i < |s.body| {
          assert r.body[i] == s.body[i];
        }
      }
      forall i, j | 0 <= i < j < |r.body| && r.body[i].Text? && r.body[j].Text? && r.body[i].text.Slice? && r.body[j].text.Slice?
        ensures r.body[i].text.hi < r.body[j].text.lo
      {
        if j < |s.body| {
          assert r.body[i] == s.body[i] && r.body[j] == s.body[j];
        } else if i < |s.body| {
          assert r.body[i] == s.body[i];
          assert j == |s.body|;
        }
      }
    } else {
      assert r.body == s.body;
    }
  }

  lemma NextValid(input: seq<byte>, prev: ScanState, next: ScanState, n: nat)
    requires n < |input| && ScanValid(input, prev, n)
    requires next == Step(input, prev, n)
    ensures ScanValid(input, next, n + 1)
  {
    StepValid(input, prev, n);
  }

  /** Every state the loop reaches is valid. */
  lemma {:induction false} ScanIsValid(input: seq<byte>, n: nat)
    requires n <= |input|
    ensures ScanValid(input, Scan(input, n), n)
  {
    if n == 0 {
      InitValid(input);
    } else {
      ScanIsValid(input, n - 1);
      NextValid(input, Scan(input, n - 1), Scan(input, n), n - 1);
    }
  }

  // ---------------------------------------------------------------------------
  // The scan loop

  /** Scans the input once, left to right, and returns the filled-in shell. */
  method ParseHtml(input: seq<byte>) returns (doc: HtmlDoc)
    ensures doc == Parse(input)
  {
    var from, to := 0, 0;
    var fromN, toN := 0, 0;
    var tagName: Str := Lit([]);
    var flags := new HtmlFlags(0);
    doc := Shell([]);

    for p := 0 to |input|
      invariant doc == Shell(Scan(input, p).body)
      invariant ScanState(from, to, fromN, toN, tagName, flags.bits, BodyOf(doc)) == Scan(input, p)
    {
      ScanIsValid(input, p);
      assert fromN <= toN;
      assert from <= to;
      var b := input[p];
      if !flags.GetInsideQuote() {
        if IsSpace(b) {
          if flags.GetOpenTag() {
            if flags.GetNameIssued() {
              toN := p;
              tagName := Slice(fromN, toN);
            } else {
              flags.Reset();
            }
          }
        } else if b == LT {
          flags.SetOpenTag(true);
          to := p;
        } else if b == GT {
          if flags.GetOpenTag() {
            if IsEmpty(tagName) {
              toN := p;
              tagName := Slice(fromN, toN);
            }
            if from != to {
              var body := BodyOf(doc);
              doc := PushBody(doc, Text(Slice(from, to)));
              PushShell(body, Text(Slice(from, to)));
              doc := PushBody(doc, Tag(tagName, [], []));
              PushShell(body + [Text(Slice(from, to))], Tag(tagName, [], []));
              assert body + [Text(Slice(from, to))] + [Tag(tagName, [], [])]
                  == body + [Text(Slice(from, to)), Tag(tagName, [], [])];
            }
            from := p;
            to := p;
            flags.Reset();
          }
        } else if b == SLASH {
        } else {
          if flags.GetOpenTag() && !flags.GetNameIssued() {
            flags.SetNameIssued(true);
            fromN := p;
            toN := p;
          }
        }
      }
    }

    if from != to {
      PushShell(BodyOf(doc), Text(Slice(from, to)));
      doc := PushBody(doc, Text(Slice(from, to)));
    }
  }
}
