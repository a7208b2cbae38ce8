/** What the scanner guarantees: what one byte can and cannot change, what
    holds of every state the loop reaches, and the shape of the document it
    returns, including how that document renders. */
module ScannerFacts {
  import opened Html
  import opened Flags
  import opened Scanner
  import opened Format

  // ---------------------------------------------------------------------------
  // One byte

  /** A `/` is ignored outright. */
  lemma SlashIsInert(input: seq<byte>, s: ScanState, p: nat)
    requires p < |input| && input[p] == SLASH
    ensures Step(input, s, p) == s
  {
  }

  /** A `>` with no tag open is ignored. */
  lemma StrayCloseIsInert(input: seq<byte>, s: ScanState, p: nat)
    requires p < |input| && input[p] == GT && !Bit(s.flags, OPEN_TAG)
    ensures Step(input, s, p) == s
  {
  }

  /** Whitespace right after `<`, before any name byte, abandons the tag: only
      the flags are cleared; the text span already ends at that `<`. */
  lemma SpaceBeforeNameAbandons(input: seq<byte>, s: ScanState, p: nat)
    requires p < |input| && IsSpace(input[p])
    requires !Bit(s.flags, INSIDE_QUOTE) && Bit(s.flags, OPEN_TAG) && !Bit(s.flags, NAME_ISSUED)
    ensures Step(input, s, p) == s.(flags := 0)
  {
  }

  /** `body` changes exactly at a `>` that closes an open tag after a non-empty
      text span, and then by that text followed by an empty element. */
  lemma BodyGrowsByPairs(input: seq<byte>, s: ScanState, p: nat)
    requires p < |input|
    ensures var r := Step(input, s, p);
      r.body == s.body
      || (input[p] == GT && Bit(s.flags, OPEN_TAG) && s.from != s.to
          && r.body == s.body + [Text(Slice(s.from, s.to)), Tag(r.tagName, [], [])])
    ensures var r := Step(input, s, p);
      r.body != s.body
      <==> !Bit(s.flags, INSIDE_QUOTE) && input[p] == GT && Bit(s.flags, OPEN_TAG) && s.from != s.to
    ensures var r := Step(input, s, p);
      !Bit(s.flags, INSIDE_QUOTE) && input[p] == GT && Bit(s.flags, OPEN_TAG) && s.from != s.to
      ==> r.body == s.body + [Text(Slice(s.from, s.to)), Tag(r.tagName, [], [])]
  {
  }

  /** The tag name is captured at whitespace inside a named open tag, and at
      the `>` of an open tag while it is still empty; both times it becomes the
      span from the name's first byte up to this byte. It changes nowhere else:
      clearing the flags at `>` leaves it alone. */
  lemma TagNameChangesOnlyAt(input: seq<byte>, s: ScanState, p: nat)
    requires p < |input|
    ensures var r := Step(input, s, p);
      r.tagName != s.tagName ==>
        r.tagName == Slice(s.fromN, p) && !Bit(s.flags, INSIDE_QUOTE) && Bit(s.flags, OPEN_TAG)
        && ((IsSpace(input[p]) && Bit(s.flags, NAME_ISSUED)) || (input[p] == GT && IsEmpty(s.tagName)))
    ensures var r := Step(input, s, p);
      !Bit(s.flags, INSIDE_QUOTE) && Bit(s.flags, OPEN_TAG) && Bit(s.flags, NAME_ISSUED) && IsSpace(input[p])
      ==> r.tagName == Slice(s.fromN, p) && r.toN == p
    ensures var r := Step(input, s, p);
      !Bit(s.flags, INSIDE_QUOTE) && Bit(s.flags, OPEN_TAG) && input[p] == GT && IsEmpty(s.tagName)
      ==> r.tagName == Slice(s.fromN, p) && r.toN == p
  {
  }

  /** The four cursors move exactly where the loop assigns them: `from` at a
      `>` closing an open tag, `to` there and at every `<`, both to this byte's
      position; `from_n` and `to_n` together at the first name byte of an open
      tag, and `to_n` alone where the tag name is captured. */
  lemma CursorsChangeOnlyAt(input: seq<byte>, s: ScanState, p: nat)
    requires p < |input|
    ensures var r := Step(input, s, p);
      var live := !Bit(s.flags, INSIDE_QUOTE);
      var closes := live && input[p] == GT && Bit(s.flags, OPEN_TAG);
      && (r.from != s.from ==> closes && r.from == p)
      && (r.to != s.to ==> r.to == p && live && (input[p] == LT || closes))
      && (closes ==> r.from == p && r.to == p)
      && (r.fromN != s.fromN ==>
            r.fromN == p && r.toN == p && live && Bit(s.flags, OPEN_TAG) && !Bit(s.flags, NAME_ISSUED)
            && !IsSpace(input[p]) && input[p] != LT && input[p] != GT && input[p] != SLASH)
      && (r.toN != s.toN ==>
            r.toN == p && live && Bit(s.flags, OPEN_TAG)
            && ((IsSpace(input[p]) && Bit(s.flags, NAME_ISSUED))
                || (input[p] == GT && IsEmpty(s.tagName))
                || (r.fromN == p && !Bit(s.flags, NAME_ISSUED))))
    ensures var r := Step(input, s, p);
      !Bit(s.flags, INSIDE_QUOTE) && input[p] == LT
      ==> r.to == p && r.from == s.from && Bit(r.flags, OPEN_TAG)
    ensures var r := Step(input, s, p);
      && !Bit(s.flags, INSIDE_QUOTE) && Bit(s.flags, OPEN_TAG) && !Bit(s.flags, NAME_ISSUED)
      && !IsSpace(input[p]) && input[p] != LT && input[p] != GT && input[p] != SLASH
      ==> r.fromN == p && r.toN == p && Bit(r.flags, OPEN_TAG) && Bit(r.flags, NAME_ISSUED)
  {
  }

  // ---------------------------------------------------------------------------
  // Every state the loop reaches

  /** The cursor orderings the loop asserts at each iteration, and every cursor
      within the input. */
  lemma CursorsOrdered(input: seq<byte>, n: nat)
    requires n <= |input|
    ensures var s := Scan(input, n);
      s.from <= s.to <= n && s.fromN <= s.toN <= n
  {
    ScanIsValid(input, n);
  }

  /** No `<` lies strictly between positions a and b. */
  predicate NoLtBetween(input: seq<byte>, a: nat, b: nat) {
    forall k :: a < k < b && k < |input| ==> input[k] != LT
  }

  /** Between one text and the next text two places on, there is no `<`. */
  ghost predicate TextGaps(input: seq<byte>, body: seq<HtmlTree>) {
    forall i, j ::
      0 <= i < j < |body| && j == i + 2
      && body[i].Text? && body[i].text.Slice? && body[j].Text? && body[j].text.Slice?
      ==> NoLtBetween(input, body[i].text.hi, body[j].text.lo)
  }

  /** Where the `<` bytes can be in a reachable state: none after `to` (each `<`
      moves `to`), none between the last pushed text and `from` (the `>` that
      closed its element), and none between consecutive texts. */
  ghost predicate LtGaps(input: seq<byte>, s: ScanState, n: nat) {
    && NoLtBetween(input, s.to, n)
    && (|s.body| >= 2 ==>
          var last := s.body[|s.body| - 2];
          last.Text? && last.text.Slice? && NoLtBetween(input, last.text.hi, s.from))
    && TextGaps(input, s.body)
  }

  /** One byte keeps the `<` gaps. */
  lemma StepGaps(input: seq<byte>, s: ScanState, n: nat)
    requires n < |input| && ScanValid(input, s, n) && LtGaps(input, s, n)
    ensures LtGaps(input, Step(input, s, n), n + 1)
  {
    if !Bit(s.flags, INSIDE_QUOTE) && input[n] == GT && Bit(s.flags, OPEN_TAG) {
      if s.from != s.to {
        PushGaps(input, s, n);
      } else {
        EmptySpanGaps(input, s, n);
      }
    }
  }

  /** A `>` closing a tag with an empty text span pushes nothing and keeps the
      `<` gaps: the span's start is itself a `>`. */
  lemma EmptySpanGaps(input: seq<byte>, s: ScanState, n: nat)
    requires n < |input| && ScanValid(input, s, n) && LtGaps(input, s, n)
    requires !Bit(s.flags, INSIDE_QUOTE) && input[n] == GT && Bit(s.flags, OPEN_TAG) && s.from == s.to
    ensures LtGaps(input, Step(input, s, n), n + 1)
  {
    var r := Step(input, s, n);
    assert r.body == s.body && r.from == n && r.to == n;
    if |s.body| >= 2 {
      var last := s.body[|s.body| - 2];
      assert last.text.hi < s.from;
      assert input[s.from] == GT;
      forall k | last.text.hi < k < n && k < |input|
        ensures input[k] != LT
      {
        if k < s.from {
          assert NoLtBetween(input, last.text.hi, s.from);
        } else if k > s.from {
          assert NoLtBetween(input, s.to, n);
        }
      }
    }
  }

  /** A `>` that pushes a text and an element keeps the `<` gaps. */
  lemma PushGaps(input: seq<byte>, s: ScanState, n: nat)
    requires n < |input| && ScanValid(input, s, n) && LtGaps(input, s, n)
    requires !Bit(s.flags, INSIDE_QUOTE) && input[n] == GT && Bit(s.flags, OPEN_TAG) && s.from != s.to
    ensures LtGaps(input, Step(input, s, n), n + 1)
  {
    var r := Step(input, s, n);
    var t := Text(Slice(s.from, s.to));
    assert r.body == s.body + [t, Tag(r.tagName, [], [])];
    assert r.body[|r.body| - 2] == t;
    forall i, j | 0 <= i < j < |r.body| && j == i + 2
      && r.body[i].Text? && r.body[i].text.Slice? && r.body[j].Text? && r.body[j].text.Slice?
      ensures NoLtBetween(input, r.body[i].text.hi, r.body[j].text.lo)
    {
      if j < |s.body| {
        assert r.body[i] == s.body[i] && r.body[j] == s.body[j];
      } else {
        assert j == |s.body| && r.body[j] == t && r.body[i] == s.body[i];
      }
    }
  }

  /** The `<` gaps hold in every state the loop reaches. */
  lemma {:induction false} ScanGaps(input: seq<byte>, n: nat)
    requires n <= |input|
    ensures LtGaps(input, Scan(input, n), n)
  {
    if n > 0 {
      ScanGaps(input, n - 1);
      ScanIsValid(input, n - 1);
      StepGaps(input, Scan(input, n - 1), n - 1);
    }
  }

  /** Nothing sets the quote bit, so the gate in front of the byte dispatch
      always lets the byte through; the name bit is only ever set with the
      open-tag bit. */
  lemma QuoteGateAlwaysPasses(input: seq<byte>, n: nat)
    requires n <= |input|
    ensures !Bit(Scan(input, n).flags, INSIDE_QUOTE)
    ensures Bit(Scan(input, n).flags, NAME_ISSUED) ==> Bit(Scan(input, n).flags, OPEN_TAG)
  {
    ScanIsValid(input, n);
  }

  /** Once set, the tag name is never empty again. */
  lemma TagNameNeverCleared(input: seq<byte>, m: nat, n: nat)
    requires m <= n <= |input|
    requires !IsEmpty(Scan(input, m).tagName)
    ensures !IsEmpty(Scan(input, n).tagName)
  {
    ScanIsValid(input, m);
    NameStaysSlice(input, m, n);
    ScanIsValid(input, n);
  }

  /** A captured name is only ever replaced by another captured name. */
  lemma {:induction false} NameStaysSlice(input: seq<byte>, m: nat, n: nat)
    requires m <= n <= |input|
    requires Scan(input, m).tagName.Slice?
    ensures Scan(input, n).tagName.Slice?
  {
    if m < n {
      NameStaysSlice(input, m, n - 1);
    }
  }

  /** Children are only ever appended to `body`, two at a time. */
  lemma {:induction false} BodyOnlyGrows(input: seq<byte>, m: nat, n: nat)
    requires m <= n <= |input|
    ensures Scan(input, m).body <= Scan(input, n).body
    ensures (|Scan(input, n).body| - |Scan(input, m).body|) % 2 == 0
  {
    if m < n {
      BodyOnlyGrows(input, m, n - 1);
      BodyGrowsByPairs(input, Scan(input, n - 1), n - 1);
    }
  }

  /** How many times byte b occurs in s. */
  function Count(s: seq<byte>, b: byte): nat {
    if s == [] then 0 else Count(s[..|s| - 1], b) + (if s[|s| - 1] == b then 1 else 0)
  }

  /** Each element needs its own `>`: there are at most as many elements as
      `>` bytes scanned. */
  lemma {:induction false} ElementsAtMostCloses(input: seq<byte>, n: nat)
    requires n <= |input|
    ensures |Scan(input, n).body| <= 2 * Count(input[..n], GT)
  {
    if n > 0 {
      ElementsAtMostCloses(input, n - 1);
      assert input[..n][..n - 1] == input[..n - 1];
      BodyGrowsByPairs(input, Scan(input, n - 1), n - 1);
    }
  }

  lemma {:induction false} CountAbsent(s: seq<byte>, b: byte)
    requires forall i :: 0 <= i < |s| ==> s[i] != b
    ensures Count(s, b) == 0
  {
    if s != [] {
      CountAbsent(s[..|s| - 1], b);
    }
  }

  // ---------------------------------------------------------------------------
  // The returned document

  /** The document is always the fixed shell: no doctype, root `html` with the
      children `head` and `body`, `head` empty. */
  lemma ParseIsShell(input: seq<byte>)
    ensures Parse(input) == Shell(BodyOf(Parse(input)))
    ensures Parse(input).docType == None
    ensures Parse(input).root.children[0] == Tag(Lit(HEAD), [], [])
  {
    var s := Scan(input, |input|);
    if s.from != s.to {
      PushShell(s.body, Text(Slice(s.from, s.to)));
    }
  }

  /** The returned `body` is the final state's body, followed by the pending
      text span exactly when that span is not empty. */
  lemma ParseFlushesSpan(input: seq<byte>)
    ensures var s, body := Scan(input, |input|), BodyOf(Parse(input));
      && (s.from != s.to ==> |body| > 0 && body[|body| - 1] == Text(Slice(s.from, s.to)) && body[..|body| - 1] == s.body)
      && (s.from == s.to ==> body == s.body)
  {
    var s := Scan(input, |input|);
    if s.from != s.to {
      PushShell(s.body, Text(Slice(s.from, s.to)));
    }
  }

  /** Every `>` that closes an open tag after a non-empty text span leaves its
      pair in the returned `body`: the text span, then an empty element named by
      the captured tag name, or, if none was captured yet, by the span from the
      name's first byte up to this `>`. Nothing pushed later displaces it. */
  lemma ParseKeepsEveryPair(input: seq<byte>, q: nat)
    requires q < |input| && input[q] == GT
    requires var s := Scan(input, q);
      !Bit(s.flags, INSIDE_QUOTE) && Bit(s.flags, OPEN_TAG) && s.from != s.to
    ensures var s := Scan(input, q);
      var name := if IsEmpty(s.tagName) then Slice(s.fromN, q) else s.tagName;
      s.body + [Text(Slice(s.from, s.to)), Tag(name, [], [])] <= BodyOf(Parse(input))
  {
    var s := Scan(input, q);
    var name := if IsEmpty(s.tagName) then Slice(s.fromN, q) else s.tagName;
    BodyGrowsByPairs(input, s, q);
    assert Scan(input, q + 1).body == s.body + [Text(Slice(s.from, s.to)), Tag(name, [], [])];
    BodyOnlyGrows(input, q + 1, |input|);
    ParseFlushesSpan(input);
  }

  /** `body` holds pairs of a text and an element, at most one trailing text,
      the texts in input order, and nothing else. */
  lemma ParseBodyShape(input: seq<byte>)
    ensures BodyShape(input, BodyOf(Parse(input)))
  {
    var s := Scan(input, |input|);
    ScanIsValid(input, |input|);
    ParseIsShell(input);
    if s.from != s.to {
      var t := Text(Slice(s.from, s.to));
      PushShell(s.body, t);
      var body := s.body + [t];
      assert BodyOf(Parse(input)) == body;
      assert IsTextNode(input, t);
      forall i | 0 <= i < |body|
        ensures if i % 2 == 0 then IsTextNode(input, body[i]) else IsElementNode(input, body[i])
      {
        if i < |s.body| {
          assert body[i] == s.body[i];
        }
      }
      forall i, j | 0 <= i < j < |body| && body[i].Text? && body[j].Text? && body[i].text.Slice? && body[j].text.Slice?
        ensures body[i].text.hi < body[j].text.lo
      {
        assert body[i] == s.body[i];
        if j < |s.body| {
          assert body[j] == s.body[j];
        }
      }
    }
  }

  /** Every slice in the document lies inside the input. */
  lemma ParseInRange(input: seq<byte>)
    ensures DocInRange(Parse(input), |input|)
    ensures forall c :: c in BodyOf(Parse(input)) ==> TreeInRange(c, |input|)
  {
    ParseIsShell(input);
    ParseBodyShape(input);
    BodyInRange(input, BodyOf(Parse(input)));
    ShellRendering(input, BodyOf(Parse(input)));
  }

  /** No empty node and no raw-text node is emitted: each text has at least one
      byte, each element a name of at least one byte and neither attributes nor
      children. */
  lemma ParseEmitsNoEmptyNode(input: seq<byte>)
    ensures var body := BodyOf(Parse(input));
      forall i :: 0 <= i < |body| ==>
        && !body[i].Script? && !body[i].Style?
        && (body[i].Text? ==> StrInRange(body[i].text, |input|) && |Resolve(input, body[i].text)| > 0)
        && (body[i].Tag? ==> body[i].attrs == [] && body[i].children == []
                             && StrInRange(body[i].name, |input|) && |Resolve(input, body[i].name)| > 0)
  {
    ParseBodyShape(input);
  }

  /** A text runs up to, not including, the last `<` before the next text (or
      before the end of the input): no `<` lies between one text's end and the
      next text's start, nor after the end of the last text. Every text after
      the first starts with a `>`; which `>` that is, the one that closed the
      tag before it, is stated in module `TextStarts`. */
  lemma ParseTextsDelimited(input: seq<byte>)
    ensures var body := BodyOf(Parse(input));
      forall i :: 0 <= i < |body| && body[i].Text? ==>
        && StrInRange(body[i].text, |input|) && body[i].text.Slice?
        && body[i].text.hi < |input| && input[body[i].text.hi] == LT
        && body[i].text.lo < body[i].text.hi
        && (i > 0 ==> Resolve(input, body[i].text)[0] == GT)
    ensures TextGaps(input, BodyOf(Parse(input)))
    ensures var body := BodyOf(Parse(input));
      forall i :: 0 <= i < |body| && |body| <= i + 2 && body[i].Text? && body[i].text.Slice? ==>
        NoLtBetween(input, body[i].text.hi, |input|)
  {
    ParseBodyShape(input);
    ParseLtGaps(input);
    var body := BodyOf(Parse(input));
    forall i | 0 < i < |body| && body[i].Text?
      ensures body[i].text.lo != 0
    {
      assert i >= 2;
      assert body[0].text.hi < body[i].text.lo;
    }
  }

  lemma ParseLtGaps(input: seq<byte>)
    ensures TextGaps(input, BodyOf(Parse(input)))
    ensures var body := BodyOf(Parse(input));
      forall i :: 0 <= i < |body| && |body| <= i + 2 && body[i].Text? && body[i].text.Slice? ==>
        NoLtBetween(input, body[i].text.hi, |input|)
  {
    var n := |input|;
    var s := Scan(input, n);
    ScanIsValid(input, n);
    ScanGaps(input, n);
    ParseIsShell(input);
    var body := BodyOf(Parse(input));
    if s.from != s.to {
      var t := Text(Slice(s.from, s.to));
      PushShell(s.body, t);
      assert body == s.body + [t];
      forall i, j | 0 <= i < j < |body| && j == i + 2
        && body[i].Text? && body[i].text.Slice? && body[j].Text? && body[j].text.Slice?
        ensures NoLtBetween(input, body[i].text.hi, body[j].text.lo)
      {
        assert body[i] == s.body[i];
        if j < |s.body| {
          assert body[j] == s.body[j];
        }
      }
      forall i | 0 <= i < |body| && |body| <= i + 2 && body[i].Text? && body[i].text.Slice?
        ensures NoLtBetween(input, body[i].text.hi, n)
      {
        if i < |s.body| {
          assert false;
        }
      }
    } else {
      assert body == s.body;
      forall i | 0 <= i < |body| && |body| <= i + 2 && body[i].Text? && body[i].text.Slice?
        ensures NoLtBetween(input, body[i].text.hi, n)
      {
        if i == |body| - 1 {
          assert false;
        } else {
          assert body[i].text.hi < s.from;
        }
      }
    }
  }

  /** Without any `>` in the input no element is emitted; at most the flushed
      text is. */
  lemma NoCloseNoElement(input: seq<byte>)
    requires forall i :: 0 <= i < |input| ==> input[i] != GT
    ensures |BodyOf(Parse(input))| <= 1
    ensures forall t :: t in BodyOf(Parse(input)) ==> t.Text?
  {
    ElementsAtMostCloses(input, |input|);
    assert input[..|input|] == input;
    CountAbsent(input, GT);
    ParseBodyShape(input);
  }

  /** The rendered document always opens with `<html><head></head><body>` and
      closes with `</body></html>`, with the body's children in between. */
  lemma ParseRendering(input: seq<byte>)
    ensures DocInRange(Parse(input), |input|)
    ensures var body := BodyOf(Parse(input));
      (forall c :: c in body ==> TreeInRange(c, |input|))
      && FixedFormat(input, Parse(input)) == SHELL_OPEN + RenderChildren(input, body) + SHELL_CLOSE
  {
    ParseInRange(input);
    ParseIsShell(input);
    ShellRendering(input, BodyOf(Parse(input)));
  }

  /** Each `>` that closes an open tag after a non-empty text span adds, to the
      rendering of `body`, the text before the tag verbatim followed by
      `<name></name>`; every other byte leaves the rendering as it was. */
  lemma CloseRendersTextThenElement(input: seq<byte>, n: nat)
    requires n < |input|
    ensures var s, r := Scan(input, n), Scan(input, n + 1);
      (forall c :: c in s.body ==> TreeInRange(c, |input|))
      && (forall c :: c in r.body ==> TreeInRange(c, |input|))
      && (r.body == s.body
          || (StrInRange(r.tagName, |input|) && s.from <= s.to <= |input|
              && RenderChildren(input, r.body)
                 == RenderChildren(input, s.body) + input[s.from..s.to] + EmptyElement(Resolve(input, r.tagName))))
    ensures var s, r := Scan(input, n), Scan(input, n + 1);
      !(!Bit(s.flags, INSIDE_QUOTE) && input[n] == GT && Bit(s.flags, OPEN_TAG) && s.from != s.to)
      ==> r.body == s.body
    ensures var s, r := Scan(input, n), Scan(input, n + 1);
      !Bit(s.flags, INSIDE_QUOTE) && input[n] == GT && Bit(s.flags, OPEN_TAG) && s.from != s.to
      ==> (forall c :: c in s.body ==> TreeInRange(c, |input|))
          && StrInRange(r.tagName, |input|) && s.from <= s.to <= |input|
          && RenderChildren(input, r.body)
             == RenderChildren(input, s.body) + input[s.from..s.to] + EmptyElement(Resolve(input, r.tagName))
  {
    var s, r := Scan(input, n), Scan(input, n + 1);
    ScanIsValid(input, n);
    ScanIsValid(input, n + 1);
    BodyInRange(input, s.body);
    BodyInRange(input, r.body);
    BodyGrowsByPairs(input, s, n);
    if r.body != s.body {
      assert IsElementNode(input, r.body[|s.body| + 1]);
      PairRendering(input, s.body, Slice(s.from, s.to), r.tagName);
    }
  }

  lemma BodyInRange(input: seq<byte>, body: seq<HtmlTree>)
    requires Alternating(input, body)
    ensures forall c :: c in body ==> TreeInRange(c, |input|)
  {
    forall c | c in body
      ensures TreeInRange(c, |input|)
    {
      var i :| 0 <= i < |body| && body[i] == c;
    }
  }
}
