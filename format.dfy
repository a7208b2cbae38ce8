/** The serializer: renders a document back to markup, each element as its
    open tag with attributes, its rendered children and its close tag, text
    verbatim, and the reserved raw-text nodes as nothing. No byte is escaped. */
module Format {
  import opened Html

  /** ` name` or ` name=value` for each attribute, in order. */
  function RenderAttrs(input: seq<byte>, attrs: seq<Attribute>): seq<byte>
    requires forall a :: a in attrs ==> AttrInRange(a, |input|)
  {
    if attrs == [] then []
    else
      var a := attrs[0];
      assert a in attrs && AttrInRange(a, |input|);
      [SPACE] + Resolve(input, a.name)
      + (if a.value.Some? then [EQ] + Resolve(input, a.value.value) else [])
      + RenderAttrs(input, attrs[1..])
  }

  function Render(input: seq<byte>, t: HtmlTree): seq<byte>
    requires TreeInRange(t, |input|)
    decreases t, 1
  {
    match t
    case Tag(name, attrs, children) =>
      ([LT] + Resolve(input, name) + RenderAttrs(input, attrs) + [GT])
      + RenderChildren(input, children)
      + CloseTag(Resolve(input, name))
    case Text(s) => Resolve(input, s)
    case Script(_) => []
    case Style(_) => []
  }

  function RenderChildren(input: seq<byte>, children: seq<HtmlTree>): seq<byte>
    requires forall c :: c in children ==> TreeInRange(c, |input|)
    decreases children, 0
  {
    if children == [] then []
    else Render(input, children[0]) + RenderChildren(input, children[1..])
  }

  /** `</name>` */
  function CloseTag(name: seq<byte>): seq<byte> {
    [LT, SLASH] + name + [GT]
  }

  const DOCTYPE_OPEN: seq<byte> := Ascii("<!DOCTYPE ")

  /** The document as markup: `<!DOCTYPE v>` when it has a doctype, then the root. */
  function FixedFormat(input: seq<byte>, doc: HtmlDoc): seq<byte>
    requires DocInRange(doc, |input|)
  {
    (match doc.docType
     case Some(v) => DOCTYPE_OPEN + Resolve(input, v) + [GT]
     case None => [])
    + Render(input, doc.root)
  }

  // ---------------------------------------------------------------------------
  // Properties of the rendering

  /** Rendering a list of siblings distributes over concatenation. */
  lemma {:induction false} RenderChildrenAppend(input: seq<byte>, a: seq<HtmlTree>, b: seq<HtmlTree>)
    requires forall c :: c in a ==> TreeInRange(c, |input|)
    requires forall c :: c in b ==> TreeInRange(c, |input|)
    ensures forall c :: c in a + b ==> TreeInRange(c, |input|)
    ensures RenderChildren(input, a + b) == RenderChildren(input, a) + RenderChildren(input, b)
  {
    if a == [] {
      assert a + b == b;
    } else {
      assert (a + b)[1..] == a[1..] + b;
      RenderChildrenAppend(input, a[1..], b);
    }
  }

  /** The reserved raw-text nodes. */
  predicate IsRawText(t: HtmlTree) {
    t.Script? || t.Style?
  }

  function DropRawText(children: seq<HtmlTree>): (r: seq<HtmlTree>)
    ensures forall c :: c in r ==> c in children && !IsRawText(c)
  {
    if children == [] then []
    else if IsRawText(children[0]) then DropRawText(children[1..])
    else [children[0]] + DropRawText(children[1..])
  }

  /** `Script` and `Style` children contribute nothing to the rendering. */
  lemma {:induction false} RawTextRendersNothing(input: seq<byte>, children: seq<HtmlTree>)
    requires forall c :: c in children ==> TreeInRange(c, |input|)
    ensures RenderChildren(input, children) == RenderChildren(input, DropRawText(children))
  {
    if children != [] {
      RawTextRendersNothing(input, children[1..]);
      if !IsRawText(children[0]) {
        var rest := DropRawText(children[1..]);
        assert ([children[0]] + rest)[0] == children[0];
        assert ([children[0]] + rest)[1..] == rest;
      }
    }
  }

  /** `<name></name>` */
  function EmptyElement(name: seq<byte>): seq<byte> {
    [LT] + name + [GT] + CloseTag(name)
  }

  /** An element with neither attributes nor children renders as `<name></name>`. */
  lemma EmptyElementRendering(input: seq<byte>, name: Str)
    requires StrInRange(name, |input|)
    ensures Render(input, Tag(name, [], [])) == EmptyElement(Resolve(input, name))
  {
    assert RenderChildren(input, []) == [];
    assert RenderAttrs(input, []) == [];
  }

  /** Appending a text and an empty element to a list of siblings appends the
      text verbatim and then `<name></name>` to its rendering. */
  lemma PairRendering(input: seq<byte>, siblings: seq<HtmlTree>, text: Str, name: Str)
    requires forall c :: c in siblings ==> TreeInRange(c, |input|)
    requires StrInRange(text, |input|) && StrInRange(name, |input|)
    ensures forall c :: c in siblings + [Text(text), Tag(name, [], [])] ==> TreeInRange(c, |input|)
    ensures RenderChildren(input, siblings + [Text(text), Tag(name, [], [])])
         == RenderChildren(input, siblings) + Resolve(input, text) + EmptyElement(Resolve(input, name))
  {
    RenderChildrenAppend(input, siblings, [Text(text), Tag(name, [], [])]);
    PairChildren(input, text, name);
    Assoc(RenderChildren(input, siblings), Resolve(input, text), EmptyElement(Resolve(input, name)));
  }

  lemma PairChildren(input: seq<byte>, text: Str, name: Str)
    requires StrInRange(text, |input|) && StrInRange(name, |input|)
    ensures forall c :: c in [Text(text), Tag(name, [], [])] ==> TreeInRange(c, |input|)
    ensures RenderChildren(input, [Text(text), Tag(name, [], [])])
         == Resolve(input, text) + EmptyElement(Resolve(input, name))
  {
    var t, e := Text(text), Tag(name, [], []);
    EmptyElementRendering(input, name);
    assert RenderChildren(input, [e]) == Render(input, e) by {
      assert [e][1..] == [];
    }
    assert [t, e][1..] == [e];
  }

  lemma Assoc(a: seq<byte>, b: seq<byte>, c: seq<byte>)
    ensures a + (b + c) == a + b + c
  {
  }

  /** `<html><head></head><body>` */
  const SHELL_OPEN: seq<byte> := ([LT] + HTML + [GT]) + ([LT] + HEAD + [GT] + CloseTag(HEAD)) + ([LT] + BODY + [GT])
  /** `</body></html>` */
  const SHELL_CLOSE: seq<byte> := CloseTag(BODY) + CloseTag(HTML)

  /** The shell renders around whatever `body` holds. */
  lemma ShellRendering(input: seq<byte>, body: seq<HtmlTree>)
    requires forall c :: c in body ==> TreeInRange(c, |input|)
    ensures DocInRange(Shell(body), |input|)
    ensures FixedFormat(input, Shell(body)) == SHELL_OPEN + RenderChildren(input, body) + SHELL_CLOSE
  {
    var rc := RenderChildren(input, body);
    var ho, hd, bo := [LT] + HTML + [GT], [LT] + HEAD + [GT] + CloseTag(HEAD), [LT] + BODY + [GT];
    var bc, hc := CloseTag(BODY), CloseTag(HTML);
    ShellChildrenRendering(input, body);
    assert RenderAttrs(input, []) == [];
    assert FixedFormat(input, Shell(body)) == ho + (hd + (bo + rc + bc)) + hc;
    Regroup(ho, hd, bo, rc, bc, hc);
  }

  /** The root's two children, `head` and `body`, render as
      `<head></head><body>` + body children + `</body>`. */
  lemma ShellChildrenRendering(input: seq<byte>, body: seq<HtmlTree>)
    requires forall c :: c in body ==> TreeInRange(c, |input|)
    ensures forall c :: c in [Tag(Lit(HEAD), [], []), Tag(Lit(BODY), [], body)] ==> TreeInRange(c, |input|)
    ensures RenderChildren(input, [Tag(Lit(HEAD), [], []), Tag(Lit(BODY), [], body)])
         == ([LT] + HEAD + [GT] + CloseTag(HEAD))
            + (([LT] + BODY + [GT]) + RenderChildren(input, body) + CloseTag(BODY))
  {
    var head, bodyTag := Tag(Lit(HEAD), [], []), Tag(Lit(BODY), [], body);
    EmptyElementRendering(input, Lit(HEAD));
    BodyTagRendering(input, body);
    assert RenderChildren(input, [bodyTag]) == Render(input, bodyTag) by {
      assert [bodyTag][1..] == [];
    }
    assert [head, bodyTag][1..] == [bodyTag];
  }

  lemma BodyTagRendering(input: seq<byte>, body: seq<HtmlTree>)
    requires forall c :: c in body ==> TreeInRange(c, |input|)
    ensures TreeInRange(Tag(Lit(BODY), [], body), |input|)
    ensures Render(input, Tag(Lit(BODY), [], body))
         == ([LT] + BODY + [GT]) + RenderChildren(input, body) + CloseTag(BODY)
  {
    assert RenderAttrs(input, []) == [];
  }

  /** Regrouping the shell's pieces around the body's rendering. */
  lemma Regroup(ho: seq<byte>, hd: seq<byte>, bo: seq<byte>, rc: seq<byte>, bc: seq<byte>, hc: seq<byte>)
    ensures ho + (hd + (bo + rc + bc)) + hc == (ho + hd + bo) + rc + (bc + hc)
  {
  }

  /** A doctype only prefixes the rendering of the same document without one. */
  lemma DoctypePrefix(input: seq<byte>, doc: HtmlDoc, v: Str)
    requires DocInRange(doc, |input|) && StrInRange(v, |input|)
    ensures DocInRange(doc.(docType := Some(v)), |input|)
    ensures FixedFormat(input, doc.(docType := Some(v)))
         == DOCTYPE_OPEN + Resolve(input, v) + [GT] + FixedFormat(input, doc.(docType := None))
  {
  }
}
