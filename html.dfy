/** The document tree of the markup scanner: the tagged-union node type, its
    attributes, the document with its optional doctype, and the fixed
    `html > {head, body}` shell that the scanner fills in.

    Every string in the tree is either a slice of the scanned input, written as
    a half-open index pair (the zero-copy borrowing of the Rust scanner), or one of
    the few static names the shell uses. */
module Html {

  newtype byte = b: int | 0 <= b < 256

  datatype Option<T> = None | Some(value: T)

  /** A borrowed string: bytes lo..hi of the input, or a static literal. */
  datatype Str = Slice(lo: nat, hi: nat) | Lit(bytes: seq<byte>)

  datatype Attribute = Attribute(name: Str, value: Option<Str>)

  datatype HtmlTree =
    | Tag(name: Str, attrs: seq<Attribute>, children: seq<HtmlTree>)
    | Script(script: Str)
    | Style(style: Str)
    | Text(text: Str)

  datatype HtmlDoc = HtmlDoc(docType: Option<Str>, root: HtmlTree)

  /** The bytes of an ASCII string literal (each character's low byte). */
  function Ascii(s: string): seq<byte> {
    seq(|s|, i requires 0 <= i < |s| => (s[i] as int % 256) as byte)
  }

  const LT: byte := 0x3C     // '<'
  const GT: byte := 0x3E     // '>'
  const SLASH: byte := 0x2F  // '/'
  const EQ: byte := 0x3D     // '='
  const SPACE: byte := 0x20  // ' '

  /** The three bytes the scanner treats as whitespace. */
  predicate IsSpace(b: byte) {
    b == 0x0A || b == 0x09 || b == SPACE
  }

  /** A string is usable against an input of length n: a slice must lie inside it. */
  predicate StrInRange(s: Str, n: nat) {
    s.Lit? || s.lo <= s.hi <= n
  }

  predicate AttrInRange(a: Attribute, n: nat) {
    StrInRange(a.name, n) && (a.value.Some? ==> StrInRange(a.value.value, n))
  }

  predicate TreeInRange(t: HtmlTree, n: nat)
    decreases t
  {
    match t
    case Tag(name, attrs, children) =>
      StrInRange(name, n)
      && (forall a :: a in attrs ==> AttrInRange(a, n))
      && (forall c :: c in children ==> TreeInRange(c, n))
    case Script(s) => StrInRange(s, n)
    case Style(s) => StrInRange(s, n)
    case Text(s) => StrInRange(s, n)
  }

  predicate DocInRange(doc: HtmlDoc, n: nat) {
    (doc.docType.Some? ==> StrInRange(doc.docType.value, n)) && TreeInRange(doc.root, n)
  }

  /** The bytes a borrowed string stands for. */
  function Resolve(input: seq<byte>, s: Str): (r: seq<byte>)
    requires StrInRange(s, |input|)
    ensures s.Slice? ==> |r| == s.hi - s.lo && forall k :: 0 <= k < |r| ==> r[k] == input[s.lo + k]
    ensures s.Lit? ==> r == s.bytes
  {
    match s
    case Slice(lo, hi) => input[lo..hi]
    case Lit(bytes) => bytes
  }

  /** `str::is_empty` on a borrowed string. */
  predicate IsEmpty(s: Str) {
    if s.Slice? then s.hi <= s.lo else s.bytes == []
  }

  const HTML: seq<byte> := Ascii("html")
  const HEAD: seq<byte> := Ascii("head")
  const BODY: seq<byte> := Ascii("body")

  /** The document the scanner starts from, with `body` holding the given children. */
  function Shell(body: seq<HtmlTree>): HtmlDoc {
    HtmlDoc(None, Tag(Lit(HTML), [], [Tag(Lit(HEAD), [], []), Tag(Lit(BODY), [], body)]))
  }

  /** The children of the second child of the root: where the scanner appends. */
  function BodyOf(doc: HtmlDoc): seq<HtmlTree>
    requires doc.root.Tag? && |doc.root.children| >= 2 && doc.root.children[1].Tag?
  {
    doc.root.children[1].children
  }

  /** Appends one node to the children of the root's second child, the `body`;
      any other document shape is unreachable for the scanner. */
  function PushBody(doc: HtmlDoc, node: HtmlTree): (r: HtmlDoc)
    requires doc.root.Tag? && |doc.root.children| >= 2 && doc.root.children[1].Tag?
    ensures r.docType == doc.docType
    ensures r.root.Tag? && r.root.name == doc.root.name && r.root.attrs == doc.root.attrs
    ensures |r.root.children| == |doc.root.children|
    ensures forall i :: 0 <= i < |r.root.children| && i != 1 ==> r.root.children[i] == doc.root.children[i]
    ensures r.root.children[1].Tag? && r.root.children[1].name == doc.root.children[1].name
    ensures r.root.children[1].attrs == doc.root.children[1].attrs
    ensures BodyOf(r) == BodyOf(doc) + [node]
  {
    var body := doc.root.children[1];
    doc.(root := doc.root.(children := doc.root.children[1 := body.(children := body.children + [node])]))
  }

  /** On the shell, pushing into `body` gives the shell with one more body child. */
  lemma PushShell(body: seq<HtmlTree>, node: HtmlTree)
    ensures PushBody(Shell(body), node) == Shell(body + [node])
  {
    var r := PushBody(Shell(body), node);
    assert r.root.children == Shell(body + [node]).root.children;
  }
}
