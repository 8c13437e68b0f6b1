/** The conventional optional-value datatype, standing in for Python's `Optional[...]`. */
module Wrappers {

  datatype Option<+T> = None | Some(value: T)
}

/**
  A model of the inline text-span value type of a static site generator:
  the closed enumeration of formatting kinds `TextType`, and the immutable
  record `TextNode` with its structural equality and its debug string.
 */
module TextNodes {

  import opened Wrappers

  /** The six formatting kinds of an inline span. */
  datatype TextType = Text | Bold | Italic | Code | Link | Image

  /** The fixed string value tied to each kind. */
  function Value(t: TextType): (r: string)
    ensures r in Values
  {
    match t
    case Text => "text"
    case Bold => "bold"
    case Italic => "italic"
    case Code => "code"
    case Link => "link"
    case Image => "image"
  }

  /** The set of all string values the enumeration defines. */
  const Values: set<string> := {"text", "bold", "italic", "code", "link", "image"}

  /**
    Lookup of a kind by its string value (what `TextType(s)` does): the
    partial inverse of `Value`. For a string that names no kind `TextType(s)`
    raises `ValueError`; `None` stands for that exception.
   */
  function FromValue(s: string): (r: Option<TextType>)
    ensures r.Some? <==> s in Values
    ensures r.Some? ==> Value(r.value) == s
  {
    if s == "text" then Some(Text)
    else if s == "bold" then Some(Bold)
    else if s == "italic" then Some(Italic)
    else if s == "code" then Some(Code)
    else if s == "link" then Some(Link)
    else if s == "image" then Some(Image)
    else None
  }

  /** Every kind's value is one of the defined values, and lookup recovers the kind. */
  lemma ValueRoundTrip(t: TextType)
    ensures Value(t) in Values
    ensures FromValue(Value(t)) == Some(t)
  {
  }

  /** Distinct kinds have distinct values. */
  lemma ValueInjective(t: TextType, u: TextType)
    ensures Value(t) == Value(u) <==> t == u
  {
    ValueRoundTrip(t);
    ValueRoundTrip(u);
  }

  /**
    The member name of a kind, as it is declared in the enumeration: its
    string value spelled in capitals.
   */
  function Name(t: TextType): (r: string)
    ensures |r| == |Value(t)|
    ensures forall i :: 0 <= i < |r| ==> 'a' <= Value(t)[i] <= 'z' && r[i] as int == Value(t)[i] as int - 32
  {
    match t
    case Text => "TEXT"
    case Bold => "BOLD"
    case Italic => "ITALIC"
    case Code => "CODE"
    case Link => "LINK"
    case Image => "IMAGE"
  }

  /** `str()` of a kind: the class name, a dot and the member name. */
  function TypeString(t: TextType): (r: string)
    ensures |r| >= 11 && r[..9] == "TextType."
  {
    "TextType." + Name(t)
  }

  /** The two characters after "TextType." already tell the kinds apart. */
  lemma TypeStringKey(t: TextType, u: TextType)
    requires TypeString(t)[9..11] == TypeString(u)[9..11]
    ensures t == u
  {
    assert TypeString(t)[9] == Name(t)[0] && TypeString(t)[10] == Name(t)[1];
    assert TypeString(u)[9] == Name(u)[0] && TypeString(u)[10] == Name(u)[1];
  }

  /** An inline span: its text, its formatting kind and an optional url. */
  datatype TextNode = TextNode(text: string, textType: TextType, url: Option<string>)

  /**
    Construction: the three arguments are stored as given, `url` defaults to
    `None`, and no combination of kind and url is refused.
   */
  function MakeNode(text: string, textType: TextType, url: Option<string> := None): (n: TextNode)
    ensures n.text == text && n.textType == textType && n.url == url
  {
    TextNode(text, textType, url)
  }

  /** Construction never validates: a link without url and a bold span with one are both built. */
  lemma MakeNodeAcceptsAnyUrl(text: string, u: string)
    ensures MakeNode(text, Link).url == None
    ensures MakeNode(text, Image).url == None
    ensures MakeNode(text, Bold, Some(u)).url == Some(u)
    ensures MakeNode(text, Text, Some(u)).url == Some(u)
  {
  }

  /** The right-hand operand of a comparison: a text node, or an object of any other class. */
  datatype Obj = Node(node: TextNode) | Other

  /** What `__eq__` returns. */
  datatype EqResult = True | False | NotImplemented

  /**
    `__eq__`: `NotImplemented` when the other operand is not a text node,
    otherwise whether text, kind and url all agree.
   */
  function Eq(a: TextNode, o: Obj): (r: EqResult)
    ensures r == NotImplemented <==> o.Other?
    ensures o.Node? ==> (r == True <==> a == o.node)
  {
    match o
    case Other => NotImplemented
    case Node(b) =>
      if a.text == b.text && a.textType == b.textType && a.url == b.url then True else False
  }

  /** Comparing a node with anything else gives neither True nor False. */
  lemma EqOtherIsNotImplemented(a: TextNode)
    ensures Eq(a, Other) != True && Eq(a, Other) != False
  {
  }

  lemma EqReflexive(a: TextNode)
    ensures Eq(a, Node(a)) == True
  {
  }

  lemma EqSymmetric(a: TextNode, b: TextNode)
    ensures Eq(a, Node(b)) == Eq(b, Node(a))
  {
  }

  lemma EqTransitive(a: TextNode, b: TextNode, c: TextNode)
    requires Eq(a, Node(b)) == True && Eq(b, Node(c)) == True
    ensures Eq(a, Node(c)) == True
  {
  }

  /** The url takes part in equality even for kinds that never use it. */
  lemma EqDistinguishesUrl(text: string, t: TextType, u: string)
    ensures Eq(MakeNode(text, t), Node(MakeNode(text, t, Some(u)))) == False
  {
  }

  /** Formatting of the url field inside the debug string: a missing url prints as "None". */
  function UrlString(url: Option<string>): (r: string)
    ensures url.Some? ==> r == url.value
    ensures url.None? ==> r == "None"
  {
    match url
    case None => "None"
    case Some(u) => u
  }

  /** `__repr__`: "TextNode(" text ", " kind ", " url ")". */
  function Repr(n: TextNode): (r: string)
    ensures |r| == |n.text| + |TypeString(n.textType)| + |UrlString(n.url)| + 14
    ensures r[..9] == "TextNode(" && r[|r| - 1] == ')'
    ensures r[9..9 + |n.text|] == n.text && r[9 + |n.text|..11 + |n.text|] == ", "
    ensures r[11 + |n.text|..] == TypeString(n.textType) + ", " + UrlString(n.url) + ")"
  {
    var r := "TextNode(" + n.text + ", " + TypeString(n.textType) + ", " + UrlString(n.url) + ")";
    assert r == "TextNode(" + n.text + ", " + (TypeString(n.textType) + ", " + UrlString(n.url) + ")");
    r
  }

  /** The debug string depends on the three fields only, so equal nodes print alike. */
  lemma EqualNodesHaveEqualRepr(a: TextNode, b: TextNode)
    requires Eq(a, Node(b)) == True
    ensures Repr(a) == Repr(b)
  {
  }

  /**
    When two nodes print alike and one text is shorter, the longer text holds
    a comma where the shorter one ends.
   */
  lemma CommaWhereShorterTextEnds(a: TextNode, b: TextNode)
    requires |a.text| < |b.text| && Repr(a) == Repr(b)
    ensures b.text[|a.text|] == ','
  {
    var k := |a.text|;
    assert Repr(a)[9 + k..11 + k] == ", ";
    assert Repr(b)[9..9 + |b.text|][k] == b.text[k];
  }

  /**
    The debug string identifies the node as long as the text holds no comma
    and the url is not the literal string "None".
   */
  lemma ReprInjective(a: TextNode, b: TextNode)
    requires ',' !in a.text && ',' !in b.text
    requires a.url != Some("None") && b.url != Some("None")
    requires Repr(a) == Repr(b)
    ensures a == b
  {
    var s := Repr(a);
    // The first comma after the opening "TextNode(" ends the text.
    if |a.text| < |b.text| {
      CommaWhereShorterTextEnds(a, b);
      assert false;
    } else if |b.text| < |a.text| {
      CommaWhereShorterTextEnds(b, a);
      assert false;
    }
    assert a.text == s[9..9 + |a.text|] == b.text;
    var rest := s[11 + |a.text|..];
    var ta, tb := TypeString(a.textType), TypeString(b.textType);
    assert rest[9..11] == ta[9..11] == tb[9..11];
    TypeStringKey(a.textType, b.textType);
    var ua, ub := UrlString(a.url) + ")", UrlString(b.url) + ")";
    assert rest == ta + ", " + ua == (ta + ", ") + ua;
    assert rest == ta + ", " + ub == (ta + ", ") + ub;
    var tail := rest[|ta| + 2..];
    assert tail == ua == ub;
    assert UrlString(a.url) == tail[..|tail| - 1] == UrlString(b.url);
  }

  /** A url holding the text "None" prints exactly like a missing url. */
  lemma ReprConflatesNoneUrl(text: string, t: TextType)
    ensures Repr(MakeNode(text, t)) == Repr(MakeNode(text, t, Some("None")))
    ensures Eq(MakeNode(text, t), Node(MakeNode(text, t, Some("None")))) == False
  {
  }

  /**
    A comma in the text can make two different nodes print alike: the text
    can spell out the kind and url fields of a node of another kind.
   */
  lemma ReprConflatesCommaText(a: string, x: string, y: string, t: TextType, u: TextType)
    ensures Repr(MakeNode(a + ", " + TypeString(u) + ", " + x, t, Some(y)))
         == Repr(MakeNode(a, u, Some(x + ", " + TypeString(t) + ", " + y)))
    ensures Eq(MakeNode(a + ", " + TypeString(u) + ", " + x, t, Some(y)),
               Node(MakeNode(a, u, Some(x + ", " + TypeString(t) + ", " + y)))) == False
  {
    var sep, tu, tt := ", ", TypeString(u), TypeString(t);
    var p := "TextNode(" + a + sep + tu + sep;
    var q := x + sep + tt + sep + y;
    assert "TextNode(" + (a + sep + tu + sep + x) == p + x;
    assert p + x + sep + tt + sep + y == p + q;
  }
}
