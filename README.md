# TextNode: inline text spans of a static site generator

This project models, in Dafny, the inline text-span value type of the
StaticSiteGen static site generator (`src/textnode.py`):

- `TextType`, the closed enumeration of six formatting kinds (plain text,
  bold, italic, code, link, image), each tied to a fixed string value
  (`"text"`, `"bold"`, `"italic"`, `"code"`, `"link"`, `"image"`);
- `TextNode`, an immutable record of a span's `text`, its `text_type` and
  an optional `url`, with its constructor, its structural equality
  `__eq__` and its debug string `__repr__`.

Everything in the file is pure, so the model is one module `TextNodes` of
datatypes, functions and lemmas in `textnode.dfy`, plus a small `Wrappers`
module holding `Option`, which stands for Python's `Optional[str]`.

Modelling choices:

- The right-hand operand of `__eq__` is any Python object; it is modelled as
  `Obj = Node(TextNode) | Other`, and the result as
  `EqResult = True | False | NotImplemented`.
- `str(text_type)`, which the f-string of `__repr__` prints, is the default
  `str()` of a plain `Enum` member: `"TextType."` followed by the member
  name. A `url` of `None` prints as `"None"`.
- The constructor's default argument `url=None` is a default parameter of
  `MakeNode`.
- The docstring of `__eq__` promises a `bool` (`False` when the objects
  differ), but for an operand that is not a text node the code returns the
  `NotImplemented` marker; the model follows the code.

## Model

| member | source | states |
|---|---|---|
| `TextNodes.Value` | src/textnode.py:17-22 | the fixed string value of each kind is one of the six defined strings; that it is the right one and that lookup inverts it is `ValueRoundTrip` and `ValueInjective` |
| `TextNodes.Name` | src/textnode.py:17-22 | the member name of each kind, which the default `str()` prints, is its string value spelled in capitals, letter for letter |
| `TextNodes.FromValue` | src/textnode.py:17-22 | looking a kind up by string succeeds exactly for the six defined values, and the kind found has that value |
| `TextNodes.ValueRoundTrip` | src/textnode.py:17-22 | every kind's value is one of the six defined strings, and looking that string up gives back the same kind |
| `TextNodes.ValueInjective` | src/textnode.py:17-22 | two kinds have the same string value if and only if they are the same kind |
| `TextNodes.TypeString` | src/textnode.py:4-22 | the printed form of a kind starts with the class name `TextType.` followed by at least two more characters (the member name, by its definition) |
| `TextNodes.TypeStringKey` | src/textnode.py:17-22 | the first two letters of the member name, as printed, already tell the six kinds apart |
| `TextNodes.MakeNode` | src/textnode.py:34-45 | construction stores text, kind and url unchanged, with url `None` when it is omitted |
| `TextNodes.MakeNodeAcceptsAnyUrl` | src/textnode.py:34-45 | construction does no validation: a link or image without url and a text or bold span with a url are all built as given |
| `TextNodes.Eq` | src/textnode.py:47-64 | the result is `NotImplemented` exactly when the other operand is not a text node; for a text node it is `True` if and only if the two nodes are equal in all three fields |
| `TextNodes.EqOtherIsNotImplemented` | src/textnode.py:57-58 | comparing with a non-node never yields `True` or `False` |
| `TextNodes.EqReflexive` | src/textnode.py:60-64 | every node equals itself |
| `TextNodes.EqSymmetric` | src/textnode.py:60-64 | comparing `a` with `b` gives the same answer as comparing `b` with `a` |
| `TextNodes.EqTransitive` | src/textnode.py:60-64 | equality between nodes is transitive |
| `TextNodes.EqDistinguishesUrl` | src/textnode.py:60-64 | a node without url differs from the same node with any url, whatever its kind |
| `TextNodes.UrlString` | src/textnode.py:73 | how `{self.url}` formats: a present url prints as itself (the empty string included), a missing one as `None`; `ReprConflatesNoneUrl` shows the consequence |
| `TextNodes.Repr` | src/textnode.py:73 | the debug string is `TextNode(`, the text, `, `, the printed kind, `, `, the url or `None`, and `)`, with its length the sum of those parts |
| `TextNodes.EqualNodesHaveEqualRepr` | src/textnode.py:73 | nodes that compare equal print the same debug string |
| `TextNodes.ReprInjective` | src/textnode.py:73 | when neither text holds a comma and neither url is the string `None`, equal debug strings mean equal nodes |
| `TextNodes.ReprConflatesNoneUrl` | src/textnode.py:73 | a node whose url is the string `None` prints like the same node without url, though the two compare unequal |
| `TextNodes.ReprConflatesCommaText` | src/textnode.py:73 | a text that spells out `, <kind>, <url>` makes a node print like a different node of another kind, though the two compare unequal |

## Left out

- The conversion of a text node into a rendered leaf node (with its
  `InvalidTextType` error) is not part of `src/textnode.py`, so it is not
  modelled.
- Python's handling of the `NotImplemented` marker (trying the reflected
  comparison, then falling back to identity) belongs to the interpreter; the
  model stops at the marker `__eq__` returns.
- `!=` and hashing are derived by the interpreter from `__eq__` (defining
  `__eq__` alone also makes the class unhashable); the file defines neither,
  so neither is modelled.
- The `Enum` machinery (iteration, aliases, the metaclass) is not modelled;
  only the six members, their values, lookup by value and the default
  `str()` are.
- Python does not check the annotated argument types, so a caller could pass
  a non-string `text` or `url`, or a `text_type` that is not a `TextType`
  member (the string `"bold"`, say, which `__repr__` then prints as `bold`
  and `__eq__` finds unequal to a node of kind `TextType.BOLD`); the model
  types the fields as strings and the kind as `TextType`, so such a node
  cannot be expressed.
- Object identity and attribute reassignment from outside the class are not
  modelled; the code never mutates a node after construction, so nodes are
  values.
