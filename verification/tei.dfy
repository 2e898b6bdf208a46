/** The TEI document tree and the read-only operations on it: local tag names,
    the two-pass element locator, canonical text extraction, the nearest
    ancestor with a given tag, NCName sanitising and the witness siglum. */
module Tei {
  import opened Basics
  import opened Strings

  const XmlNamespace: string := "http://www.w3.org/XML/1998/namespace"

  /** One element of a parsed, include-free document. `tag` is the full tag,
      `{uri}local` for a namespaced element; `nsmap` holds the namespace
      declarations in scope at the element (key None is the default
      namespace); an absent text or tail is the empty string. */
  datatype Node = Node(
    tag: string,
    attrs: map<string, string>,
    nsmap: map<Option<string>, string>,
    text: string,
    tail: string,
    children: seq<Node>)

  // ---------------------------------------------------------------------------
  // Local names: `re.sub(r"{.*}", "", tag)`

  /** Index of the first newline of `s`, or `|s|` (the regex `.` stops there). */
  function LineEnd(s: string): (n: nat)
    ensures n <= |s| && (n < |s| ==> s[n] == '\n')
    ensures forall i :: 0 <= i < n ==> s[i] != '\n'
  {
    if s == [] then 0
    else if s[0] == '\n' then 0
    else 1 + LineEnd(s[1..])
  }

  /** The largest `j` with `1 <= j < k` and `s[j] == '}'`, or 0 if there is none:
      where a greedy `{.*}` starting at position 0 ends. */
  function CloseBrace(s: string, k: nat): (j: nat)
    requires k <= |s|
    ensures j == 0 || (1 <= j < k && s[j] == '}')
    ensures forall i :: j < i < k && 1 <= i ==> s[i] != '}'
  {
    if k <= 1 then 0
    else if s[k - 1] == '}' then k - 1
    else CloseBrace(s, k - 1)
  }

  /** The tag with every `{...}` group removed, scanning left to right and
      letting each group run to the last `}` on its line. */
  function LocalName(tag: string): (r: string)
    ensures |r| <= |tag|
    ensures (forall i :: 0 <= i < |tag| ==> tag[i] != '{') ==> r == tag
    decreases |tag|
  {
    if tag == [] then []
    else
      var j := if tag[0] == '{' then CloseBrace(tag, LineEnd(tag)) else 0;
      if j > 0 then LocalName(tag[j + 1..])
      else [tag[0]] + LocalName(tag[1..])
  }

  /** The namespace part of a Clark-notation tag is removed and the local
      part is kept. */
  lemma LocalNameOfQualified(uri: string, local: string)
    requires forall i :: 0 <= i < |uri| ==> uri[i] != '\n'
    requires forall i :: 0 <= i < |local| ==> local[i] != '{' && local[i] != '}'
    ensures LocalName("{" + uri + "}" + local) == local
  {
    var t := "{" + uri + "}" + local;
    var c := |uri| + 1;
    QualifiedGroupEnd(uri, local);
    assert t[0] == '{' && t[c + 1..] == local;
  }

  /** In `{uri}local` the greedy group starting at 0 ends at the brace after
      the uri. */
  lemma QualifiedGroupEnd(uri: string, local: string)
    requires forall i :: 0 <= i < |uri| ==> uri[i] != '\n'
    requires forall i :: 0 <= i < |local| ==> local[i] != '}'
    ensures var t := "{" + uri + "}" + local;
            CloseBrace(t, LineEnd(t)) == |uri| + 1
  {
    var t := "{" + uri + "}" + local;
    var c := |uri| + 1;
    assert t[c] == '}';
    forall i | 1 <= i < c ensures t[i] != '\n' {
      assert t[i] == uri[i - 1];
    }
    var e := LineEnd(t);
    assert c < e;
    forall i | c < i < |t| ensures t[i] != '}' {
      assert t[i] == local[i - c - 1];
    }
  }

  // ---------------------------------------------------------------------------
  // Document order

  /** The proper descendants of `n` under its first `k` children, in document
      order (pre-order). */
  function DescendantsUpTo(n: Node, k: nat): (ds: seq<Node>)
    requires k <= |n.children|
    decreases n, k
  {
    if k == 0 then []
    else
      var c := n.children[k - 1];
      DescendantsUpTo(n, k - 1) + [c] + DescendantsUpTo(c, |c.children|)
  }

  /** All proper descendants of `n` in document order. */
  function Descendants(n: Node): seq<Node> {
    DescendantsUpTo(n, |n.children|)
  }

  /** Every descendant is strictly smaller than its ancestor. */
  lemma {:induction false} DescendantsBelow(n: Node, k: nat)
    requires k <= |n.children|
    ensures forall d :: d in DescendantsUpTo(n, k) ==> d < n
    decreases n, k
  {
    if k > 0 {
      var c := n.children[k - 1];
      DescendantsBelow(n, k - 1);
      DescendantsBelow(c, |c.children|);
    }
  }

  lemma {:induction false} DescendantsUpToSameChildren(n: Node, m: Node, k: nat)
    requires n.children == m.children && k <= |n.children|
    ensures DescendantsUpTo(n, k) == DescendantsUpTo(m, k)
  {
    if k > 0 {
      DescendantsUpToSameChildren(n, m, k - 1);
    }
  }

  /** The first child comes first in document order. */
  lemma {:induction false} FirstChildFirst(n: Node, k: nat)
    requires 1 <= k <= |n.children|
    ensures |DescendantsUpTo(n, k)| >= 1 && DescendantsUpTo(n, k)[0] == n.children[0]
  {
    if k > 1 {
      FirstChildFirst(n, k - 1);
    }
  }

  // ---------------------------------------------------------------------------
  // The element locator

  /** An attribute-equality predicate `[@name='value']`. */
  datatype AttrTest = AttrTest(name: string, value: string)

  /** One descendant step `.//[prefix:]name[@attr='value']`. */
  datatype Step = Step(prefix: Option<string>, name: string, attr: Option<AttrTest>)

  /** What a step compiles to: the full tag an element must have, and the
      attribute it must carry. */
  datatype Test = Test(tag: string, attr: Option<AttrTest>)

  /** The namespace table of the namespaced pass: the element's in-scope
      declarations, with `xml` bound to the XML namespace. */
  function Namespaces(n: Node): (nss: map<Option<string>, string>)
    ensures Some("xml") in nss && nss[Some("xml")] == XmlNamespace
  {
    n.nsmap[Some("xml") := XmlNamespace]
  }

  /** The namespace an unprefixed name is resolved in: the one bound to the
      key None, else to the empty prefix, when that binding is non-empty. */
  function DefaultNamespace(nss: map<Option<string>, string>): Option<string> {
    if None in nss && nss[None] != "" then Some(nss[None])
    else if Some("") in nss && nss[Some("")] != "" then Some(nss[Some("")])
    else None
  }

  function Qualify(ns: Option<string>, name: string): string {
    if ns.Some? then "{" + ns.value + "}" + name else name
  }

  /** Compiles a step against a namespace table (None: the bare pass, which
      has no table). A prefix the table does not bind is a syntax error. */
  function Compile(step: Step, namespaces: Option<map<Option<string>, string>>): (r: Result<Test>)
    ensures r.Err? <==> step.prefix.Some? && (namespaces.None? || step.prefix !in namespaces.value)
    ensures r.Ok? ==> r.value.attr == step.attr
    ensures namespaces.None? && r.Ok? ==> r.value.tag == step.name
  {
    match step.prefix
    case Some(p) =>
      if namespaces.Some? && Some(p) in namespaces.value then
        Ok(Test("{" + namespaces.value[Some(p)] + "}" + step.name, step.attr))
      else Err(QuerySyntax)
    case None =>
      var d := if namespaces.Some? then DefaultNamespace(namespaces.value) else None;
      Ok(Test(Qualify(d, step.name), step.attr))
  }

  predicate Matches(n: Node, t: Test) {
    && n.tag == t.tag
    && (t.attr.Some? ==> t.attr.value.name in n.attrs && n.attrs[t.attr.value.name] == t.attr.value.value)
  }

  /** The first element of `ds` that passes `t`. */
  function First(ds: seq<Node>, t: Test): Option<Node> {
    if ds == [] then None
    else if Matches(ds[0], t) then Some(ds[0])
    else First(ds[1..], t)
  }

  /** The search finds nothing exactly when nothing matches, and otherwise
      the earliest match. */
  lemma {:induction false} FirstMatch(ds: seq<Node>, t: Test)
    ensures First(ds, t).None? <==> forall i :: 0 <= i < |ds| ==> !Matches(ds[i], t)
    ensures First(ds, t).Some? ==>
              exists i :: 0 <= i < |ds| && ds[i] == First(ds, t).value && Matches(ds[i], t)
                          && forall j :: 0 <= j < i ==> !Matches(ds[j], t)
  {
    if ds != [] && !Matches(ds[0], t) {
      FirstMatch(ds[1..], t);
      assert forall i :: 1 <= i < |ds| ==> ds[i] == ds[1..][i - 1];
      if First(ds, t).Some? {
        var i :| 0 <= i < |ds[1..]| && ds[1..][i] == First(ds, t).value && Matches(ds[1..][i], t)
                 && forall j :: 0 <= j < i ==> !Matches(ds[1..][j], t);
        assert ds[i + 1] == First(ds, t).value;
      }
    }
  }

  /** Every element of `ds` that passes `t`, in order. */
  function All(ds: seq<Node>, t: Test): (r: seq<Node>)
    ensures |r| <= |ds|
  {
    if ds == [] then []
    else (if Matches(ds[0], t) then [ds[0]] else []) + All(ds[1..], t)
  }

  /** The filter keeps exactly the elements of `ds` that pass `t`. */
  lemma {:induction false} AllMembers(ds: seq<Node>, t: Test)
    ensures forall x :: x in All(ds, t) ==> x in ds && Matches(x, t)
    ensures forall x :: x in ds && Matches(x, t) ==> x in All(ds, t)
  {
    if ds != [] {
      AllMembers(ds[1..], t);
      assert ds == [ds[0]] + ds[1..];
    }
  }

  /** Filtering distributes over concatenation: the matches of `a + b` are
      the matches of `a` followed by those of `b`. */
  lemma {:induction false} AllConcat(a: seq<Node>, b: seq<Node>, t: Test)
    ensures All(a + b, t) == All(a, t) + All(b, t)
    decreases |a|
  {
    if a == [] {
      assert a + b == b;
    } else {
      assert (a + b)[1..] == a[1..] + b;
      AllConcat(a[1..], b, t);
    }
  }

  /** A single element is kept exactly when it matches. */
  lemma AllSingle(x: Node, t: Test)
    ensures All([x], t) == if Matches(x, t) then [x] else []
  {
    assert [x][1..] == [];
  }

  /** `find_element`: the first descendant found by the namespaced pass; only
      if that finds nothing, the first found by the bare pass, a bare pass
      that cannot compile giving None. An absent document fails the
      locator's assertion; the namespaced pass's syntax error escapes. */
  function FindElement(doc: Option<Node>, step: Step): (r: Result<Option<Node>>)
    ensures doc.None? ==> r == Err(AssertionFailed)
    ensures doc.Some? ==> (r.Err? <==> Compile(step, Some(Namespaces(doc.value))).Err?)
    ensures doc.Some? && step.prefix.None? ==> r.Ok?
  {
    if doc.None? then Err(AssertionFailed)
    else
      var ds := Descendants(doc.value);
      var nsTest :- Compile(step, Some(Namespaces(doc.value)));
      var found := First(ds, nsTest);
      if found.Some? then Ok(found)
      else match Compile(step, None)
        case Err(_) => Ok(None)
        case Ok(bareTest) => Ok(First(ds, bareTest))
  }

  /** What the lookup finds is a descendant, and whatever the namespaced
      pass finds takes precedence. */
  lemma FindElementFound(doc: Option<Node>, step: Step)
    ensures var r := FindElement(doc, step);
            r.Ok? && r.value.Some? ==> r.value.value in Descendants(doc.value)
    ensures var r := FindElement(doc, step);
            r.Ok? ==>
              var nsTest := Compile(step, Some(Namespaces(doc.value))).value;
              First(Descendants(doc.value), nsTest).Some? ==> r.value == First(Descendants(doc.value), nsTest)
    ensures var r := FindElement(doc, step);
            r.Ok? && First(Descendants(doc.value), Compile(step, Some(Namespaces(doc.value))).value).None? ==>
              if Compile(step, None).Ok? then r.value == First(Descendants(doc.value), Compile(step, None).value)
              else r.value.None?
  {
    if doc.Some? {
      var ds := Descendants(doc.value);
      var nsTest := Compile(step, Some(Namespaces(doc.value)));
      if nsTest.Ok? {
        FirstMatch(ds, nsTest.value);
        if Compile(step, None).Ok? {
          FirstMatch(ds, Compile(step, None).value);
        }
      }
    }
  }

  /** `find_elements`: all matches of the namespaced pass followed by all
      matches of the bare pass, duplicates included. An absent document has
      no attributes to look up; a syntax error in either pass escapes. */
  function FindElements(doc: Option<Node>, step: Step): (r: Result<seq<Node>>)
    ensures doc.None? ==> r == Err(AttributeMissing)
    ensures doc.Some? && step.prefix.None? ==> r.Ok?
    ensures doc.Some? && step.prefix.Some? ==> r == Err(QuerySyntax)
    ensures r.Ok? ==> forall x :: x in r.value ==> x in Descendants(doc.value)
    ensures doc.Some? && step.prefix.None? ==>
              r == Ok(All(Descendants(doc.value), Compile(step, Some(Namespaces(doc.value))).value)
                      + All(Descendants(doc.value), Compile(step, None).value))
  {
    if doc.None? then Err(AttributeMissing)
    else
      var ds := Descendants(doc.value);
      var nsTest :- Compile(step, Some(Namespaces(doc.value)));
      var bareTest :- Compile(step, None);
      AllMembers(ds, nsTest);
      AllMembers(ds, bareTest);
      Ok(All(ds, nsTest) + All(ds, bareTest))
  }

  /** On an element without a default namespace both passes look for the
      same tag, so every match is reported twice. */
  lemma FindElementsTwice(n: Node, step: Step)
    requires step.prefix.None? && DefaultNamespace(Namespaces(n)) == None
    ensures var t := Test(step.name, step.attr);
            FindElements(Some(n), step) == Ok(All(Descendants(n), t) + All(Descendants(n), t))
  {
  }

  /** An element without children matches nothing: for an unprefixed step
      the single lookup gives None and the multiple lookup the empty
      sequence, never an error. */
  lemma {:induction false} LeafFindsNothing(n: Node, step: Step)
    requires n.children == [] && step.prefix.None?
    ensures FindElement(Some(n), step) == Ok(None)
    ensures FindElements(Some(n), step) == Ok([])
  {
    assert Descendants(n) == [];
    var nsTest := Compile(step, Some(Namespaces(n))).value;
    var bareTest := Compile(step, None).value;
    assert FindElements(Some(n), step) == Ok(All(Descendants(n), nsTest) + All(Descendants(n), bareTest));
    assert All(Descendants(n), nsTest) == [] && All(Descendants(n), bareTest) == [];
    assert All(Descendants(n), nsTest) + All(Descendants(n), bareTest) == [];
  }

  /** A prefixed step on an element without children: the single lookup
      fails exactly when the element's declarations do not bind the prefix
      and otherwise gives None, while the multiple lookup always fails, its
      bare pass being unable to compile. */
  lemma {:induction false} LeafPrefixedQuery(n: Node, step: Step)
    requires n.children == [] && step.prefix.Some?
    ensures FindElement(Some(n), step).Err? <==> step.prefix !in Namespaces(n)
    ensures FindElement(Some(n), step).Ok? ==> FindElement(Some(n), step).value == None
    ensures FindElements(Some(n), step) == Err(QuerySyntax)
  {
    assert Descendants(n) == [];
  }

  /** A prefixed step that the element's declarations bind but the bare pass
      cannot compile: when the namespaced pass finds nothing the lookup
      quietly gives None. */
  lemma {:induction false} BareSyntaxErrorIsNone(n: Node, step: Step)
    requires step.prefix.Some? && step.prefix in Namespaces(n)
    requires forall d :: d in Descendants(n) ==> !Matches(d, Compile(step, Some(Namespaces(n))).value)
    ensures FindElement(Some(n), step) == Ok(None)
  {
    var t := Compile(step, Some(Namespaces(n))).value;
    assert forall i :: 0 <= i < |Descendants(n)| ==> !Matches(Descendants(n)[i], t);
    FirstMatch(Descendants(n), t);
  }

  // ---------------------------------------------------------------------------
  // Text extraction

  /** Elements that carry no canonical text: punctuation, witness details and
      editorial notes. */
  const Excluded: seq<string> := ["pc", "witDetail", "note"]

  const LemStep := Step(None, "lem", None)
  const RdgStep := Step(None, "rdg", None)

  /** The reading an apparatus entry resolves to: its first `lem`
      descendant, else its first `rdg` descendant. */
  function AppReading(n: Node): (r: Option<Node>)
    ensures r.Some? ==> r.value < n
  {
    FindElementFound(Some(n), LemStep);
    FindElementFound(Some(n), RdgStep);
    DescendantsBelow(n, |n.children|);
    var lem := FindElement(Some(n), LemStep).value;
    if lem.Some? then lem else FindElement(Some(n), RdgStep).value
  }

  /** The text the general case assembles before stripping: the element's
      text, each child's text (with its tail) after one space, and the
      element's own tail after one space when asked for and non-empty. */
  function Assembled(n: Node, includeTail: bool): string
    decreases n, 2
  {
    n.text + ChildrenText(n, |n.children|)
      + (if includeTail && n.tail != "" then " " + n.tail else "")
  }

  /** The canonical text of an element (`extract_text` of a present node). */
  function Text(n: Node, includeTail: bool): (r: string)
    ensures IsStripped(r)
    decreases n, 3
  {
    var tag := LocalName(n.tag);
    if tag in Excluded then ""
    else if tag == "app" then
      var reading := AppReading(n);
      if reading.Some? then Text(reading.value, true) else ""
    else Strip(Assembled(n, includeTail))
  }

  /** " " + text of each of the first `k` children, tails included. */
  function ChildrenText(n: Node, k: nat): string
    requires k <= |n.children|
    decreases n, 1, k
  {
    if k == 0 then ""
    else ChildrenText(n, k - 1) + " " + Text(n.children[k - 1], true)
  }

  /** The text of an optional element; an absent one has the empty text. */
  function TextOf(node: Option<Node>, includeTail: bool): (r: string)
    ensures node.None? ==> r == ""
    ensures IsStripped(r)
  {
    if node.None? then "" else Text(node.value, includeTail)
  }

  /** `extract_text(node, include_tail)`. */
  method ExtractText(node: Option<Node>, includeTail: bool) returns (r: string)
    ensures node.None? ==> r == ""
    ensures node.Some? ==> r == Text(node.value, includeTail)
  {
    if node.None? {
      return "";
    }
    r := ExtractNode(node.value, includeTail);
  }

  method ExtractNode(n: Node, includeTail: bool) returns (r: string)
    ensures r == Text(n, includeTail)
    decreases n, 2
  {
    var tag := LocalName(n.tag);
    if tag in Excluded {
      return "";
    }
    if tag == "app" {
      var lem := FindElement(Some(n), LemStep).value;
      if lem.None? {
        lem := FindElement(Some(n), RdgStep).value;
      }
      assert lem == AppReading(n);
      if lem.None? {
        return "";
      }
      r := ExtractNode(lem.value, true);
      return;
    }
    r := ExtractAssembled(n, includeTail);
  }

  /** The general case: the element's text, then each child's text after one
      space, then the tail after one space if wanted, stripped. */
  method ExtractAssembled(n: Node, includeTail: bool) returns (r: string)
    ensures r == Strip(Assembled(n, includeTail))
    decreases n, 1
  {
    var text := ExtractChildren(n);
    if includeTail && n.tail != "" {
      text := text + (" " + n.tail);
    }
    assert text == Assembled(n, includeTail);
    r := Strip(text);
  }

  /** The element's text followed by the text of each child, tails included,
      each after one space. */
  method ExtractChildren(n: Node) returns (text: string)
    ensures text == n.text + ChildrenText(n, |n.children|)
    decreases n, 0
  {
    var rest := "";
    for i := 0 to |n.children|
      invariant rest == ChildrenText(n, i)
    {
      var child := n.children[i];
      assert child in n.children;
      var t := ExtractNode(child, true);
      ChildrenTextNext(n, i, t);
      rest := rest + " " + t;
    }
    text := n.text + rest;
  }

  lemma ChildrenTextNext(n: Node, i: nat, t: string)
    requires i < |n.children| && t == Text(n.children[i], true)
    ensures ChildrenText(n, i + 1) == ChildrenText(n, i) + " " + t
  {
  }

  /** Punctuation, witness details and notes contribute nothing, whatever
      their text, children and tail. */
  lemma ExcludedIsSilent(n: Node, text: string, tail: string, children: seq<Node>, includeTail: bool)
    requires LocalName(n.tag) in Excluded
    ensures Text(n.(text := text, tail := tail, children := children), includeTail) == ""
  {
  }

  /** An apparatus entry's own tail and text never contribute: only the
      reading it resolves to does. */
  lemma AppIgnoresOwnText(n: Node, text: string, tail: string, includeTail: bool)
    requires LocalName(n.tag) == "app"
    ensures Text(n.(text := text, tail := tail), includeTail) == Text(n, true)
  {
    SameScopeSameReading(n, n.(text := text, tail := tail));
  }

  /** The reading depends only on the children and the namespaces in scope. */
  lemma SameScopeSameReading(n: Node, m: Node)
    requires m.children == n.children && m.nsmap == n.nsmap
    ensures AppReading(m) == AppReading(n)
  {
    DescendantsUpToSameChildren(n, m, |n.children|);
    assert Namespaces(m) == Namespaces(n);
  }

  /** An apparatus entry whose first child is its lemma resolves to the
      lemma (with the lemma's tail), whatever variant readings follow. */
  lemma AppWithLeadingLemma(n: Node, includeTail: bool)
    requires LocalName(n.tag) == "app" && |n.children| >= 1
    requires n.children[0].tag == Qualify(DefaultNamespace(Namespaces(n)), "lem")
    ensures Text(n, includeTail) == Text(n.children[0], true)
  {
    LeadingLemmaRead(n);
    assert LocalName(n.tag) !in Excluded;
  }

  lemma LeadingLemmaRead(n: Node)
    requires |n.children| >= 1
    requires n.children[0].tag == Qualify(DefaultNamespace(Namespaces(n)), "lem")
    ensures AppReading(n) == Some(n.children[0])
  {
    FirstChildFirst(n, |n.children|);
    var ds := Descendants(n);
    var t := Compile(LemStep, Some(Namespaces(n))).value;
    assert Matches(ds[0], t);
    assert First(ds, t) == Some(n.children[0]);
    assert FindElement(Some(n), LemStep) == Ok(Some(n.children[0]));
  }

  /** Without a tail, asking for the tail changes nothing. */
  lemma NoTailNoDifference(n: Node)
    requires n.tail == ""
    ensures Text(n, true) == Text(n, false)
  {
  }

  /** A childless, tail-less element in the general case yields its own text,
      stripped. */
  lemma LeafText(n: Node, includeTail: bool)
    requires LocalName(n.tag) !in Excluded && LocalName(n.tag) != "app"
    requires n.children == [] && n.tail == ""
    ensures Text(n, includeTail) == Strip(n.text)
  {
    assert Assembled(n, includeTail) == n.text;
  }

  // ---------------------------------------------------------------------------
  // Ancestors, through index paths from the root

  /** A position in the tree: the child indices from the root. */
  type Path = seq<nat>

  /** The element at `p` below `root`, if `p` leads anywhere. */
  function At(root: Node, p: Path): Option<Node>
    decreases p
  {
    if p == [] then Some(root)
    else if p[0] < |root.children| then At(root.children[p[0]], p[1..])
    else None
  }

  lemma {:induction false} AtPrefix(root: Node, p: Path, k: nat)
    requires At(root, p).Some? && k <= |p|
    ensures At(root, p[..k]).Some?
    decreases p
  {
    if k > 0 {
      assert p[..k][1..] == p[1..][..k - 1];
      AtPrefix(root.children[p[0]], p[1..], k - 1);
    }
  }

  /** The element at `p` exists and its local name is `tag`. */
  predicate TaggedAt(root: Node, p: Path, tag: string) {
    At(root, p).Some? && LocalName(At(root, p).value.tag) == tag
  }

  /** `find_parent`: walks from the element up the parent links to the
      nearest element, the starting one included, whose local name is `tag`. */
  method FindParent(root: Node, element: Option<Path>, tag: string) returns (r: Option<Path>)
    requires element.Some? ==> At(root, element.value).Some?
    ensures r.Some? ==> element.Some? && r.value <= element.value && TaggedAt(root, r.value, tag)
    ensures r.Some? ==> forall k :: |r.value| < k <= |element.value| ==> !TaggedAt(root, element.value[..k], tag)
    ensures r.None? && element.Some? ==> forall k :: 0 <= k <= |element.value| ==> !TaggedAt(root, element.value[..k], tag)
  {
    if element.None? {
      return None;
    }
    var p := element.value;
    var current := element;
    while current.Some?
      invariant current.Some? ==> |current.value| <= |p| && current.value == p[..|current.value|]
      invariant current.Some? ==> At(root, current.value).Some?
      invariant forall k :: (if current.Some? then |current.value| else -1) < k <= |p| ==> !TaggedAt(root, p[..k], tag)
      decreases if current.Some? then |current.value| + 1 else 0
    {
      var q := current.value;
      if LocalName(At(root, q).value.tag) == tag {
        assert p[..|q|] == q;
        return current;
      }
      if q == [] {
        current := None;
      } else {
        var parent := q[..|q| - 1];
        assert parent == p[..|q| - 1];
        AtPrefix(root, p, |q| - 1);
        current := Some(parent);
      }
    }
    return None;
  }

  // ---------------------------------------------------------------------------
  // NCName sanitising

  /** Characters that may not appear in an XML NCName and are replaced. */
  const InvalidNcChars: string := "!\"#$%&'()*+/:;<=>?@[\\]^,{|}~` "

  /** One character of `make_nc_name`. */
  function NcChar(c: char): (d: char)
    ensures d !in InvalidNcChars
    ensures d == (if c in InvalidNcChars then '_' else c)
  {
    if c in InvalidNcChars then '_' else c
  }

  /** `make_nc_name`: each invalid character becomes `_`, every other
      character is kept. */
  function MakeNcName(s: string): (r: string)
    ensures |r| == |s|
    ensures forall i :: 0 <= i < |s| ==> r[i] == (if s[i] in InvalidNcChars then '_' else s[i])
    ensures forall i :: 0 <= i < |r| ==> r[i] !in InvalidNcChars
  {
    seq(|s|, i requires 0 <= i < |s| => NcChar(s[i]))
  }

  /** Sanitising an already sanitised name changes nothing. */
  lemma MakeNcNameIdempotent(s: string)
    ensures MakeNcName(MakeNcName(s)) == MakeNcName(s)
  {
  }

  // ---------------------------------------------------------------------------
  // Witness siglum

  const TitleStmtStep := Step(None, "titleStmt", None)
  const TitleStep := Step(None, "title", None)

  /** `get_siglum`: the `n` attribute of the first `title` under the first
      `titleStmt`, or "" when there is no such title or it has no `n`.
      Without a `titleStmt` the second lookup is made on an absent element
      and fails its assertion. */
  function GetSiglum(doc: Node): (r: Result<string>)
    ensures r.Err? <==> FindElement(Some(doc), TitleStmtStep).value.None?
    ensures r.Err? ==> r.error == AssertionFailed
    ensures r.Ok? ==>
              var title := FindElement(FindElement(Some(doc), TitleStmtStep).value, TitleStep).value;
              r.value == if title.Some? && "n" in title.value.attrs then title.value.attrs["n"] else ""
    ensures r.Ok? && r.value != "" ==>
              exists t :: t in Descendants(doc) && "n" in t.attrs && t.attrs["n"] == r.value
  {
    var statement := FindElement(Some(doc), TitleStmtStep).value;
    var title :- FindElement(statement, TitleStep);
    if title.None? then Ok("")
    else
      var t := title.value;
      assert t in Descendants(doc) by {
        FindElementFound(Some(doc), TitleStmtStep);
        FindElementFound(statement, TitleStep);
        DescendantsTransitive(doc, statement.value, t);
      }
      Ok(if "n" in t.attrs then t.attrs["n"] else "")
  }

  /** A descendant of a descendant is a descendant. */
  lemma {:induction false} DescendantsTransitive(a: Node, b: Node, c: Node)
    requires b in Descendants(a) && c in Descendants(b)
    ensures c in Descendants(a)
  {
    DescendantsUpToTransitive(a, |a.children|, b, c);
  }

  lemma {:induction false} DescendantsUpToTransitive(a: Node, k: nat, b: Node, c: Node)
    requires k <= |a.children|
    requires b in DescendantsUpTo(a, k) && c in Descendants(b)
    ensures c in DescendantsUpTo(a, k)
    decreases a, k
  {
    var ch := a.children[k - 1];
    if b in DescendantsUpTo(a, k - 1) {
      DescendantsUpToTransitive(a, k - 1, b, c);
    } else if b == ch {
    } else {
      assert b in Descendants(ch);
      DescendantsUpToTransitive(ch, |ch.children|, b, c);
    }
  }
}
