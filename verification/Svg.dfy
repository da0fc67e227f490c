/** The SVG sanitizer's tree walk, from the parsed tree to the cleaned one. */
module Svg {
  import opened Bytes

  const SVG_NS := "http://www.w3.org/2000/svg"

  const ALLOWED_TAGS: set<string> := {
    "svg", "g", "path", "circle", "ellipse", "rect", "line", "polyline", "polygon", "text", "tspan",
    "defs", "linearGradient", "radialGradient", "stop", "use", "title", "desc"
  }

  const ALLOWED_ATTRS: set<string> := {
    "d", "cx", "cy", "r", "rx", "ry", "x", "y", "x1", "y1", "x2", "y2", "width", "height",
    "points", "transform", "viewBox", "offset",
    "fill", "stroke", "stroke-width", "opacity", "fill-opacity", "stroke-opacity",
    "stroke-linecap", "stroke-linejoin", "stroke-dasharray", "font-family", "font-size", "text-anchor",
    "stop-color", "stop-opacity", "gradientUnits", "gradientTransform", "spreadMethod",
    "id", "class", "xmlns", "version", "preserveAspectRatio"
  }

  /** An attribute dictionary, in insertion order. */
  type Attrs = seq<(string, string)>

  /** A parsed element; absent text is "". */
  datatype Element = Element(tag: string, attrs: Attrs, text: string, tail: string, kids: seq<Element>)

  /** What a walk of a node comes to: a cleaned node, nothing, or the exception. */
  datatype Walked = Clean(e: Element) | Dropped | Rejected

  // ----- Names and attributes -----

  /** The name after the namespace in braces; None where there is no closing brace. */
  function Localname(tag: string): (local: Option<string>)
  {
    if tag != "" && tag[0] == '{' then AfterBrace(tag[1..]) else Some(tag)
  }

  function AfterBrace(s: string): (r: Option<string>)
  {
    if s == "" then None else if s[0] == '}' then Some(s[1..]) else AfterBrace(s[1..])
  }

  /** Lower case, in ASCII. */
  function Lower(s: string): (r: string)
    ensures |r| == |s|
  {
    if s == "" then ""
    else [if 'A' <= s[0] <= 'Z' then (s[0] as int + 32) as char else s[0]] + Lower(s[1..])
  }

  predicate HrefOk(value: string)
  {
    value != "" && value[0] == '#' && '\n' !in value && '\r' !in value
  }

  datatype Verdict = Keep | Skip | Raise

  /** `_check_attr` on the local name of an attribute. */
  function CheckAttr(name: string, value: string): (v: Verdict)
  {
    var ci := Lower(name);
    if "on" <= ci then Raise
    else if ci == "style" then Skip
    else if ci == "href" then (if HrefOk(value) then Keep else Raise)
    else if name in ALLOWED_ATTRS then Keep
    else Skip
  }

  /** Assignment to a dictionary: in place for a key that is there, at the end for a new one. */
  function DictSet(d: Attrs, k: string, v: string): (r: Attrs)
  {
    if d == [] then [(k, v)]
    else if d[0].0 == k then [(k, v)] + d[1..]
    else [d[0]] + DictSet(d[1..], k, v)
  }

  /** The loop over the attributes, from the `i`-th on; None stands for the exception. */
  function CleanAttrs(attrs: Attrs, i: nat, out: Attrs): (r: Option<Attrs>)
    requires i <= |attrs|
    decreases |attrs| - i
  {
    if i == |attrs| then Some(out)
    else match Localname(attrs[i].0)
      case None => None
      case Some(name) =>
        match CheckAttr(name, attrs[i].1)
        case Raise => None
        case Skip => CleanAttrs(attrs, i + 1, out)
        case Keep => CleanAttrs(attrs, i + 1, DictSet(out, name, attrs[i].1))
  }

  // ----- The walk -----

  function Walk(node: Element): (r: Walked)
    decreases node, 1
  {
    match Localname(node.tag)
    case None => Rejected
    case Some(local) =>
      if local == "script" || local == "foreignObject" then Rejected
      else if local !in ALLOWED_TAGS then Dropped
      else match CleanAttrs(node.attrs, 0, [])
        case None => Rejected
        case Some(attrs) =>
          match WalkKids(node.kids)
          case None => Rejected
          case Some(kids) => Clean(Element("{" + SVG_NS + "}" + local, attrs, node.text, node.tail, kids))
  }

  /** The cleaned children, in order, without the dropped ones; None when one is rejected. */
  function WalkKids(kids: seq<Element>): (r: Option<seq<Element>>)
    decreases kids, 0
  {
    if kids == [] then Some([])
    else
      match WalkKids(kids[..|kids| - 1])
      case None => None
      case Some(front) =>
        match Walk(kids[|kids| - 1])
        case Rejected => None
        case Dropped => Some(front)
        case Clean(e) => Some(front + [e])
  }

  /** `_walk`, with its loops over attributes and children. */
  method WalkNode(node: Element) returns (r: Walked)
    ensures r == Walk(node)
    decreases node
  {
    hide CheckAttr, DictSet;
    var name := Localname(node.tag);
    if name.None? {
      return Rejected;
    }
    var local := name.value;
    if local == "script" || local == "foreignObject" {
      return Rejected;
    }
    if local !in ALLOWED_TAGS {
      return Dropped;
    }
    var cleaned: Attrs, i := [], 0;
    while i < |node.attrs|
      invariant 0 <= i <= |node.attrs|
      invariant CleanAttrs(node.attrs, 0, []) == CleanAttrs(node.attrs, i, cleaned)
    {
      var attr := Localname(node.attrs[i].0);
      if attr.None? {
        return Rejected;
      }
      match CheckAttr(attr.value, node.attrs[i].1) {
        case Raise => return Rejected;
        case Skip =>
        case Keep => cleaned := DictSet(cleaned, attr.value, node.attrs[i].1);
      }
      i := i + 1;
    }
    var kids: seq<Element>, j := [], 0;
    while j < |node.kids|
      invariant 0 <= j <= |node.kids| && WalkKids(node.kids[..j]) == Some(kids)
    {
      assert node.kids[..j + 1][..j] == node.kids[..j];
      var child := WalkNode(node.kids[j]);
      if child.Rejected? {
        RejectedKid(node.kids, j);
        return Rejected;
      }
      if child.Clean? {
        kids := kids + [child.e];
      }
      j := j + 1;
    }
    assert node.kids[..j] == node.kids;
    return Clean(Element("{" + SVG_NS + "}" + local, cleaned, node.text, node.tail, kids));
  }

  lemma {:induction false} RejectedKid(kids: seq<Element>, j: nat)
    requires j < |kids| && Walk(kids[j]).Rejected?
    ensures WalkKids(kids) == None
  {
    hide Walk;
    if j < |kids| - 1 {
      RejectedKid(kids[..|kids| - 1], j);
    }
  }

  // ----- What comes out is on the lists, at every depth -----

  predicate AttrClean(a: (string, string))
  {
    (a.0 in ALLOWED_ATTRS && Lower(a.0) != "href") || (Lower(a.0) == "href" && HrefOk(a.1))
  }

  predicate DistinctKeys(d: Attrs) { forall i, j | 0 <= i < j < |d| :: d[i].0 != d[j].0 }

  predicate AttrsClean(d: Attrs)
  {
    DistinctKeys(d) && forall a | a in d :: AttrClean(a) && Plain(a.0) && CheckAttr(a.0, a.1) == Keep
  }

  /** No namespace in braces. */
  predicate Plain(name: string) { name == "" || name[0] != '{' }

  predicate AllClean(e: Element)
  {
    && (exists local | local in ALLOWED_TAGS :: e.tag == "{" + SVG_NS + "}" + local)
    && AttrsClean(e.attrs)
    && forall k | k in e.kids :: AllClean(k)
  }

  lemma {:induction false} DictSetKeeps(d: Attrs, k: string, v: string)
    requires AttrsClean(d) && AttrClean((k, v)) && Plain(k) && CheckAttr(k, v) == Keep
    ensures AttrsClean(DictSet(d, k, v))
    ensures forall a | a in DictSet(d, k, v) :: a == (k, v) || a in d
  {
    hide CheckAttr, AttrClean, Plain;
    if d != [] && d[0].0 != k {
      DictSetKeeps(d[1..], k, v);
      var r := DictSet(d[1..], k, v);
      assert forall a | a in d[1..] :: a.0 != d[0].0;
    }
  }

  lemma KeptAttr(name: string, value: string)
    requires CheckAttr(name, value) == Keep
    ensures AttrClean((name, value)) && Plain(name)
  {
    if Lower(name) == "href" && name != "" {
      assert Lower(name)[0] == 'h';
    }
    PlainAttrs(name);
  }

  lemma PlainAttrs(name: string)
    requires name in ALLOWED_ATTRS || name == "" || name[0] != '{'
    ensures Plain(name)
  {}

  lemma {:induction false} CleanAttrsClean(attrs: Attrs, i: nat, out: Attrs)
    requires i <= |attrs| && AttrsClean(out) && CleanAttrs(attrs, i, out).Some?
    ensures AttrsClean(CleanAttrs(attrs, i, out).value)
    decreases |attrs| - i
  {
    hide CheckAttr, AttrClean, AttrsClean, DictSet, Plain;
    if i < |attrs| {
      var name, value := Localname(attrs[i].0).value, attrs[i].1;
      match CheckAttr(name, value)
      case Skip => CleanAttrsClean(attrs, i + 1, out);
      case Keep =>
        KeptAttr(name, value);
        DictSetKeeps(out, name, value);
        CleanAttrsClean(attrs, i + 1, DictSet(out, name, value));
    }
  }

  /** A cleaned tree has only allowlisted tags and attributes, and same-document references, at every depth. */
  lemma {:induction false} WalkIsClean(node: Element)
    requires Walk(node).Clean?
    ensures AllClean(Walk(node).e)
    decreases node, 1
  {
    hide CleanAttrs;
    var attrs := CleanAttrs(node.attrs, 0, []).value;
    assert AttrsClean([]);
    CleanAttrsClean(node.attrs, 0, []);
    WalkKidsAreClean(node.kids);
    hide AttrsClean;
    var local := Localname(node.tag).value;
    assert local in ALLOWED_TAGS && Walk(node).e.tag == "{" + SVG_NS + "}" + local;
  }

  lemma {:induction false} WalkKidsAreClean(kids: seq<Element>)
    requires WalkKids(kids).Some?
    ensures forall k | k in WalkKids(kids).value :: AllClean(k)
    decreases kids, 0
  {
    hide AllClean, Walk;
    if kids != [] {
      WalkKidsAreClean(kids[..|kids| - 1]);
      if Walk(kids[|kids| - 1]).Clean? {
        WalkIsClean(kids[|kids| - 1]);
      }
    }
  }

  // ----- Names -----

  /** The local name is what follows the first closing brace, or the whole name where there is no opening one. */
  lemma {:induction false} AfterBraceIff(s: string, local: string)
    ensures AfterBrace(s) == Some(local) <==> exists ns: string :: '}' !in ns && s == ns + "}" + local
  {
    if s != "" && s[0] != '}' {
      AfterBraceIff(s[1..], local);
      if ns: string :| '}' !in ns && s[1..] == ns + "}" + local {
        assert s == ([s[0]] + ns) + "}" + local;
        assert '}' !in [s[0]] + ns;
      }
      if ns: string :| '}' !in ns && s == ns + "}" + local {
        assert ns != "" && ns[0] == s[0];
        assert s[1..] == ns[1..] + "}" + local;
      }
    } else if s != "" {
      assert s == "" + "}" + s[1..];
      if ns: string :| '}' !in ns && s == ns + "}" + local {
        assert s[1..] == local;
      }
    }
  }

  lemma LocalnameIff(tag: string, local: string)
    ensures Localname(tag) == Some(local)
            <==> if tag != "" && tag[0] == '{' then exists ns: string :: '}' !in ns && tag == "{" + ns + "}" + local
                 else tag == local
  {
    if tag != "" && tag[0] == '{' {
      AfterBraceIff(tag[1..], local);
      assert tag == "{" + tag[1..];
      if ns: string :| '}' !in ns && tag[1..] == ns + "}" + local {
        assert tag == "{" + ns + "}" + local;
      }
      if ns: string :| '}' !in ns && tag == "{" + ns + "}" + local {
        assert tag[1..] == ns + "}" + local;
      }
    }
  }

  lemma {:induction false} LowerAt(s: string, i: nat)
    requires i < |s|
    ensures Lower(s)[i] == if 'A' <= s[i] <= 'Z' then ('a' as int + s[i] as int - 'A' as int) as char else s[i]
  {
    if i > 0 {
      LowerAt(s[1..], i - 1);
    }
  }

  // ----- Which attributes survive -----

  /** The attribute has this local name. */
  predicate Named(a: (string, string), name: string) { Localname(a.0) == Some(name) }

  /** On the list, or a reference, in any case. */
  predicate Wanted(name: string) { name in ALLOWED_ATTRS || Lower(name) == "href" }

  /** Among the first `n` attributes the last one of this name has this value. */
  predicate LastNamed(attrs: Attrs, n: nat, name: string, value: string)
    requires n <= |attrs|
  {
    exists i :: 0 <= i < n && Named(attrs[i], name) && attrs[i].1 == value
                && forall j | i < j < n :: !Named(attrs[j], name)
  }

  predicate Occurs(attrs: Attrs, n: nat, name: string)
    requires n <= |attrs|
  {
    exists i :: 0 <= i < n && Named(attrs[i], name)
  }

  /** Among the first `n` attributes the first name occurs before the second one does. */
  predicate OccursBefore(attrs: Attrs, n: nat, name: string, other: string)
    requires n <= |attrs|
  {
    exists i :: 0 <= i < n && Named(attrs[i], name) && forall j | 0 <= j <= i :: !Named(attrs[j], other)
  }

  /** What the first `n` attributes come to: each wanted name once, with its last value, in the order in which
      the names first occur. */
  ghost predicate Digest(attrs: Attrs, n: nat, d: Attrs)
    requires n <= |attrs|
  {
    && (forall p | 0 <= p < |d| :: Wanted(d[p].0) && LastNamed(attrs, n, d[p].0, d[p].1))
    && (forall name | Wanted(name) && Occurs(attrs, n, name) :: HasKey(d, name))
    && (forall p, q | 0 <= p < q < |d| :: d[p].0 != d[q].0 && OccursBefore(attrs, n, d[p].0, d[q].0))
  }

  predicate HasKey(d: Attrs, name: string) { exists p :: 0 <= p < |d| && d[p].0 == name }

  lemma {:induction false} DictSetIs(d: Attrs, k: string, v: string)
    ensures var r := DictSet(d, k, v);
            if HasKey(d, k) then
              exists p :: 0 <= p < |d| && d[p].0 == k && r == d[p := (k, v)]
            else r == d + [(k, v)]
  {
    if d != [] && d[0].0 != k {
      DictSetIs(d[1..], k, v);
      var r := DictSet(d[1..], k, v);
      if p :| 0 <= p < |d[1..]| && d[1..][p].0 == k && r == d[1..][p := (k, v)] {
        assert d[p + 1].0 == k && [d[0]] + r == d[p + 1 := (k, v)];
      }
      if HasKey(d, k) {
        var p :| 0 <= p < |d| && d[p].0 == k;
        assert d[1..][p - 1].0 == k;
      }
    } else if d != [] {
      assert d[0].0 == k && [(k, v)] + d[1..] == d[0 := (k, v)];
    }
  }

  lemma LastStays(attrs: Attrs, n: nat, name: string, value: string)
    requires n < |attrs| && LastNamed(attrs, n, name, value) && !Named(attrs[n], name)
    ensures LastNamed(attrs, n + 1, name, value)
  {
    hide Named;
    var i :| 0 <= i < n && Named(attrs[i], name) && attrs[i].1 == value
             && forall j | i < j < n :: !Named(attrs[j], name);
    assert forall j | i < j < n + 1 :: !Named(attrs[j], name);
  }

  lemma BeforeStays(attrs: Attrs, n: nat, name: string, other: string)
    requires n < |attrs| && OccursBefore(attrs, n, name, other)
    ensures OccursBefore(attrs, n + 1, name, other)
  {
    hide Named;
    var i :| 0 <= i < n && Named(attrs[i], name) && forall j | 0 <= j <= i :: !Named(attrs[j], other);
    assert 0 <= i < n + 1;
  }

  lemma OccursStep(attrs: Attrs, n: nat, name: string)
    requires n < |attrs| && Occurs(attrs, n + 1, name)
    ensures Occurs(attrs, n, name) || Named(attrs[n], name)
  {
    hide Named;
  }

  /** An attribute that is not wanted changes nothing. */
  lemma DigestSkips(attrs: Attrs, n: nat, d: Attrs)
    requires n < |attrs| && Digest(attrs, n, d) && forall name | Named(attrs[n], name) :: !Wanted(name)
    ensures Digest(attrs, n + 1, d)
  {
    hide Named, Wanted, LastNamed, Occurs, OccursBefore, HasKey;
    forall p | 0 <= p < |d| ensures LastNamed(attrs, n + 1, d[p].0, d[p].1) {
      LastStays(attrs, n, d[p].0, d[p].1);
    }
    forall name | Wanted(name) && Occurs(attrs, n + 1, name) ensures HasKey(d, name) {
      OccursStep(attrs, n, name);
    }
    forall p, q | 0 <= p < q < |d| ensures OccursBefore(attrs, n + 1, d[p].0, d[q].0) {
      BeforeStays(attrs, n, d[p].0, d[q].0);
    }
  }

  lemma OneName(a: (string, string), name: string, other: string)
    requires Named(a, name) && Named(a, other)
    ensures name == other
  {}

  lemma LastIsNew(attrs: Attrs, n: nat, name: string)
    requires n < |attrs| && Named(attrs[n], name)
    ensures LastNamed(attrs, n + 1, name, attrs[n].1)
  {}

  lemma NewIsAfter(attrs: Attrs, n: nat, earlier: string, value: string, name: string)
    requires n < |attrs| && LastNamed(attrs, n, earlier, value) && !Occurs(attrs, n, name)
    ensures OccursBefore(attrs, n + 1, earlier, name)
  {
    hide Named;
    var i :| 0 <= i < n && Named(attrs[i], earlier) && attrs[i].1 == value;
    assert forall j | 0 <= j <= i :: !Named(attrs[j], name);
  }

  lemma KeyOccurs(attrs: Attrs, n: nat, d: Attrs, name: string)
    requires n <= |attrs| && Digest(attrs, n, d) && Wanted(name)
    ensures HasKey(d, name) <==> Occurs(attrs, n, name)
  {
    hide Named, Wanted, OccursBefore;
    if HasKey(d, name) {
      var p :| 0 <= p < |d| && d[p].0 == name;
      var i :| 0 <= i < n && Named(attrs[i], name) && attrs[i].1 == d[p].1;
    }
  }

  /** A wanted attribute takes the place of the last one of its name, or comes at the end. */
  lemma DigestSets(attrs: Attrs, n: nat, d: Attrs, name: string)
    requires n < |attrs| && Digest(attrs, n, d) && Named(attrs[n], name) && Wanted(name)
    ensures Digest(attrs, n + 1, DictSet(d, name, attrs[n].1))
  {
    DictSetIs(d, name, attrs[n].1);
    KeyOccurs(attrs, n, d, name);
    LastIsNew(attrs, n, name);
    if HasKey(d, name) {
      DigestReplaces(attrs, n, d, name);
    } else {
      DigestAppends(attrs, n, d, name);
    }
  }

  lemma DigestReplaces(attrs: Attrs, n: nat, d: Attrs, name: string)
    requires n < |attrs| && Digest(attrs, n, d) && Named(attrs[n], name) && Wanted(name) && HasKey(d, name)
    requires LastNamed(attrs, n + 1, name, attrs[n].1)
    requires exists p :: 0 <= p < |d| && d[p].0 == name && DictSet(d, name, attrs[n].1) == d[p := (name, attrs[n].1)]
    ensures Digest(attrs, n + 1, DictSet(d, name, attrs[n].1))
  {
    hide Named, Wanted, LastNamed, Occurs, OccursBefore, DictSet;
    var p :| 0 <= p < |d| && d[p].0 == name && DictSet(d, name, attrs[n].1) == d[p := (name, attrs[n].1)];
    var r := d[p := (name, attrs[n].1)];
    forall q | 0 <= q < |r| ensures r[q].0 == d[q].0 && LastNamed(attrs, n + 1, r[q].0, r[q].1) {
      if q != p {
        if Named(attrs[n], d[q].0) {
          OneName(attrs[n], name, d[q].0);
        }
        LastStays(attrs, n, d[q].0, d[q].1);
      }
    }
    forall other | Wanted(other) && Occurs(attrs, n + 1, other) ensures HasKey(r, other) {
      OccursStep(attrs, n, other);
      if Named(attrs[n], other) {
        OneName(attrs[n], name, other);
      }
      var q :| 0 <= q < |d| && d[q].0 == other;
      assert r[q].0 == other;
    }
    forall i, j | 0 <= i < j < |r| ensures OccursBefore(attrs, n + 1, r[i].0, r[j].0) {
      BeforeStays(attrs, n, d[i].0, d[j].0);
    }
  }

  lemma DigestAppends(attrs: Attrs, n: nat, d: Attrs, name: string)
    requires n < |attrs| && Digest(attrs, n, d) && Named(attrs[n], name) && Wanted(name)
    requires !HasKey(d, name) && !Occurs(attrs, n, name) && DictSet(d, name, attrs[n].1) == d + [(name, attrs[n].1)]
    requires LastNamed(attrs, n + 1, name, attrs[n].1)
    ensures Digest(attrs, n + 1, DictSet(d, name, attrs[n].1))
  {
    hide Named, Wanted, LastNamed, Occurs, OccursBefore, DictSet;
    var r := d + [(name, attrs[n].1)];
    forall q | 0 <= q < |d| ensures d[q].0 != name && LastNamed(attrs, n + 1, d[q].0, d[q].1) {
      if Named(attrs[n], d[q].0) {
        OneName(attrs[n], name, d[q].0);
      }
      LastStays(attrs, n, d[q].0, d[q].1);
    }
    forall other | Wanted(other) && Occurs(attrs, n + 1, other) ensures HasKey(r, other) {
      OccursStep(attrs, n, other);
      if Named(attrs[n], other) {
        OneName(attrs[n], name, other);
        assert r[|d|].0 == other;
      } else {
        var q :| 0 <= q < |d| && d[q].0 == other;
        assert r[q].0 == other;
      }
    }
    forall i, j | 0 <= i < j < |r| ensures OccursBefore(attrs, n + 1, r[i].0, r[j].0) {
      if j < |d| {
        BeforeStays(attrs, n, d[i].0, d[j].0);
      } else {
        NewIsAfter(attrs, n, d[i].0, d[i].1, name);
      }
    }
  }

  lemma VerdictWants(name: string, value: string)
    ensures CheckAttr(name, value) == Keep ==> Wanted(name)
    ensures CheckAttr(name, value) == Skip ==> !Wanted(name)
  {
    if name in ALLOWED_ATTRS && |name| == 5 {
      LowerAt(name, 1);
    }
  }

  lemma {:induction false} CleanAttrsDigest(attrs: Attrs, i: nat, out: Attrs)
    requires i <= |attrs| && Digest(attrs, i, out) && CleanAttrs(attrs, i, out).Some?
    ensures Digest(attrs, |attrs|, CleanAttrs(attrs, i, out).value)
    decreases |attrs| - i
  {
    hide CheckAttr, DictSet, Digest, Wanted;
    if i < |attrs| {
      var name, value := Localname(attrs[i].0).value, attrs[i].1;
      VerdictWants(name, value);
      if CheckAttr(name, value) == Skip {
        DigestSkips(attrs, i, out);
        CleanAttrsDigest(attrs, i + 1, out);
      } else {
        DigestSets(attrs, i, out, name);
        CleanAttrsDigest(attrs, i + 1, DictSet(out, name, value));
      }
    }
  }

  /** The attributes of an element that comes through are exactly the wanted names, each with the value of the last
      attribute of that name, in the order in which the names first occur. */
  lemma AttrsSurvive(e: Element, name: string, value: string)
    requires Walk(e).Clean?
    ensures var attrs, out := e.attrs, Walk(e).e.attrs;
            && ((name, value) in out <==> Wanted(name) && LastNamed(attrs, |attrs|, name, value))
            && forall p, q | 0 <= p < q < |out| ::
                 out[p].0 != out[q].0 && OccursBefore(attrs, |attrs|, out[p].0, out[q].0)
  {
    hide CleanAttrs, Wanted, Named, WalkKids;
    var attrs, out := e.attrs, Walk(e).e.attrs;
    CleanAttrsDigest(attrs, 0, []);
    if Wanted(name) && LastNamed(attrs, |attrs|, name, value) {
      var i :| 0 <= i < |attrs| && Named(attrs[i], name) && attrs[i].1 == value
               && forall j | i < j < |attrs| :: !Named(attrs[j], name);
      assert Occurs(attrs, |attrs|, name);
      var p :| 0 <= p < |out| && out[p].0 == name;
      var k :| 0 <= k < |attrs| && Named(attrs[k], name) && attrs[k].1 == out[p].1
               && forall j | k < j < |attrs| :: !Named(attrs[j], name);
      assert k == i && out[p] == (name, value);
    }
  }

  // ----- Cleaning is a fixed point -----

  lemma {:induction false} AfterBraceSkips(p: string, s: string)
    requires '}' !in p
    ensures AfterBrace(p + "}" + s) == Some(s)
  {
    if p == "" {
      assert (p + "}" + s)[1..] == s;
    } else {
      assert (p + "}" + s)[1..] == p[1..] + "}" + s;
      AfterBraceSkips(p[1..], s);
    }
  }

  lemma LocalnameOfClean(local: string)
    ensures Localname("{" + SVG_NS + "}" + local) == Some(local)
  {
    assert ("{" + SVG_NS + "}" + local)[1..] == SVG_NS + "}" + local;
    AfterBraceSkips(SVG_NS, local);
  }

  lemma {:induction false} DictSetNew(d: Attrs, k: string, v: string)
    requires forall a | a in d :: a.0 != k
    ensures DictSet(d, k, v) == d + [(k, v)]
  {
    if d != [] {
      assert d[0] in d;
      DictSetNew(d[1..], k, v);
    }
  }

  lemma {:induction false} CleanAttrsFixed(d: Attrs, i: nat)
    requires AttrsClean(d) && i <= |d|
    ensures CleanAttrs(d, i, d[..i]) == Some(d)
    decreases |d| - i
  {
    hide CheckAttr, AttrClean;
    if i == |d| {
      assert d[..i] == d;
    } else {
      assert d[i] in d && Localname(d[i].0) == Some(d[i].0);
      DictSetNew(d[..i], d[i].0, d[i].1);
      assert d[..i] + [(d[i].0, d[i].1)] == d[..i + 1];
      CleanAttrsFixed(d, i + 1);
    }
  }

  lemma TagsAreHarmless(local: string)
    requires local in ALLOWED_TAGS
    ensures local != "script" && local != "foreignObject"
  {}

  /** A clean tree walks to itself. */
  lemma {:induction false} CleanIsFixed(e: Element)
    requires AllClean(e)
    ensures Walk(e) == Clean(e)
    decreases e, 1
  {
    hide AttrsClean, CleanAttrs, AllClean;
    CleanParts(e);
    var local :| local in ALLOWED_TAGS && e.tag == "{" + SVG_NS + "}" + local;
    LocalnameOfClean(local);
    TagsAreHarmless(local);
    CleanAttrsFixed(e.attrs, 0);
    assert e.attrs[..0] == [];
    CleanKidsFixed(e.kids);
  }

  lemma CleanParts(e: Element)
    requires AllClean(e)
    ensures exists local | local in ALLOWED_TAGS :: e.tag == "{" + SVG_NS + "}" + local
    ensures AttrsClean(e.attrs) && forall k | k in e.kids :: AllClean(k)
  {}

  lemma {:induction false} CleanKidsFixed(kids: seq<Element>)
    requires forall k | k in kids :: AllClean(k)
    ensures WalkKids(kids) == Some(kids)
    decreases kids, 0
  {
    hide AllClean, Walk;
    if kids != [] {
      CleanKidsFixed(kids[..|kids| - 1]);
      CleanIsFixed(kids[|kids| - 1]);
      assert kids == kids[..|kids| - 1] + [kids[|kids| - 1]];
    }
  }

  /** Sanitizing twice is sanitizing once. */
  lemma WalkIdempotent(node: Element)
    requires Walk(node).Clean?
    ensures Walk(Walk(node).e) == Walk(node)
  {
    WalkIsClean(node);
    CleanIsFixed(Walk(node).e);
  }

  // ----- What is refused, and what survives -----

  /** An attribute that makes the whole document fail: an event handler, or a reference out of the document. */
  predicate BadAttr(a: (string, string))
  {
    match Localname(a.0)
    case None => true
    case Some(name) =>
      var ci := Lower(name);
      (|ci| >= 2 && ci[0] == 'o' && ci[1] == 'n')
      || (ci == "href" && (a.1 == "" || a.1[0] != '#' || '\n' in a.1 || '\r' in a.1))
  }

  lemma RaisesIffBad(a: (string, string))
    ensures BadAttr(a) <==> Localname(a.0).None? || CheckAttr(Localname(a.0).value, a.1) == Raise
  {
    if Localname(a.0).Some? {
      var ci := Lower(Localname(a.0).value);
      assert "on" <= ci <==> |ci| >= 2 && ci[0] == 'o' && ci[1] == 'n';
    }
  }

  /** The element itself, or one below it through allowlisted elements only, is one the sanitizer refuses. */
  predicate Offends(e: Element)
  {
    var local := Localname(e.tag);
    local == None || local == Some("script") || local == Some("foreignObject")
    || (local.value in ALLOWED_TAGS
        && ((exists a | a in e.attrs :: BadAttr(a)) || exists k | k in e.kids :: Offends(k)))
  }

  lemma {:induction false} AttrsRefusedIff(attrs: Attrs, i: nat, out: Attrs)
    requires i <= |attrs|
    ensures CleanAttrs(attrs, i, out) == None <==> exists a | a in attrs[i..] :: BadAttr(a)
    decreases |attrs| - i
  {
    hide CheckAttr, DictSet, BadAttr;
    if i < |attrs| {
      RaisesIffBad(attrs[i]);
      assert attrs[i..] == [attrs[i]] + attrs[i + 1..];
      if !BadAttr(attrs[i]) {
        var name := Localname(attrs[i].0).value;
        var kept := CheckAttr(name, attrs[i].1) == Keep;
        AttrsRefusedIff(attrs, i + 1, if kept then DictSet(out, name, attrs[i].1) else out);
      }
    }
  }

  /** A tree is refused exactly when it offends: nothing else fails a publish, nothing offending is merely dropped. */
  lemma {:induction false} RefusedIff(e: Element)
    ensures Walk(e).Rejected? <==> Offends(e)
    decreases e, 1
  {
    hide CleanAttrs, BadAttr;
    AttrsRefusedIff(e.attrs, 0, []);
    assert e.attrs[0..] == e.attrs;
    KidsRefusedIff(e.kids);
  }

  lemma {:induction false} KidsRefusedIff(kids: seq<Element>)
    ensures WalkKids(kids) == None <==> exists k | k in kids :: Offends(k)
    decreases kids, 0
  {
    hide Walk, Offends;
    if kids != [] {
      var front, last := kids[..|kids| - 1], kids[|kids| - 1];
      KidsRefusedIff(front);
      RefusedIff(last);
      assert kids == front + [last];
    }
  }

  /** The children whose tags are on the list, in document order. */
  function Listed(kids: seq<Element>): (r: seq<Element>)
    ensures |r| <= |kids|
  {
    if kids == [] then []
    else Listed(kids[..|kids| - 1]) +
         var local := Localname(kids[|kids| - 1].tag);
         if local.Some? && local.value in ALLOWED_TAGS then [kids[|kids| - 1]] else []
  }

  /** Surviving children are exactly the listed ones, cleaned, in document order; text is kept. */
  lemma {:induction false} SurvivorsInOrder(kids: seq<Element>)
    requires WalkKids(kids).Some?
    ensures |WalkKids(kids).value| == |Listed(kids)|
    ensures forall i | 0 <= i < |Listed(kids)| :: Walk(Listed(kids)[i]) == Clean(WalkKids(kids).value[i])
  {
    if kids != [] {
      SurvivorsInOrder(kids[..|kids| - 1]);
      ListedIffClean(kids[|kids| - 1]);
      hide Walk;
    }
  }

  lemma NamespaceIs()
    ensures "{" + SVG_NS + "}" == "{http://www.w3.org/2000/svg}"
  {}

  lemma ListedIffClean(e: Element)
    requires !Walk(e).Rejected?
    ensures Walk(e).Clean? <==> Localname(e.tag).Some? && Localname(e.tag).value in ALLOWED_TAGS
    ensures Walk(e).Clean? ==>
              && Walk(e).e.text == e.text && Walk(e).e.tail == e.tail
              && Walk(e).e.tag == "{http://www.w3.org/2000/svg}" + Localname(e.tag).value
  {
    hide CleanAttrs, WalkKids, Localname, SVG_NS, ALLOWED_TAGS;
    NamespaceIs();
    if Localname(e.tag).Some? && Localname(e.tag).value in ALLOWED_TAGS {
      TagsAreHarmless(Localname(e.tag).value);
    }
  }
}
