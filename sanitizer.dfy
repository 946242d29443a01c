/** `sanitize_html`: five passes over the parsed HTML tree. Two delete whole
    subtrees (risky elements, remote images); three rewrite attributes (styles
    that load a URL, external links, event handlers and `data-` attributes).
    The tree is given directly: parsing and serialisation are not part of
    the model. The URL and style tests are a policy: the source's
    case-sensitive tests, which `SanitizeHtml` uses, or the corrected
    case-insensitive ones, which `Sanitize` uses. */
module Sanitizer {
  import opened Results
  import opened Strings

  /** One attribute. The parser lower-cases names and keeps one value per name. */
  datatype Attr = Attr(name: string, value: string)

  /** A node of the parsed document: character data, or an element with its
      attributes in source order and its children. */
  datatype Node = Text(text: string) | Element(tag: string, attrs: seq<Attr>, children: seq<Node>)

  /** `tag.get(name)`. */
  function Get(attrs: seq<Attr>, name: string): Option<string>
    decreases |attrs|
  {
    if attrs == [] then None
    else if attrs[0].name == name then Some(attrs[0].value)
    else Get(attrs[1..], name)
  }

  /** `tag[name] = value` on an attribute that may be present. */
  function SetValue(attrs: seq<Attr>, name: string, value: string): (r: seq<Attr>)
    ensures |r| == |attrs|
    ensures forall i | 0 <= i < |attrs| :: r[i] == if attrs[i].name == name then Attr(name, value) else attrs[i]
    decreases |attrs|
  {
    if attrs == [] then []
    else [if attrs[0].name == name then Attr(name, value) else attrs[0]] + SetValue(attrs[1..], name, value)
  }

  /** `del tag[attr]` for every attribute whose name `drop` selects. */
  function RemoveAttrs(attrs: seq<Attr>, drop: string -> bool): (r: seq<Attr>)
    ensures forall i | 0 <= i < |r| :: !drop(r[i].name)
    decreases |attrs|
  {
    if attrs == [] then []
    else (if drop(attrs[0].name) then [] else [attrs[0]]) + RemoveAttrs(attrs[1..], drop)
  }

  /** A name starting with neither `o` nor `d` is not a handler name. */
  lemma NotHandler(name: string)
    requires |name| > 0 && name[0] != 'o' && name[0] != 'd'
    ensures !Handler(name)
  {
    if |name| >= 2 {
      assert name[..2][0] == name[0];
    }
    if |name| >= 5 {
      assert name[..5][0] == name[0];
    }
  }

  /** Setting a name changes what that name reads and no other. */
  lemma {:induction false} GetSetValue(attrs: seq<Attr>, name: string, value: string, m: string)
    ensures Get(SetValue(attrs, name, value), m) ==
      if m == name then (if Get(attrs, name).Some? then Some(value) else None) else Get(attrs, m)
    decreases |attrs|
  {
    if attrs != [] {
      GetSetValue(attrs[1..], name, value, m);
      assert SetValue(attrs, name, value)[1..] == SetValue(attrs[1..], name, value);
    }
  }

  /** Removal hides exactly the selected names. */
  lemma {:induction false} GetRemoveAttrs(attrs: seq<Attr>, drop: string -> bool, m: string)
    ensures Get(RemoveAttrs(attrs, drop), m) == if drop(m) then None else Get(attrs, m)
    decreases |attrs|
  {
    if attrs != [] {
      GetRemoveAttrs(attrs[1..], drop, m);
      var rest := RemoveAttrs(attrs[1..], drop);
      if drop(attrs[0].name) {
        assert RemoveAttrs(attrs, drop) == rest;
      } else {
        var r := [attrs[0]] + rest;
        assert RemoveAttrs(attrs, drop) == r;
        assert r[0] == attrs[0] && r[1..] == rest;
      }
    }
  }

  /** Nothing selected, nothing removed. */
  lemma {:induction false} RemoveNothing(attrs: seq<Attr>, drop: string -> bool)
    requires forall i | 0 <= i < |attrs| :: !drop(attrs[i].name)
    ensures RemoveAttrs(attrs, drop) == attrs
    decreases |attrs|
  {
    if attrs != [] {
      RemoveNothing(attrs[1..], drop);
    }
  }

  /** Setting an attribute that already holds the value changes nothing. */
  lemma {:induction false} SetSame(attrs: seq<Attr>, name: string, value: string)
    requires forall i | 0 <= i < |attrs| :: attrs[i].name == name ==> attrs[i].value == value
    ensures SetValue(attrs, name, value) == attrs
  {
    var r := SetValue(attrs, name, value);
    assert forall i | 0 <= i < |attrs| :: r[i] == attrs[i];
  }

  // ---------------------------------------------------------------- the tree walk

  /** What a pass decides about one element from its tag and attributes. */
  type Select = (string, seq<Attr>) -> bool
  type Fix = (string, seq<Attr>) -> seq<Attr>

  /** One traversal: every element `drop` selects goes with its whole subtree;
      every other element keeps its tag, gets `fix` of its attributes and has
      its children transformed the same way; text is kept. */
  function Transform(ns: seq<Node>, drop: Select, fix: Fix): seq<Node>
    decreases ns
  {
    if ns == [] then []
    else
      var rest := Transform(ns[1..], drop, fix);
      match ns[0]
      case Text(_) => [ns[0]] + rest
      case Element(t, a, c) =>
        if drop(t, a) then rest else [Element(t, fix(t, a), Transform(c, drop, fix))] + rest
  }

  /** A single element the pass keeps. */
  lemma TransformKept(t: string, a: seq<Attr>, c: seq<Node>, drop: Select, fix: Fix)
    requires !drop(t, a)
    ensures Transform([Element(t, a, c)], drop, fix) == [Element(t, fix(t, a), Transform(c, drop, fix))]
  {
    assert [Element(t, a, c)][1..] == [];
  }

  /** A pass handles each top-level node on its own: it distributes over concatenation. */
  lemma {:induction false} TransformAppend(a: seq<Node>, b: seq<Node>, drop: Select, fix: Fix)
    ensures Transform(a + b, drop, fix) == Transform(a, drop, fix) + Transform(b, drop, fix)
    decreases |a|
  {
    if a == [] {
      assert a + b == b;
    } else {
      assert (a + b)[0] == a[0];
      assert (a + b)[1..] == a[1..] + b;
      TransformAppend(a[1..], b, drop, fix);
    }
  }

  lemma TransformSnoc(ns: seq<Node>, i: nat, drop: Select, fix: Fix)
    requires i < |ns|
    ensures Transform(ns[..i + 1], drop, fix) == Transform(ns[..i], drop, fix) + Transform([ns[i]], drop, fix)
  {
    assert ns[..i + 1] == ns[..i] + [ns[i]];
    TransformAppend(ns[..i], [ns[i]], drop, fix);
  }

  /** Two passes in a row are one pass: an element goes when the first pass
      drops it or the second drops what the first left, and its attributes
      are fixed by the first and then the second. */
  lemma {:induction false} TransformCompose(ns: seq<Node>, d1: Select, f1: Fix, d2: Select, f2: Fix, d: Select, f: Fix)
    requires forall t, a :: d(t, a) == (d1(t, a) || d2(t, f1(t, a)))
    requires forall t, a :: !d(t, a) ==> f(t, a) == f2(t, f1(t, a))
    ensures Transform(Transform(ns, d1, f1), d2, f2) == Transform(ns, d, f)
    decreases ns
  {
    if ns != [] {
      TransformCompose(ns[1..], d1, f1, d2, f2, d, f);
      var rest := Transform(ns[1..], d1, f1);
      match ns[0]
      case Text(_) =>
        assert Transform(ns, d1, f1) == [ns[0]] + rest;
        TransformAppend([ns[0]], rest, d2, f2);
      case Element(t, a, c) =>
        if d1(t, a) {
          assert Transform(ns, d1, f1) == rest;
        } else {
          var e := Element(t, f1(t, a), Transform(c, d1, f1));
          assert Transform(ns, d1, f1) == [e] + rest;
          TransformAppend([e], rest, d2, f2);
          assert [e][1..] == [];
          if !d2(t, f1(t, a)) {
            TransformCompose(c, d1, f1, d2, f2, d, f);
          }
        }
    }
  }

  /** Every element, at any depth, satisfies `p` of its tag and attributes. */
  predicate All(ns: seq<Node>, p: Select)
    decreases ns
  {
    ns != [] ==>
      All(ns[1..], p) &&
      match ns[0]
      case Text(_) => true
      case Element(t, a, c) => p(t, a) && All(c, p)
  }

  /** Whatever a pass keeps, it leaves fixed so that `p` holds of it. */
  lemma {:induction false} TransformEstablishes(ns: seq<Node>, drop: Select, fix: Fix, p: Select)
    requires forall t, a :: !drop(t, a) ==> p(t, fix(t, a))
    ensures All(Transform(ns, drop, fix), p)
    decreases ns
  {
    if ns != [] {
      var rest := Transform(ns[1..], drop, fix);
      TransformEstablishes(ns[1..], drop, fix, p);
      match ns[0]
      case Text(_) =>
        assert ([ns[0]] + rest)[1..] == rest;
      case Element(t, a, c) =>
        if !drop(t, a) {
          TransformEstablishes(c, drop, fix, p);
          var e := Element(t, fix(t, a), Transform(c, drop, fix));
          assert ([e] + rest)[0] == e;
          assert ([e] + rest)[1..] == rest;
        }
    }
  }

  /** A pass with nothing to drop and nothing to fix leaves the tree as it is. */
  lemma {:induction false} TransformIdentity(ns: seq<Node>, drop: Select, fix: Fix)
    requires All(ns, (t, a) => !drop(t, a) && fix(t, a) == a)
    ensures Transform(ns, drop, fix) == ns
    decreases ns
  {
    if ns != [] {
      TransformIdentity(ns[1..], drop, fix);
      match ns[0]
      case Text(_) =>
        assert ns == [ns[0]] + ns[1..];
      case Element(t, a, c) =>
        TransformIdentity(c, drop, fix);
        assert ns == [ns[0]] + ns[1..];
    }
  }

  lemma {:induction false} AllWeaken(ns: seq<Node>, p: Select, q: Select)
    requires All(ns, p)
    requires forall t, a :: p(t, a) ==> q(t, a)
    ensures All(ns, q)
    decreases ns
  {
    if ns != [] {
      AllWeaken(ns[1..], p, q);
      match ns[0]
      case Text(_) =>
      case Element(t, a, c) =>
        AllWeaken(c, p, q);
    }
  }

  // ---------------------------------------------------------------- the five passes

  /** `risky_tags`. */
  const Risky: set<string> := {"script", "iframe", "object", "embed", "video", "audio", "form", "meta", "link"}

  /** Every risky tag has at least four letters. */
  lemma ShortNotRisky(tag: string)
    requires |tag| < 4
    ensures tag !in Risky
  {
  }

  function Src(attrs: seq<Attr>): string {
    Get(attrs, "src").GetOr("")
  }

  function Href(attrs: seq<Attr>): string {
    Get(attrs, "href").GetOr("")
  }

  /** `attr.startswith('on') or attr.startswith('data-')`. */
  predicate Handler(name: string) {
    StartsWith(name, "on") || StartsWith(name, "data-")
  }

  /** The two tests the passes make on attribute values: whether a URL is
      remote, and whether a style loads a URL. */
  datatype Policy = Policy(remote: string -> bool, loadsUrl: string -> bool)

  /** The tests as written: case-sensitive. */
  predicate IsRemoteAsWritten(url: string) {
    StartsWith(url, "http://") || StartsWith(url, "https://")
  }

  predicate LoadsUrlAsWritten(style: string) {
    Contains(style, "url(")
  }

  const AsWritten := Policy(IsRemoteAsWritten, LoadsUrlAsWritten)

  /** URL schemes are case-insensitive (section 3.1 of RFC 3986) and so are CSS
      function names: the intended tests compare after ASCII lower-casing. */
  predicate IsRemote(url: string) {
    IsRemoteAsWritten(AsciiLower(url))
  }

  predicate LoadsUrl(style: string) {
    LoadsUrlAsWritten(AsciiLower(style))
  }

  const Corrected := Policy(IsRemote, LoadsUrl)

  /** Pass 3: a style that loads a URL becomes empty. */
  function StyleAttrs(loadsUrl: string -> bool, attrs: seq<Attr>): seq<Attr> {
    match Get(attrs, "style")
    case Some(v) => if loadsUrl(v) then SetValue(attrs, "style", "") else attrs
    case None => attrs
  }

  /** Pass 4: a link to a remote URL points at `#`. */
  function LinkAttrs(remote: string -> bool, tag: string, attrs: seq<Attr>): seq<Attr> {
    if tag == "a" && remote(Href(attrs)) then SetValue(attrs, "href", "#") else attrs
  }

  /** Pass 5: event handlers and `data-` attributes go. */
  function HandlerAttrs(attrs: seq<Attr>): seq<Attr> {
    RemoveAttrs(attrs, Handler)
  }

  /** What each pass selects and how it fixes attributes. */
  predicate RiskyElement(tag: string, attrs: seq<Attr>) {
    tag in Risky
  }

  predicate NoElement(tag: string, attrs: seq<Attr>) {
    false
  }

  function KeepAttrs(tag: string, attrs: seq<Attr>): seq<Attr> {
    attrs
  }

  function RemoteImage(remote: string -> bool): Select {
    (t, a) => t == "img" && remote(Src(a))
  }

  function StyleFix(loadsUrl: string -> bool): Fix {
    (t, a) => StyleAttrs(loadsUrl, a)
  }

  function LinkFix(remote: string -> bool): Fix {
    (t, a) => LinkAttrs(remote, t, a)
  }

  function HandlerFix(tag: string, attrs: seq<Attr>): seq<Attr> {
    HandlerAttrs(attrs)
  }

  /** The source's five passes, in order. */
  function Passes(ns: seq<Node>, pol: Policy): seq<Node> {
    var risky := Transform(ns, RiskyElement, KeepAttrs);
    var images := Transform(risky, RemoteImage(pol.remote), KeepAttrs);
    var styles := Transform(images, NoElement, StyleFix(pol.loadsUrl));
    var links := Transform(styles, NoElement, LinkFix(pol.remote));
    Transform(links, NoElement, HandlerFix)
  }

  /** Which elements the passes remove, and what they do to the attributes of the rest. */
  predicate Dropped(pol: Policy, tag: string, attrs: seq<Attr>) {
    tag in Risky || (tag == "img" && pol.remote(Src(attrs)))
  }

  function FixAttrs(pol: Policy, tag: string, attrs: seq<Attr>): seq<Attr> {
    HandlerAttrs(LinkAttrs(pol.remote, tag, StyleAttrs(pol.loadsUrl, attrs)))
  }

  function DropFor(pol: Policy): Select {
    (t, a) => Dropped(pol, t, a)
  }

  function FixFor(pol: Policy): Fix {
    (t, a) => FixAttrs(pol, t, a)
  }

  /** The five passes are one traversal that removes `Dropped` subtrees and
      applies `FixAttrs` to every other element. */
  lemma PassesFuse(ns: seq<Node>, pol: Policy)
    ensures Passes(ns, pol) == Transform(ns, DropFor(pol), FixFor(pol))
  {
    var d := DropFor(pol);
    var f3 := StyleFix(pol.loadsUrl);
    var f34: Fix := (t, a) => LinkAttrs(pol.remote, t, StyleAttrs(pol.loadsUrl, a));
    var risky := Transform(ns, RiskyElement, KeepAttrs);
    TransformCompose(ns, RiskyElement, KeepAttrs, RemoteImage(pol.remote), KeepAttrs, d, KeepAttrs);
    var images := Transform(risky, RemoteImage(pol.remote), KeepAttrs);
    assert images == Transform(ns, d, KeepAttrs);
    TransformCompose(ns, d, KeepAttrs, NoElement, f3, d, f3);
    var styles := Transform(images, NoElement, f3);
    assert styles == Transform(ns, d, f3);
    TransformCompose(ns, d, f3, NoElement, LinkFix(pol.remote), d, f34);
    var links := Transform(styles, NoElement, LinkFix(pol.remote));
    assert links == Transform(ns, d, f34);
    TransformCompose(ns, d, f34, NoElement, HandlerFix, d, FixFor(pol));
  }

  /** The corrected sanitiser: the source's passes with case-insensitive tests. */
  function Sanitize(ns: seq<Node>): seq<Node> {
    Passes(ns, Corrected)
  }

  /** The passes' own rewrites are final: an emptied style loads nothing,
      and neither `#` nor the missing link's `""` is a remote URL. Both the
      tests as written and the corrected ones have this property. */
  predicate Sound(pol: Policy) {
    !pol.loadsUrl("") && !pol.remote("#") && !pol.remote("")
  }

  lemma AsWrittenSound()
    ensures Sound(AsWritten)
  {
    ShortNeverContains("", "url(");
    NotWebScheme("#");
  }

  lemma CorrectedSound()
    ensures Sound(Corrected)
  {
    ShortNeverContains(AsciiLower(""), "url(");
    assert AsciiLower("#") == "#";
    NotWebScheme("#");
    assert |AsciiLower("")| == 0;
  }

  /** What a surviving element satisfies, in the sense of the policy's tests. */
  predicate Clean(pol: Policy, tag: string, attrs: seq<Attr>) {
    && tag !in Risky
    && !(tag == "img" && pol.remote(Src(attrs)))
    && (Get(attrs, "style").Some? ==> !pol.loadsUrl(Get(attrs, "style").value))
    && (tag == "a" ==> !pol.remote(Href(attrs)))
    && forall i | 0 <= i < |attrs| :: !Handler(attrs[i].name)
  }

  function CleanFor(pol: Policy): Select {
    (t, a) => Clean(pol, t, a)
  }

  lemma StyleAttrsGet(loadsUrl: string -> bool, attrs: seq<Attr>, m: string)
    ensures Get(StyleAttrs(loadsUrl, attrs), m) ==
      if m == "style" && Get(attrs, "style").Some? && loadsUrl(Get(attrs, "style").value) then Some("")
      else Get(attrs, m)
  {
    match Get(attrs, "style")
    case Some(v) =>
      if loadsUrl(v) {
        GetSetValue(attrs, "style", "", m);
      }
    case None =>
  }

  lemma LinkAttrsGet(remote: string -> bool, tag: string, attrs: seq<Attr>, m: string)
    ensures Get(LinkAttrs(remote, tag, attrs), m) ==
      if m == "href" && tag == "a" && remote(Href(attrs)) && Get(attrs, "href").Some? then Some("#")
      else Get(attrs, m)
  {
    if tag == "a" && remote(Href(attrs)) {
      GetSetValue(attrs, "href", "#", m);
    }
  }

  /** What `FixAttrs` does to each name: a loading style reads as empty, a
      remote link of an `a` reads `#`, handler names are gone, and every other
      name reads as before. */
  lemma FixAttrsGet(pol: Policy, tag: string, attrs: seq<Attr>, m: string)
    ensures Get(FixAttrs(pol, tag, attrs), m) ==
      if Handler(m) then None
      else if m == "style" && Get(attrs, "style").Some? && pol.loadsUrl(Get(attrs, "style").value) then Some("")
      else if m == "href" && tag == "a" && pol.remote(Href(attrs)) && Get(attrs, "href").Some? then Some("#")
      else Get(attrs, m)
  {
    var s := StyleAttrs(pol.loadsUrl, attrs);
    StyleAttrsGet(pol.loadsUrl, attrs, "href");
    assert Href(s) == Href(attrs);
    StyleAttrsGet(pol.loadsUrl, attrs, m);
    var l := LinkAttrs(pol.remote, tag, s);
    LinkAttrsGet(pol.remote, tag, s, m);
    GetRemoveAttrs(l, Handler, m);
  }

  lemma FixAttrsClean(pol: Policy, tag: string, attrs: seq<Attr>)
    requires Sound(pol) && !Dropped(pol, tag, attrs)
    ensures Clean(pol, tag, FixAttrs(pol, tag, attrs))
  {
    FixAttrsGet(pol, tag, attrs, "src");
    FixAttrsGet(pol, tag, attrs, "style");
    FixAttrsGet(pol, tag, attrs, "href");
    NotHandler("src");
    NotHandler("style");
    NotHandler("href");
  }

  /** No risky element, remote image, URL-loading style, remote link or
      handler attribute survives, at any depth, where "remote" and "loads a
      URL" are the policy's tests. */
  lemma PassesClean(ns: seq<Node>, pol: Policy)
    requires Sound(pol)
    ensures All(Passes(ns, pol), CleanFor(pol))
  {
    PassesFuse(ns, pol);
    forall t, a | !Dropped(pol, t, a)
      ensures Clean(pol, t, FixAttrs(pol, t, a))
    {
      FixAttrsClean(pol, t, a);
    }
    TransformEstablishes(ns, DropFor(pol), FixFor(pol), CleanFor(pol));
  }

  /** The corrected sanitiser leaves nothing that the case-insensitive tests
      catch: no `HTTP://` image, no `URL(` style. */
  lemma SanitizeClean(ns: seq<Node>)
    ensures All(Sanitize(ns), CleanFor(Corrected))
  {
    CorrectedSound();
    PassesClean(ns, Corrected);
  }

  lemma CleanUntouched(pol: Policy, tag: string, attrs: seq<Attr>)
    requires Clean(pol, tag, attrs)
    ensures !Dropped(pol, tag, attrs) && FixAttrs(pol, tag, attrs) == attrs
  {
    assert StyleAttrs(pol.loadsUrl, attrs) == attrs;
    assert LinkAttrs(pol.remote, tag, attrs) == attrs;
    RemoveNothing(attrs, Handler);
  }

  /** A clean tree passes through unchanged ... */
  lemma PassesFixpoint(ns: seq<Node>, pol: Policy)
    requires All(ns, CleanFor(pol))
    ensures Passes(ns, pol) == ns
  {
    PassesFuse(ns, pol);
    var d := DropFor(pol);
    var f := FixFor(pol);
    forall t, a | Clean(pol, t, a)
      ensures !d(t, a) && f(t, a) == a
    {
      CleanUntouched(pol, t, a);
    }
    AllWeaken(ns, CleanFor(pol), (t, a) => !d(t, a) && f(t, a) == a);
    TransformIdentity(ns, d, f);
  }

  /** ... so running the passes twice is running them once. */
  lemma PassesIdempotent(ns: seq<Node>, pol: Policy)
    requires Sound(pol)
    ensures Passes(Passes(ns, pol), pol) == Passes(ns, pol)
  {
    PassesClean(ns, pol);
    PassesFixpoint(Passes(ns, pol), pol);
  }

  /** The passes treat each top-level node on their own and keep their order. */
  lemma PassesAppend(a: seq<Node>, b: seq<Node>, pol: Policy)
    ensures Passes(a + b, pol) == Passes(a, pol) + Passes(b, pol)
  {
    PassesFuse(a + b, pol);
    PassesFuse(a, pol);
    PassesFuse(b, pol);
    TransformAppend(a, b, DropFor(pol), FixFor(pol));
  }

  /** An element either goes with its subtree or stays with its tag, its fixed
      attributes and its sanitised children; text is kept. */
  lemma PassesNode(n: Node, pol: Policy)
    ensures n.Text? ==> Passes([n], pol) == [n]
    ensures n.Element? && Dropped(pol, n.tag, n.attrs) ==> Passes([n], pol) == []
    ensures n.Element? && !Dropped(pol, n.tag, n.attrs) ==>
      Passes([n], pol) == [Element(n.tag, FixAttrs(pol, n.tag, n.attrs), Passes(n.children, pol))]
  {
    PassesFuse([n], pol);
    assert [n][1..] == [];
    if n.Element? {
      PassesFuse(n.children, pol);
    }
  }

  /** Empty input gives empty output; text without markup passes unchanged. */
  lemma {:induction false} PassesText(ns: seq<Node>, pol: Policy)
    requires forall i | 0 <= i < |ns| :: ns[i].Text?
    ensures Passes(ns, pol) == ns
    decreases |ns|
  {
    if ns != [] {
      PassesText(ns[1..], pol);
      PassesNode(ns[0], pol);
      PassesAppend([ns[0]], ns[1..], pol);
      assert [ns[0]] + ns[1..] == ns;
    }
  }

  /** An image the policy does not call remote is kept, with its source. */
  lemma KeptImage(pol: Policy, attrs: seq<Attr>, children: seq<Node>)
    requires !pol.remote(Src(attrs))
    ensures Passes([Element("img", attrs, children)], pol) ==
      [Element("img", FixAttrs(pol, "img", attrs), Passes(children, pol))]
    ensures Src(FixAttrs(pol, "img", attrs)) == Src(attrs)
  {
    ShortNotRisky("img");
    PassesNode(Element("img", attrs, children), pol);
    FixAttrsGet(pol, "img", attrs, "src");
    NotHandler("src");
  }

  /** An image whose source is a `data:` or `cid:` URL is kept, with its
      source, by the passes as written and by the corrected ones. */
  lemma EmbeddedImageKept(attrs: seq<Attr>, children: seq<Node>)
    requires StartsWith(Src(attrs), "data:") || StartsWith(Src(attrs), "cid:")
    ensures Passes([Element("img", attrs, children)], AsWritten) ==
      [Element("img", FixAttrs(AsWritten, "img", attrs), Passes(children, AsWritten))]
    ensures Sanitize([Element("img", attrs, children)]) ==
      [Element("img", FixAttrs(Corrected, "img", attrs), Sanitize(children))]
    ensures Src(FixAttrs(AsWritten, "img", attrs)) == Src(attrs)
    ensures Src(FixAttrs(Corrected, "img", attrs)) == Src(attrs)
  {
    var src := Src(attrs);
    var l := AsciiLower(src);
    assert src[0] == 'd' || src[0] == 'c';
    assert l[0] == src[0];
    NotWebScheme(src);
    NotWebScheme(l);
    KeptImage(AsWritten, attrs, children);
    KeptImage(Corrected, attrs, children);
  }

  /** A string that does not start with `h` is not an `http://` or `https://` URL. */
  lemma NotWebScheme(url: string)
    requires |url| > 0 && url[0] != 'h'
    ensures !IsRemoteAsWritten(url)
  {
    if |url| >= 7 {
      assert url[..7][0] == url[0];
    }
    if |url| >= 8 {
      assert url[..8][0] == url[0];
    }
  }

  /** A link the policy calls remote keeps its element and its text but
      points at `#`. */
  lemma RemoteLinkNeutralised(attrs: seq<Attr>, text: string, pol: Policy)
    requires Get(attrs, "href").Some? && pol.remote(Href(attrs))
    ensures Get(FixAttrs(pol, "a", attrs), "href") == Some("#")
    ensures Passes([Element("a", attrs, [Text(text)])], pol) == [Element("a", FixAttrs(pol, "a", attrs), [Text(text)])]
  {
    FixAttrsGet(pol, "a", attrs, "href");
    NotHandler("href");
    ShortNotRisky("a");
    assert !Dropped(pol, "a", attrs);
    PassesNode(Element("a", attrs, [Text(text)]), pol);
    PassesNode(Text(text), pol);
  }

  // ---------------------------------------------------------------- the tests as written

  const UpperSrc := "HTTP://t/p"
  const UpperStyle := "URL(x)"

  /** The scheme test as written misses an upper-case scheme; the intended one catches it. */
  lemma UpperSchemeRemote()
    ensures !IsRemoteAsWritten(UpperSrc)
    ensures IsRemote(UpperSrc)
  {
    var s := UpperSrc;
    assert s[..7][0] == 'H';
    assert s[..8][0] == 'H';
    var l := AsciiLower(s);
    assert l[..7] == "http://";
  }

  /** The `url(` test as written misses `URL(`; the intended one catches it. */
  lemma UpperUrlLoads()
    ensures !LoadsUrlAsWritten(UpperStyle)
    ensures LoadsUrl(UpperStyle)
  {
    var s := UpperStyle;
    assert s[0] != 'u' && s[1] != 'u' && s[2] != 'u' && s[3] != 'u' && s[4] != 'u' && s[5] != 'u';
    MissingFirstNeverContains(s, "url(");
    var l := AsciiLower(s);
    assert l[0] == 'u' && l[1] == 'r' && l[2] == 'l' && l[3] == '(';
    StartsWithByIndex(l, "url(");
  }

  lemma UpperImageAttrs(attrs: seq<Attr>)
    requires attrs == [Attr("src", UpperSrc)]
    ensures FixAttrs(AsWritten, "img", attrs) == attrs
    ensures !Dropped(AsWritten, "img", attrs) && Dropped(Corrected, "img", attrs)
  {
    UpperSchemeRemote();
    assert Src(attrs) == UpperSrc;
    assert Get(attrs, "style") == None;
    NotHandler("src");
    RemoveNothing(attrs, Handler);
  }

  /** With the tests as written, an image from `HTTP://t/p` is kept; the
      model removes it. */
  lemma UppercaseSchemeKept()
    ensures var img := Element("img", [Attr("src", UpperSrc)], []);
      Passes([img], AsWritten) == [img] && Sanitize([img]) == []
  {
    var attrs := [Attr("src", UpperSrc)];
    var img := Element("img", attrs, []);
    UpperImageAttrs(attrs);
    PassesNode(img, AsWritten);
    PassesNode(img, Corrected);
  }

  lemma UpperStyleAttrs(attrs: seq<Attr>)
    requires attrs == [Attr("style", UpperStyle)]
    ensures FixAttrs(AsWritten, "div", attrs) == attrs && !Dropped(AsWritten, "div", attrs)
    ensures FixAttrs(Corrected, "div", attrs) == [Attr("style", "")] && !Dropped(Corrected, "div", attrs)
  {
    UpperUrlLoads();
    ShortNotRisky("div");
    assert Get(attrs, "style") == Some(UpperStyle);
    NotHandler("style");
    RemoveNothing(attrs, Handler);
    var cleared := [Attr("style", "")];
    assert SetValue(attrs, "style", "") == cleared;
    RemoveNothing(cleared, Handler);
  }

  /** With the tests as written, the style `URL(x)` is kept; the model clears it. */
  lemma UppercaseUrlKept()
    ensures var div := Element("div", [Attr("style", UpperStyle)], []);
      Passes([div], AsWritten) == [div] &&
      Sanitize([div]) == [Element("div", [Attr("style", "")], [])]
  {
    var attrs := [Attr("style", UpperStyle)];
    var div := Element("div", attrs, []);
    UpperStyleAttrs(attrs);
    PassesNode(div, AsWritten);
    PassesNode(div, Corrected);
    PassesText([], AsWritten);
    PassesText([], Corrected);
  }

  // ---------------------------------------------------------------- the soup

  /** One pass over a forest, element by element as `find_all` visits them. */
  method TransformForest(ns: seq<Node>, drop: Select, fix: Fix) returns (r: seq<Node>)
    ensures r == Transform(ns, drop, fix)
    decreases ns
  {
    r := [];
    var i := 0;
    while i < |ns|
      invariant 0 <= i <= |ns|
      invariant r == Transform(ns[..i], drop, fix)
      decreases |ns| - i
    {
      var n := ns[i];
      TransformSnoc(ns, i, drop, fix);
      assert [n][1..] == [];
      match n {
        case Text(_) =>
          r := r + [n];
        case Element(t, a, c) =>
          if !drop(t, a) {
            var kids := TransformForest(c, drop, fix);
            r := r + [Element(t, fix(t, a), kids)];
          }
      }
      i := i + 1;
    }
    assert ns[..i] == ns;
  }

  /** The parsed document, which each pass mutates. */
  class Soup {
    var nodes: seq<Node>

    constructor(parsed: seq<Node>)
      ensures nodes == parsed
    {
      nodes := parsed;
    }

    /** `for tag in soup.find_all(risky_tags): tag.decompose()`. */
    method DecomposeRisky()
      modifies this
      ensures nodes == Transform(old(nodes), RiskyElement, KeepAttrs)
    {
      nodes := TransformForest(nodes, RiskyElement, KeepAttrs);
    }

    method DecomposeRemoteImages()
      modifies this
      ensures nodes == Transform(old(nodes), RemoteImage(IsRemoteAsWritten), KeepAttrs)
    {
      nodes := TransformForest(nodes, RemoteImage(IsRemoteAsWritten), KeepAttrs);
    }

    method ClearUrlStyles()
      modifies this
      ensures nodes == Transform(old(nodes), NoElement, StyleFix(LoadsUrlAsWritten))
    {
      nodes := TransformForest(nodes, NoElement, StyleFix(LoadsUrlAsWritten));
    }

    method NeutraliseLinks()
      modifies this
      ensures nodes == Transform(old(nodes), NoElement, LinkFix(IsRemoteAsWritten))
    {
      nodes := TransformForest(nodes, NoElement, LinkFix(IsRemoteAsWritten));
    }

    method StripHandlers()
      modifies this
      ensures nodes == Transform(old(nodes), NoElement, HandlerFix)
    {
      nodes := TransformForest(nodes, NoElement, HandlerFix);
    }
  }

  /** `sanitize_html` on an already parsed document. */
  method SanitizeHtml(parsed: seq<Node>) returns (r: seq<Node>)
    ensures r == Passes(parsed, AsWritten)
    ensures All(r, CleanFor(AsWritten))
  {
    var soup := new Soup(parsed);
    soup.DecomposeRisky();
    soup.DecomposeRemoteImages();
    soup.ClearUrlStyles();
    soup.NeutraliseLinks();
    soup.StripHandlers();
    r := soup.nodes;
    AsWrittenSound();
    PassesClean(parsed, AsWritten);
  }
}
