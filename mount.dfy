/** `mountReactNodeSync` of lib/react-mount-node.ts: find or create a
    container element, replace any root already mounted on it, create and
    render a new root, and record it in the module-wide table of mounted
    roots. The renderer and the document are modelled by the little state
    this code observes of them. */
module Mount {
  import Ids

  datatype Option<T> = None | Some(value: T)

  /** The rendered tree (`JSX.Element`); nothing here looks inside it. */
  type Content

  /** A DOM element: its `id` and `className` attributes and its place in the tree. */
  class Element {
    const tag: string
    var id: string
    var className: string
    var children: seq<Element>
    var parent: Element?

    /** `document.createElement(tag)`: a detached element without id, class or children. */
    constructor (tag: string)
      ensures this.tag == tag
      ensures id == "" && className == "" && children == [] && parent == null
    {
      this.tag := tag;
      id := "";
      className := "";
      children := [];
      parent := null;
    }
  }

  /** `s` without the element `e`, the other elements in their old order. */
  function Without(s: seq<Element>, e: Element): (r: seq<Element>)
    ensures forall x :: x in r ==> x in s && x != e
    ensures forall x :: x in s && x != e ==> x in r
    ensures |r| <= |s|
  {
    if s == [] then []
    else if s[0] == e then Without(s[1..], e)
    else [s[0]] + Without(s[1..], e)
  }

  /** Removing an element that was put in front of a list restores the list. */
  lemma {:induction false} WithoutPrepended(s: seq<Element>, e: Element)
    requires e !in s
    ensures Without([e] + s, e) == s
  {
    assert ([e] + s)[1..] == s;
    WithoutAbsent(s, e);
  }

  /** Removing an element that was appended to a list restores the list. */
  lemma {:induction false} WithoutAppended(s: seq<Element>, e: Element)
    requires e !in s
    ensures Without(s + [e], e) == s
  {
    if s == [] {
      assert [] + [e] == [e];
    } else {
      assert (s + [e])[1..] == s[1..] + [e];
      WithoutAppended(s[1..], e);
      assert s == [s[0]] + s[1..];
    }
  }

  /** The parent of `e`, as a frame: empty for a detached element. */
  function ParentSet(e: Element): set<Element>
    reads e
  {
    if e.parent == null then {} else {e.parent}
  }

  /** Removing an element from anywhere in a list keeps the elements
      before and after it, in their order. */
  lemma {:induction false} WithoutMiddle(a: seq<Element>, e: Element, b: seq<Element>)
    requires e !in a && e !in b
    ensures Without(a + [e] + b, e) == a + b
  {
    if a == [] {
      assert a + [e] + b == [e] + b && a + b == b;
      WithoutPrepended(b, e);
    } else {
      assert (a + [e] + b)[1..] == a[1..] + [e] + b;
      WithoutMiddle(a[1..], e, b);
      assert a + b == [a[0]] + (a[1..] + b);
    }
  }

  /** Removing an element that is not there changes nothing. */
  lemma {:induction false} WithoutAbsent(s: seq<Element>, e: Element)
    requires e !in s
    ensures Without(s, e) == s
  {
    if s != [] {
      WithoutAbsent(s[1..], e);
      assert s == [s[0]] + s[1..];
    }
  }

  /** The document: its `body` and what `getElementById` answers. */
  class Document {
    const body: Element
    var index: map<string, Element>

    constructor (body: Element)
      ensures this.body == body && index == map[]
    {
      this.body := body;
      index := map[];
    }

    /** `e.remove()`: detach `e` from its parent; `getElementById` then no
        longer finds it. An element without a parent is left alone. */
    method Remove(e: Element)
      modifies this`index, e`parent, ParentSet(e)`children
      ensures old(e.parent) == null ==> unchanged(this, e)
      ensures old(e.parent) != null ==>
        && e.parent == null
        && old(e.parent).children == Without(old(e.parent.children), e)
        && index == map id | id in old(index) && old(index)[id] != e :: old(index)[id]
    {
      var p := e.parent;
      if p != null {
        p.children := Without(p.children, e);
        e.parent := null;
        index := map id | id in index && index[id] != e :: index[id];
      }
    }
  }

  /** The calls made into the renderer, oldest first: each operation of
      `Root` appends its own entry. */
  class Log {
    ghost var events: seq<Event>

    constructor ()
      ensures events == []
    {
      events := [];
    }
  }

  /** A render root bound to one container (React's `Root`, extended with
      `removeRootElement`). `live` is cleared by `unmount`; `rendered` is the
      last content given to `render`. */
  class Root {
    const container: Element
    var live: bool
    var rendered: Option<Content>

    /** `createRoot(container)`. */
    constructor (container: Element, ghost log: Log)
      modifies log
      ensures this.container == container && live && rendered == None
      ensures log.events == old(log.events) + [Created(this)]
    {
      this.container := container;
      live := true;
      rendered := None;
      new;
      log.events := log.events + [Created(this)];
    }

    /** `root.render(content)`; React refuses to render into an unmounted root. */
    method Render(content: Content, ghost log: Log)
      requires live
      modifies this, log
      ensures live && rendered == Some(content)
      ensures log.events == old(log.events) + [Rendered(this, content)]
    {
      rendered := Some(content);
      log.events := log.events + [Rendered(this, content)];
    }

    /** `root.unmount()`. */
    method Unmount(ghost log: Log)
      modifies this, log
      ensures !live && rendered == None
      ensures log.events == old(log.events) + [Unmounted(this)]
    {
      live := false;
      rendered := None;
      log.events := log.events + [Unmounted(this)];
    }

    /** The `removeRootElement` closure: `containerNode?.remove()`. It takes
        the container out of the document and touches neither this root nor
        the table of mounted roots. */
    method RemoveRootElement(doc: Document)
      modifies doc`index, container`parent, ParentSet(container)`children
      ensures old(container.parent) == null ==> unchanged(doc, container)
      ensures old(container.parent) != null ==>
        && container.parent == null
        && old(container.parent).children == Without(old(container.parent.children), container)
        && doc.index == map id | id in old(doc.index) && old(doc.index)[id] != container :: old(doc.index)[id]
    {
      doc.Remove(container);
    }
  }

  /** The element `mountReactNodeSync` mounts into without creating one:
      `mountNode` if given, else the element `containerId` names, if any. */
  function Existing(mountNode: Element?, containerId: string, index: map<string, Element>): Element? {
    if mountNode != null then mountNode
    else if containerId != "" && containerId in index then index[containerId]
    else null
  }

  /** The id a created container gets: `containerId || uuid()`. */
  function NewId(containerId: string, random: seq<Ids.Nibble>): (id: string)
    requires Ids.Placeholders(Ids.DefaultPattern) <= |random|
    ensures containerId != "" ==> id == containerId
    ensures containerId == "" ==> Ids.Fits(id, Ids.DefaultPattern)
  {
    Ids.UuidFits(Ids.DefaultPattern, random);
    if containerId != "" then containerId else Ids.Uuid(Ids.DefaultPattern, random)
  }

  /** Lines 36-53 of `mountReactNodeSync`: use `mountNode`; else the element
      `containerId` names; else create a `div` with id `containerId || uuid()`
      and insert it first (`isPrepend`) or last into `parent`. An empty string
      stands for an absent `containerId`, as JavaScript treats both alike. */
  method ResolveContainer(doc: Document, mountNode: Element?, containerId: string, parent: Element,
                          isPrepend: bool, random: seq<Ids.Nibble>) returns (c: Element)
    requires Ids.Placeholders(Ids.DefaultPattern) <= |random|
    modifies doc, parent
    ensures Existing(mountNode, containerId, old(doc.index)) != null ==>
      && c == Existing(mountNode, containerId, old(doc.index))
      && unchanged(doc, parent)
    ensures Existing(mountNode, containerId, old(doc.index)) == null ==>
      && fresh(c)
      && c.tag == "div" && c.id == NewId(containerId, random) && c.className == ""
      && c.children == [] && c.parent == parent
      && parent.children == (if isPrepend then [c] + old(parent.children) else old(parent.children) + [c])
      && parent.id == old(parent.id) && parent.className == old(parent.className)
      && parent.parent == old(parent.parent)
      && doc.index == (if c.id in old(doc.index) then old(doc.index) else old(doc.index)[c.id := c])
  {
    var node := mountNode;
    if node == null {
      if containerId != "" {
        node := if containerId in doc.index then doc.index[containerId] else null;
      }
      if node == null {
        var div := new Element("div");
        div.id := NewId(containerId, random);
        if isPrepend {
          parent.children := [div] + parent.children;
        } else {
          parent.children := parent.children + [div];
        }
        div.parent := parent;
        if div.id !in doc.index {
          doc.index := doc.index[div.id := div];
        }
        node := div;
      }
    }
    c := node;
  }

  /** A call into the renderer. */
  datatype Event = Unmounted(root: Root) | Created(root: Root) | Rendered(root: Root, content: Content)

  /** The root of the last `Created` event for container `e`. */
  ghost function LastCreated(events: seq<Event>, e: Element): Option<Root>
  {
    if events == [] then None
    else
      var last := events[|events| - 1];
      if last.Created? && last.root.container == e then Some(last.root)
      else LastCreated(events[..|events| - 1], e)
  }

  /** The last root created for a container is bound to that container and
      is among the created ones. */
  lemma {:induction false} LastCreatedBound(events: seq<Event>, e: Element)
    ensures LastCreated(events, e).Some? ==>
      && LastCreated(events, e).value.container == e
      && Created(LastCreated(events, e).value) in events
  {
    if events != [] {
      var init := events[..|events| - 1];
      LastCreatedBound(init, e);
      assert events == init + [events[|events| - 1]];
    }
  }

  /** Events that create no root for `e` do not change its last created root. */
  lemma {:induction false} LastCreatedAppend(events: seq<Event>, tail: seq<Event>, e: Element)
    requires forall i :: 0 <= i < |tail| ==> !(tail[i].Created? && tail[i].root.container == e)
    ensures LastCreated(events + tail, e) == LastCreated(events, e)
  {
    if tail == [] {
      assert events + tail == events;
    } else {
      var init := tail[..|tail| - 1];
      assert (events + tail)[..|events + tail| - 1] == events + init;
      LastCreatedAppend(events, init, e);
    }
  }

  /** The table of mounted roots agrees with the log of renderer calls:
      each container maps to a root bound to it, which is the root created
      last for it; every container a root was created for is in the table;
      every created root is either the mounted one or retired. */
  ghost predicate Consistent(roots: map<Element, Root>, events: seq<Event>, retired: set<Root>)
  {
    && (forall e :: e in roots ==> roots[e].container == e)
    && (forall e :: e in roots ==> LastCreated(events, e) == Some(roots[e]))
    && (forall i :: 0 <= i < |events| && events[i].Created? ==> events[i].root.container in roots)
    && (forall r :: r in retired ==> !(r.container in roots && roots[r.container] == r))
    && (forall i :: 0 <= i < |events| && events[i].Created? ==>
          var r := events[i].root;
          r in retired || (r.container in roots && roots[r.container] == r))
  }

  /** Every retired root has been unmounted. */
  ghost predicate Dead(retired: set<Root>)
    reads retired
  {
    forall r :: r in retired ==> !r.live
  }

  /** Mounting `root` on its container keeps the table and the log consistent:
      the root mounted there before, if any, is retired, and the log grows by
      its unmounting, then the creation and rendering of `root`. */
  lemma MountConsistent(roots: map<Element, Root>, events: seq<Event>, retired: set<Root>,
                        root: Root, tail: seq<Event>)
    requires Consistent(roots, events, retired)
    requires root !in retired && (forall i :: 0 <= i < |events| ==> events[i].root != root)
    requires |tail| >= 2 && tail[|tail| - 2] == Created(root) && tail[|tail| - 1].Rendered?
    requires var c := root.container;
      tail[..|tail| - 2] == (if c in roots then [Unmounted(roots[c])] else [])
    ensures var c := root.container;
      Consistent(roots[c := root], events + tail,
                 if c in roots then retired + {roots[c]} else retired)
  {
    var c := root.container;
    var roots', events' := roots[c := root], events + tail;
    var retired' := if c in roots then retired + {roots[c]} else retired;
    if c in roots {
      LastCreatedBound(events, c);
      assert roots[c] != root;
    }
    assert events'[..|events'| - 1] == events + tail[..|tail| - 1];
    assert tail[..|tail| - 1][|tail| - 2] == Created(root);
    assert LastCreated(events', c) == Some(root);
    forall e | e in roots' && e != c
      ensures LastCreated(events', e) == Some(roots'[e])
    {
      LastCreatedAppend(events, tail, e);
    }
    forall i | 0 <= i < |events'| && events'[i].Created?
      ensures var r := events'[i].root;
        r in retired' || (r.container in roots' && roots'[r.container] == r)
    {
      if i >= |events| {
        assert events'[i] == tail[i - |events|];
      } else {
        assert events'[i] == events[i];
      }
    }
    assert forall e :: e in roots' ==> roots'[e].container == e;
    assert forall e :: e in roots' ==> LastCreated(events', e) == Some(roots'[e]);
    assert forall i :: 0 <= i < |events'| && events'[i].Created? ==> events'[i].root.container in roots';
    assert forall r :: r in retired' ==> !(r.container in roots' && roots'[r.container] == r);
  }

  /** At most one live root per container: of all the roots created, the
      only one still live for a container is the one the table holds. */
  lemma AtMostOneLive(roots: map<Element, Root>, events: seq<Event>, retired: set<Root>, r: Root)
    requires Consistent(roots, events, retired) && Dead(retired)
    requires Created(r) in events && r.live
    ensures r.container in roots && roots[r.container] == r
  {
    var i :| 0 <= i < |events| && events[i] == Created(r);
    assert r !in retired;
  }

  /** `mountNodesMap` with the calls it caused. */
  class MountRegistry {
    var roots: map<Element, Root>
    /** The renderer calls, written by the roots this registry creates. */
    const log: Log
    /** The roots this registry replaced and unmounted. */
    ghost var retired: set<Root>

    /** At most one root per container, bound to it and the one created
        last for it; every root created earlier has been unmounted by the
        registry. */
    ghost predicate Valid()
      reads this, log, retired
    {
      Consistent(roots, log.events, retired) && Dead(retired)
    }

    /** `new Map<HTMLElement, Root>()`. */
    constructor ()
      ensures Valid() && fresh(log) && roots == map[] && log.events == [] && retired == {}
    {
      roots := map[];
      log := new Log();
      retired := {};
    }

    /** The root `Mount(c, ...)` unmounts. */
    ghost function Replaced(c: Element?): set<object>
      reads this
    {
      if c != null && c in roots then {roots[c]} else {}
    }

    /** Lines 55-79 of `mountReactNodeSync` for the container `c`: unmount and
        drop the root mounted on `c`, set the class when `className` is not
        empty, create and render a new root and record it for `c`. */
    method Mount(c: Element, content: Content, className: string) returns (root: Root)
      requires Valid()
      modifies this, log, c, Replaced(c)
      ensures Valid()
      ensures fresh(root) && root.container == c && root.live && root.rendered == Some(content)
      ensures roots == old(roots)[c := root]
      ensures c in old(roots) ==>
        && !old(roots[c]).live
        && retired == old(retired) + {old(roots[c])}
        && log.events == old(log.events) + [Unmounted(old(roots[c])), Created(root), Rendered(root, content)]
      ensures c !in old(roots) ==>
        && retired == old(retired)
        && log.events == old(log.events) + [Created(root), Rendered(root, content)]
      ensures c.className == (if className != "" then className else old(c.className))
      ensures c.id == old(c.id) && c.children == old(c.children) && c.parent == old(c.parent)
    {
      if c in roots {
        var current := roots[c];
        current.Unmount(log);
        roots := roots - {c};
        retired := retired + {current};
      }
      assert Dead(retired);
      if className != "" {
        c.className := className;
      }
      root := new Root(c, log);
      root.Render(content, log);
      assert Dead(retired);
      assert (old(roots) - {c})[c := root] == old(roots)[c := root];
      roots := roots[c := root];
      ghost var tail := log.events[|old(log.events)|..];
      assert log.events == old(log.events) + tail;
      MountConsistent(old(roots), old(log.events), old(retired), root, tail);
    }

    /** `mountReactNodeSync(options)`: resolve the container, then mount on it. */
    method MountSync(doc: Document, options: MountOptions, random: seq<Ids.Nibble>) returns (root: Root)
      requires Valid()
      requires Ids.Placeholders(Ids.DefaultPattern) <= |random|
      modifies this, log, doc, ParentOf(options, doc)
      modifies Existing(options.mountNode, options.containerId, doc.index)
      modifies Replaced(Existing(options.mountNode, options.containerId, doc.index))
      ensures Valid()
      ensures fresh(root) && root.live && root.rendered == Some(options.content)
      ensures var found := Existing(options.mountNode, options.containerId, old(doc.index));
        found != null ==>
          && root.container == found
          && found.id == old(found.id) && found.children == old(found.children)
          && found.parent == old(found.parent)
          && doc.index == old(doc.index)
          && ParentOf(options, doc).children == old(ParentOf(options, doc).children)
      ensures var found := Existing(options.mountNode, options.containerId, old(doc.index));
        var parent := ParentOf(options, doc);
        found == null ==>
          && fresh(root.container) && root.container.tag == "div"
          && root.container.id == NewId(options.containerId, random)
          && root.container.className == options.containerClassName
          && root.container.children == []
          && root.container.parent == parent
          && parent.children == (if options.isPrepend then [root.container] + old(parent.children)
                                 else old(parent.children) + [root.container])
          && doc.index == (if root.container.id in old(doc.index) then old(doc.index)
                           else old(doc.index)[root.container.id := root.container])
      ensures roots == old(roots)[root.container := root]
      ensures root.container in old(roots) ==>
        && !old(roots)[root.container].live
        && log.events == old(log.events)
             + [Unmounted(old(roots)[root.container]), Created(root), Rendered(root, options.content)]
      ensures root.container !in old(roots) ==>
        log.events == old(log.events) + [Created(root), Rendered(root, options.content)]
      ensures options.containerClassName != "" ==> root.container.className == options.containerClassName
      ensures var c := root.container;
        options.containerClassName == "" && !fresh(c) ==> c.className == old(c.className)
      ensures var parent := ParentOf(options, doc);
        && parent.id == old(parent.id) && parent.parent == old(parent.parent)
        && (parent != root.container ==> parent.className == old(parent.className))
    {
      var parent := ParentOf(options, doc);
      var c := ResolveContainer(doc, options.mountNode, options.containerId, parent, options.isPrepend, random);
      root := Mount(c, options.content, options.containerClassName);
    }
  }

  /** `MountVDomeOptions`. Empty strings stand for absent `containerId` and
      `containerClassName`; `parentNode` is `None` when it is not given. */
  datatype MountOptions = MountOptions(
    mountNode: Element?,
    content: Content,
    containerId: string,
    containerClassName: string,
    parentNode: Option<Element>,
    isPrepend: bool)

  /** `parentNode = document.body`. */
  function ParentOf(options: MountOptions, doc: Document): Element {
    if options.parentNode.Some? then options.parentNode.value else doc.body
  }
}
