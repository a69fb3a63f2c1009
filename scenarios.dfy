/** Two uses of `mountReactNodeSync` the module is written for, proved from
    the contracts of `Mount` alone. */
module Scenarios {
  import Ids
  import opened Mount

  /** Mounting where no container exists yet and the new id is free: the
      created container is inserted into the parent and entered in the id
      index under that id, so that later calls find it. */
  method CreateContainer(registry: MountRegistry, doc: Document, options: MountOptions,
                         random: seq<Ids.Nibble>) returns (a: Root)
    requires registry.Valid()
    requires Ids.Placeholders(Ids.DefaultPattern) <= |random|
    requires Existing(options.mountNode, options.containerId, doc.index) == null
    requires NewId(options.containerId, random) !in doc.index
    modifies registry, registry.log, doc, ParentOf(options, doc)
    ensures registry.Valid()
    ensures fresh(a) && fresh(a.container) && a.live && a.rendered == Some(options.content)
    ensures var parent := ParentOf(options, doc);
      && a.container.parent == parent
      && parent.children == (if options.isPrepend then [a.container] + old(parent.children)
                             else old(parent.children) + [a.container])
    ensures a.container.id == NewId(options.containerId, random)
    ensures doc.index == old(doc.index)[a.container.id := a.container]
    ensures registry.roots == old(registry.roots)[a.container := a]
    ensures registry.log.events == old(registry.log.events) + [Created(a), Rendered(a, options.content)]
  {
    a := registry.MountSync(doc, options, random);
    assert a.container !in old(registry.roots);
  }

  /** Mapping a container twice keeps only the second root. */
  lemma Remapped(roots: map<Element, Root>, c: Element, a: Root, b: Root)
    ensures roots[c := a][c := b] == roots[c := b]
  {
  }

  /** Mounting twice with the same `containerId`, which names no element at
      first: the first call creates the container and the second finds it
      by id, unmounts the first root before creating the second, and leaves
      exactly one entry for the container. */
  method MountTwiceById(registry: MountRegistry, doc: Document, first: MountOptions,
                        second: Content, random: seq<Ids.Nibble>) returns (a: Root, b: Root)
    requires registry.Valid()
    requires Ids.Placeholders(Ids.DefaultPattern) <= |random|
    requires first.mountNode == null && first.containerId != "" && first.containerId !in doc.index
    modifies registry, registry.log, doc, ParentOf(first, doc)
    ensures registry.Valid()
    ensures a.container == b.container && a.container.id == first.containerId
    ensures fresh(a) && fresh(b) && fresh(a.container) && a != b
    ensures !a.live && b.live && b.rendered == Some(second)
    ensures registry.roots == old(registry.roots)[a.container := b]
    ensures registry.log.events == old(registry.log.events)
      + [Created(a), Rendered(a, first.content)] + [Unmounted(a), Created(b), Rendered(b, second)]
  {
    a := CreateContainer(registry, doc, first, random);
    var c := a.container;
    ghost var events1 := registry.log.events;
    ghost var roots1 := registry.roots;
    var options := first.(content := second);
    assert Existing(options.mountNode, options.containerId, doc.index) == c;
    assert ParentOf(options, doc) == ParentOf(first, doc);
    assert registry.Replaced(c) == {a};
    b := registry.MountSync(doc, options, random);
    assert b.container == c && c in roots1 && roots1[c] == a;
    Remapped(old(registry.roots), c, a, b);
  }

  /** A container that `mountReactNodeSync` created and inserted is taken
      out again by `removeRootElement`: the parent's children and the ids
      the document knows are as before, while the table still holds the
      root and the root is still live. */
  method MountThenRemove(registry: MountRegistry, doc: Document, options: MountOptions,
                         random: seq<Ids.Nibble>) returns (root: Root)
    requires registry.Valid()
    requires Ids.Placeholders(Ids.DefaultPattern) <= |random|
    requires Existing(options.mountNode, options.containerId, doc.index) == null
    requires NewId(options.containerId, random) !in doc.index
    modifies registry, registry.log, doc, ParentOf(options, doc)
    ensures registry.Valid()
    ensures ParentOf(options, doc).children == old(ParentOf(options, doc).children)
    ensures doc.index == old(doc.index)
    ensures root.live && root.rendered == Some(options.content)
    ensures registry.roots == old(registry.roots)[root.container := root]
    ensures root.container.parent == null
  {
    var parent := ParentOf(options, doc);
    ghost var children, index := parent.children, doc.index;
    root := CreateContainer(registry, doc, options, random);
    var c := root.container;
    assert c !in children;
    root.RemoveRootElement(doc);
    if options.isPrepend {
      WithoutPrepended(children, c);
    } else {
      WithoutAppended(children, c);
    }
    assert doc.index == index;
  }
}
